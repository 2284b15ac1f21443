/** `[...xs].sort((a, b) => key(b) - key(a))`: the stable sort of
    `Array.prototype.sort` with a comparator that orders by descending key.
    Modelled as insertion into an already sorted prefix. */
module Ranking {

  /** Keys never increase from left to right. */
  predicate NonIncreasing<T>(s: seq<T>, key: T -> real) {
    forall i, j :: 0 <= i < j < |s| ==> key(s[i]) >= key(s[j])
  }

  /** Place `x` just before the first element whose key is smaller, that
      is after every element whose key is at least as large. */
  function Insert<T>(s: seq<T>, x: T, key: T -> real): (r: seq<T>)
    ensures |r| == |s| + 1
    ensures r[0] == x || (s != [] && r[0] == s[0])
  {
    if s == [] then [x]
    else if key(s[0]) < key(x) then [x] + s
    else [s[0]] + Insert(s[1..], x, key)
  }

  /** The sort: each element in turn is inserted into the sorted prefix. */
  function SortDesc<T>(xs: seq<T>, key: T -> real): (r: seq<T>)
    ensures |r| == |xs|
    decreases |xs|
  {
    if xs == [] then []
    else Insert(SortDesc(xs[..|xs| - 1], key), xs[|xs| - 1], key)
  }

  /** The elements whose key is `k`, in their order of appearance. */
  function WithKey<T>(s: seq<T>, key: T -> real, k: real): seq<T>
    decreases |s|
  {
    if s == [] then []
    else (if key(s[0]) == k then [s[0]] else []) + WithKey(s[1..], key, k)
  }

  /* ---------------- insertion ---------------- */

  lemma {:induction false} InsertPermutes<T>(s: seq<T>, x: T, key: T -> real)
    ensures multiset(Insert(s, x, key)) == multiset(s) + multiset{x}
    decreases |s|
  {
    if s != [] && key(s[0]) >= key(x) {
      InsertPermutes(s[1..], x, key);
      assert s == [s[0]] + s[1..];
    }
  }

  lemma {:induction false} InsertSorted<T>(s: seq<T>, x: T, key: T -> real)
    requires NonIncreasing(s, key)
    ensures NonIncreasing(Insert(s, x, key), key)
    decreases |s|
  {
    if s != [] && key(s[0]) >= key(x) {
      InsertSorted(s[1..], x, key);
      var tail := Insert(s[1..], x, key);
      InsertPermutes(s[1..], x, key);
      forall j | 0 <= j < |tail| ensures key(s[0]) >= key(tail[j]) {
        assert tail[j] in multiset(s[1..]) + multiset{x};
      }
    }
  }

  lemma {:induction false} WithKeyAppend<T>(a: seq<T>, b: seq<T>, key: T -> real, k: real)
    ensures WithKey(a + b, key, k) == WithKey(a, key, k) + WithKey(b, key, k)
    decreases |a|
  {
    if a != [] {
      WithKeyAppend(a[1..], b, key, k);
      var head := if key(a[0]) == k then [a[0]] else [];
      assert (a + b)[0] == a[0];
      assert (a + b)[1..] == a[1..] + b;
      assert WithKey(a + b, key, k) == head + WithKey(a[1..] + b, key, k);
      assert WithKey(a, key, k) == head + WithKey(a[1..], key, k);
      assert head + (WithKey(a[1..], key, k) + WithKey(b, key, k))
          == (head + WithKey(a[1..], key, k)) + WithKey(b, key, k);
    } else {
      assert a + b == b;
    }
  }

  lemma {:induction false} WithKeyNone<T>(s: seq<T>, key: T -> real, k: real)
    requires forall j :: 0 <= j < |s| ==> key(s[j]) < k
    ensures WithKey(s, key, k) == []
    decreases |s|
  {
    if s != [] {
      WithKeyNone(s[1..], key, k);
    }
  }

  /** Inserting `x` into a sorted list puts it after every element with the
      same key. */
  lemma {:induction false} InsertWithKey<T>(s: seq<T>, x: T, key: T -> real, k: real)
    requires NonIncreasing(s, key)
    ensures WithKey(Insert(s, x, key), key, k)
            == WithKey(s, key, k) + (if key(x) == k then [x] else [])
    decreases |s|
  {
    if s == [] {
    } else if key(s[0]) < key(x) {
      InsertInFront(s, x, key, k);
    } else {
      InsertWithKey(s[1..], x, key, k);
      InsertBehind(s, x, key, k);
    }
  }

  /** `x` goes in front of a list whose keys are all smaller. */
  lemma InsertInFront<T>(s: seq<T>, x: T, key: T -> real, k: real)
    requires s != [] && NonIncreasing(s, key) && key(s[0]) < key(x)
    ensures WithKey(Insert(s, x, key), key, k)
            == WithKey(s, key, k) + (if key(x) == k then [x] else [])
  {
    assert Insert(s, x, key) == [x] + s;
    if key(x) == k {
      WithKeyNone(s, key, k);
    }
    WithKeyAppend([x], s, key, k);
  }

  /** `x` goes behind the head, which keeps its place. */
  lemma InsertBehind<T>(s: seq<T>, x: T, key: T -> real, k: real)
    requires s != [] && key(s[0]) >= key(x)
    requires WithKey(Insert(s[1..], x, key), key, k)
             == WithKey(s[1..], key, k) + (if key(x) == k then [x] else [])
    ensures WithKey(Insert(s, x, key), key, k)
            == WithKey(s, key, k) + (if key(x) == k then [x] else [])
  {
    var head := if key(s[0]) == k then [s[0]] else [];
    assert Insert(s, x, key) == [s[0]] + Insert(s[1..], x, key);
    assert WithKey(Insert(s, x, key), key, k) == head + WithKey(Insert(s[1..], x, key), key, k);
    assert WithKey(s, key, k) == head + WithKey(s[1..], key, k);
  }

  /* ---------------- the sort ---------------- */

  /** The sort returns a permutation of its input. */
  lemma {:induction false} SortPermutes<T>(xs: seq<T>, key: T -> real)
    ensures multiset(SortDesc(xs, key)) == multiset(xs)
    decreases |xs|
  {
    if xs != [] {
      var init := xs[..|xs| - 1];
      SortPermutes(init, key);
      InsertPermutes(SortDesc(init, key), xs[|xs| - 1], key);
      assert init + [xs[|xs| - 1]] == xs;
    }
  }

  /** The sort orders by non-increasing key. */
  lemma {:induction false} SortSorted<T>(xs: seq<T>, key: T -> real)
    ensures NonIncreasing(SortDesc(xs, key), key)
    decreases |xs|
  {
    if xs != [] {
      SortSorted(xs[..|xs| - 1], key);
      InsertSorted(SortDesc(xs[..|xs| - 1], key), xs[|xs| - 1], key);
    }
  }

  /** The sort is stable: elements with equal keys keep their input order. */
  lemma {:induction false} SortStable<T>(xs: seq<T>, key: T -> real, k: real)
    ensures WithKey(SortDesc(xs, key), key, k) == WithKey(xs, key, k)
    decreases |xs|
  {
    if xs != [] {
      var init := xs[..|xs| - 1];
      var last := xs[|xs| - 1];
      SortStable(init, key, k);
      SortSorted(init, key);
      InsertWithKey(SortDesc(init, key), last, key, k);
      WithKeyAppend(init, [last], key, k);
      assert init + [last] == xs;
    }
  }

  /** Any non-increasing permutation with the same order among equal keys is
      the sort's result: the three properties above pin it down. */
  lemma {:induction false} SortUnique<T>(xs: seq<T>, r: seq<T>, key: T -> real)
    requires NonIncreasing(r, key) && multiset(r) == multiset(xs)
    requires forall k :: WithKey(r, key, k) == WithKey(xs, key, k)
    ensures r == SortDesc(xs, key)
    decreases |xs|
  {
    var s := SortDesc(xs, key);
    SortSorted(xs, key);
    SortPermutes(xs, key);
    forall k ensures WithKey(s, key, k) == WithKey(r, key, k) {
      SortStable(xs, key, k);
    }
    SortedEqual(s, r, key);
  }

  /** Two non-increasing lists that agree on each key's subsequence are
      equal. */
  lemma {:induction false} SortedEqual<T>(a: seq<T>, b: seq<T>, key: T -> real)
    requires NonIncreasing(a, key) && NonIncreasing(b, key)
    requires forall k :: WithKey(a, key, k) == WithKey(b, key, k)
    ensures a == b
    decreases |a| + |b|
  {
    EmptyTogether(a, b, key);
    if a != [] {
      // The first elements carry the largest key of each list; the lists
      // contain the same keys, so they are equal and so are the heads.
      var ka := key(a[0]);
      var kb := key(b[0]);
      HeadKeyBound(a, b, key);
      HeadKeyBound(b, a, key);
      assert ka == kb;
      assert WithKey(a, key, ka)[0] == a[0];
      assert WithKey(b, key, kb)[0] == b[0];
      assert a[0] == b[0];
      forall k ensures WithKey(a[1..], key, k) == WithKey(b[1..], key, k) {
        HeadAndRest(a, key, k);
        HeadAndRest(b, key, k);
      }
      SortedTail(a, key);
      SortedTail(b, key);
      SortedEqual(a[1..], b[1..], key);
      assert a == [a[0]] + a[1..] && b == [b[0]] + b[1..];
    }
  }

  /** Lists with the same per-key subsequences are both empty or both not. */
  lemma EmptyTogether<T>(a: seq<T>, b: seq<T>, key: T -> real)
    requires forall k :: WithKey(a, key, k) == WithKey(b, key, k)
    ensures a == [] <==> b == []
  {
    if a != [] {
      assert WithKey(a, key, key(a[0])) != [];
    }
    if b != [] {
      assert WithKey(b, key, key(b[0])) != [];
    }
  }

  lemma HeadAndRest<T>(s: seq<T>, key: T -> real, k: real)
    requires s != []
    ensures WithKey(s[1..], key, k) == if key(s[0]) == k then WithKey(s, key, k)[1..] else WithKey(s, key, k)
  {
  }

  lemma SortedTail<T>(s: seq<T>, key: T -> real)
    requires s != [] && NonIncreasing(s, key)
    ensures NonIncreasing(s[1..], key)
  {
    forall i, j | 0 <= i < j < |s| - 1 ensures key(s[1..][i]) >= key(s[1..][j]) {
      assert s[1..][i] == s[i + 1] && s[1..][j] == s[j + 1];
    }
  }

  /** The head key of a non-empty sorted list bounds every key of any list
      with the same per-key subsequences. */
  lemma HeadKeyBound<T>(a: seq<T>, b: seq<T>, key: T -> real)
    requires a != [] && b != [] && NonIncreasing(a, key)
    requires forall k :: WithKey(a, key, k) == WithKey(b, key, k)
    ensures key(b[0]) <= key(a[0])
  {
    var kb := key(b[0]);
    assert WithKey(b, key, kb) != [];
    if key(b[0]) > key(a[0]) {
      WithKeyNone(a, key, kb);
      assert false;
    }
  }
}

/** The GPA repair script (scripts/fix-gpa.js): `normalizeGpaTo4`, which
    reads a fraction, a percentage or a bare number out of free text and
    converts it to the 0-4 scale, and the per-applicant selection of the
    largest normalised value. Numbers are exact rationals. */
module Gpa {
  import opened Wrappers
  import opened Text
  import opened Json

  /* ================= numbers ================= */

  /** The value of the digits after a decimal point: "25" is 0.25. */
  function FractionValue(digits: string): (v: real)
    requires AllDigits(digits)
    ensures 0.0 <= v <= 1.0
  {
    if digits == [] then 0.0
    else (DigitValue(digits[0]) as real + FractionValue(digits[1..])) / 10.0
  }

  /** `Number(x.toFixed(2))` for x >= 0: round half up to hundredths. */
  function Round2(x: real): (r: real)
    requires x >= 0.0
    ensures r >= 0.0
    ensures x - 0.005 <= r <= x + 0.005
  {
    ((x * 100.0 + 0.5).Floor as real) / 100.0
  }

  /** A value already in hundredths is left alone by rounding. */
  lemma Round2OfHundredths(n: nat)
    ensures Round2(n as real / 100.0) == n as real / 100.0
  {
    var x := n as real / 100.0;
    assert x * 100.0 == n as real;
    assert (n as real + 0.5).Floor == n;
  }

  lemma Round2Idempotent(x: real)
    requires x >= 0.0
    ensures Round2(Round2(x)) == Round2(x)
  {
    var n := (x * 100.0 + 0.5).Floor;
    assert n >= 0;
    Round2OfHundredths(n as nat);
  }

  /* ================= the matchers behind the regular expressions ================= */

  /** Length of the run of characters satisfying `IsDigit` from index i. */
  function DigitRun(s: string, i: nat): (k: nat)
    requires i <= |s|
    ensures i + k <= |s|
    ensures i + k == |s| || !IsDigit(s[i + k])
    decreases |s| - i
  {
    if i < |s| && IsDigit(s[i]) then 1 + DigitRun(s, i + 1) else 0
  }

  /** Every character of the run is a digit. */
  lemma {:induction false} DigitRunDigits(s: string, i: nat)
    requires i <= |s|
    ensures AllDigits(s[i..i + DigitRun(s, i)])
    decreases |s| - i
  {
    var k := DigitRun(s, i);
    if k > 0 {
      DigitRunDigits(s, i + 1);
      assert s[i..i + k] == [s[i]] + s[i + 1..i + k];
    }
  }

  /** Length of the run of `\s` characters from index i. */
  function SpaceRun(s: string, i: nat): (k: nat)
    requires i <= |s|
    ensures i + k <= |s|
    decreases |s| - i
  {
    if i < |s| && IsSpace(s[i]) then 1 + SpaceRun(s, i + 1) else 0
  }

  /** A match of `(\d+(\.\d+)?)` anchored at i: its value and end index.
      The greedy match is the only one that can be followed by anything
      but a digit or a '.', so it is the one every pattern here uses. */
  function NumberAt(s: string, i: nat): (m: Option<(real, nat)>)
    requires i <= |s|
    ensures m.Some? <==> i < |s| && IsDigit(s[i])
    ensures m.Some? ==> i < m.value.1 <= |s| && m.value.0 >= 0.0
  {
    if i < |s| && IsDigit(s[i]) then
      var k := DigitRun(s, i);
      DigitRunDigits(s, i);
      var whole := DigitsValue(s[i..i + k]) as real;
      var e := i + k;
      if e + 1 < |s| && s[e] == '.' && IsDigit(s[e + 1]) then
        var f := DigitRun(s, e + 1);
        DigitRunDigits(s, e + 1);
        Some((whole + FractionValue(s[e + 1..e + 1 + f]), e + 1 + f))
      else Some((whole, e))
    else None
  }

  /** `(?:\/|out of|of)` anchored at i: its end index. */
  function SeparatorAt(s: string, i: nat): (e: Option<nat>)
    requires i <= |s|
    ensures e.Some? ==> i < e.value <= |s|
    ensures e.Some? ==> s[i] == '/' || s[i] == 'o'
  {
    if SpelledAt(s, i, "/") then Some(i + 1)
    else if SpelledAt(s, i, "out of") then Some(i + 6)
    else if SpelledAt(s, i, "of") then Some(i + 2)
    else None
  }

  /** p occurs in s at index i. */
  predicate SpelledAt(s: string, i: nat, p: string) {
    i + |p| <= |s| && s[i..i + |p|] == p
  }

  /** `(\d+(\.\d+)?)\s*(?:\/|out of|of)\s*(\d+(\.\d+)?)` anchored at i:
      the value and the scale. */
  function FractionAt(s: string, i: nat): (r: Option<(real, real)>)
    requires i <= |s|
    ensures r.Some? ==> exists j :: i <= j < |s| && (s[j] == '/' || s[j] == 'o')
  {
    var first := NumberAt(s, i);
    if first.None? then None else FractionAfter(s, first.value.0, first.value.1)
  }

  /** The rest of the fraction pattern once the first number, of value
      `v`, has matched up to index e. */
  function FractionAfter(s: string, v: real, e: nat): (r: Option<(real, real)>)
    requires e <= |s|
    ensures r.Some? ==> exists j :: e <= j < |s| && (s[j] == '/' || s[j] == 'o')
  {
    var j := e + SpaceRun(s, e);
    var sep := SeparatorAt(s, j);
    if sep.None? then None
    else
      var second := NumberAt(s, sep.value + SpaceRun(s, sep.value));
      if second.None? then None
      else Some((v, second.value.0))
  }

  /** `(\d+(\.\d+)?)\s*%` anchored at i. */
  function PercentAt(s: string, i: nat): (r: Option<real>)
    requires i <= |s|
    ensures r.Some? ==> exists j :: i <= j < |s| && s[j] == '%'
  {
    var m := NumberAt(s, i);
    if m.None? then None
    else
      var j := m.value.1 + SpaceRun(s, m.value.1);
      if j < |s| && s[j] == '%' then Some(m.value.0) else None
  }

  /** `s.match(re)` for the fraction pattern: the leftmost start index wins. */
  function FindFraction(s: string, i: nat): (m: Option<(real, real)>)
    requires i <= |s|
    ensures m.Some? ==> exists j :: i <= j < |s| && IsDigit(s[j])
    ensures m.Some? ==> exists j :: i <= j < |s| && (s[j] == '/' || s[j] == 'o')
    ensures m.Some? ==> m.value.0 >= 0.0 && m.value.1 >= 0.0
    decreases |s| - i
  {
    if i == |s| then None
    else
      var m := FractionAt(s, i);
      if m.Some? then m else FindFraction(s, i + 1)
  }

  function FindPercent(s: string, i: nat): (m: Option<real>)
    requires i <= |s|
    ensures m.Some? ==> exists j :: i <= j < |s| && IsDigit(s[j])
    ensures m.Some? ==> exists j :: i <= j < |s| && s[j] == '%'
    ensures m.Some? ==> m.value >= 0.0
    decreases |s| - i
  {
    if i == |s| then None
    else
      var m := PercentAt(s, i);
      if m.Some? then m else FindPercent(s, i + 1)
  }

  function FindNumber(s: string, i: nat): (m: Option<real>)
    requires i <= |s|
    ensures m.Some? ==> exists j :: i <= j < |s| && IsDigit(s[j])
    ensures m.Some? ==> m.value >= 0.0
    decreases |s| - i
  {
    if i == |s| then None
    else
      var m := NumberAt(s, i);
      if m.Some? then Some(m.value.0) else FindNumber(s, i + 1)
  }

  /* ================= normalizeGpaTo4 ================= */

  /** The first index of c in s, or -1. */
  function IndexOf(s: string, c: char): (i: int)
    ensures -1 <= i < |s|
    ensures i >= 0 ==> s[i] == c && c !in s[..i]
    ensures i == -1 <==> c !in s
  {
    if s == [] then -1
    else if s[0] == c then 0
    else
      var i := IndexOf(s[1..], c);
      if i == -1 then -1
      else
        assert s[..i + 1] == [s[0]] + s[1..][..i];
        i + 1
  }

  /** `s.replace(",", ".")`: a string pattern replaces the first match
      only, so every later comma stays. */
  function FirstCommaToPoint(s: string): (r: string)
    ensures |r| == |s|
    ensures ',' !in s ==> r == s
    ensures ',' in s ==> r[IndexOf(s, ',')] == '.'
    ensures forall j :: 0 <= j < |s| && j != IndexOf(s, ',') ==> r[j] == s[j]
  {
    var i := IndexOf(s, ',');
    if i < 0 then s
    else seq(|s|, j requires 0 <= j < |s| => if j == i then '.' else s[j])
  }

  /** A value handed to the normaliser: a string, or a number. A number of
      magnitude in [1e-6, 1e21) renders in plain decimal, which the
      patterns read back as its magnitude; outside that range `String`
      uses an exponent, which is not modelled. */
  datatype GpaRaw = Text(s: string) | Number(x: real)

  function Abs(x: real): real {
    if x < 0.0 then -x else x
  }

  /** `(val / 100) * 4`: a value out of 100 on the 4-point scale. */
  function PercentOnFour(v: real): (r: real)
    requires v >= 0.0
    ensures r >= 0.0
  {
    v / 100.0 * 4.0
  }

  /** The bare-number rule: [0,4] kept, (4,10] and (10,100] scaled. */
  function BareToFour(v: real): (r: Option<real>)
    requires v >= 0.0
  {
    if v <= 4.0 then Some(Round2(v))
    else if v <= 10.0 then Some(Round2(v / 10.0 * 4.0))
    else if v <= 100.0 then Some(Round2(PercentOnFour(v)))
    else None
  }

  /** `(val / scale) * 4`. */
  function ScaleToFour(v: real, scale: real): (r: real)
    requires v >= 0.0 && scale > 0.0
    ensures r >= 0.0
    ensures r * scale == v * 4.0
  {
    var q := v / scale;
    assert q >= 0.0 by { assert q * scale == v; }
    q * 4.0
  }

  /** The text after `toLowerCase().trim().replace(",", ".")`. */
  function Prepare(s: string): string {
    FirstCommaToPoint(Trim(Lower(s)))
  }

  /** `normalizeGpaTo4` on prepared text: the fraction pattern first, then
      the percentage, then a bare number. */
  function TextToFour(s: string): (r: Option<real>)
    ensures r.Some? ==> r.value >= 0.0
  {
    var fraction := FindFraction(s, 0);
    if fraction.Some? then
      if fraction.value.1 > 0.0 then Some(Round2(ScaleToFour(fraction.value.0, fraction.value.1))) else None
    else
      var percent := FindPercent(s, 0);
      if percent.Some? then Some(Round2(PercentOnFour(percent.value)))
      else
        var bare := FindNumber(s, 0);
        if bare.Some? then BareToFour(bare.value) else None
  }

  /** `normalizeGpaTo4`; None for null/undefined and for every `return null`. */
  function NormalizeGpaTo4(raw: Option<GpaRaw>): (r: Option<real>)
    ensures raw.None? ==> r.None?
    ensures r.Some? ==> r.value >= 0.0
  {
    match raw
    case None => None
    case Some(Number(x)) => BareToFour(Abs(x))
    case Some(Text(t)) => TextToFour(Prepare(t))
  }

  /** Text with no decimal digit normalises to null. */
  lemma NoDigitNoGpa(t: string)
    requires forall i :: 0 <= i < |Prepare(t)| ==> !IsDigit(Prepare(t)[i])
    ensures NormalizeGpaTo4(Some(Text(t))).None?
  {
    var s := Prepare(t);
    NoDigitNoMatch(s);
    assert NormalizeGpaTo4(Some(Text(t))) == TextToFour(s);
  }

  /** None of the three patterns matches text without a digit. */
  lemma NoDigitNoMatch(s: string)
    requires forall i :: 0 <= i < |s| ==> !IsDigit(s[i])
    ensures TextToFour(s).None?
  {
    assert FindFraction(s, 0).None?;
    assert FindPercent(s, 0).None?;
    assert FindNumber(s, 0).None?;
  }

  /** The characters the preparation step keeps: only case, the first
      comma and the outer white space change. */
  lemma PrepareDigits(t: string)
    requires forall i :: 0 <= i < |t| ==> !IsDigit(t[i])
    ensures forall i :: 0 <= i < |Prepare(t)| ==> !IsDigit(Prepare(t)[i])
  {
    var l := Lower(t);
    assert forall i :: 0 <= i < |l| ==> !IsDigit(l[i]) by {
      forall i | 0 <= i < |l| ensures !IsDigit(l[i]) {
        if !('A' <= t[i] <= 'Z') { assert l[i] == t[i]; }
      }
    }
    var tr := Trim(l);
    assert forall i :: 0 <= i < |tr| ==> !IsDigit(tr[i]) by {
      forall i | 0 <= i < |tr| ensures !IsDigit(tr[i]) {
        assert tr[i] == l[LeadingSpaces(l) + i];
      }
    }
    var p := FirstCommaToPoint(tr);
    forall i | 0 <= i < |p| ensures !IsDigit(p[i]) {
      if i != IndexOf(tr, ',') { assert p[i] == tr[i]; }
    }
  }

  /** So a string without any digit, such as "n/a", gives null. */
  lemma DigitFreeIsNull(t: string)
    requires forall i :: 0 <= i < |t| ==> !IsDigit(t[i])
    ensures NormalizeGpaTo4(Some(Text(t))).None?
  {
    PrepareDigits(t);
    NoDigitNoGpa(t);
  }

  /* ================= reading digit strings back ================= */

  lemma {:induction false} DigitRunAt(t: string, i: nat, n: nat)
    requires i + n <= |t|
    requires forall j :: i <= j < i + n ==> IsDigit(t[j])
    requires i + n == |t| || !IsDigit(t[i + n])
    ensures DigitRun(t, i) == n
    decreases n
  {
    if n > 0 {
      DigitRunAt(t, i + 1, n - 1);
    }
  }

  /** A run of digits d at index i, not followed by '.', is read at its
      value. */
  lemma NumberAtRun(t: string, i: nat, d: string)
    requires d != [] && AllDigits(d) && i + |d| <= |t| && t[i..i + |d|] == d
    requires i + |d| == |t| || (!IsDigit(t[i + |d|]) && t[i + |d|] != '.')
    ensures NumberAt(t, i) == Some((DigitsValue(d) as real, i + |d|))
  {
    SliceDigits(t, i, |d|);
    DigitRunAt(t, i, |d|);
    NumberAtWhole(t, i, d);
  }

  lemma SliceDigits(t: string, i: nat, n: nat)
    requires i + n <= |t| && AllDigits(t[i..i + n])
    ensures forall j :: i <= j < i + n ==> IsDigit(t[j])
  {
    forall j | i <= j < i + n ensures IsDigit(t[j]) {
      assert t[j] == t[i..i + n][j - i];
    }
  }

  /** A digit run that no '.' follows is read as a whole number. */
  lemma NumberAtWhole(t: string, i: nat, d: string)
    requires i < |t| && IsDigit(t[i]) && DigitRun(t, i) == |d|
    requires t[i..i + |d|] == d && AllDigits(d)
    requires i + |d| == |t| || t[i + |d|] != '.'
    ensures NumberAt(t, i) == Some((DigitsValue(d) as real, i + |d|))
  {
  }

  /** A run of n digits, a '.', and a run of m digits is read as the
      whole part plus the fraction. */
  lemma NumberAtPoint(t: string, i: nat, n: nat, m: nat)
    requires 0 < n && 0 < m && i + n + 1 + m <= |t|
    requires forall j :: i <= j < i + n ==> IsDigit(t[j])
    requires t[i + n] == '.'
    requires forall j :: i + n + 1 <= j < i + n + 1 + m ==> IsDigit(t[j])
    requires i + n + 1 + m == |t| || !IsDigit(t[i + n + 1 + m])
    ensures NumberAt(t, i) == Some((DigitsValue(t[i..i + n]) as real +
              FractionValue(t[i + n + 1..i + n + 1 + m]), i + n + 1 + m))
  {
    DigitRunAt(t, i, n);
    DigitRunAt(t, i + n + 1, m);
  }

  /** Text that is already lower-case, trimmed and comma-free is left
      alone by the preparation. */
  lemma PreparedUnchanged(t: string)
    requires IsLower(t) && ',' !in t
    requires t == [] || (!IsSpace(t[0]) && !IsSpace(t[|t| - 1]))
    ensures Prepare(t) == t
  {
    LowerFixesLowercase(t);
    TrimOfTrimmed(t);
  }

  /** Text made of digits and the pattern punctuation, with a digit at
      either end, is such a text. */
  lemma PreparedDecimalText(t: string)
    requires t != [] && IsDigit(t[0]) && IsDigit(t[|t| - 1])
    requires forall i :: 0 <= i < |t| ==> IsDigit(t[i]) || t[i] == '/' || t[i] == '%' || t[i] == '.'
    ensures Prepare(t) == t
  {
    PreparedUnchanged(t);
  }

  /** The fraction pattern reads "d1/d2" back as the two values. */
  lemma FractionOfDigitsAt(d1: string, d2: string)
    requires d1 != [] && d2 != [] && AllDigits(d1) && AllDigits(d2)
    ensures FractionAt(d1 + "/" + d2, 0) == Some((DigitsValue(d1) as real, DigitsValue(d2) as real))
  {
    var t := d1 + "/" + d2;
    FractionFirst(d1, d2);
    FractionSecond(d1, d2);
    FractionSeparator(d1, d2);
    FractionAtParts(t, DigitsValue(d1) as real, |d1|, DigitsValue(d2) as real, |t|);
  }

  lemma FractionFirst(d1: string, d2: string)
    requires d1 != [] && d2 != [] && AllDigits(d1) && AllDigits(d2)
    ensures NumberAt(d1 + "/" + d2, 0) == Some((DigitsValue(d1) as real, |d1|))
  {
    var t := d1 + "/" + d2;
    assert t[0..|d1|] == d1;
    assert t[|d1|] == '/';
    NumberAtRun(t, 0, d1);
  }

  lemma FractionSecond(d1: string, d2: string)
    requires d1 != [] && d2 != [] && AllDigits(d1) && AllDigits(d2)
    ensures NumberAt(d1 + "/" + d2, |d1| + 1) == Some((DigitsValue(d2) as real, |d1 + "/" + d2|))
  {
    var t := d1 + "/" + d2;
    var i := |d1| + 1;
    assert t[i..i + |d2|] == d2 by {
      forall j | 0 <= j < |d2| ensures t[i..i + |d2|][j] == d2[j] {
        assert t[i + j] == d2[j];
      }
    }
    NumberAtRun(t, i, d2);
  }

  lemma FractionSeparator(d1: string, d2: string)
    requires d1 != [] && d2 != [] && AllDigits(d1) && AllDigits(d2)
    ensures var t := d1 + "/" + d2;
            SpaceRun(t, |d1|) == 0 && SeparatorAt(t, |d1|) == Some(|d1| + 1) && SpaceRun(t, |d1| + 1) == 0
  {
    var t := d1 + "/" + d2;
    assert t[|d1|] == '/';
    assert t[|d1| + 1] == d2[0];
    assert t[|d1|..|d1| + 1] == "/";
  }

  lemma FractionAtParts(t: string, v1: real, e1: nat, v2: real, e2: nat)
    requires e1 < |t|
    requires NumberAt(t, 0) == Some((v1, e1))
    requires SpaceRun(t, e1) == 0 && SeparatorAt(t, e1) == Some(e1 + 1)
    requires SpaceRun(t, e1 + 1) == 0 && NumberAt(t, e1 + 1) == Some((v2, e2))
    ensures FractionAt(t, 0) == Some((v1, v2))
  {
    FractionAfterParts(t, v1, e1, v2, e2);
  }

  lemma FractionAfterParts(t: string, v1: real, e1: nat, v2: real, e2: nat)
    requires e1 < |t|
    requires SpaceRun(t, e1) == 0 && SeparatorAt(t, e1) == Some(e1 + 1)
    requires SpaceRun(t, e1 + 1) == 0 && NumberAt(t, e1 + 1) == Some((v2, e2))
    ensures FractionAfter(t, v1, e1) == Some((v1, v2))
  {
  }

  /** "d1/d2" normalises to d1/d2 on the 4-point scale, and to null when
      the scale is zero. */
  lemma FractionOfDigits(d1: string, d2: string)
    requires d1 != [] && d2 != [] && AllDigits(d1) && AllDigits(d2)
    ensures NormalizeGpaTo4(Some(Text(d1 + "/" + d2))) ==
              if DigitsValue(d2) > 0 then Some(Round2(ScaleToFour(DigitsValue(d1) as real, DigitsValue(d2) as real)))
              else None
  {
    var t := d1 + "/" + d2;
    FractionTextPrepared(d1, d2);
    FractionOfDigitsAt(d1, d2);
    assert FindFraction(t, 0) == FractionAt(t, 0);
    FractionToFour(t, DigitsValue(d1) as real, DigitsValue(d2) as real);
  }

  lemma FractionTextPrepared(d1: string, d2: string)
    requires d1 != [] && d2 != [] && AllDigits(d1) && AllDigits(d2)
    ensures Prepare(d1 + "/" + d2) == d1 + "/" + d2
  {
    var t := d1 + "/" + d2;
    assert forall i :: 0 <= i < |t| ==> IsDigit(t[i]) || t[i] == '/' by {
      assert forall j :: 0 <= j < |d1| ==> t[j] == d1[j];
      assert forall j :: |d1| + 1 <= j < |t| ==> t[j] == d2[j - |d1| - 1];
    }
    assert t[|t| - 1] == d2[|d2| - 1];
    PreparedDecimalText(t);
  }

  /** What the normaliser does once the fraction pattern has matched. */
  lemma FractionToFour(t: string, v: real, scale: real)
    requires Prepare(t) == t && FindFraction(t, 0) == Some((v, scale))
    ensures v >= 0.0
    ensures NormalizeGpaTo4(Some(Text(t))) == if scale > 0.0 then Some(Round2(ScaleToFour(v, scale))) else None
  {
    assert NormalizeGpaTo4(Some(Text(t))) == TextToFour(t);
  }

  /** The same for numbers written out in decimal. */
  lemma FractionOfDecimals(a: nat, b: nat)
    ensures NormalizeGpaTo4(Some(Text(Decimal(a) + "/" + Decimal(b)))) ==
              if b > 0 then Some(Round2(ScaleToFour(a as real, b as real))) else None
  {
    var d1, d2 := Decimal(a), Decimal(b);
    assert DigitsValue(d1) == a && DigitsValue(d2) == b;
    FractionOfDigits(d1, d2);
  }

  /** "d%" normalises to d/100 on the 4-point scale. */
  lemma PercentOfDigits(d: string)
    requires d != [] && AllDigits(d)
    ensures NormalizeGpaTo4(Some(Text(d + "%"))) == Some(Round2(PercentOnFour(DigitsValue(d) as real)))
  {
    PercentTextPrepared(d);
    PercentFound(d);
    PercentOfDigitsFound(d, DigitsValue(d) as real);
    NormalizeText(d + "%");
  }

  /** Prepared text goes straight to the pattern search. */
  lemma NormalizeText(t: string)
    requires Prepare(t) == t
    ensures NormalizeGpaTo4(Some(Text(t))) == TextToFour(t)
  {
  }

  lemma PercentOfDigitsFound(d: string, v: real)
    requires d != [] && AllDigits(d) && FindPercent(d + "%", 0) == Some(v)
    ensures TextToFour(d + "%") == Some(Round2(PercentOnFour(v)))
  {
    PercentChars(d);
    PercentWithoutSeparator(d + "%", v);
  }

  /** Without a '/' or an 'o' only the percentage pattern can match. */
  lemma PercentWithoutSeparator(t: string, v: real)
    requires forall j :: 0 <= j < |t| ==> t[j] != '/' && t[j] != 'o'
    requires FindPercent(t, 0) == Some(v)
    ensures TextToFour(t) == Some(Round2(PercentOnFour(v)))
  {
    NoSeparatorNoFraction(t);
    PercentToFour(t, v);
  }

  lemma PercentFound(d: string)
    requires d != [] && AllDigits(d)
    ensures FindPercent(d + "%", 0) == Some(DigitsValue(d) as real)
  {
    PercentFirst(d);
    PercentAtStart(d + "%");
  }

  /** A match at the first index is the one `match` returns. */
  lemma PercentAtStart(t: string)
    requires PercentAt(t, 0).Some?
    ensures FindPercent(t, 0) == PercentAt(t, 0)
  {
  }

  /** What the normaliser does once only the percentage pattern matches. */
  lemma PercentToFour(t: string, v: real)
    requires FindFraction(t, 0).None? && FindPercent(t, 0) == Some(v)
    ensures TextToFour(t) == Some(Round2(PercentOnFour(v)))
  {
  }

  /** The fraction pattern needs a '/' or an 'o' to match. */
  lemma NoSeparatorNoFraction(s: string)
    requires forall j :: 0 <= j < |s| ==> s[j] != '/' && s[j] != 'o'
    ensures FindFraction(s, 0).None?
  {
  }

  lemma PercentChars(d: string)
    requires d != [] && AllDigits(d)
    ensures forall j :: 0 <= j < |d + "%"| ==> (d + "%")[j] != '/' && (d + "%")[j] != 'o'
  {
    var t := d + "%";
    forall j | 0 <= j < |t| ensures t[j] != '/' && t[j] != 'o' {
      if j < |d| { assert t[j] == d[j] && IsDigit(d[j]); }
    }
  }

  lemma PercentTextPrepared(d: string)
    requires d != [] && AllDigits(d)
    ensures Prepare(d + "%") == d + "%"
  {
    var t := d + "%";
    forall j | 0 <= j < |t| ensures IsDigit(t[j]) || t[j] == '%' {
      if j < |d| { assert t[j] == d[j]; }
    }
    PreparedUnchanged(t);
  }

  lemma PercentFirst(d: string)
    requires d != [] && AllDigits(d)
    ensures PercentAt(d + "%", 0) == Some(DigitsValue(d) as real)
  {
    var t := d + "%";
    assert NumberAt(t, 0) == Some((DigitsValue(d) as real, |d|)) by {
      assert t[0..|d|] == d;
      NumberAtRun(t, 0, d);
    }
    assert SpaceRun(t, |d|) == 0 by { assert t[|d|] == '%'; }
  }

  /* ================= fractions and percentages with decimals and white space ================= */

  /** A number as `\d+(\.\d+)?` writes it: a run of digits and, optionally,
      a point followed by a second run. */
  datatype Numeral = Numeral(whole: string, fraction: Option<string>)

  predicate WellFormedNumeral(n: Numeral) {
    && n.whole != [] && AllDigits(n.whole)
    && (n.fraction.Some? ==> n.fraction.value != [] && AllDigits(n.fraction.value))
  }

  function Spell(n: Numeral): string {
    match n.fraction
    case None => n.whole
    case Some(f) => n.whole + "." + f
  }

  /** What `parseFloat` makes of the spelling. */
  function ValueOf(n: Numeral): (v: real)
    requires WellFormedNumeral(n)
    ensures v >= DigitsValue(n.whole) as real
  {
    DigitsValue(n.whole) as real + (if n.fraction.Some? then FractionValue(n.fraction.value) else 0.0)
  }

  predicate AllSpace(w: string) {
    forall i :: 0 <= i < |w| ==> IsSpace(w[i])
  }

  /** The separators of the fraction pattern, in the order it tries them. */
  predicate IsSeparator(sep: string) {
    sep == "/" || sep == "out of" || sep == "of"
  }

  /** White space is none of the characters the patterns look for. */
  lemma SpaceIsNoPatternChar(c: char)
    requires IsSpace(c)
    ensures !IsDigit(c) && c != '.' && c != '/' && c != 'o' && c != '%' && c != ',' && !('A' <= c <= 'Z')
  {
  }

  lemma {:induction false} SpaceRunAt(t: string, i: nat, n: nat)
    requires i + n <= |t|
    requires forall j :: i <= j < i + n ==> IsSpace(t[j])
    requires i + n == |t| || !IsSpace(t[i + n])
    ensures SpaceRun(t, i) == n
    decreases n
  {
    if n > 0 {
      SpaceRunAt(t, i + 1, n - 1);
    }
  }

  /** A numeral spelled at index i, and followed by neither a digit nor a
      '.', is read back at its value. */
  lemma NumeralAt(t: string, i: nat, n: Numeral)
    requires WellFormedNumeral(n) && i + |Spell(n)| <= |t| && t[i..i + |Spell(n)|] == Spell(n)
    requires i + |Spell(n)| == |t| || (!IsDigit(t[i + |Spell(n)|]) && t[i + |Spell(n)|] != '.')
    ensures NumberAt(t, i) == Some((ValueOf(n), i + |Spell(n)|))
  {
    match n.fraction
    case None =>
      NumberAtRun(t, i, n.whole);
    case Some(f) =>
      NumeralWithPointAt(t, i, n.whole, f);
  }

  lemma NumeralWithPointAt(t: string, i: nat, whole: string, f: string)
    requires whole != [] && AllDigits(whole) && f != [] && AllDigits(f)
    requires i + |whole + "." + f| <= |t| && t[i..i + |whole + "." + f|] == whole + "." + f
    requires i + |whole + "." + f| == |t| || !IsDigit(t[i + |whole + "." + f|])
    ensures NumberAt(t, i) == Some((DigitsValue(whole) as real + FractionValue(f), i + |whole + "." + f|))
  {
    SpelledPieces(t, i, whole, f);
    PointSpelled(t, i, whole, f);
  }

  lemma PointSpelled(t: string, i: nat, whole: string, f: string)
    requires whole != [] && AllDigits(whole) && f != [] && AllDigits(f)
    requires i + |whole| + 1 + |f| <= |t| && t[i..i + |whole|] == whole && t[i + |whole|] == '.'
    requires t[i + |whole| + 1..i + |whole| + 1 + |f|] == f
    requires i + |whole| + 1 + |f| == |t| || !IsDigit(t[i + |whole| + 1 + |f|])
    ensures NumberAt(t, i) == Some((DigitsValue(whole) as real + FractionValue(f), i + |whole| + 1 + |f|))
  {
    SliceDigits(t, i, |whole|);
    SliceDigits(t, i + |whole| + 1, |f|);
    DigitRunAt(t, i, |whole|);
    DigitRunAt(t, i + |whole| + 1, |f|);
    NumberAtWholeAndPoint(t, i, whole, f);
  }

  /** Two digit runs joined by a '.' are read as the whole part plus the
      fraction. */
  lemma NumberAtWholeAndPoint(t: string, i: nat, whole: string, f: string)
    requires whole != [] && AllDigits(whole) && f != [] && AllDigits(f)
    requires i + |whole| + 1 + |f| <= |t| && IsDigit(t[i]) && DigitRun(t, i) == |whole|
    requires t[i..i + |whole|] == whole && t[i + |whole|] == '.' && IsDigit(t[i + |whole| + 1])
    requires DigitRun(t, i + |whole| + 1) == |f| && t[i + |whole| + 1..i + |whole| + 1 + |f|] == f
    ensures NumberAt(t, i) == Some((DigitsValue(whole) as real + FractionValue(f), i + |whole| + 1 + |f|))
  {
  }

  /** The three pieces of a spelled "whole.f" inside t. */
  lemma SpelledPieces(t: string, i: nat, whole: string, f: string)
    requires i + |whole + "." + f| <= |t| && t[i..i + |whole + "." + f|] == whole + "." + f
    ensures t[i..i + |whole|] == whole && t[i + |whole|] == '.'
    ensures t[i + |whole| + 1..i + |whole| + 1 + |f|] == f
  {
    var s := whole + "." + f;
    var w := |whole|;
    forall j | 0 <= j < w ensures t[i..i + w][j] == whole[j] {
      assert t[i + j] == s[j];
    }
    assert t[i + w] == s[w];
    forall j | 0 <= j < |f| ensures t[i + w + 1..i + w + 1 + |f|][j] == f[j] {
      assert t[i + w + 1 + j] == s[w + 1 + j];
    }
  }

  /** The separator written at index b is the one the pattern takes. */
  lemma SeparatorSpelled(t: string, b: nat, sep: string)
    requires IsSeparator(sep) && b + |sep| <= |t| && t[b..b + |sep|] == sep
    ensures SeparatorAt(t, b) == Some(b + |sep|)
  {
    assert t[b] == sep[0];
    if sep != "/" {
      assert !SpelledAt(t, b, "/") by { assert t[b..b + 1][0] == t[b]; }
    }
    if sep == "of" {
      assert t[b + 1] == 'f';
      assert !SpelledAt(t, b, "out of") by {
        if b + 6 <= |t| { assert t[b..b + 6][1] == t[b + 1]; }
      }
    }
  }

  /** The fraction pattern, step by step: a number ending at a, white
      space to b, a separator to c, white space to d, a number. */
  lemma FractionSteps(t: string, v1: real, a: nat, b: nat, c: nat, d: nat, v2: real, e: nat)
    requires a <= b <= |t| && c <= d <= |t|
    requires NumberAt(t, 0) == Some((v1, a)) && a + SpaceRun(t, a) == b
    requires SeparatorAt(t, b) == Some(c) && c + SpaceRun(t, c) == d
    requires NumberAt(t, d) == Some((v2, e))
    ensures FractionAt(t, 0) == Some((v1, v2))
  {
    FractionAfterSteps(t, v1, a, b, c, d, v2, e);
  }

  lemma FractionAfterSteps(t: string, v1: real, a: nat, b: nat, c: nat, d: nat, v2: real, e: nat)
    requires a <= |t| && b <= |t| && c <= |t| && d <= |t|
    requires a + SpaceRun(t, a) == b && SeparatorAt(t, b) == Some(c)
    requires c + SpaceRun(t, c) == d && NumberAt(t, d) == Some((v2, e))
    ensures FractionAfter(t, v1, a) == Some((v1, v2))
  {
  }


  /** White space from a up to a separator at b: what follows the first
      numeral is neither a digit nor a point, and the run stops at b. */
  lemma SpacesBeforeSeparator(t: string, a: nat, b: nat, sep: string)
    requires sep != [] && (sep[0] == '/' || sep[0] == 'o') && a <= b && b + |sep| <= |t| && t[b..b + |sep|] == sep
    requires forall j :: a <= j < b ==> IsSpace(t[j])
    ensures a < |t| && !IsDigit(t[a]) && t[a] != '.'
    ensures a + SpaceRun(t, a) == b
  {
    assert t[b] == sep[0];
    if a < b {
      SpaceIsNoPatternChar(t[a]);
    }
    SpaceRunAt(t, a, b - a);
  }

  /** White space from c up to the second numeral at d. */
  lemma SpacesBeforeNumeral(t: string, c: nat, d: nat, n: Numeral)
    requires WellFormedNumeral(n) && c <= d && d + |Spell(n)| == |t| && t[d..] == Spell(n)
    requires forall j :: c <= j < d ==> IsSpace(t[j])
    ensures c + SpaceRun(t, c) == d
  {
    assert t[d] == Spell(n)[0] == n.whole[0];
    SpaceRunAt(t, c, d - c);
  }

  lemma FirstNumeral(t: string, n: Numeral)
    requires WellFormedNumeral(n) && |Spell(n)| < |t| && t[..|Spell(n)|] == Spell(n)
    requires !IsDigit(t[|Spell(n)|]) && t[|Spell(n)|] != '.'
    ensures NumberAt(t, 0) == Some((ValueOf(n), |Spell(n)|))
  {
    assert t[0..|Spell(n)|] == Spell(n);
    NumeralAt(t, 0, n);
  }

  lemma LastNumeral(t: string, d: nat, n: Numeral)
    requires WellFormedNumeral(n) && d + |Spell(n)| == |t| && t[d..] == Spell(n)
    ensures NumberAt(t, d) == Some((ValueOf(n), |t|))
  {
    assert t[d..d + |Spell(n)|] == Spell(n);
    NumeralAt(t, d, n);
  }

  /** The fraction pattern over a text laid out as a numeral, white space
      up to index b, a separator up to c, white space up to d, and a
      numeral to the end. */
  lemma FractionAtLayout(t: string, n1: Numeral, b: nat, sep: string, c: nat, d: nat, n2: Numeral)
    requires WellFormedNumeral(n1) && WellFormedNumeral(n2) && IsSeparator(sep)
    requires |Spell(n1)| <= b && b + |sep| == c && c <= d && d + |Spell(n2)| == |t|
    requires t[..|Spell(n1)|] == Spell(n1) && t[b..c] == sep && t[d..] == Spell(n2)
    requires forall j :: |Spell(n1)| <= j < b ==> IsSpace(t[j])
    requires forall j :: c <= j < d ==> IsSpace(t[j])
    ensures FractionAt(t, 0) == Some((ValueOf(n1), ValueOf(n2)))
  {
    SpacesBeforeSeparator(t, |Spell(n1)|, b, sep);
    SeparatorSpelled(t, b, sep);
    SpacesBeforeNumeral(t, c, d, n2);
    FirstNumeral(t, n1);
    LastNumeral(t, d, n2);
    FractionSteps(t, ValueOf(n1), |Spell(n1)|, b, c, d, ValueOf(n2), |t|);
  }

  /** Where each piece of `p1 + p2 + p3 + p4 + p5` sits. */
  lemma FiveParts(p1: string, p2: string, p3: string, p4: string, p5: string)
    ensures var t := p1 + p2 + p3 + p4 + p5;
            var b := |p1| + |p2|;
            var c := b + |p3|;
            var d := c + |p4|;
            && t[..|p1|] == p1 && t[b..c] == p3 && t[d..] == p5
            && (forall j :: |p1| <= j < b ==> t[j] == p2[j - |p1|])
            && (forall j :: c <= j < d ==> t[j] == p4[j - c])
  {
  }

  lemma NumeralChars(n: Numeral)
    requires WellFormedNumeral(n)
    ensures forall j :: 0 <= j < |Spell(n)| ==> IsDigit(Spell(n)[j]) || Spell(n)[j] == '.'
    ensures IsDigit(Spell(n)[0]) && IsDigit(Spell(n)[|Spell(n)| - 1])
  {
    var s := Spell(n);
    if n.fraction.Some? {
      var f := n.fraction.value;
      assert forall j :: 0 <= j < |n.whole| ==> s[j] == n.whole[j];
      assert forall j :: |n.whole| < j < |s| ==> s[j] == f[j - |n.whole| - 1];
    }
  }

  /** The fraction text is found at its first index. */
  lemma FractionLayoutFound(n1: Numeral, w1: string, sep: string, w2: string, n2: Numeral)
    requires WellFormedNumeral(n1) && WellFormedNumeral(n2) && IsSeparator(sep)
    requires AllSpace(w1) && AllSpace(w2)
    ensures FindFraction(Spell(n1) + w1 + sep + w2 + Spell(n2), 0) == Some((ValueOf(n1), ValueOf(n2)))
  {
    var t := Spell(n1) + w1 + sep + w2 + Spell(n2);
    var b := |Spell(n1)| + |w1|;
    var c := b + |sep|;
    FiveParts(Spell(n1), w1, sep, w2, Spell(n2));
    FractionAtLayout(t, n1, b, sep, c, c + |w2|, n2);
  }

  /** Digits, points, white space and separator letters: no upper case and
      no comma, so with a digit at either end the preparation keeps it. */
  lemma FractionLayoutPrepared(n1: Numeral, w1: string, sep: string, w2: string, n2: Numeral)
    requires WellFormedNumeral(n1) && WellFormedNumeral(n2) && IsSeparator(sep)
    requires AllSpace(w1) && AllSpace(w2)
    ensures Prepare(Spell(n1) + w1 + sep + w2 + Spell(n2)) == Spell(n1) + w1 + sep + w2 + Spell(n2)
  {
    var s1, s2 := Spell(n1), Spell(n2);
    var t := s1 + w1 + sep + w2 + s2;
    NumeralChars(n1);
    NumeralChars(n2);
    forall j | 0 <= j < |t| ensures !('A' <= t[j] <= 'Z') && t[j] != ',' {
      var b := |s1| + |w1|;
      if j < |s1| {
        assert t[j] == s1[j];
      } else if j < b {
        assert t[j] == w1[j - |s1|];
        SpaceIsNoPatternChar(t[j]);
      } else if j < b + |sep| {
        assert t[j] == sep[j - b];
      } else if j < b + |sep| + |w2| {
        assert t[j] == w2[j - b - |sep|];
        SpaceIsNoPatternChar(t[j]);
      } else {
        assert t[j] == s2[j - b - |sep| - |w2|];
      }
    }
    assert t[0] == s1[0];
    assert t[|t| - 1] == s2[|s2| - 1];
    PreparedUnchanged(t);
  }

  /** "v / s", "v out of s" and "v of s", with any white space around the
      separator and decimal operands, normalise to v/s on the 4-point
      scale, and to null when the scale is zero. */
  lemma FractionOfNumerals(n1: Numeral, w1: string, sep: string, w2: string, n2: Numeral)
    requires WellFormedNumeral(n1) && WellFormedNumeral(n2) && IsSeparator(sep)
    requires AllSpace(w1) && AllSpace(w2)
    ensures NormalizeGpaTo4(Some(Text(Spell(n1) + w1 + sep + w2 + Spell(n2)))) ==
              if ValueOf(n2) > 0.0 then Some(Round2(ScaleToFour(ValueOf(n1), ValueOf(n2)))) else None
  {
    FractionLayoutPrepared(n1, w1, sep, w2, n2);
    FractionLayoutFound(n1, w1, sep, w2, n2);
    FractionToFour(Spell(n1) + w1 + sep + w2 + Spell(n2), ValueOf(n1), ValueOf(n2));
  }

  /** The percentage text "v%" with white space w before the sign. */
  lemma PercentLayoutFound(n: Numeral, w: string)
    requires WellFormedNumeral(n) && AllSpace(w)
    ensures FindPercent(Spell(n) + w + "%", 0) == Some(ValueOf(n))
  {
    var t := Spell(n) + w + "%";
    var a, d := |Spell(n)|, |Spell(n)| + |w|;
    assert forall j :: a <= j < d ==> t[j] == w[j - a];
    assert t[d] == '%';
    if a < d {
      SpaceIsNoPatternChar(t[a]);
    }
    assert t[0..a] == Spell(n);
    NumeralAt(t, 0, n);
    SpaceRunAt(t, a, |w|);
    PercentAtStart(t);
  }

  lemma PercentLayoutChars(n: Numeral, w: string)
    requires WellFormedNumeral(n) && AllSpace(w)
    ensures var t := Spell(n) + w + "%";
            forall j :: 0 <= j < |t| ==> t[j] != '/' && t[j] != 'o' && !('A' <= t[j] <= 'Z') && t[j] != ','
  {
    var t := Spell(n) + w + "%";
    NumeralChars(n);
    forall j | 0 <= j < |t| ensures t[j] != '/' && t[j] != 'o' && !('A' <= t[j] <= 'Z') && t[j] != ',' {
      if j < |Spell(n)| {
        assert t[j] == Spell(n)[j];
      } else if j < |Spell(n)| + |w| {
        assert t[j] == w[j - |Spell(n)|];
        SpaceIsNoPatternChar(t[j]);
      }
    }
  }

  /** "v %" with a decimal v and any white space before the sign
      normalises to v/100 on the 4-point scale. */
  lemma PercentOfNumeral(n: Numeral, w: string)
    requires WellFormedNumeral(n) && AllSpace(w)
    ensures NormalizeGpaTo4(Some(Text(Spell(n) + w + "%"))) == Some(Round2(PercentOnFour(ValueOf(n))))
  {
    var t := Spell(n) + w + "%";
    PercentLayoutChars(n, w);
    NumeralChars(n);
    assert t[0] == Spell(n)[0];
    PreparedUnchanged(t);
    PercentLayoutFound(n, w);
    PercentWithoutSeparator(t, ValueOf(n));
  }

  /** A bare run of digits is read at its value and put through the range
      rule. */
  lemma BareDigits(d: string)
    requires d != [] && AllDigits(d)
    ensures NormalizeGpaTo4(Some(Text(d))) == BareToFour(DigitsValue(d) as real)
  {
    PreparedDecimalText(d);
    NoSeparatorNoFraction(d);
    NoSignNoPercent(d);
    BareFirst(d);
    BareToFourStep(d, DigitsValue(d) as real);
  }

  /** A decimal such as "3.75" or "8.5", with any white space around it, is
      read at its value and put through the range rule. */
  lemma BareNumeral(w1: string, n: Numeral, w2: string)
    requires WellFormedNumeral(n) && AllSpace(w1) && AllSpace(w2)
    ensures NormalizeGpaTo4(Some(Text(w1 + Spell(n) + w2))) == BareToFour(ValueOf(n))
  {
    var s := Spell(n);
    SpacedNumeralPrepared(w1, n, w2);
    NumeralNoPatternChar(n);
    NoSeparatorNoFraction(s);
    NoSignNoPercent(s);
    assert s[0..|s|] == s;
    NumeralAt(s, 0, n);
    BareOnly(s, ValueOf(n));
  }

  /** The preparation drops the white space around a numeral and nothing
      else. */
  lemma SpacedNumeralPrepared(w1: string, n: Numeral, w2: string)
    requires WellFormedNumeral(n) && AllSpace(w1) && AllSpace(w2)
    ensures Prepare(w1 + Spell(n) + w2) == Spell(n)
  {
    var s := Spell(n);
    SpaceIsLower(w1);
    SpaceIsLower(w2);
    NumeralIsLower(n);
    LowerJoin(w1, s, w2);
    LowerFixesLowercase(w1 + s + w2);
    NumeralTrimmed(n);
    TrimAround(w1, s, w2);
    PreparedAs(w1 + s + w2, s);
  }

  /** The three steps of the preparation, taken one at a time. */
  lemma PreparedAs(t: string, s: string)
    requires Lower(t) == t && Trim(t) == s && ',' !in s
    ensures Prepare(t) == s
  {
  }

  /** A numeral neither starts nor ends with white space and has no comma. */
  lemma NumeralTrimmed(n: Numeral)
    requires WellFormedNumeral(n)
    ensures Spell(n) != [] && !IsSpace(Spell(n)[0]) && !IsSpace(Spell(n)[|Spell(n)| - 1])
    ensures ',' !in Spell(n)
  {
    NumeralChars(n);
  }

  lemma SpaceIsLower(w: string)
    requires AllSpace(w)
    ensures IsLower(w)
  {
    forall j | 0 <= j < |w| ensures !('A' <= w[j] <= 'Z') {
      SpaceIsNoPatternChar(w[j]);
    }
  }

  lemma NumeralIsLower(n: Numeral)
    requires WellFormedNumeral(n)
    ensures IsLower(Spell(n))
  {
    NumeralChars(n);
  }

  lemma LowerJoin(a: string, b: string, c: string)
    requires IsLower(a) && IsLower(b) && IsLower(c)
    ensures IsLower(a + b + c)
  {
    var t := a + b + c;
    forall j | 0 <= j < |t| ensures !('A' <= t[j] <= 'Z') {
      if j < |a| {
        assert t[j] == a[j];
      } else if j < |a| + |b| {
        assert t[j] == b[j - |a|];
      } else {
        assert t[j] == c[j - |a| - |b|];
      }
    }
  }

  lemma NumeralNoPatternChar(n: Numeral)
    requires WellFormedNumeral(n)
    ensures forall j :: 0 <= j < |Spell(n)| ==> Spell(n)[j] != '/' && Spell(n)[j] != 'o' && Spell(n)[j] != '%'
  {
    NumeralChars(n);
  }

  /** What the normaliser does on text where only the bare-number pattern
      matches. */
  lemma BareOnly(s: string, v: real)
    requires FindFraction(s, 0).None? && FindPercent(s, 0).None?
    requires NumberAt(s, 0).Some? && NumberAt(s, 0).value.0 == v
    ensures TextToFour(s) == BareToFour(v)
  {
  }

  lemma BareFirst(d: string)
    requires d != [] && AllDigits(d)
    ensures FindNumber(d, 0) == Some(DigitsValue(d) as real)
  {
    assert NumberAt(d, 0) == Some((DigitsValue(d) as real, |d|)) by {
      assert d[0..|d|] == d;
      NumberAtRun(d, 0, d);
    }
  }

  /** The percentage pattern needs a '%' to match. */
  lemma NoSignNoPercent(s: string)
    requires forall j :: 0 <= j < |s| ==> s[j] != '%'
    ensures FindPercent(s, 0).None?
  {
  }

  /** What the normaliser does once only the bare-number pattern matches. */
  lemma BareToFourStep(t: string, v: real)
    requires Prepare(t) == t
    requires FindFraction(t, 0).None? && FindPercent(t, 0).None? && FindNumber(t, 0) == Some(v)
    ensures NormalizeGpaTo4(Some(Text(t))) == BareToFour(v)
  {
  }

  /** The first comma is read as a decimal point: "3,5" is 3.5. */
  lemma CommaIsPoint()
    ensures NormalizeGpaTo4(Some(Text("3,5"))) == Some(3.5)
  {
    CommaPrepared();
    PointText();
  }

  lemma PointText()
    ensures TextToFour("3.5") == Some(3.5)
  {
    var p := "3.5";
    assert NumberAt(p, 0) == Some((3.5, 3)) by {
      NumberAtPoint(p, 0, 1, 1);
      assert p[0..1] == "3" && p[2..3] == "5";
      assert DigitsValue("3") == 3 && FractionValue("5") == 0.5;
    }
    assert FindNumber(p, 0) == Some(3.5);
    assert FindFraction(p, 0).None?;
    assert FindPercent(p, 0).None?;
    assert TextToFour(p) == BareToFour(3.5);
    Round2OfHundredths(350);
  }

  lemma CommaPrepared()
    ensures Prepare("3,5") == "3.5"
  {
    var t := "3,5";
    assert Lower(t) == t by {
      assert IsLower(t);
      LowerFixesLowercase(t);
    }
    assert Trim(t) == t by {
      assert !IsSpace(t[0]) && !IsSpace(t[2]);
      TrimOfTrimmed(t);
    }
    assert FirstCommaToPoint(t) == "3.5" by {
      assert IndexOf(t, ',') == 1;
    }
  }

  /** Concrete readings of the scale conversion. */
  lemma GpaExamples()
    ensures NormalizeGpaTo4(Some(Text("8/10"))) == Some(3.2)
    ensures NormalizeGpaTo4(Some(Text("3/0"))) == None
    ensures NormalizeGpaTo4(Some(Text("85%"))) == Some(3.4)
  {
    EightOutOfTen();
    ThreeOverZero();
    EightyFivePercent();
  }

  lemma EightOutOfTen()
    ensures NormalizeGpaTo4(Some(Text("8/10"))) == Some(3.2)
  {
    EightOutOfTenText();
    ScaleExample();
    assert DigitsValue("8") == 8 && DigitsValue("10") == 10;
    FractionOfDigits("8", "10");
  }

  lemma EightOutOfTenText()
    ensures "8" + "/" + "10" == "8/10"
  {
  }

  lemma ScaleExample()
    ensures Round2(ScaleToFour(8.0, 10.0)) == 3.2
  {
    assert ScaleToFour(8.0, 10.0) == 320 as real / 100.0;
    Round2OfHundredths(320);
  }

  lemma ThreeOverZero()
    ensures NormalizeGpaTo4(Some(Text("3/0"))) == None
  {
    assert "3" + "/" + "0" == "3/0";
    assert DigitsValue("3") == 3 && DigitsValue("0") == 0;
    FractionOfDigits("3", "0");
  }

  lemma EightyFivePercent()
    ensures NormalizeGpaTo4(Some(Text("85%"))) == Some(3.4)
  {
    EightyFiveText();
    EightyFiveValue();
  }

  lemma EightyFiveText()
    ensures NormalizeGpaTo4(Some(Text("85%"))) == Some(Round2(PercentOnFour(85.0)))
  {
    assert "85" + "%" == "85%";
    assert DigitsValue("85") == 85;
    PercentOfDigits("85");
  }

  lemma EightyFiveValue()
    ensures Round2(PercentOnFour(85.0)) == 3.4
  {
    assert PercentOnFour(85.0) == 340 as real / 100.0;
    Round2OfHundredths(340);
  }

  /** Numbers take the bare-number rule on their magnitude. */
  lemma NumberExamples()
    ensures NormalizeGpaTo4(Some(Number(3.7))) == Some(3.7)
    ensures NormalizeGpaTo4(Some(Number(9.2))) == Some(3.68)
    ensures NormalizeGpaTo4(Some(Number(-3.0))) == Some(3.0)
    ensures NormalizeGpaTo4(Some(Number(100.5))) == None
  {
    Round2OfHundredths(370);
    assert 9.2 / 10.0 * 4.0 == 368 as real / 100.0;
    Round2OfHundredths(368);
    Round2OfHundredths(300);
  }

  /* ================= the per-applicant selection ================= */

  /** `String(raw)` for the values an education entry can hold. A
      one-element array renders as its element does (null aside), so it is
      read as that element; a longer array is joined with ",", and is None
      when it holds a number or a nested array. */
  function RawOf(j: Json): Option<GpaRaw> {
    match j
    case JNull => None
    case JNum(x) => Some(Number(x))
    case JArr(xs) =>
      if |xs| == 1 && !xs[0].JNull? then RawOf(xs[0]) else JoinTexts(xs)
    case _ => Some(Text(ElementText(j).value))
  }

  /** `String(v)` for an element being joined: null as "", and the strings
      of a boolean and of a plain object. */
  function ElementText(j: Json): (r: Option<string>)
    ensures r.Some? <==> !j.JNum? && !j.JArr?
  {
    match j
    case JNull => Some("")
    case JBool(b) => Some(if b then "true" else "false")
    case JStr(s) => Some(s)
    case JObj(_) => Some("[object Object]")
    case _ => None
  }

  /** `Array.prototype.join(",")` over elements `ElementText` renders. */
  function JoinTexts(xs: seq<Json>): Option<GpaRaw> {
    if xs == [] then Some(Text(""))
    else match ElementText(xs[0])
      case None => None
      case Some(head) =>
        if |xs| == 1 then Some(Text(head))
        else match JoinTexts(xs[1..])
          case Some(Text(rest)) => Some(Text(head + "," + rest))
          case _ => None
  }

  /** The education list of a stored CV: an array as is, a single object as
      a one-element list, anything else as no entries. */
  function EducationList(extracted: Json): (es: seq<Json>)
    ensures Get(extracted, "education") == Some(JObj(map[])) ==> es == [JObj(map[])]
  {
    match Get(extracted, "education")
    case Some(JArr(xs)) => xs
    case Some(JObj(m)) => [JObj(m)]
    case _ => []
  }

  /** `edu?.gpa ?? edu?.cgpa`. */
  function RawGpa(edu: Json): Option<Json> {
    var g := Get(edu, "gpa");
    if !Nullish(g) then g else Get(edu, "cgpa")
  }

  /** The normalised value one education entry contributes, if any. */
  function EntryGpa(edu: Json): (r: Option<real>)
    ensures r.Some? ==> 0.0 <= r.value <= 4.0
  {
    var raw := RawGpa(edu);
    if Nullish(raw) then None else ValueGpa(raw.value)
  }

  /** The normalised value of one raw gpa: skipped when `String(raw)` is
      blank, kept when it normalises into [0, 4]. */
  function ValueGpa(j: Json): (r: Option<real>)
    ensures r.Some? ==> 0.0 <= r.value <= 4.0
    ensures RawOf(j).None? ==> r.None?
  {
    RawGpaValue(RawOf(j))
  }

  /** The same, from the value's string form. */
  function RawGpaValue(raw: Option<GpaRaw>): (r: Option<real>)
    ensures r.Some? ==> 0.0 <= r.value <= 4.0
    ensures raw.None? ==> r.None?
  {
    match raw
      case None => None
      case Some(Text(t)) =>
        if Trim(t) == "" then None
        else
          var n := NormalizeGpaTo4(Some(Text(t)));
          if n.Some? && n.value <= 4.0 then n else None
      case Some(g) =>
        var n := NormalizeGpaTo4(Some(g));
        if n.Some? && n.value <= 4.0 then n else None
  }

  /** `String([v])` is `String(v)` for every v but null, so a one-element
      array holding v is read exactly as v itself, and is worth what v
      alone is worth. */
  lemma OneElementArray(v: Json)
    requires !v.JNull?
    ensures RawOf(JArr([v])) == RawOf(v)
  {
  }

  /** So `[3.5]`, whose string is "3.5", counts as 3.5. */
  lemma ArrayOfOneNumber()
    ensures ValueGpa(JArr([JNum(3.5)])) == Some(3.5)
  {
    OneElementArray(JNum(3.5));
    assert NormalizeGpaTo4(Some(Number(3.5))) == Some(3.5) by {
      Round2OfHundredths(350);
    }
  }

  /** The accepted values of a list of education entries, in order. */
  function Accepted(es: seq<Json>): (vs: seq<real>)
    ensures forall i :: 0 <= i < |vs| ==> 0.0 <= vs[i] <= 4.0
    ensures |vs| <= |es|
  {
    if es == [] then []
    else (if EntryGpa(es[0]).Some? then [EntryGpa(es[0]).value] else []) + Accepted(es[1..])
  }

  function MaxOf(vs: seq<real>): (m: real)
    requires vs != []
    ensures m in vs && forall i :: 0 <= i < |vs| ==> vs[i] <= m
  {
    if |vs| == 1 then vs[0]
    else
      var rest := MaxOf(vs[1..]);
      if vs[0] >= rest then vs[0] else rest
  }

  /** `final`: the largest accepted value, rounded again to hundredths. */
  function FinalGpa(extracted: Json): (r: Option<real>)
    ensures r.Some? <==> Accepted(EducationList(extracted)) != []
    ensures r.Some? ==> 0.0 <= r.value <= 4.0
  {
    var vs := Accepted(EducationList(extracted));
    if vs == [] then None
    else Some(Round2(MaxOf(vs)))
  }

  /** The gpa the script assigns to the in-memory applicant document:
      replaced by the final value when there is one, unchanged otherwise.
      The applicant schema has no `gpa` path, so `save` stores none of it. */
  function FixApplicantGpa(current: Option<real>, extracted: Json): (r: Option<real>)
    ensures FinalGpa(extracted).None? ==> r == current
    ensures FinalGpa(extracted).Some? ==> r == FinalGpa(extracted)
  {
    match FinalGpa(extracted)
    case None => current
    case Some(g) => Some(g)
  }

  /** Every accepted value is already in hundredths, so the final rounding
      changes nothing: the result is exactly the maximum, and it is one of
      the entries' own normalised values. */
  lemma FinalIsMaximum(extracted: Json)
    requires FinalGpa(extracted).Some?
    ensures FinalGpa(extracted).value in Accepted(EducationList(extracted))
    ensures forall i :: 0 <= i < |Accepted(EducationList(extracted))| ==>
              Accepted(EducationList(extracted))[i] <= FinalGpa(extracted).value
  {
    var vs := Accepted(EducationList(extracted));
    AcceptedRounded(EducationList(extracted));
    var m := MaxOf(vs);
    RoundedMember(vs, m);
  }

  /** A member of a list of rounded values is rounded. */
  lemma RoundedMember(vs: seq<real>, m: real)
    requires m in vs && forall v :: v in vs ==> v >= 0.0 && Round2(v) == v
    ensures Round2(m) == m
  {
  }

  lemma BareRounded(v: real)
    requires v >= 0.0 && BareToFour(v).Some?
    ensures Round2(BareToFour(v).value) == BareToFour(v).value
  {
    if v <= 4.0 { Round2Idempotent(v); }
    else if v <= 10.0 { Round2Idempotent(v / 10.0 * 4.0); }
    else { Round2Idempotent(PercentOnFour(v)); }
  }

  lemma TextRounded(s: string)
    requires TextToFour(s).Some?
    ensures Round2(TextToFour(s).value) == TextToFour(s).value
  {
    var fraction := FindFraction(s, 0);
    if fraction.Some? {
      Round2Idempotent(ScaleToFour(fraction.value.0, fraction.value.1));
    } else if FindPercent(s, 0).Some? {
      Round2Idempotent(PercentOnFour(FindPercent(s, 0).value));
    } else {
      BareRounded(FindNumber(s, 0).value);
    }
  }

  /** Every value the normaliser returns is already in hundredths. */
  lemma NormalizedIsRounded(raw: Option<GpaRaw>)
    requires NormalizeGpaTo4(raw).Some?
    ensures Round2(NormalizeGpaTo4(raw).value) == NormalizeGpaTo4(raw).value
  {
    match raw
    case Some(Number(x)) => BareRounded(Abs(x));
    case Some(Text(t)) => TextRounded(Prepare(t));
  }

  lemma {:induction false} AcceptedRounded(es: seq<Json>)
    ensures forall v :: v in Accepted(es) ==> v >= 0.0 && Round2(v) == v
    decreases |es|
  {
    if es != [] {
      AcceptedRounded(es[1..]);
      var e := EntryGpa(es[0]);
      if e.Some? {
        var raw := RawGpa(es[0]);
        match RawOf(raw.value)
        case Some(g) => NormalizedIsRounded(Some(g));
      }
    }
  }
}

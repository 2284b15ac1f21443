/** `MemStorage` (storage.js): the in-memory staging area for uploaded CVs.
    It maps ids to records in insertion order and hands out ids from a
    counter that starts at 1. */
module CvStore {
  import opened Wrappers

  newtype byte = b: int | 0 <= b < 256

  /** The fields `createCv` is given. */
  datatype CvInput = CvInput(filename: string, content: seq<byte>, uploadDate: string)

  /** A stored record: the input fields plus the id the store assigned. */
  datatype StoredCv = StoredCv(id: nat, filename: string, content: seq<byte>, uploadDate: string)

  /** The JavaScript `Map` (as its entries in insertion order) and `currentId`. */
  datatype Store = Store(cvs: seq<StoredCv>, currentId: nat)

  /** What every reachable store satisfies: the records carry ids 1, 2, ...
      in insertion order and the counter is the next id. */
  ghost predicate Valid(st: Store) {
    && st.currentId == |st.cvs| + 1
    && forall i :: 0 <= i < |st.cvs| ==> st.cvs[i].id == i + 1
  }

  predicate HasId(cvs: seq<StoredCv>, id: int) {
    exists i :: 0 <= i < |cvs| && cvs[i].id == id
  }

  /** The store created by `new MemStorage()`. */
  function Fresh(): (st: Store)
    ensures Valid(st) && GetCvs(st) == []
    ensures forall id :: GetCv(st, id).None?
  {
    Store([], 1)
  }

  /** `Map.prototype.set`: an existing key keeps its position and gets the
      new value; a new key goes at the end. */
  function MapSet(cvs: seq<StoredCv>, cv: StoredCv): (r: seq<StoredCv>)
    ensures !HasId(cvs, cv.id) ==> r == cvs + [cv]
    ensures HasId(cvs, cv.id) ==> |r| == |cvs|
    ensures forall i :: 0 <= i < |r| && r[i].id != cv.id ==> i < |cvs| && r[i] == cvs[i]
  {
    if cvs == [] then [cv]
    else if cvs[0].id == cv.id then [cv] + cvs[1..]
    else
      assert HasId(cvs, cv.id) ==> HasId(cvs[1..], cv.id);
      [cvs[0]] + MapSet(cvs[1..], cv)
  }

  /** `createCv`: the record is the input plus `id` = the counter, which then
      grows by one. */
  function CreateCv(st: Store, input: CvInput): (r: (Store, StoredCv))
    ensures r.1.id == st.currentId && r.0.currentId == st.currentId + 1
    ensures r.1.filename == input.filename && r.1.content == input.content
    ensures r.1.uploadDate == input.uploadDate
    ensures Valid(st) ==> Valid(r.0) && r.0.cvs == st.cvs + [r.1]
  {
    var cv := StoredCv(st.currentId, input.filename, input.content, input.uploadDate);
    assert Valid(st) ==> !HasId(st.cvs, cv.id);
    (Store(MapSet(st.cvs, cv), st.currentId + 1), cv)
  }

  /** `getCvs`: the records in creation order, which is ascending id order. */
  function GetCvs(st: Store): (r: seq<StoredCv>)
    ensures Valid(st) ==> forall i, j :: 0 <= i < j < |r| ==> r[i].id < r[j].id
  {
    st.cvs
  }

  /** `getCv(id)`: the record stored under `id`, or undefined. */
  function GetCv(st: Store, id: int): (r: Option<StoredCv>)
    ensures r.Some? ==> r.value in st.cvs && r.value.id == id
    ensures r.None? <==> !HasId(st.cvs, id)
    ensures Valid(st) ==> (r.Some? <==> 1 <= id <= |st.cvs|)
    ensures Valid(st) && 1 <= id <= |st.cvs| ==> r == Some(st.cvs[id - 1])
    decreases |st.cvs|
  {
    if st.cvs == [] then None
    else if st.cvs[0].id == id then Some(st.cvs[0])
    else
      var rest := GetCv(Store(st.cvs[1..], st.currentId), id);
      assert HasId(st.cvs, id) ==> HasId(st.cvs[1..], id);
      assert Valid(st) && 1 <= id <= |st.cvs| ==> st.cvs[1..][id - 2] == st.cvs[id - 1];
      rest
  }

  /** `clearCvs`: no records, counter back to 1. */
  function ClearCvs(st: Store): (r: Store)
    ensures Valid(r) && GetCvs(r) == [] && r.currentId == 1
  {
    Store([], 1)
  }

  /** A record read back by the id `createCv` returned is the record
      created, and every other id reads what it read before. */
  lemma CreateThenGet(st: Store, input: CvInput, id: int)
    requires Valid(st)
    ensures var (st', cv) := CreateCv(st, input);
            GetCv(st', cv.id) == Some(cv)
            && (id != cv.id ==> GetCv(st', id) == GetCv(st, id))
  {
    var (st', cv) := CreateCv(st, input);
    assert st'.cvs[cv.id - 1] == cv;
  }

  /** n creations after a clear store exactly the n inputs, in order, under
      the ids 1..n. */
  lemma {:induction false} CreatesFromClear(st: Store, inputs: seq<CvInput>)
    ensures var st' := CreateAll(ClearCvs(st), inputs);
            Valid(st') && |st'.cvs| == |inputs|
            && forall i :: 0 <= i < |inputs| ==>
                 st'.cvs[i] == StoredCv(i + 1, inputs[i].filename, inputs[i].content, inputs[i].uploadDate)
    decreases |inputs|
  {
    if inputs != [] {
      CreatesFromClear(st, inputs[..|inputs| - 1]);
      assert inputs[..|inputs| - 1] + [inputs[|inputs| - 1]] == inputs;
    }
  }

  /** Successive `createCv` calls, as a helper for stating the lemma above. */
  function CreateAll(st: Store, inputs: seq<CvInput>): Store
    decreases |inputs|
  {
    if inputs == [] then st
    else CreateCv(CreateAll(st, inputs[..|inputs| - 1]), inputs[|inputs| - 1]).0
  }
}

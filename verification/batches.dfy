/** The Batch model (models/batch.js) and the batch handlers
    (controllers/batch.controller.js): upserting resume summaries by cvId
    with per-type experience counters, and clearing a batch. */
module Batches {
  import opened Wrappers
  import opened Text
  import opened Json
  import opened Records

  /** The `cv` block of a scored resume. */
  datatype CvRef = CvRef(id: nat, filename: string, uploadDate: string)

  /** The `analysis` block the analyzer writes (its time stamp left out). */
  datatype Analysis = Analysis(
    score: real,
    matchPercentage: real,
    matchDetails: Json,
    strengths: Json,
    gaps: Json,
    recommendations: Json,
    matchedSkills: Json,
    experienceMatch: Json,
    locked: bool)

  /** The four experience counters of a resume summary. */
  datatype ExperienceTotals = ExperienceTotals(
    professionalJob: real,
    internship: real,
    freelancing: real,
    miscellaneous: real)

  /** The two shapes of object the handlers put into `resumes`: the
      analyzer's scored payload, and the batch upload's summary record. */
  datatype ResumeEntry =
    | Scored(cv: CvRef, extractedData: Json, analysis: Analysis)
    | Summary(
        cvId: Option<int>,
        filename: Option<Json>,
        uploadDate: Option<Json>,
        personalInfo: Json,
        degree: Json,
        gpa: Json,
        experience: ExperienceTotals,
        totalExperience: real,
        skills: Json,
        summary: Json,
        analysisData: Json)

  datatype Batch = Batch(
    batchId: Option<string>,
    jobId: Option<Ref>,
    batchNumber: Option<int>,
    name: Option<string>,
    isIdle: bool,
    isUploaded: bool,
    isProcessing: bool,
    isCompleted: bool,
    isFailed: bool,
    resumes: seq<ResumeEntry>,
    deletion: Deletion)

  /** A batch document built from the given fields, with the schema's
      defaults for the status flags and the deletion fields. */
  function NewBatch(batchId: Option<string>, jobId: Option<Ref>, batchNumber: Option<int>,
                    name: Option<string>, resumes: seq<ResumeEntry>): (b: Batch)
    ensures b.isIdle && b.isUploaded
    ensures !b.isProcessing && !b.isCompleted && !b.isFailed
    ensures !b.deletion.isDeleted
    ensures b.batchId == batchId && b.jobId == jobId && b.name == name && b.resumes == resumes
  {
    Batch(batchId, jobId, batchNumber, name, true, true, false, false, false, resumes, NotDeleted)
  }

  /** The schema's required validators: jobId, batchNumber and name. */
  predicate ValidBatch(b: Batch) {
    b.jobId.Some? && b.batchNumber.Some? && Present(b.name)
  }

  /** `resume.analysis?.score || 0`. */
  function ScoreOf(e: ResumeEntry): real {
    match e
    case Scored(_, _, a) => a.score
    case Summary(_, _, _, _, _, _, _, _, _, _, a) => NumberOrZero(Get(a, "score"))
  }

  /** `analysis.locked`, with the schema default false when it is absent. */
  function LockedOf(e: ResumeEntry): (locked: bool)
    ensures e.Summary? ==> (Get(e.analysisData, "locked").None? ==> !locked)
  {
    match e
    case Scored(_, _, a) => a.locked
    case Summary(_, _, _, _, _, _, _, _, _, _, a) =>
      match Get(a, "locked")
      case Some(JBool(b)) => b
      case _ => false
  }

  /** `r.cvId`: a scored payload has no such member. */
  function CvIdOf(e: ResumeEntry): Option<int> {
    if e.Summary? then e.cvId else None
  }

  /* ================= experience counters ================= */

  /** `s.replace(/\s/g, "")`. */
  function RemoveSpaces(s: string): (r: string)
    ensures forall i :: 0 <= i < |r| ==> !IsSpace(r[i])
    ensures forall i :: 0 <= i < |r| ==> r[i] in s
  {
    if s == [] then []
    else (if IsSpace(s[0]) then [] else [s[0]]) + RemoveSpaces(s[1..])
  }

  /** The counter key an experience type is filed under. */
  function ExperienceKey(t: string): (k: string)
    ensures IsLower(k)
  {
    var k := RemoveSpaces(Lower(t));
    assert forall i :: 0 <= i < |k| ==> k[i] in Lower(t);
    k
  }

  const NoExperience := ExperienceTotals(0.0, 0.0, 0.0, 0.0)

  /** `if (key && expMap[key] !== undefined) expMap[key] += months`. */
  function AddMonths(m: ExperienceTotals, key: string, months: real): ExperienceTotals {
    if key == "professionalJob" then m.(professionalJob := m.professionalJob + months)
    else if key == "internship" then m.(internship := m.internship + months)
    else if key == "freelancing" then m.(freelancing := m.freelancing + months)
    else if key == "miscellaneous" then m.(miscellaneous := m.miscellaneous + months)
    else m
  }

  function Total(m: ExperienceTotals): real {
    m.professionalJob + m.internship + m.freelancing + m.miscellaneous
  }

  datatype UploadError = NoCvData | ServerError

  /** The key of one `experience` entry: None when the entry is skipped,
      an error when `e.type` (or `e` itself) makes the callback throw. */
  function EntryKey(e: Json): Result<Option<string>, UploadError> {
    if e.JNull? then Failure(ServerError)
    else match Get(e, "type")
      case None => Success(None)
      case Some(JNull) => Success(None)
      case Some(JStr(t)) => Success(Some(ExperienceKey(t)))
      case Some(_) => Failure(ServerError)
  }

  /** The `forEach` over the experience list, accumulating the counters. */
  function CountExperience(entries: seq<Json>): (r: Result<ExperienceTotals, UploadError>)
    ensures r.Success? ==> r.value.professionalJob == 0.0
    decreases |entries|
  {
    if entries == [] then Success(NoExperience)
    else
      match CountExperience(entries[..|entries| - 1])
      case Failure(err) => Failure(err)
      case Success(m) =>
        var e := entries[|entries| - 1];
        match EntryKey(e)
        case Failure(err) => Failure(err)
        case Success(None) => Success(m)
        case Success(Some(key)) =>
          CamelKeyUnreachable();
          Success(AddMonths(m, key, NumberOrZero(Get(e, "durationMonths"))))
  }

  /** An entry adds its months only to the counter its type names once
      lowercased and stripped of white space. The camel-case
      `professionalJob` counter is never reached. */
  lemma AddMonthsByType(m: ExperienceTotals, t: string, months: real)
    ensures var k := ExperienceKey(t);
            var m' := AddMonths(m, k, months);
            && (k == "internship" ==> m' == m.(internship := m.internship + months))
            && (k == "freelancing" ==> m' == m.(freelancing := m.freelancing + months))
            && (k == "miscellaneous" ==> m' == m.(miscellaneous := m.miscellaneous + months))
            && (k !in {"internship", "freelancing", "miscellaneous"} ==> m' == m)
            && Total(m') == Total(m) + (if k in {"internship", "freelancing", "miscellaneous"} then months else 0.0)
  {
    CamelKeyUnreachable();
  }

  /** No lowercased key spells the `professionalJob` counter. */
  lemma CamelKeyUnreachable()
    ensures !IsLower("professionalJob")
  {
    assert "professionalJob"[12] == 'J';
  }

  /* ================= uploadBatchResumes ================= */

  /** One element of `req.body.cvs`. */
  datatype IncomingCv = IncomingCv(
    id: Option<int>,
    filename: Option<Json>,
    uploadDate: Option<Json>,
    extractedData: Option<Json>,
    analysis: Option<Json>)

  /** `x?.[0]`. */
  function First(v: Option<Json>): Option<Json> {
    match v
    case Some(JArr(xs)) => if xs == [] then None else Some(xs[0])
    case Some(JObj(_)) => Get(v.value, "0")
    case Some(JStr(s)) => if s == "" then None else Some(JStr([s[0]]))
    case _ => None
  }

  /** The summary record the handler builds for one incoming CV. */
  function SummaryOf(cv: IncomingCv): (r: Result<ResumeEntry, UploadError>)
    ensures Nullish(cv.extractedData) ==> r == Failure(ServerError)
    ensures !Nullish(cv.extractedData) ==>
              var ex := Or(Get(cv.extractedData.value, "experience"), JArr([]));
              && (!ex.JArr? ==> r == Failure(ServerError))
              && (ex.JArr? && CountExperience(ex.items).Failure? ==> r.Failure?)
              && (ex.JArr? && CountExperience(ex.items).Success? ==>
                    r.Success? && r.value.Summary? && r.value.experience == CountExperience(ex.items).value)
    ensures r.Success? ==> r.value.Summary? && r.value.cvId == cv.id
    ensures r.Success? ==> r.value.filename == cv.filename && r.value.uploadDate == cv.uploadDate
    ensures r.Success? ==> r.value.totalExperience == Total(r.value.experience)
    ensures r.Success? ==> r.value.experience.professionalJob == 0.0
    ensures r.Success? ==>
              var ed := cv.extractedData.value;
              var education := First(Get(ed, "education"));
              && r.value.personalInfo == Or(Get(ed, "personalInfo"), JObj(map[]))
              && r.value.degree == Or(GetOpt(education, "degree"), JStr(""))
              && r.value.gpa == Or(GetOpt(education, "gpa"), JNull)
              && r.value.skills == Or(GetOpt(Get(ed, "skills"), "technical"), JArr([]))
              && r.value.summary == Or(Get(ed, "summary"), JStr(""))
              && r.value.analysisData == Or(cv.analysis, JObj(map[]))
  {
    if Nullish(cv.extractedData) then Failure(ServerError)
    else
      var ed := cv.extractedData.value;
      var experience := Or(Get(ed, "experience"), JArr([]));
      if !experience.JArr? then Failure(ServerError)
      else match CountExperience(experience.items)
        case Failure(err) => Failure(err)
        case Success(m) =>
          var education := First(Get(ed, "education"));
          Success(Summary(
            cv.id, cv.filename, cv.uploadDate,
            Or(Get(ed, "personalInfo"), JObj(map[])),
            Or(GetOpt(education, "degree"), JStr("")),
            Or(GetOpt(education, "gpa"), JNull),
            m, Total(m),
            Or(GetOpt(Get(ed, "skills"), "technical"), JArr([])),
            Or(Get(ed, "summary"), JStr("")),
            Or(cv.analysis, JObj(map[]))))
  }

  /** Degree and gpa are read from the first education entry; a CV with no
      experience, skills, summary or personalInfo gets the defaults 0, [],
      "" and {}. */
  lemma SummaryFromFirstEducation(cv: IncomingCv, first: map<string, Json>, rest: seq<Json>)
    requires cv.extractedData == Some(JObj(map["education" := JArr([JObj(first)] + rest)]))
    ensures var r := SummaryOf(cv);
            && r.Success? && r.value.Summary?
            && r.value.degree == Or(Get(JObj(first), "degree"), JStr(""))
            && r.value.gpa == Or(Get(JObj(first), "gpa"), JNull)
            && r.value.skills == JArr([]) && r.value.summary == JStr("")
            && r.value.personalInfo == JObj(map[])
            && r.value.totalExperience == 0.0
  {
    var ed := cv.extractedData.value;
    var m := map["education" := JArr([JObj(first)] + rest)];
    assert ed == JObj(m);
    assert "experience" !in m && "skills" !in m && "summary" !in m && "personalInfo" !in m;
    assert Or(Get(ed, "experience"), JArr([])) == JArr([]);
    assert CountExperience([]) == Success(NoExperience);
    assert ([JObj(first)] + rest)[0] == JObj(first);
    assert First(Get(ed, "education")) == Some(JObj(first));
  }

  /** The index `findIndex(r => r.cvId === id)` returns, or -1. */
  function FindByCvId(rs: seq<ResumeEntry>, id: Option<int>): (i: int)
    ensures -1 <= i < |rs|
    ensures i >= 0 ==> CvIdOf(rs[i]) == id && forall j :: 0 <= j < i ==> CvIdOf(rs[j]) != id
    ensures i == -1 ==> forall j :: 0 <= j < |rs| ==> CvIdOf(rs[j]) != id
  {
    if rs == [] then -1
    else if CvIdOf(rs[0]) == id then 0
    else var i := FindByCvId(rs[1..], id); if i == -1 then -1 else i + 1
  }

  /** Replace the first resume with the same cvId in place, or append. */
  function Upsert(rs: seq<ResumeEntry>, entry: ResumeEntry): (r: seq<ResumeEntry>)
    ensures entry in r
    ensures FindByCvId(rs, CvIdOf(entry)) >= 0 ==>
              |r| == |rs| && r[FindByCvId(rs, CvIdOf(entry))] == entry
    ensures FindByCvId(rs, CvIdOf(entry)) == -1 ==> r == rs + [entry]
    ensures forall j :: 0 <= j < |rs| && CvIdOf(rs[j]) != CvIdOf(entry) ==> j < |r| && r[j] == rs[j]
  {
    var i := FindByCvId(rs, CvIdOf(entry));
    if i >= 0 then
      assert rs[i := entry][i] == entry;
      rs[i := entry]
    else
      assert (rs + [entry])[|rs|] == entry;
      rs + [entry]
  }

  /** The `forEach` over the incoming CVs, once each has its summary. */
  function UpsertAll(rs: seq<ResumeEntry>, es: seq<ResumeEntry>): seq<ResumeEntry>
    decreases |es|
  {
    if es == [] then rs else Upsert(UpsertAll(rs, es[..|es| - 1]), es[|es| - 1])
  }

  /** `uploadBatchResumes`: the batches after the call, and the resumes it
      responds with. */
  function UploadBatchResumes(cvs: Option<seq<IncomingCv>>, batches: seq<Batch>): (r: Result<(seq<Batch>, seq<ResumeEntry>), UploadError>)
    ensures cvs.None? || cvs.value == [] ==> r == Failure(NoCvData)
    ensures batches == [] ==> r.Failure?
    ensures r.Success? ==> |r.value.0| == |batches| && r.value.0[1..] == batches[1..]
    ensures r.Success? ==> r.value.0[0] == batches[0].(resumes := r.value.1) && ValidBatch(batches[0])
    ensures cvs.Some? && cvs.value != [] && batches != [] ==>
              var summaries := MapResults(SummaryOf, cvs.value);
              && (summaries.Failure? ==> r == Failure(summaries.error))
              && (summaries.Success? ==>
                    && (r.Success? <==> ValidBatch(batches[0]))
                    && (r.Success? ==> r.value.1 == UpsertAll(batches[0].resumes, summaries.value)))
  {
    if cvs.None? || cvs.value == [] then Failure(NoCvData)
    else if batches == [] then
      // `new Batch({ resumes: [] })` lacks jobId, batchNumber and name, so its save is refused.
      assert !ValidBatch(NewBatch(None, None, None, None, []));
      Failure(ServerError)
    else
      var b := batches[0];
      match MapResults(SummaryOf, cvs.value)
      case Failure(err) => Failure(err)
      case Success(es) =>
        var b' := b.(resumes := UpsertAll(b.resumes, es));
        if !ValidBatch(b') then Failure(ServerError)
        else Success((batches[0 := b'], b'.resumes))
  }

  ghost predicate CvIdsDistinct(rs: seq<ResumeEntry>) {
    forall i, j :: 0 <= i < j < |rs| ==> CvIdOf(rs[i]) != CvIdOf(rs[j])
  }

  /** Upserting keeps cvIds distinct. */
  lemma UpsertKeepsDistinct(rs: seq<ResumeEntry>, entry: ResumeEntry)
    requires CvIdsDistinct(rs)
    ensures CvIdsDistinct(Upsert(rs, entry))
  {
  }

  /** After an upload the batch holds, for every incoming cvId, the summary
      of the LAST incoming CV with that id; resumes whose cvId no incoming
      CV names are still there. */
  lemma {:induction false} LaterEntryWins(rs: seq<ResumeEntry>, es: seq<ResumeEntry>)
    ensures forall j :: 0 <= j < |es| && (forall j' :: j < j' < |es| ==> CvIdOf(es[j']) != CvIdOf(es[j])) ==>
              es[j] in UpsertAll(rs, es)
    ensures forall e :: e in rs && (forall j :: 0 <= j < |es| ==> CvIdOf(es[j]) != CvIdOf(e)) ==>
              e in UpsertAll(rs, es)
    decreases |es|
  {
    if es != [] {
      var pre := es[..|es| - 1];
      var last := es[|es| - 1];
      LaterEntryWins(rs, pre);
      var rs' := UpsertAll(rs, pre);
      var out := Upsert(rs', last);
      forall j | 0 <= j < |es| - 1 && (forall j' :: j < j' < |es| ==> CvIdOf(es[j']) != CvIdOf(es[j]))
        ensures es[j] in out
      {
        assert pre[j] == es[j];
        assert es[j] in rs';
        var k :| 0 <= k < |rs'| && rs'[k] == es[j];
        assert CvIdOf(es[j]) != CvIdOf(last);
        assert out[k] == es[j];
      }
      forall e | e in rs && (forall j :: 0 <= j < |es| ==> CvIdOf(es[j]) != CvIdOf(e))
        ensures e in out
      {
        assert forall j :: 0 <= j < |pre| ==> pre[j] == es[j];
        assert e in rs';
        var k :| 0 <= k < |rs'| && rs'[k] == e;
        assert CvIdOf(e) != CvIdOf(last);
        assert out[k] == e;
      }
    }
  }

  /** Upserting never shrinks the resume list, and grows it only by
      entries whose cvId was new. */
  lemma {:induction false} UpsertAllLength(rs: seq<ResumeEntry>, es: seq<ResumeEntry>)
    ensures |rs| <= |UpsertAll(rs, es)| <= |rs| + |es|
    ensures CvIdsDistinct(rs) ==> CvIdsDistinct(UpsertAll(rs, es))
    decreases |es|
  {
    if es != [] {
      UpsertAllLength(rs, es[..|es| - 1]);
      if CvIdsDistinct(rs) {
        UpsertKeepsDistinct(UpsertAll(rs, es[..|es| - 1]), es[|es| - 1]);
      }
    }
  }

  /** Two incoming CVs with the same new id in one upload: only the later
      one is kept. */
  lemma RepeatedIdInOneUpload(rs: seq<ResumeEntry>, a: ResumeEntry, b: ResumeEntry)
    requires CvIdOf(a) == CvIdOf(b)
    requires FindByCvId(rs, CvIdOf(a)) == -1
    ensures UpsertAll(rs, [a, b]) == rs + [b]
  {
    assert [a, b][..1] == [a];
    assert [a][..0] == [];
    assert UpsertAll(rs, [a]) == Upsert(rs, a) == rs + [a];
    FindAppended(rs, a, CvIdOf(a));
    assert Upsert(rs + [a], b) == (rs + [a])[|rs| := b];
    assert (rs + [a])[|rs| := b] == rs + [b];
  }

  lemma {:induction false} FindAppended(rs: seq<ResumeEntry>, e: ResumeEntry, id: Option<int>)
    requires FindByCvId(rs, id) == -1 && CvIdOf(e) == id
    ensures FindByCvId(rs + [e], id) == |rs|
    decreases |rs|
  {
    if rs != [] {
      assert (rs + [e])[1..] == rs[1..] + [e];
      FindAppended(rs[1..], e, id);
    }
  }

  /* ================= clearBatch ================= */

  /** `clearBatch`: the first batch (if any) gets an empty resume list and
      is saved; with no batch at all the handler still succeeds. */
  function ClearBatch(batches: seq<Batch>): (r: Result<seq<Batch>, UploadError>)
    ensures batches == [] ==> r == Success([])
    ensures r.Success? && batches != [] ==>
              r.value == batches[0 := batches[0].(resumes := [])]
    ensures batches != [] ==> (r.Success? <==> ValidBatch(batches[0]))
  {
    if batches == [] then Success([])
    else
      var b := batches[0].(resumes := []);
      if ValidBatch(b) then Success(batches[0 := b]) else Failure(ServerError)
  }

  /** Clearing twice is the same as clearing once. */
  lemma ClearBatchIdempotent(batches: seq<Batch>)
    requires ClearBatch(batches).Success?
    ensures ClearBatch(ClearBatch(batches).value) == ClearBatch(batches)
    ensures batches != [] ==> ClearBatch(batches).value[0].resumes == []
  {
    if batches != [] {
      var once := ClearBatch(batches).value;
      assert once[0] == batches[0].(resumes := []);
      assert once[0].(resumes := []) == once[0];
      assert once[0 := once[0]] == once;
    }
  }
}

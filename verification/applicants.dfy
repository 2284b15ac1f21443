/** The Applicant model (models/applicant.js) and the applicant handlers
    (controllers/applicant.controller.js): portal applications, bulk
    candidates created from analysed batches, and status updates. The
    applicant collection is a sequence in insertion order, which is also
    the order `findOne` scans it in. */
module Applicants {
  import opened Wrappers
  import opened Text
  import opened Json
  import opened Records
  import opened Batches

  const Sources: set<string> := {"Portal", "Bulk"}
  const ResumeModels: set<string> := {"StdResume", "EmployeeResume", "BulkResume"}
  const Statuses: set<string> := {"Applied", "Reviewed", "Shortlisted", "Rejected", "Hired"}

  /** The six flags `updateApplicantStatus` writes next to the status. */
  datatype StatusFlags = StatusFlags(
    isShortlisted: bool,
    isInterviewed: bool,
    isRejected: bool,
    isHired: bool,
    isReviewed: bool,
    isApplied: bool)

  datatype Applicant = Applicant(
    id: Ref,
    userId: Option<Ref>,
    jobId: Option<Ref>,
    resumeId: Option<Ref>,
    resumeModel: Option<string>,
    source: string,
    resumeUrl: Option<string>,
    extractedData: Option<Json>,
    status: Option<string>,
    appliedAt: Stamp,
    score: Option<real>,
    flags: Option<StatusFlags>,
    deletion: Deletion)

  /* ================= schema ================= */

  /** The schema validators: jobId and source always required, userId,
      resumeId and resumeModel required when the source is Portal, and the
      three enums. */
  predicate ValidApplicant(a: Applicant) {
    && a.jobId.Some?
    && a.source in Sources
    && (a.source == "Portal" ==> a.userId.Some? && a.resumeId.Some? && Present(a.resumeModel))
    && (a.resumeModel.Some? ==> a.resumeModel.value in ResumeModels)
    && (a.status.Some? ==> a.status.value in Statuses)
  }

  /** A new document: source defaults to Portal, status to Applied, and the
      deletion fields to not deleted. */
  function NewApplicant(id: Ref, userId: Option<Ref>, jobId: Option<Ref>, resumeId: Option<Ref>,
                        resumeModel: Option<string>, source: Option<string>, resumeUrl: Option<string>,
                        extractedData: Option<Json>, score: Option<real>, now: Stamp): (a: Applicant)
    ensures a.source == source.GetOr("Portal")
    ensures a.status == Some("Applied")
    ensures !a.deletion.isDeleted && a.deletion.deletedAt.None? && a.deletion.deletedBy.None?
    ensures a.userId == userId && a.jobId == jobId && a.resumeId == resumeId && a.resumeModel == resumeModel
    ensures a.extractedData == extractedData && a.score == score && a.flags.None?
  {
    Applicant(id, userId, jobId, resumeId, resumeModel, source.GetOr("Portal"), resumeUrl,
              extractedData, Some("Applied"), now, score, None, NotDeleted)
  }

  /** The paths Mongoose reports as failing validation. userId, resumeId
      and resumeModel are required exactly for portal applicants, and the
      status enum leaves out "Interviewed". */
  function ValidationErrors(a: Applicant): (errs: set<string>)
    ensures errs == {} <==> ValidApplicant(a)
    ensures a.jobId.Some? && a.source == "Bulk" && a.resumeModel.None? && a.status.None? ==> errs == {}
    ensures "userId" in errs <==> a.source == "Portal" && a.userId.None?
    ensures "resumeId" in errs <==> a.source == "Portal" && a.resumeId.None?
    ensures a.source == "Portal" && !Present(a.resumeModel) ==> "resumeModel" in errs
    ensures a.status == Some("Interviewed") ==> "status" in errs
  {
    (if a.jobId.None? then {"jobId"} else {})
    + (if a.source !in Sources then {"source"} else {})
    + (if a.source == "Portal" && a.userId.None? then {"userId"} else {})
    + (if a.source == "Portal" && a.resumeId.None? then {"resumeId"} else {})
    + (if (a.source == "Portal" && !Present(a.resumeModel)) || (a.resumeModel.Some? && a.resumeModel.value !in ResumeModels)
       then {"resumeModel"} else {})
    + (if a.status.Some? && a.status.value !in Statuses then {"status"} else {})
  }

  /** The compound unique index. It is declared sparse, but jobId, source
      and isDeleted are always set, so every document is indexed and a
      missing userId counts as a value of its own. */
  datatype Key = Key(userId: Option<Ref>, jobId: Option<Ref>, source: string, isDeleted: bool)

  function KeyOf(a: Applicant): Key {
    Key(a.userId, a.jobId, a.source, a.deletion.isDeleted)
  }

  predicate KeysUnique(apps: seq<Applicant>) {
    forall i, j :: 0 <= i < j < |apps| ==> KeyOf(apps[i]) != KeyOf(apps[j])
  }

  /** `save()` of a new document: validation, then the unique index. */
  function Insert(apps: seq<Applicant>, a: Applicant): (r: Result<seq<Applicant>, SaveError>)
    ensures r.Success? <==> ValidApplicant(a) && forall i :: 0 <= i < |apps| ==> KeyOf(apps[i]) != KeyOf(a)
    ensures r.Success? ==> r.value == apps + [a]
    ensures r == Failure(DuplicateKey) ==> exists i :: 0 <= i < |apps| && KeyOf(apps[i]) == KeyOf(a)
    ensures KeysUnique(apps) && r.Success? ==> KeysUnique(r.value)
  {
    if !ValidApplicant(a) then Failure(ValidationError)
    else if exists i :: 0 <= i < |apps| && KeyOf(apps[i]) == KeyOf(a) then Failure(DuplicateKey)
    else Success(apps + [a])
  }

  /** `save()` of the document at position `k` after it was changed to `a`:
      validation, then the unique index against the other documents. */
  function SaveAt(apps: seq<Applicant>, k: nat, a: Applicant): (r: Result<seq<Applicant>, SaveError>)
    requires k < |apps|
    ensures r.Success? <==> ValidApplicant(a) && forall i :: 0 <= i < |apps| && i != k ==> KeyOf(apps[i]) != KeyOf(a)
    ensures r.Success? ==> r.value == apps[k := a]
    ensures KeysUnique(apps) && r.Success? ==> KeysUnique(r.value)
  {
    if !ValidApplicant(a) then Failure(ValidationError)
    else if exists i :: 0 <= i < |apps| && i != k && KeyOf(apps[i]) == KeyOf(a) then Failure(DuplicateKey)
    else Success(apps[k := a])
  }

  /** `softDelete(userId)` on the document: the three deletion fields and
      nothing else. */
  function SoftDelete(a: Applicant, actor: Option<Ref>, now: Stamp): (r: Applicant)
    ensures r.deletion.isDeleted && r.deletion.deletedAt == Some(now) && r.deletion.deletedBy == actor
    ensures r.(deletion := a.deletion) == a
    ensures KeyOf(r) == KeyOf(a).(isDeleted := true)
  {
    a.(deletion := Deleted(now, actor))
  }

  /** `softDelete` followed by its `save()`: a document that is already
      deleted, or whose deleted twin already exists, makes the unique index
      refuse the save. */
  function SoftDeleteAt(apps: seq<Applicant>, k: nat, actor: Option<Ref>, now: Stamp): (r: Result<seq<Applicant>, SaveError>)
    requires k < |apps| && ValidApplicant(apps[k])
    ensures r.Success? <==> forall i :: 0 <= i < |apps| && i != k ==> KeyOf(apps[i]) != KeyOf(apps[k]).(isDeleted := true)
    ensures r.Success? ==> |r.value| == |apps| && forall i :: 0 <= i < |apps| && i != k ==> r.value[i] == apps[i]
    ensures KeysUnique(apps) && r.Success? ==> KeysUnique(r.value)
  {
    SaveAt(apps, k, SoftDelete(apps[k], actor, now))
  }

  /* ================= shared reads ================= */

  /** A reference greater than every id and userId in the collection:
      a `new ObjectId()` never collides with an existing one. */
  function FreshRef(apps: seq<Applicant>): (r: Ref)
    ensures forall i :: 0 <= i < |apps| ==> apps[i].id < r
    ensures forall i :: 0 <= i < |apps| && apps[i].userId.Some? ==> apps[i].userId.value < r
  {
    if apps == [] then 1
    else
      var rest := FreshRef(apps[1..]);
      var a := apps[0];
      var top := if a.userId.Some? && a.userId.value >= a.id then a.userId.value else a.id;
      if top + 1 > rest then top + 1 else rest
  }

  /** `extractedData.personalInfo.email` as stored on an applicant. */
  function StoredEmail(a: Applicant): Option<Json> {
    GetOpt(GetOpt(a.extractedData, "personalInfo"), "email")
  }

  /** A stored string equal to `email`, lowercased first when `foldCase`. */
  predicate EmailIs(v: Json, email: string, foldCase: bool) {
    v.JStr? && (if foldCase then Lower(v.str) else v.str) == email
  }

  /** Mongo's match of the query `{"extractedData.personalInfo.email": email}`
      against one document: the stored value equals the string, or it is an
      array one of whose elements does. The lookups as written compare
      exactly; with `foldCase` stored strings are lowercased first. */
  predicate Matches(a: Applicant, email: string, foldCase: bool) {
    var s := StoredEmail(a);
    s.Some? && (EmailIs(s.value, email, foldCase)
                || (s.value.JArr? && exists j :: 0 <= j < |s.value.items| && EmailIs(s.value.items[j], email, foldCase)))
  }

  /** `data?.personalInfo?.email?.toLowerCase()`: undefined when a link of
      the chain is null or undefined, the lowercased email for a string,
      and a TypeError for any other value, whose `toLowerCase` is not a
      function. */
  function EmailRead(data: Option<Json>): (r: Result<Option<string>, string>)
    ensures r.Success? && r.value.Some? ==> IsLower(r.value.value)
    ensures var raw := GetOpt(GetOpt(data, "personalInfo"), "email");
            (r.Success? && r.value.Some? <==> raw.Some? && raw.value.JStr?)
            && (raw.Some? && raw.value.JStr? ==> r == Success(Some(Lower(raw.value.str))))
            && (r.Failure? <==> !Nullish(raw) && !raw.value.JStr?)
  {
    var raw := GetOpt(GetOpt(data, "personalInfo"), "email");
    if Nullish(raw) then Success(None)
    else if raw.value.JStr? then Success(Some(Lower(raw.value.str)))
    else Failure("toLowerCase is not a function")
  }

  /* ================= createApplicant ================= */

  datatype CreateResponse =
    | CreateRejected(status: int, message: string)
    | Created(apps: seq<Applicant>, applicant: Applicant)

  const PortalModels: set<string> := {"StdResume", "EmployeeResume"}

  /** `findOne({ userId, jobId })`: an application of this user to this job,
      of any source and deletion state. */
  predicate AlreadyApplied(apps: seq<Applicant>, userId: Ref, jobId: Ref) {
    exists i :: 0 <= i < |apps| && apps[i].userId == Some(userId) && apps[i].jobId == Some(jobId)
  }

  /** The portal application handler. */
  function CreateApplicant(userId: Option<Ref>, jobId: Option<Ref>, resumeId: Option<Ref>,
                           resumeModel: Option<string>, apps: seq<Applicant>, now: Stamp): (r: CreateResponse)
    ensures r.CreateRejected? ==> r.status == 400
    ensures userId.None? || jobId.None? || resumeId.None? || !Present(resumeModel) ==> r == CreateRejected(400, "userId, jobId, resumeId, and resumeModel are required")
    ensures r.Created? <==> userId.Some? && jobId.Some? && resumeId.Some? && resumeModel.Some?
                            && resumeModel.value in PortalModels && !AlreadyApplied(apps, userId.value, jobId.value)
    ensures r.Created? ==> r.apps == apps + [r.applicant] && ValidApplicant(r.applicant)
    ensures r.Created? ==> var a := r.applicant;
                           a.source == "Portal" && a.status == Some("Applied") && !a.deletion.isDeleted
                           && a.userId == userId && a.jobId == jobId && a.resumeId == resumeId && a.resumeModel == resumeModel
    ensures KeysUnique(apps) && r.Created? ==> KeysUnique(r.apps)
  {
    if userId.None? || jobId.None? || resumeId.None? || !Present(resumeModel) then
      CreateRejected(400, "userId, jobId, resumeId, and resumeModel are required")
    else if resumeModel.value !in PortalModels then
      CreateRejected(400, "resumeModel must be either 'StdResume' or 'EmployeeResume'")
    else if AlreadyApplied(apps, userId.value, jobId.value) then
      CreateRejected(400, "You have already applied for this job")
    else
      var a := NewApplicant(FreshRef(apps), userId, jobId, resumeId, resumeModel, None, None, None, None, now);
      match Insert(apps, a)
      case Success(apps') => Created(apps', a)
      case Failure(DuplicateKey) => CreateRejected(400, "You have already applied for this job")
      case Failure(ValidationError) => CreateRejected(500, "Applicant validation failed")
  }

  /* ================= createBulkApplicant ================= */

  /** The handler never creates anything: every path ends in a 400 or, on
      the create branch, in the ReferenceError raised by its undeclared
      `resume`, answered with 500. */
  datatype BulkResponse = BulkRejected(status: nat, message: string)

  /** `findOne({ jobId, source: "Portal" })`: the first portal applicant of
      the job, if any. */
  function FirstPortal(apps: seq<Applicant>, jobId: Ref): (r: Option<Applicant>)
    ensures r.Some? ==> r.value in apps && r.value.jobId == Some(jobId) && r.value.source == "Portal"
    ensures r.None? <==> forall i :: 0 <= i < |apps| ==> !(apps[i].jobId == Some(jobId) && apps[i].source == "Portal")
  {
    if apps == [] then None
    else if apps[0].jobId == Some(jobId) && apps[0].source == "Portal" then Some(apps[0])
    else FirstPortal(apps[1..], jobId)
  }

  /** `portalExists.userId?.email?.toLowerCase() === email`, with the
      populated user's email given by `userEmail`. */
  predicate PortalMatch(portal: Option<Applicant>, userEmail: Ref -> Option<string>, email: string) {
    portal.Some? && portal.value.userId.Some?
    && userEmail(portal.value.userId.value).Some?
    && Lower(userEmail(portal.value.userId.value).value) == email
  }

  /** `findOne({ jobId, source: "Bulk", "extractedData.personalInfo.email": email })`
      finds a document. */
  predicate BulkListed(apps: seq<Applicant>, jobId: Ref, email: string) {
    exists i :: 0 <= i < |apps| && apps[i].jobId == Some(jobId) && apps[i].source == "Bulk"
                && Matches(apps[i], email, false)
  }

  function CreateBulkApplicant(jobId: Option<Ref>, extractedData: Option<Json>, apps: seq<Applicant>,
                               userEmail: Ref -> Option<string>): (r: BulkResponse)
    ensures r.status == 400 || r.status == 500
    ensures jobId.None? ==> r == BulkRejected(400, "jobId is required")
    ensures jobId.Some? && EmailRead(extractedData).Failure? ==> r.status == 500
    ensures jobId.Some? && EmailRead(extractedData) == Success(None) ==> r == BulkRejected(400, "Bulk candidate email is required")
    ensures r.status == 400 <==>
              jobId.None? || (EmailRead(extractedData).Success? &&
                (var e := EmailRead(extractedData).value;
                 e.None? || e.value == "" || PortalMatch(FirstPortal(apps, jobId.value), userEmail, e.value)
                 || BulkListed(apps, jobId.value, e.value)))
  {
    if jobId.None? then BulkRejected(400, "jobId is required")
    else match EmailRead(extractedData)
      case Failure(m) => BulkRejected(500, m)
      case Success(e) =>
        if e.None? || e.value == "" then BulkRejected(400, "Bulk candidate email is required")
        else if PortalMatch(FirstPortal(apps, jobId.value), userEmail, e.value) then
          BulkRejected(400, "This candidate already applied via portal")
        else if BulkListed(apps, jobId.value, e.value) then
          BulkRejected(400, "This bulk candidate is already in pipeline")
        else BulkRejected(500, "resume is not defined")
  }

  /** Only the first portal applicant of the job is compared: an earlier
      portal applicant with another email hides a later one with this
      email, and the request falls through to the create branch. */
  lemma PortalCheckSeesFirstOnly()
    ensures var first := Applicant(1, Some(10), Some(7), Some(20), Some("StdResume"), "Portal", None, None,
                                   Some("Applied"), 0, None, None, NotDeleted);
            var second := first.(id := 2, userId := Some(11));
            var emails := (u: Ref) => if u == 10 then Some("a@x") else Some("b@x");
            var data := Some(JObj(map["personalInfo" := JObj(map["email" := JStr("b@x")])]));
            CreateBulkApplicant(Some(7), data, [first, second], emails) == BulkRejected(500, "resume is not defined")
  {
    var data := Some(JObj(map["personalInfo" := JObj(map["email" := JStr("b@x")])]));
    assert Lower("b@x") == "b@x" by { LowerFixesLowercase("b@x"); }
    assert Lower("a@x") == "a@x" by { LowerFixesLowercase("a@x"); }
  }

  /* ================= createBulkApplicantsFromBatch ================= */

  /** The run so far: the collection, the applicants created, and whether
      a TypeError ended the loop (what was created before it stays). */
  datatype BulkRun = BulkRun(apps: seq<Applicant>, created: seq<Applicant>, thrown: bool)

  /** `resume.extractedData`: only the analyzer's payloads carry it; the
      batch upload's summaries have none. */
  function ExtractedOf(e: ResumeEntry): Option<Json> {
    if e.Scored? then Some(e.extractedData) else None
  }

  /** `findOne({ jobId, "extractedData.personalInfo.email": email })`:
      an applicant of the job of any source and deletion state. */
  predicate Registered(apps: seq<Applicant>, jobId: Ref, email: string, foldCase: bool) {
    exists i :: 0 <= i < |apps| && apps[i].jobId == Some(jobId) && Matches(apps[i], email, foldCase)
  }

  /** The applicant created for a resume: source Bulk, status Applied,
      resume model BulkResume, the resume's extracted data and
      `analysis.score || 0`. Two ObjectIds are drawn: the handler's
      `new ObjectId()` for userId and Mongoose's own for `_id`, taken here
      as `newRef + 1` and `newRef`. Neither shape of resume entry has a
      `resumeUrl` or a `cv.url`, so the URL is unset. */
  function BulkApplicant(newRef: Ref, jobId: Ref, e: ResumeEntry, now: Stamp): (a: Applicant)
    ensures a.source == "Bulk" && a.status == Some("Applied") && a.resumeModel == Some("BulkResume")
    ensures a.jobId == Some(jobId) && a.id == newRef && a.userId == Some(newRef + 1) && a.userId != Some(a.id)
    ensures a.extractedData == ExtractedOf(e) && a.score == Some(ScoreOf(e))
    ensures ValidApplicant(a) && !a.deletion.isDeleted
  {
    NewApplicant(newRef, Some(newRef + 1), Some(jobId), None, Some("BulkResume"), Some("Bulk"), None,
                 ExtractedOf(e), Some(ScoreOf(e)), now)
  }

  /** One iteration of the loop over the batch's resumes. */
  function BulkStep(r: BulkRun, e: ResumeEntry, jobId: Ref, now: Stamp, foldCase: bool): BulkRun {
    if r.thrown then r
    else
      var read := EmailRead(ExtractedOf(e));
      if read.Failure? then r.(thrown := true)
      else if read.value.None? || read.value.value == "" then r
      else if Registered(r.apps, jobId, read.value.value, foldCase) then r
      else
        var a := BulkApplicant(FreshRef(r.apps), jobId, e, now);
        BulkRun(r.apps + [a], r.created + [a], false)
  }

  /** The state after the first `n` resumes. */
  function BulkPrefix(rs: seq<ResumeEntry>, n: nat, jobId: Ref, apps: seq<Applicant>, now: Stamp, foldCase: bool): BulkRun
    requires n <= |rs|
  {
    if n == 0 then BulkRun(apps, [], false)
    else BulkStep(BulkPrefix(rs, n - 1, jobId, apps, now, foldCase), rs[n - 1], jobId, now, foldCase)
  }

  /** The loop over a whole batch; a null batch gives `[]`. The only caller
      passes batches found by their jobId, so a batch has one. */
  function BulkRunOf(batch: Option<Batch>, apps: seq<Applicant>, now: Stamp, foldCase: bool): BulkRun
    requires batch.Some? ==> batch.value.jobId.Some?
  {
    if batch.None? then BulkRun(apps, [], false)
    else BulkPrefix(batch.value.resumes, |batch.value.resumes|, batch.value.jobId.value, apps, now, foldCase)
  }

  /** `createBulkApplicantsFromBatch` as written: the collection after the
      run, and `Success(created)` or the TypeError that rejected the
      promise. */
  function CreateBulkApplicantsFromBatch(batch: Option<Batch>, apps: seq<Applicant>, now: Stamp)
    : (r: (seq<Applicant>, Result<seq<Applicant>, string>))
    requires batch.Some? ==> batch.value.jobId.Some?
    ensures batch.None? ==> r == (apps, Success([]))
    ensures var run := BulkRunOf(batch, apps, now, false);
            r.0 == apps + run.created && (r.1.Success? <==> !run.thrown)
            && (r.1.Success? ==> r.1.value == run.created)
  {
    var run := BulkRunOf(batch, apps, now, false);
    BulkRunGrows(batch, apps, now, false);
    (run.apps, if run.thrown then Failure("toLowerCase is not a function") else Success(run.created))
  }

  /** The same loop with the lookup comparing emails case-insensitively. */
  function CreateBulkApplicantsCaseless(batch: Option<Batch>, apps: seq<Applicant>, now: Stamp)
    : (r: (seq<Applicant>, Result<seq<Applicant>, string>))
    requires batch.Some? ==> batch.value.jobId.Some?
    ensures batch.None? ==> r == (apps, Success([]))
    ensures var run := BulkRunOf(batch, apps, now, true);
            r.0 == apps + run.created && (r.1.Success? <==> !run.thrown)
            && (r.1.Success? ==> r.1.value == run.created)
  {
    var run := BulkRunOf(batch, apps, now, true);
    BulkRunGrows(batch, apps, now, true);
    (run.apps, if run.thrown then Failure("toLowerCase is not a function") else Success(run.created))
  }

  /* ---------------- what a run creates ---------------- */

  /** What every created applicant looks like. */
  predicate BulkShaped(a: Applicant, jobId: Ref) {
    a.source == "Bulk" && a.status == Some("Applied") && a.resumeModel == Some("BulkResume")
    && a.jobId == Some(jobId) && ValidApplicant(a) && !a.deletion.isDeleted
  }

  /** The collection only grows, by exactly the created applicants, each of
      the bulk shape, and the unique index keeps holding. */
  lemma {:induction false} BulkPrefixGrows(rs: seq<ResumeEntry>, n: nat, jobId: Ref, apps: seq<Applicant>, now: Stamp, foldCase: bool)
    requires n <= |rs|
    ensures var r := BulkPrefix(rs, n, jobId, apps, now, foldCase);
            r.apps == apps + r.created
            && (forall i :: 0 <= i < |r.created| ==> BulkShaped(r.created[i], jobId))
            && (KeysUnique(apps) ==> KeysUnique(r.apps))
  {
    if n > 0 {
      BulkPrefixGrows(rs, n - 1, jobId, apps, now, foldCase);
      var p := BulkPrefix(rs, n - 1, jobId, apps, now, foldCase);
      StepGrows(p, rs[n - 1], jobId, apps, now, foldCase);
    }
  }

  lemma StepGrows(p: BulkRun, e: ResumeEntry, jobId: Ref, apps: seq<Applicant>, now: Stamp, foldCase: bool)
    requires p.apps == apps + p.created
    requires forall i :: 0 <= i < |p.created| ==> BulkShaped(p.created[i], jobId)
    ensures var r := BulkStep(p, e, jobId, now, foldCase);
            r.apps == apps + r.created
            && (forall i :: 0 <= i < |r.created| ==> BulkShaped(r.created[i], jobId))
            && (KeysUnique(p.apps) ==> KeysUnique(r.apps))
  {
    var r := BulkStep(p, e, jobId, now, foldCase);
    if r != p && !r.thrown {
      var a := BulkApplicant(FreshRef(p.apps), jobId, e, now);
      assert r.apps == p.apps + [a] && r.created == p.created + [a];
      if KeysUnique(p.apps) {
        assert forall i :: 0 <= i < |p.apps| ==> KeyOf(p.apps[i]) != KeyOf(a);
      }
    }
  }

  lemma BulkRunGrows(batch: Option<Batch>, apps: seq<Applicant>, now: Stamp, foldCase: bool)
    requires batch.Some? ==> batch.value.jobId.Some?
    ensures var r := BulkRunOf(batch, apps, now, foldCase);
            r.apps == apps + r.created
            && (batch.Some? ==> forall i :: 0 <= i < |r.created| ==> BulkShaped(r.created[i], batch.value.jobId.value))
            && (KeysUnique(apps) ==> KeysUnique(r.apps))
  {
    if batch.Some? {
      BulkPrefixGrows(batch.value.resumes, |batch.value.resumes|, batch.value.jobId.value, apps, now, foldCase);
    }
  }

  /** The created applicants, and all bulk applicants of a batch, respect
      the schema and the unique index. */
  lemma BulkRunKeepsIndex(batch: Option<Batch>, apps: seq<Applicant>, now: Stamp)
    requires batch.Some? ==> batch.value.jobId.Some?
    requires KeysUnique(apps)
    ensures var (apps', _) := CreateBulkApplicantsFromBatch(batch, apps, now);
            KeysUnique(apps') && forall i :: |apps| <= i < |apps'| ==> ValidApplicant(apps'[i]) && apps'[i].source == "Bulk"
  {
    BulkRunGrows(batch, apps, now, false);
  }

  /** No document carries, as its id, the userId of an applicant the run
      created: `findById` with such a userId finds nothing. */
  lemma CreatedUserIdsAreNoIds(rs: seq<ResumeEntry>, n: nat, jobId: Ref, apps: seq<Applicant>, now: Stamp, foldCase: bool)
    requires n <= |rs|
    ensures var r := BulkPrefix(rs, n, jobId, apps, now, foldCase);
            forall i :: 0 <= i < |r.created| ==> r.created[i].userId.Some? && FindById(r.apps, r.created[i].userId.value) == -1
  {
    PrefixUserIdsFree(rs, n, jobId, apps, now, foldCase);
  }

  /** Every created applicant has a userId that no document has as its id. */
  predicate UserIdsFree(docs: seq<Applicant>, created: seq<Applicant>) {
    forall i :: 0 <= i < |created| ==>
      created[i].userId.Some? && forall j :: 0 <= j < |docs| ==> docs[j].id != created[i].userId.value
  }

  lemma {:induction false} PrefixUserIdsFree(rs: seq<ResumeEntry>, n: nat, jobId: Ref, apps: seq<Applicant>, now: Stamp, foldCase: bool)
    requires n <= |rs|
    ensures var r := BulkPrefix(rs, n, jobId, apps, now, foldCase);
            UserIdsFree(r.apps, r.created)
  {
    if n > 0 {
      PrefixUserIdsFree(rs, n - 1, jobId, apps, now, foldCase);
      BulkPrefixGrows(rs, n - 1, jobId, apps, now, foldCase);
      StepKeepsUserIdsFree(BulkPrefix(rs, n - 1, jobId, apps, now, foldCase), rs[n - 1], jobId, apps, now, foldCase);
    }
  }

  lemma StepKeepsUserIdsFree(p: BulkRun, e: ResumeEntry, jobId: Ref, apps: seq<Applicant>, now: Stamp, foldCase: bool)
    requires p.apps == apps + p.created && UserIdsFree(p.apps, p.created)
    ensures var r := BulkStep(p, e, jobId, now, foldCase);
            UserIdsFree(r.apps, r.created)
  {
    var r := BulkStep(p, e, jobId, now, foldCase);
    if r.created != p.created {
      var a := BulkApplicant(FreshRef(p.apps), jobId, e, now);
      assert r.apps == p.apps + [a] && r.created == p.created + [a];
      StepUserIdsFree(apps, p.created, a);
    }
  }

  /** Appending an applicant whose id is drawn by FreshRef and whose userId
      lies just above it keeps every userId free. */
  lemma StepUserIdsFree(base: seq<Applicant>, created: seq<Applicant>, a: Applicant)
    requires UserIdsFree(base + created, created)
    requires a.id == FreshRef(base + created) && a.userId == Some(a.id + 1)
    ensures UserIdsFree(base + created + [a], created + [a])
  {
    var docs := base + created;
    forall i | 0 <= i < |created| ensures created[i].userId.value < a.id {
      assert docs[|base| + i] == created[i];
    }
    var docs' := docs + [a];
    var created' := created + [a];
    forall i, j | 0 <= i < |created'| && 0 <= j < |docs'|
      ensures created'[i].userId.Some? && docs'[j].id != created'[i].userId.value
    {
      if i < |created| {
        assert created'[i] == created[i];
      }
      if j < |docs| {
        assert docs'[j] == docs[j];
      }
    }
  }

  /* ---------------- coverage and re-runs ---------------- */

  /** The email a resume offers, before lowercasing. */
  function RawEmail(e: ResumeEntry): Option<Json> {
    GetOpt(GetOpt(ExtractedOf(e), "personalInfo"), "email")
  }

  /** Every email a resume offers is already in lower case. */
  predicate LowerEmails(rs: seq<ResumeEntry>) {
    forall j :: 0 <= j < |rs| && RawEmail(rs[j]).Some? && RawEmail(rs[j]).value.JStr?
      ==> IsLower(RawEmail(rs[j]).value.str)
  }

  /** After the loop has passed resume `e` without throwing, an applicant of
      the job is found by the lookup for its email. */
  predicate Covered(apps: seq<Applicant>, e: ResumeEntry, jobId: Ref, foldCase: bool) {
    var read := EmailRead(ExtractedOf(e));
    read.Success? && read.value.Some? && read.value.value != "" ==> Registered(apps, jobId, read.value.value, foldCase)
  }

  lemma RegisteredGrows(apps: seq<Applicant>, more: seq<Applicant>, jobId: Ref, email: string, foldCase: bool)
    requires Registered(apps, jobId, email, foldCase)
    ensures Registered(apps + more, jobId, email, foldCase)
  {
    var i :| 0 <= i < |apps| && apps[i].jobId == Some(jobId) && Matches(apps[i], email, foldCase);
    assert (apps + more)[i] == apps[i];
  }

  /** A thrown TypeError ends the loop for good. */
  lemma {:induction false} ThrownStays(rs: seq<ResumeEntry>, j: nat, n: nat, jobId: Ref, apps: seq<Applicant>, now: Stamp, foldCase: bool)
    requires j <= n <= |rs|
    requires BulkPrefix(rs, j, jobId, apps, now, foldCase).thrown
    ensures BulkPrefix(rs, n, jobId, apps, now, foldCase) == BulkPrefix(rs, j, jobId, apps, now, foldCase)
    decreases n - j
  {
    if j < n {
      ThrownStays(rs, j, n - 1, jobId, apps, now, foldCase);
    }
  }

  /** The step that passes resume `e` leaves it covered: either the lookup
      already found it, or the applicant just created stores its email,
      which the lookup finds when it folds case or the email was
      lowercase. */
  lemma StepCovers(p: BulkRun, e: ResumeEntry, jobId: Ref, now: Stamp, foldCase: bool)
    requires foldCase || (RawEmail(e).Some? && RawEmail(e).value.JStr? ==> IsLower(RawEmail(e).value.str))
    requires !BulkStep(p, e, jobId, now, foldCase).thrown
    ensures Covered(BulkStep(p, e, jobId, now, foldCase).apps, e, jobId, foldCase)
  {
    var r := BulkStep(p, e, jobId, now, foldCase);
    var read := EmailRead(ExtractedOf(e));
    if read.Success? && read.value.Some? && read.value.value != "" && !Registered(p.apps, jobId, read.value.value, foldCase) {
      var a := BulkApplicant(FreshRef(p.apps), jobId, e, now);
      assert r.apps == p.apps + [a];
      var o := RawEmail(e).value.str;
      assert StoredEmail(a) == RawEmail(e);
      if !foldCase {
        LowerFixesLowercase(o);
      }
      assert Matches(a, read.value.value, foldCase);
      assert r.apps[|p.apps|] == a;
    }
  }

  /** Every resume the loop has passed without throwing is covered by the
      collection after the first `n` resumes. */
  lemma {:induction false} PrefixCovers(rs: seq<ResumeEntry>, n: nat, jobId: Ref, apps: seq<Applicant>, now: Stamp, foldCase: bool)
    requires n <= |rs|
    requires foldCase || LowerEmails(rs)
    ensures forall j :: 0 <= j < n && !BulkPrefix(rs, j + 1, jobId, apps, now, foldCase).thrown
              ==> Covered(BulkPrefix(rs, n, jobId, apps, now, foldCase).apps, rs[j], jobId, foldCase)
  {
    if n > 0 {
      PrefixCovers(rs, n - 1, jobId, apps, now, foldCase);
      var p := BulkPrefix(rs, n - 1, jobId, apps, now, foldCase);
      var r := BulkPrefix(rs, n, jobId, apps, now, foldCase);
      assert r == BulkStep(p, rs[n - 1], jobId, now, foldCase);
      StepExtends(p, rs[n - 1], jobId, now, foldCase);
      forall j | 0 <= j < n && !BulkPrefix(rs, j + 1, jobId, apps, now, foldCase).thrown
        ensures Covered(r.apps, rs[j], jobId, foldCase)
      {
        if j < n - 1 {
          CoveredGrows(p.apps, r.apps[|p.apps|..], rs[j], jobId, foldCase);
        } else {
          StepCovers(p, rs[n - 1], jobId, now, foldCase);
        }
      }
    }
  }

  /** A step only appends to the collection. */
  lemma StepExtends(p: BulkRun, e: ResumeEntry, jobId: Ref, now: Stamp, foldCase: bool)
    ensures var r := BulkStep(p, e, jobId, now, foldCase);
            |p.apps| <= |r.apps| && r.apps == p.apps + r.apps[|p.apps|..]
  {
    var r := BulkStep(p, e, jobId, now, foldCase);
    if r.apps == p.apps {
      assert r.apps[|p.apps|..] == [];
    }
  }

  /** Appending applicants keeps a resume covered. */
  lemma CoveredGrows(apps: seq<Applicant>, more: seq<Applicant>, e: ResumeEntry, jobId: Ref, foldCase: bool)
    requires Covered(apps, e, jobId, foldCase)
    ensures Covered(apps + more, e, jobId, foldCase)
  {
    var read := EmailRead(ExtractedOf(e));
    if read.Success? && read.value.Some? && read.value.value != "" {
      RegisteredGrows(apps, more, jobId, read.value.value, foldCase);
    }
  }

  /** The second run over the same resumes agrees with the first on where
      it throws, and creates nothing. */
  lemma {:induction false} RerunPrefix(rs: seq<ResumeEntry>, n: nat, jobId: Ref, apps: seq<Applicant>, now: Stamp, now2: Stamp, foldCase: bool)
    requires n <= |rs|
    requires foldCase || LowerEmails(rs)
    ensures var first := BulkPrefix(rs, |rs|, jobId, apps, now, foldCase).apps;
            var second := BulkPrefix(rs, n, jobId, first, now2, foldCase);
            second == BulkRun(first, [], BulkPrefix(rs, n, jobId, apps, now, foldCase).thrown)
  {
    var first := BulkPrefix(rs, |rs|, jobId, apps, now, foldCase).apps;
    if n > 0 {
      RerunPrefix(rs, n - 1, jobId, apps, now, now2, foldCase);
      PrefixCovers(rs, |rs|, jobId, apps, now, foldCase);
      var p1 := BulkPrefix(rs, n - 1, jobId, apps, now, foldCase);
      var r1 := BulkPrefix(rs, n, jobId, apps, now, foldCase);
      if !r1.thrown {
        assert Covered(first, rs[n - 1], jobId, foldCase);
      }
    }
  }

  /** Running the loop twice over the same batch: the second run creates
      nothing and leaves the collection as the first left it, provided the
      emails the resumes carry are already lowercase. */
  lemma RerunCreatesNothing(batch: Batch, apps: seq<Applicant>, now: Stamp, now2: Stamp)
    requires batch.jobId.Some? && LowerEmails(batch.resumes)
    ensures var (first, _) := CreateBulkApplicantsFromBatch(Some(batch), apps, now);
            var (second, out) := CreateBulkApplicantsFromBatch(Some(batch), first, now2);
            second == first && (out.Success? ==> out.value == [])
  {
    RerunPrefix(batch.resumes, |batch.resumes|, batch.jobId.value, apps, now, now2, false);
  }

  /** With the case-insensitive lookup the second run creates nothing
      whatever the case of the emails. */
  lemma CaselessRerunCreatesNothing(batch: Batch, apps: seq<Applicant>, now: Stamp, now2: Stamp)
    requires batch.jobId.Some?
    ensures var (first, _) := CreateBulkApplicantsCaseless(Some(batch), apps, now);
            var (second, out) := CreateBulkApplicantsCaseless(Some(batch), first, now2);
            second == first && (out.Success? ==> out.value == [])
  {
    RerunPrefix(batch.resumes, |batch.resumes|, batch.jobId.value, apps, now, now2, true);
  }

  /** Two created applicants never share an email as the lookup sees it, so
      two resumes with the same lowercase email yield one applicant. */
  lemma {:induction false} CreatedEmailsDistinct(rs: seq<ResumeEntry>, n: nat, jobId: Ref, apps: seq<Applicant>, now: Stamp, foldCase: bool)
    requires n <= |rs|
    requires foldCase || LowerEmails(rs)
    ensures var c := BulkPrefix(rs, n, jobId, apps, now, foldCase).created;
            forall i, k :: 0 <= i < k < |c| ==> EmailOf(c[i]) != EmailOf(c[k])
  {
    if n > 0 {
      CreatedEmailsDistinct(rs, n - 1, jobId, apps, now, foldCase);
      var p := BulkPrefix(rs, n - 1, jobId, apps, now, foldCase);
      var r := BulkPrefix(rs, n, jobId, apps, now, foldCase);
      if r.created != p.created {
        var e := rs[n - 1];
        var a := BulkApplicant(FreshRef(p.apps), jobId, e, now);
        var email := EmailRead(ExtractedOf(e)).value.value;
        assert r.created == p.created + [a];
        BulkPrefixGrows(rs, n - 1, jobId, apps, now, foldCase);
        if !foldCase {
          CreatedLower(rs, n - 1, jobId, apps, now);
        }
        assert StoredEmail(a) == RawEmail(e);
        assert EmailOf(a) == Some(email);
        forall i | 0 <= i < |p.created| ensures EmailOf(p.created[i]) != EmailOf(a) {
          var c := p.created[i];
          assert p.apps[|apps| + i] == c;
          assert !Matches(c, email, foldCase);
          if EmailOf(c) == Some(email) {
            CreatedEmail(c, jobId, email, foldCase);
            assert false;
          }
        }
        forall i, k | 0 <= i < k < |r.created| ensures EmailOf(r.created[i]) != EmailOf(r.created[k]) {
          assert r.created[i] == p.created[i];
          if k < |p.created| {
            assert r.created[k] == p.created[k];
          } else {
            assert r.created[k] == a;
          }
        }
      }
    }
  }

  /** The emails stored on a document are lowercase, when it has one. */
  predicate LowerStored(a: Applicant) {
    var s := StoredEmail(a);
    s.Some? && s.value.JStr? ==> IsLower(s.value.str)
  }

  /** When the resumes carry lowercase emails, so do the created
      applicants: they store the resume's extracted data unchanged. */
  lemma {:induction false} CreatedLower(rs: seq<ResumeEntry>, n: nat, jobId: Ref, apps: seq<Applicant>, now: Stamp)
    requires n <= |rs| && LowerEmails(rs)
    ensures forall i :: 0 <= i < |BulkPrefix(rs, n, jobId, apps, now, false).created|
              ==> LowerStored(BulkPrefix(rs, n, jobId, apps, now, false).created[i])
  {
    if n > 0 {
      CreatedLower(rs, n - 1, jobId, apps, now);
      var p := BulkPrefix(rs, n - 1, jobId, apps, now, false);
      var r := BulkPrefix(rs, n, jobId, apps, now, false);
      if r.created != p.created {
        var a := BulkApplicant(FreshRef(p.apps), jobId, rs[n - 1], now);
        assert r.created == p.created + [a];
        assert StoredEmail(a) == RawEmail(rs[n - 1]);
        var raw := RawEmail(rs[n - 1]);
        assert raw.Some? && raw.value.JStr? ==> IsLower(raw.value.str);
        assert LowerStored(a);
        forall i | 0 <= i < |r.created| ensures LowerStored(r.created[i]) {
          if i < |p.created| {
            assert r.created[i] == p.created[i];
          } else {
            assert r.created[i] == a;
          }
        }
      }
    }
  }

  /** The email of an applicant as the lookup sees it, lowercased. */
  function EmailOf(a: Applicant): Option<string> {
    var s := StoredEmail(a);
    if s.Some? && s.value.JStr? then Some(Lower(s.value.str)) else None
  }

  lemma CreatedEmail(a: Applicant, jobId: Ref, email: string, foldCase: bool)
    ensures foldCase && EmailOf(a) == Some(email) ==> Matches(a, email, true)
    ensures !foldCase && EmailOf(a) == Some(email) && LowerStored(a) ==> Matches(a, email, false)
  {
    if EmailOf(a).Some? {
      LowerFixesLowercase(StoredEmail(a).value.str);
    }
  }

  /** The code as written is not idempotent: a resume whose email has an
      upper-case letter is stored with it, the lookup searches for the
      lowercased email, and every run adds the candidate again. */
  lemma MixedCaseDuplicates()
    ensures var data := JObj(map["personalInfo" := JObj(map["email" := JStr("A@x")])]);
            var analysis := Analysis(50.0, 50.0, JNull, JNull, JNull, JNull, JNull, JNull, false);
            var batch := NewBatch(None, Some(7), Some(1), Some("b"), [Scored(CvRef(1, "cv.pdf", "d"), data, analysis)]);
            var (first, _) := CreateBulkApplicantsFromBatch(Some(batch), [], 0);
            var (second, _) := CreateBulkApplicantsFromBatch(Some(batch), first, 1);
            |first| == 1 && |second| == 2
  {
    var data := JObj(map["personalInfo" := JObj(map["email" := JStr("A@x")])]);
    var analysis := Analysis(50.0, 50.0, JNull, JNull, JNull, JNull, JNull, JNull, false);
    var e := Scored(CvRef(1, "cv.pdf", "d"), data, analysis);
    var batch := NewBatch(None, Some(7), Some(1), Some("b"), [e]);
    assert Lower("A@x") == "a@x";
    assert EmailRead(ExtractedOf(e)) == Success(Some("a@x"));
    var run1 := BulkRunOf(Some(batch), [], 0, false);
    assert batch.resumes == [e];
    assert BulkPrefix([e], 0, 7, [], 0, false) == BulkRun([], [], false);
    assert run1 == BulkStep(BulkRun([], [], false), e, 7, 0, false);
    assert |run1.apps| == 1;
    assert StoredEmail(run1.apps[0]) == Some(JStr("A@x"));
    assert !Registered(run1.apps, 7, "a@x", false);
  }

  /* ================= updateApplicantStatus ================= */

  /** The fields of the request body the handler reads. */
  datatype StatusBody = StatusBody(
    status: Option<string>,
    isBulk: bool,
    jobId: Option<Ref>,
    extractedData: Option<Json>,
    resumeUrl: Option<string>)

  datatype StatusResponse =
    | StatusRejected(status: nat, message: string)
    | StatusUpdated(apps: seq<Applicant>, applicant: Applicant)

  /** The first position whose applicant satisfies the lookup, or -1. */
  function FindById(apps: seq<Applicant>, id: Ref): (k: int)
    ensures -1 <= k < |apps|
    ensures k >= 0 ==> apps[k].id == id && forall i :: 0 <= i < k ==> apps[i].id != id
    ensures k == -1 <==> forall i :: 0 <= i < |apps| ==> apps[i].id != id
  {
    if apps == [] then -1
    else if apps[0].id == id then 0
    else var k := FindById(apps[1..], id); if k == -1 then -1 else k + 1
  }

  /** `findOne({ jobId, source: "Bulk", "extractedData.personalInfo.email": email })`. */
  function FindBulk(apps: seq<Applicant>, jobId: Option<Ref>, email: string): (k: int)
    ensures -1 <= k < |apps|
    ensures k >= 0 ==> apps[k].jobId == jobId && apps[k].source == "Bulk" && Matches(apps[k], email, false)
    ensures forall i :: 0 <= i < |apps| && (k == -1 || i < k) ==>
              !(apps[i].jobId == jobId && apps[i].source == "Bulk" && Matches(apps[i], email, false))
  {
    if apps == [] then -1
    else if apps[0].jobId == jobId && apps[0].source == "Bulk" && Matches(apps[0], email, false) then 0
    else var k := FindBulk(apps[1..], jobId, email); if k == -1 then -1 else k + 1
  }

  /** The flags written for a status: each one is `status === name`. */
  function FlagsFor(status: Option<string>): (f: StatusFlags)
    ensures f.isShortlisted <==> status == Some("Shortlisted")
    ensures f.isInterviewed <==> status == Some("Interviewed")
    ensures f.isRejected <==> status == Some("Rejected")
    ensures f.isHired <==> status == Some("Hired")
    ensures f.isReviewed <==> status == Some("Reviewed")
    ensures f.isApplied <==> status == Some("Applied")
  {
    StatusFlags(status == Some("Shortlisted"), status == Some("Interviewed"), status == Some("Rejected"),
                status == Some("Hired"), status == Some("Reviewed"), status == Some("Applied"))
  }

  /** How many of the six flags are set. */
  function FlagCount(f: StatusFlags): nat {
    (if f.isShortlisted then 1 else 0) + (if f.isInterviewed then 1 else 0) + (if f.isRejected then 1 else 0)
    + (if f.isHired then 1 else 0) + (if f.isReviewed then 1 else 0) + (if f.isApplied then 1 else 0)
  }

  /** The changes the handler makes to the document it found. */
  function Updated(a: Applicant, body: StatusBody): (r: Applicant)
    ensures r.status == body.status && r.flags == Some(FlagsFor(body.status))
    ensures r.resumeUrl == (if Present(body.resumeUrl) then body.resumeUrl else a.resumeUrl)
    ensures r.extractedData == (if Truthy(body.extractedData) then body.extractedData else a.extractedData)
    ensures r.(status := a.status, flags := a.flags, resumeUrl := a.resumeUrl, extractedData := a.extractedData) == a
  {
    a.(status := body.status, flags := Some(FlagsFor(body.status)),
       resumeUrl := if Present(body.resumeUrl) then body.resumeUrl else a.resumeUrl,
       extractedData := if Truthy(body.extractedData) then body.extractedData else a.extractedData)
  }

  /** `extractedData?.personalInfo?.email`, the key of the bulk fallback. */
  function BulkEmail(body: StatusBody): Option<Json> {
    GetOpt(GetOpt(body.extractedData, "personalInfo"), "email")
  }

  /** The handler's lookup: `findById` first; only when that finds nothing,
      a bulk request with a truthy email falls back to `findOne` on the
      lowercased email (-2 when the email is no string, so that
      `toLowerCase` throws). */
  function Target(apps: seq<Applicant>, id: Ref, body: StatusBody): (k: int)
    ensures -2 <= k < |apps|
    ensures FindById(apps, id) >= 0 ==> k == FindById(apps, id)
    ensures FindById(apps, id) == -1 && !(body.isBulk && Truthy(BulkEmail(body))) ==> k == -1
    ensures FindById(apps, id) == -1 && body.isBulk && Truthy(BulkEmail(body)) ==>
              if BulkEmail(body).value.JStr? then k == FindBulk(apps, body.jobId, Lower(BulkEmail(body).value.str))
              else k == -2
  {
    var k := FindById(apps, id);
    var raw := BulkEmail(body);
    if k == -1 && body.isBulk && Truthy(raw) then
      (if raw.value.JStr? then FindBulk(apps, body.jobId, Lower(raw.value.str)) else -2)
    else k
  }

  /** A status update that stored an array under the email path is still
      found by both bulk lookups, which match array elements: the status
      update's fallback finds the document, and a new bulk candidate with
      that email is refused. */
  lemma ArrayEmailFound()
    ensures var stored := JObj(map["personalInfo" := JObj(map["email" := JArr([JStr("a@x")])])]);
            var sent := JObj(map["personalInfo" := JObj(map["email" := JStr("a@x")])]);
            var a := Applicant(1, Some(2), Some(7), None, Some("BulkResume"), "Bulk", None, Some(stored),
                               Some("Applied"), 0, None, None, NotDeleted);
            var body := StatusBody(Some("Reviewed"), true, Some(7), Some(sent), None);
            Target([a], 99, body) == 0
            && CreateBulkApplicant(Some(7), Some(sent), [a], (u: Ref) => None)
               == BulkRejected(400, "This bulk candidate is already in pipeline")
  {
    var stored := JObj(map["personalInfo" := JObj(map["email" := JArr([JStr("a@x")])])]);
    var a := Applicant(1, Some(2), Some(7), None, Some("BulkResume"), "Bulk", None, Some(stored),
                       Some("Applied"), 0, None, None, NotDeleted);
    assert Lower("a@x") == "a@x" by { LowerFixesLowercase("a@x"); }
    assert StoredEmail(a) == Some(JArr([JStr("a@x")]));
    assert EmailIs(StoredEmail(a).value.items[0], "a@x", false);
    assert Matches(a, "a@x", false);
  }

  function UpdateApplicantStatus(apps: seq<Applicant>, id: Ref, body: StatusBody): (r: StatusResponse)
    ensures Target(apps, id, body) == -1 <==> r == StatusRejected(404, "Applicant not found")
    ensures Target(apps, id, body) == -2 ==> r.StatusRejected? && r.status == 500
    ensures Target(apps, id, body) >= 0 ==>
              var k := Target(apps, id, body);
              && (r.StatusUpdated? <==> SaveAt(apps, k, Updated(apps[k], body)).Success?)
              && (r.StatusUpdated? ==> r.applicant == Updated(apps[k], body) && r.apps == apps[k := r.applicant])
    ensures r.StatusRejected? ==> r.status in {400, 404, 500}
    ensures r.StatusRejected? && r.status == 400 ==> !KeysUnique(apps)
    ensures r.StatusUpdated? ==> exists k :: 0 <= k < |apps| && r.apps == apps[k := r.applicant]
                                            && r.applicant == Updated(apps[k], body)
    ensures r.StatusUpdated? ==> ValidApplicant(r.applicant)
    ensures KeysUnique(apps) && r.StatusUpdated? ==> KeysUnique(r.apps)
    ensures KeysUnique(apps) && FindById(apps, id) >= 0 && ValidApplicant(apps[FindById(apps, id)]) ==>
              (r.StatusUpdated? <==> body.status.None? || body.status.value in Statuses)
  {
    var k' := Target(apps, id, body);
    if k' == -2 then StatusRejected(500, "toLowerCase is not a function")
    else if k' == -1 then StatusRejected(404, "Applicant not found")
    else
      var a := Updated(apps[k'], body);
      match SaveAt(apps, k', a)
      case Success(apps') => StatusUpdated(apps', a)
      case Failure(DuplicateKey) =>
        UpdateKeepsKey(apps, k', body);
        StatusRejected(400, "This candidate is already in your pipeline for this job.")
      case Failure(ValidationError) => StatusRejected(500, "Validation failed")
  }

  /** The handler's changes leave the index key alone, so where the keys
      are unique the re-save never meets a duplicate. */
  lemma UpdateKeepsKey(apps: seq<Applicant>, k: nat, body: StatusBody)
    requires k < |apps|
    ensures KeyOf(Updated(apps[k], body)) == KeyOf(apps[k])
    ensures KeysUnique(apps) ==> SaveAt(apps, k, Updated(apps[k], body)) != Failure(DuplicateKey)
  {
  }

  /** After a successful update at most one flag is set: the one named by
      the status, and never isInterviewed, since the schema refuses that
      status. */
  lemma AtMostOneFlag(apps: seq<Applicant>, id: Ref, body: StatusBody)
    ensures var r := UpdateApplicantStatus(apps, id, body);
            r.StatusUpdated? ==>
              FlagCount(r.applicant.flags.value) <= 1
              && !r.applicant.flags.value.isInterviewed
              && (FlagCount(r.applicant.flags.value) == 1 <==> body.status.Some?)
  {
  }
}

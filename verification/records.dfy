/** Rules of the Mongoose schemas in models/: the id every pre-save hook
    generates, the soft-delete method, enums, defaults, required fields and
    the fyp description validator. Each model keeps the fields its rules
    speak about; database I/O is replaced by values passed in. */
module Records {
  import opened Wrappers
  import opened Text

  /** An ObjectId. */
  type Ref = nat
  /** A `Date`. */
  type Stamp = nat

  /** The three soft-delete fields every model shares. */
  datatype Deletion = Deletion(isDeleted: bool, deletedAt: Option<Stamp>, deletedBy: Option<Ref>)

  /** Their defaults: `isDeleted: false`, the others unset. */
  const NotDeleted := Deletion(false, None, None)

  /** What `softDelete(userId)` writes into the three fields. */
  function Deleted(now: Stamp, actor: Option<Ref>): (d: Deletion)
    ensures d.isDeleted && d.deletedAt == Some(now) && d.deletedBy == actor
  {
    Deletion(true, Some(now), actor)
  }

  /** Mongoose's `required` on a String: present and not empty. */
  predicate Present(s: Option<string>) {
    s.Some? && s.value != ""
  }

  function Max(a: nat, b: nat): nat {
    if a >= b then a else b
  }

  /* ================= generated ids ================= */

  /** `${prefix}${String(count + 1).padStart(width, "0")}`. */
  function GeneratedId(prefix: string, width: nat, count: nat): (r: string)
    ensures prefix <= r
    ensures |r| == |prefix| + Max(width, |Decimal(count + 1)|)
    ensures r[|r| - |Decimal(count + 1)|..] == Decimal(count + 1)
    ensures AllDigits(r[|prefix|..]) && DigitsValue(r[|prefix|..]) == count + 1
  {
    var d := Decimal(count + 1);
    PrefixedPadded(prefix, d, width);
    prefix + PadStart(d, width, '0')
  }

  lemma PrefixedPadded(prefix: string, d: string, width: nat)
    requires AllDigits(d)
    ensures var r := prefix + PadStart(d, width, '0');
            prefix <= r && |r| == |prefix| + Max(width, |d|) && r[|r| - |d|..] == d &&
            AllDigits(r[|prefix|..]) && DigitsValue(r[|prefix|..]) == DigitsValue(d)
  {
    var padded := PadStart(d, width, '0');
    PaddedValue(d, width);
    var r := prefix + padded;
    assert r[|prefix|..] == padded;
    assert r[|r| - |d|..] == padded[|padded| - |d|..];
  }

  /** The number a generated id carries after its prefix. */
  function IdNumber(prefix: string, id: string): Option<nat> {
    if prefix <= id && AllDigits(id[|prefix|..]) then Some(DigitsValue(id[|prefix|..])) else None
  }

  /** Reading the number back from a generated id gives `count + 1`, so
      different counts never produce the same id, however wide the number. */
  lemma GeneratedIdRoundTrip(prefix: string, width: nat, count: nat, other: nat)
    ensures IdNumber(prefix, GeneratedId(prefix, width, count)) == Some(count + 1)
    ensures other != count ==> GeneratedId(prefix, width, other) != GeneratedId(prefix, width, count)
  {
    var a := GeneratedId(prefix, width, count);
    var b := GeneratedId(prefix, width, other);
    ReadBack(prefix, a, count + 1);
    ReadBack(prefix, b, other + 1);
  }

  lemma ReadBack(prefix: string, id: string, n: nat)
    requires prefix <= id && AllDigits(id[|prefix|..]) && DigitsValue(id[|prefix|..]) == n
    ensures IdNumber(prefix, id) == Some(n)
  {
  }

  /** The pre-save hook: `if (!this.xId) this.xId = GeneratedId(...)`. */
  function AssignId(current: Option<string>, prefix: string, width: nat, count: nat): (r: string)
    ensures Present(current) ==> r == current.value
    ensures !Present(current) ==> IdNumber(prefix, r) == Some(count + 1)
    ensures !Present(current) ==> |r| == |prefix| + Max(width, |Decimal(count + 1)|)
  {
    if Present(current) then current.value else GeneratedId(prefix, width, count)
  }

  /* ================= saving a new document ================= */

  /** Why `save()` rejects a document: a validator failed, or a unique index
      already holds one of its values (MongoDB error 11000). */
  datatype SaveError = ValidationError | DuplicateKey

  /** No two documents share a value of `id`. */
  ghost predicate IdsDistinct<T>(docs: seq<T>, id: T -> Option<string>) {
    forall i, j :: 0 <= i < j < |docs| ==> id(docs[i]) != id(docs[j])
  }

  /** `save()` of a new document in a collection whose only unique index is
      on its generated id: the validators run first (`valid`), the pre-save
      hook then produces `d`, and the index refuses an id that is already
      stored (a missing id is indexed as null, so it clashes with another
      missing one). */
  function InsertById<T>(docs: seq<T>, d: T, valid: bool, id: T -> Option<string>): (r: Result<seq<T>, SaveError>)
    ensures !valid ==> r == Failure(ValidationError)
    ensures r.Success? <==> valid && forall i :: 0 <= i < |docs| ==> id(docs[i]) != id(d)
    ensures r.Success? ==> r.value == docs + [d]
    ensures IdsDistinct(docs, id) && r.Success? ==> IdsDistinct(r.value, id)
  {
    if !valid then Failure(ValidationError)
    else if exists i :: 0 <= i < |docs| && id(docs[i]) == id(d) then Failure(DuplicateKey)
    else Success(docs + [d])
  }

  /** Every stored id is a generated one whose number is at most the size of
      the collection: what saves that let the hook pick the id leave behind
      as long as nothing is removed. */
  ghost predicate IdsWithinCount<T>(docs: seq<T>, prefix: string, id: T -> Option<string>) {
    forall i :: 0 <= i < |docs| ==>
      id(docs[i]).Some? && IdNumber(prefix, id(docs[i]).value).Some? &&
      IdNumber(prefix, id(docs[i]).value).value <= |docs|
  }

  /* ================= models/job.js ================= */

  const JobStatuses: set<string> := {"Active", "Draft", "Scheduled", "Inactive", "Closed"}
  const JobExperiences: set<string> := {"Fresher", "1-2 years", "3-4 years", "5-6 years", "6+ years"}
  const JobQualifications: set<string> := {"High School", "Diploma", "Bachelor's", "Master's", "Doctorate"}
  const JobSalaries: set<string> := {"$100-$300", "$300-$500", "$500-$800", "$800-$1000", "$1000-$1500",
                                     "$1500-$2000", "$2000-$2500", "$2500-$3000", "$3000+"}
  const JobTypes: set<string> := {"Full-time", "Part-time", "Contract", "Internship", "Other"}
  const WorkTypes: set<string> := {"On-Site", "Hybrid", "Remote"}
  /** `maxlength` of the job description. */
  const JobDescriptionMax: nat := 5000

  /** A job document. A string path the request leaves out is stored as
      "", which `required` refuses just as it refuses a missing value. */
  datatype Job = Job(
    jobId: Option<string>,
    title: string,
    description: string,
    experience: string,
    qualification: string,
    location: string,
    salary: string,
    jobType: string,
    workType: string,
    status: string,
    scheduleDate: Option<Stamp>,
    closingDate: Option<Stamp>,
    postedBy: Ref,
    deletion: Deletion)

  /** The request fields `createJob` hands to `new Job`. */
  datatype JobForm = JobForm(
    title: string,
    description: string,
    experience: string,
    qualification: string,
    location: string,
    salary: string,
    jobType: string,
    workType: string,
    status: Option<string>,
    scheduleDate: Option<Stamp>,
    closingDate: Option<Stamp>)

  /** `new Job({ ..., status: status || "Active", scheduleDate: scheduleDate || null })`:
      the `trim` setters on title, description and location apply, a
      missing or empty status becomes Active, and the job is not deleted. */
  function NewJob(form: JobForm, postedBy: Ref): (j: Job)
    ensures j.title == Trim(form.title) && j.description == Trim(form.description) && j.location == Trim(form.location)
    ensures form.status.None? || form.status.value == "" ==> j.status == "Active" && j.status in JobStatuses
    ensures form.status.Some? && form.status.value != "" ==> j.status == form.status.value
    ensures j.experience == form.experience && j.qualification == form.qualification && j.salary == form.salary
    ensures j.jobType == form.jobType && j.workType == form.workType
    ensures j.scheduleDate == form.scheduleDate && j.closingDate == form.closingDate && j.postedBy == postedBy
    ensures j.jobId.None? && j.deletion == NotDeleted
  {
    Job(None, Trim(form.title), Trim(form.description), form.experience, form.qualification,
        Trim(form.location), form.salary, form.jobType, form.workType,
        if form.status.None? || form.status.value == "" then "Active" else form.status.value,
        form.scheduleDate, form.closingDate, postedBy, NotDeleted)
  }

  /** The validators of job.js: the required strings are not empty, the
      description keeps within its maximum length, every enum path holds one
      of its values and a closing date is given. */
  predicate ValidJob(j: Job) {
    && j.title != "" && j.description != "" && |j.description| <= JobDescriptionMax && j.location != ""
    && j.experience in JobExperiences && j.qualification in JobQualifications && j.salary in JobSalaries
    && j.jobType in JobTypes && j.workType in WorkTypes && j.status in JobStatuses
    && j.closingDate.Some?
  }

  function JobPreSave(j: Job, count: nat): (r: Job)
    ensures Present(j.jobId) ==> r == j
    ensures !Present(j.jobId) ==> r == j.(jobId := Some(GeneratedId("JOB", 4, count)))
  {
    j.(jobId := Some(AssignId(j.jobId, "JOB", 4, count)))
  }

  function SoftDeleteJob(j: Job, actor: Option<Ref>, now: Stamp): (r: Job)
    ensures r.deletion == Deleted(now, actor)
    ensures r.(deletion := j.deletion) == j
  {
    j.(deletion := Deleted(now, actor))
  }

  function JobIdOf(j: Job): Option<string> {
    j.jobId
  }

  /** `new Job(...).save()`: validation, the pre-save hook numbering the job
      after the documents already stored, then the unique index on jobId. */
  function SaveJob(jobs: seq<Job>, j: Job): (r: Result<seq<Job>, SaveError>)
    ensures !ValidJob(j) ==> r == Failure(ValidationError)
    ensures r.Success? <==> ValidJob(j) && forall i :: 0 <= i < |jobs| ==> jobs[i].jobId != JobPreSave(j, |jobs|).jobId
    ensures r.Success? ==> r.value == jobs + [JobPreSave(j, |jobs|)]
    ensures IdsDistinct(jobs, JobIdOf) && r.Success? ==> IdsDistinct(r.value, JobIdOf)
  {
    InsertById(jobs, JobPreSave(j, |jobs|), ValidJob(j), JobIdOf)
  }

  /** While no job is removed, a valid job without an id always saves, and
      the collection keeps ids numbered within its size. */
  lemma JobSaveWithinCount(jobs: seq<Job>, j: Job)
    requires IdsWithinCount(jobs, "JOB", JobIdOf)
    requires ValidJob(j) && !Present(j.jobId)
    ensures SaveJob(jobs, j).Success?
    ensures IdsWithinCount(SaveJob(jobs, j).value, "JOB", JobIdOf)
  {
    var d := JobPreSave(j, |jobs|);
    GeneratedIdRoundTrip("JOB", 4, |jobs|, |jobs|);
    assert d.jobId == Some(GeneratedId("JOB", 4, |jobs|));
    WithinCountGrows(jobs, d, "JOB", JobIdOf);
  }

  /** A document whose id carries the number after the collection's size
      clashes with no stored id, and the grown collection stays within its
      count. */
  lemma WithinCountGrows<T>(docs: seq<T>, d: T, prefix: string, id: T -> Option<string>)
    requires IdsWithinCount(docs, prefix, id)
    requires id(d).Some? && IdNumber(prefix, id(d).value) == Some(|docs| + 1)
    ensures forall i :: 0 <= i < |docs| ==> id(docs[i]) != id(d)
    ensures IdsWithinCount(docs + [d], prefix, id)
  {
    var more := docs + [d];
    forall i | 0 <= i < |more|
      ensures id(more[i]).Some? && IdNumber(prefix, id(more[i]).value).Some?
              && IdNumber(prefix, id(more[i]).value).value <= |more|
    {
      if i < |docs| {
        assert more[i] == docs[i];
      }
    }
  }

  /** After a hard delete (`findByIdAndDelete`) the count is lower than the
      highest number issued, so the hook reissues a stored id and the unique
      index refuses the next job: JOB0001 and JOB0002 are saved, JOB0001 is
      deleted, and the third job is numbered JOB0002 again. */
  lemma JobIdReissued(a: Job, b: Job, c: Job)
    requires ValidJob(a) && ValidJob(b) && ValidJob(c)
    requires !Present(a.jobId) && !Present(b.jobId) && !Present(c.jobId)
    ensures var s1 := SaveJob([], a);
            && s1.Success?
            && var s2 := SaveJob(s1.value, b);
               && s2.Success? && |s2.value| == 2
               && SaveJob(s2.value[1..], c) == Failure(DuplicateKey)
  {
    JobSaveWithinCount([], a);
    var s1 := SaveJob([], a);
    JobSaveWithinCount(s1.value, b);
    var s2 := SaveJob(s1.value, b);
    var rest := s2.value[1..];
    assert rest == [JobPreSave(b, 1)];
    assert rest[0].jobId == JobPreSave(c, |rest|).jobId;
  }

  /** The first job is numbered JOB0001; past 9999 jobs the number is
      wider than the padding: the 10000th job is JOB10000. */
  lemma JobIdExamples()
    ensures GeneratedId("JOB", 4, 0) == "JOB0001"
    ensures GeneratedId("JOB", 4, 9999) == "JOB10000"
  {
    assert Decimal(1) == "1";
    assert Decimal(10000) == "10000";
  }

  /** A title of white space only is trimmed to "" by the setter, so the
      `required` validator refuses the job whatever else the form holds. */
  lemma BlankJobTitleRefused(jobs: seq<Job>, form: JobForm, postedBy: Ref)
    requires forall i :: 0 <= i < |form.title| ==> IsSpace(form.title[i])
    ensures SaveJob(jobs, NewJob(form, postedBy)) == Failure(ValidationError)
  {
    BlankTrimsToEmpty(form.title);
  }

  /** The stored title, description and location carry no surrounding white
      space: saving a job never keeps the padding of the form. */
  lemma JobTextTrimmed(form: JobForm, postedBy: Ref)
    ensures var j := NewJob(form, postedBy);
            Trim(j.title) == j.title && Trim(j.description) == j.description && Trim(j.location) == j.location
  {
    var j := NewJob(form, postedBy);
    TrimOfTrimmed(j.title);
    TrimOfTrimmed(j.description);
    TrimOfTrimmed(j.location);
  }

  /* ================= models/fyp.js ================= */

  const FypDurations: set<string> := {"3 Months", "6 Months", "1 Year"}
  const CollaborationModes: set<string> := {"On-site", "Remote", "Hybrid"}

  /** A fyp document; as for jobs, a missing string is stored as "". */
  datatype Fyp = Fyp(
    fypId: Option<string>,
    title: string,
    description: string,
    domain: string,
    duration: string,
    collaborationMode: string,
    postedByModel: string,
    deletion: Deletion)

  /** The request fields `createFyp` hands to `new Fyp`. */
  datatype FypForm = FypForm(
    title: string,
    description: string,
    domain: string,
    duration: string,
    collaborationMode: string)

  /** `new Fyp({ ..., postedByModel: "Company" })`: the `trim` setter on
      the title applies; the description is stored as given. */
  function NewFyp(form: FypForm): (f: Fyp)
    ensures f.title == Trim(form.title) && f.description == form.description && f.domain == form.domain
    ensures f.duration == form.duration && f.collaborationMode == form.collaborationMode
    ensures f.postedByModel == "Company" && f.fypId.None? && f.deletion == NotDeleted
  {
    Fyp(None, Trim(form.title), form.description, form.domain, form.duration, form.collaborationMode,
        "Company", NotDeleted)
  }

  /** How many maximal runs of white space `t` contains. */
  function SpaceRuns(t: string): nat {
    if t == [] then 0
    else (if IsSpace(t[0]) && (|t| == 1 || !IsSpace(t[1])) then 1 else 0) + SpaceRuns(t[1..])
  }

  /** How many words (maximal runs of non-space characters) `s` contains. */
  function Words(s: string): nat {
    if s == [] then 0
    else (if !IsSpace(s[0]) && (|s| == 1 || IsSpace(s[1])) then 1 else 0) + Words(s[1..])
  }

  /** `value.trim().split(/\s+/).length`: one piece more than there are
      separating white-space runs. */
  function SplitCount(value: string): nat {
    1 + SpaceRuns(Trim(value))
  }

  /** The validator on `description`. */
  predicate DescriptionValid(value: string) {
    SplitCount(value) <= 500
  }

  lemma {:induction false} WordsVsRuns(t: string)
    requires t != [] && !IsSpace(t[|t| - 1])
    ensures Words(t) == SpaceRuns(t) + (if IsSpace(t[0]) then 0 else 1)
    decreases |t|
  {
    if |t| > 1 {
      WordsVsRuns(t[1..]);
    }
  }

  lemma {:induction false} WordsTrimStart(s: string)
    ensures Words(TrimStart(s)) == Words(s)
    decreases |s|
  {
    if |s| > 0 && IsSpace(s[0]) {
      WordsTrimStart(s[1..]);
    }
  }

  lemma {:induction false} WordsTrailingSpace(s: string, c: char)
    requires IsSpace(c)
    ensures Words(s + [c]) == Words(s)
    decreases |s|
  {
    if s != [] {
      assert (s + [c])[1..] == s[1..] + [c];
      WordsTrailingSpace(s[1..], c);
    }
  }

  lemma {:induction false} WordsTrimEnd(s: string)
    ensures Words(TrimEnd(s)) == Words(s)
    decreases |s|
  {
    if |s| > 0 && IsSpace(s[|s| - 1]) {
      assert s == s[..|s| - 1] + [s[|s| - 1]];
      WordsTrailingSpace(s[..|s| - 1], s[|s| - 1]);
      WordsTrimEnd(s[..|s| - 1]);
    }
  }

  lemma {:induction false} NoWordsAllSpace(s: string)
    requires Words(s) == 0 && s != []
    ensures IsSpace(s[|s| - 1])
    decreases |s|
  {
    if |s| > 1 {
      NoWordsAllSpace(s[1..]);
    }
  }

  /** The validator's count is the number of words, but never less than 1:
      leading, trailing and repeated white space do not change it. */
  lemma SplitCountIsWords(value: string)
    ensures SplitCount(value) == if Words(value) == 0 then 1 else Words(value)
    ensures SplitCount(value) >= 1
  {
    var t := Trim(value);
    var u := TrimStart(value);
    assert t == TrimEnd(u);
    WordsTrimStart(value);
    WordsTrimEnd(u);
    RunsOfTrimmed(t);
    assert SplitCount(value) == 1 + SpaceRuns(t);
  }

  /** On text with no white space at either end, the pieces between the
      white-space runs are the words. */
  lemma RunsOfTrimmed(t: string)
    requires t == [] || (!IsSpace(t[0]) && !IsSpace(t[|t| - 1]))
    ensures 1 + SpaceRuns(t) == if Words(t) == 0 then 1 else Words(t)
  {
    if t != [] {
      WordsVsRuns(t);
      if Words(t) == 0 {
        NoWordsAllSpace(t);
      }
    }
  }

  /** 500 words pass the validator, 501 do not; padding with white space
      changes nothing. */
  lemma DescriptionLimit(value: string, pad: string)
    requires forall i :: 0 <= i < |pad| ==> IsSpace(pad[i])
    ensures DescriptionValid(value) <==> Words(value) <= 500
    ensures DescriptionValid(pad + value + pad) <==> DescriptionValid(value)
  {
    SplitCountIsWords(value);
    SplitCountIsWords(pad + value + pad);
    WordsPadded(pad, value);
  }

  lemma WordsPadded(pad: string, value: string)
    requires forall i :: 0 <= i < |pad| ==> IsSpace(pad[i])
    ensures Words(pad + value + pad) == Words(value)
  {
    assert pad + value + pad == pad + (value + pad);
    WordsDropLeadingSpaces(pad, value + pad);
    WordsDropTrailing(value, pad);
  }

  lemma {:induction false} WordsDropLeadingSpaces(pad: string, rest: string)
    requires forall i :: 0 <= i < |pad| ==> IsSpace(pad[i])
    ensures Words(pad + rest) == Words(rest)
    decreases |pad|
  {
    if pad != [] {
      var t := pad + rest;
      assert t[0] == pad[0] && IsSpace(t[0]);
      assert t[1..] == pad[1..] + rest;
      assert Words(t) == Words(t[1..]);
      WordsDropLeadingSpaces(pad[1..], rest);
    } else {
      assert pad + rest == rest;
    }
  }

  lemma {:induction false} WordsDropTrailing(value: string, pad: string)
    requires forall i :: 0 <= i < |pad| ==> IsSpace(pad[i])
    ensures Words(value + pad) == Words(value)
    decreases |pad|
  {
    if pad != [] {
      var p' := pad[..|pad| - 1];
      var c := pad[|pad| - 1];
      assert value + pad == (value + p') + [c];
      WordsTrailingSpace(value + p', c);
      WordsDropTrailing(value, p');
    } else {
      assert value + pad == value;
    }
  }

  predicate ValidFyp(f: Fyp) {
    && f.title != "" && f.description != "" && f.domain != ""
    && DescriptionValid(f.description)
    && f.duration in FypDurations
    && f.collaborationMode in CollaborationModes
    && f.postedByModel == "Company"
  }

  function FypPreSave(f: Fyp, count: nat): (r: Fyp)
    ensures Present(f.fypId) ==> r == f
    ensures !Present(f.fypId) ==> r == f.(fypId := Some(GeneratedId("FYP", 4, count)))
  {
    f.(fypId := Some(AssignId(f.fypId, "FYP", 4, count)))
  }

  function SoftDeleteFyp(f: Fyp, actor: Option<Ref>, now: Stamp): (r: Fyp)
    ensures r.deletion == Deleted(now, actor)
    ensures r.(deletion := f.deletion) == f
  {
    f.(deletion := Deleted(now, actor))
  }

  function FypIdOf(f: Fyp): Option<string> {
    f.fypId
  }

  /** `new Fyp(...).save()`: the enum and word-count validators, the
      pre-save hook, then the unique index on fypId. */
  function SaveFyp(fyps: seq<Fyp>, f: Fyp): (r: Result<seq<Fyp>, SaveError>)
    ensures !ValidFyp(f) ==> r == Failure(ValidationError)
    ensures r.Success? <==> ValidFyp(f) && forall i :: 0 <= i < |fyps| ==> fyps[i].fypId != FypPreSave(f, |fyps|).fypId
    ensures r.Success? ==> r.value == fyps + [FypPreSave(f, |fyps|)]
    ensures IdsDistinct(fyps, FypIdOf) && r.Success? ==> IdsDistinct(r.value, FypIdOf)
  {
    InsertById(fyps, FypPreSave(f, |fyps|), ValidFyp(f), FypIdOf)
  }

  /** A description of 501 words is refused whatever else the project
      says. */
  lemma LongDescriptionRefused(fyps: seq<Fyp>, f: Fyp)
    requires Words(f.description) > 500
    ensures SaveFyp(fyps, f) == Failure(ValidationError)
  {
    SplitCountIsWords(f.description);
  }

  /** A title of white space only is refused, as for jobs. */
  lemma BlankFypTitleRefused(fyps: seq<Fyp>, form: FypForm)
    requires forall i :: 0 <= i < |form.title| ==> IsSpace(form.title[i])
    ensures SaveFyp(fyps, NewFyp(form)) == Failure(ValidationError)
  {
    BlankTrimsToEmpty(form.title);
  }

  /* ================= models/project.js ================= */

  const ProjectTypes: set<string> := {"Fixed", "Hourly"}
  const ProjectStatuses: set<string> := {"Open", "In Progress", "Completed", "Cancelled"}

  /** A project document; as for jobs, a missing string is stored as "",
      and a missing budget or deadline as None. */
  datatype Project = Project(
    projectId: Option<string>,
    title: string,
    description: string,
    category: string,
    budget: Option<real>,
    projectType: string,
    duration: string,
    deadline: Option<Stamp>,
    status: string,
    postedByModel: string,
    currency: string,
    bidsCount: int,
    proposalsCount: int,
    deletion: Deletion)

  /** The request fields `createProject` hands to `new Project`. */
  datatype ProjectForm = ProjectForm(
    title: string,
    description: string,
    category: string,
    budget: Option<real>,
    currency: Option<string>,
    projectType: string,
    duration: string,
    deadline: Option<Stamp>)

  /** `new Project({ ..., postedByModel: "Company" })`: the `trim` setter on
      the title applies; status is Open, a missing currency is USD and both
      counters start at 0. */
  function NewProject(form: ProjectForm): (p: Project)
    ensures p.title == Trim(form.title) && p.description == form.description && p.category == form.category
    ensures p.budget == form.budget && p.projectType == form.projectType
    ensures p.duration == form.duration && p.deadline == form.deadline
    ensures p.status == "Open" && p.status in ProjectStatuses && p.postedByModel == "Company"
    ensures form.currency.None? ==> p.currency == "USD"
    ensures form.currency.Some? ==> p.currency == form.currency.value
    ensures p.bidsCount == 0 && p.proposalsCount == 0 && p.projectId.None? && p.deletion == NotDeleted
  {
    Project(None, Trim(form.title), form.description, form.category, form.budget, form.projectType,
            form.duration, form.deadline, "Open", "Company", form.currency.GetOr("USD"), 0, 0, NotDeleted)
  }

  /** The validators of project.js: the required strings are not empty, a
      budget and a deadline are given, and the enum paths hold one of their
      values. */
  predicate ValidProject(p: Project) {
    && p.title != "" && p.description != "" && p.category != "" && p.duration != ""
    && p.budget.Some? && p.deadline.Some?
    && p.projectType in ProjectTypes && p.status in ProjectStatuses && p.postedByModel == "Company"
  }

  function ProjectPreSave(p: Project, count: nat): (r: Project)
    ensures Present(p.projectId) ==> r == p
    ensures !Present(p.projectId) ==> r == p.(projectId := Some(GeneratedId("PROJ", 5, count)))
  {
    p.(projectId := Some(AssignId(p.projectId, "PROJ", 5, count)))
  }

  function ProjectIdOf(p: Project): Option<string> {
    p.projectId
  }

  /** `new Project(...).save()`: validation, the pre-save hook, then the
      unique index on projectId. */
  function SaveProject(projects: seq<Project>, p: Project): (r: Result<seq<Project>, SaveError>)
    ensures !ValidProject(p) ==> r == Failure(ValidationError)
    ensures r.Success? <==> ValidProject(p) && forall i :: 0 <= i < |projects| ==> projects[i].projectId != ProjectPreSave(p, |projects|).projectId
    ensures r.Success? ==> r.value == projects + [ProjectPreSave(p, |projects|)]
    ensures IdsDistinct(projects, ProjectIdOf) && r.Success? ==> IdsDistinct(r.value, ProjectIdOf)
  {
    InsertById(projects, ProjectPreSave(p, |projects|), ValidProject(p), ProjectIdOf)
  }

  /** A title of white space only is refused, as for jobs. */
  lemma BlankProjectTitleRefused(projects: seq<Project>, form: ProjectForm)
    requires forall i :: 0 <= i < |form.title| ==> IsSpace(form.title[i])
    ensures SaveProject(projects, NewProject(form)) == Failure(ValidationError)
  {
    BlankTrimsToEmpty(form.title);
  }

  /* ================= models/internship.js ================= */

  const InternshipPosters: set<string> := {"Company", "User"}

  datatype Internship = Internship(
    internshipId: Option<string>,
    title: string,
    kind: string,
    postedByModel: string,
    deletion: Deletion)

  /** A new internship: `type` defaults to "Internship". */
  function NewInternship(title: string, kind: Option<string>, postedByModel: string): (i: Internship)
    ensures kind.None? ==> i.kind == "Internship"
    ensures kind.Some? ==> i.kind == kind.value
    ensures i.internshipId.None? && i.deletion == NotDeleted
  {
    Internship(None, title, kind.GetOr("Internship"), postedByModel, NotDeleted)
  }

  predicate ValidInternship(i: Internship) {
    i.title != "" && i.postedByModel in InternshipPosters
  }

  function InternshipPreSave(i: Internship, count: nat): (r: Internship)
    ensures Present(i.internshipId) ==> r == i
    ensures !Present(i.internshipId) ==> r == i.(internshipId := Some(GeneratedId("INTR", 4, count)))
  {
    i.(internshipId := Some(AssignId(i.internshipId, "INTR", 4, count)))
  }

  function SoftDeleteInternship(i: Internship, actor: Option<Ref>, now: Stamp): (r: Internship)
    ensures r.deletion == Deleted(now, actor)
    ensures r.(deletion := i.deletion) == i
  {
    i.(deletion := Deleted(now, actor))
  }

  function InternshipIdOf(i: Internship): Option<string> {
    i.internshipId
  }

  /** `new Internship(...).save()`: validation, the pre-save hook, then the
      unique index on internshipId. */
  function SaveInternship(internships: seq<Internship>, i: Internship): (r: Result<seq<Internship>, SaveError>)
    ensures !ValidInternship(i) ==> r == Failure(ValidationError)
    ensures r.Success? <==> ValidInternship(i) && forall k :: 0 <= k < |internships| ==> internships[k].internshipId != InternshipPreSave(i, |internships|).internshipId
    ensures r.Success? ==> r.value == internships + [InternshipPreSave(i, |internships|)]
    ensures IdsDistinct(internships, InternshipIdOf) && r.Success? ==> IdsDistinct(r.value, InternshipIdOf)
  {
    InsertById(internships, InternshipPreSave(i, |internships|), ValidInternship(i), InternshipIdOf)
  }

  /* ================= models/studentResume.js ================= */

  datatype Education = Education(degree: Option<string>, institution: Option<string>, year: Option<string>)

  datatype StudentResume = StudentResume(
    resumeId: Option<string>,
    userId: Option<Ref>,
    name: Option<string>,
    email: Option<string>,
    summary: Option<string>,
    education: seq<Education>,
    deletion: Deletion)

  /** Required: userId, name, email, summary, and an institution in every
      education entry. */
  predicate ValidStudentResume(r: StudentResume) {
    && r.userId.Some?
    && Present(r.name) && Present(r.email) && Present(r.summary)
    && forall i :: 0 <= i < |r.education| ==> Present(r.education[i].institution)
  }

  /** The unique indexes on resumeId and userId: no two resumes share
      either. */
  ghost predicate ResumeKeysUnique(rs: seq<StudentResume>) {
    forall i, j :: 0 <= i < j < |rs| ==> rs[i].userId != rs[j].userId && rs[i].resumeId != rs[j].resumeId
  }

  /** `new StudentResume(...).save()`: schema validation, the pre-save hook
      numbering an unnumbered resume after the documents already stored,
      then both unique indexes. */
  function InsertStudentResume(rs: seq<StudentResume>, r: StudentResume): (out: Result<seq<StudentResume>, SaveError>)
    ensures !ValidStudentResume(r) ==> out == Failure(ValidationError)
    ensures out.Success? ==> out.value == rs + [StudentResumePreSave(r, |rs|)]
    ensures out.Success? <==> (ValidStudentResume(r) &&
              forall i :: 0 <= i < |rs| ==>
                rs[i].userId != r.userId && rs[i].resumeId != StudentResumePreSave(r, |rs|).resumeId)
    ensures ResumeKeysUnique(rs) && out.Success? ==> ResumeKeysUnique(out.value)
  {
    var h := StudentResumePreSave(r, |rs|);
    if !ValidStudentResume(r) then Failure(ValidationError)
    else if exists i :: 0 <= i < |rs| && (rs[i].userId == h.userId || rs[i].resumeId == h.resumeId) then Failure(DuplicateKey)
    else Success(rs + [h])
  }

  function StudentResumePreSave(r: StudentResume, count: nat): (out: StudentResume)
    ensures Present(r.resumeId) ==> out == r
    ensures !Present(r.resumeId) ==> out == r.(resumeId := Some(GeneratedId("STDRES", 4, count)))
  {
    r.(resumeId := Some(AssignId(r.resumeId, "STDRES", 4, count)))
  }

  function ResumeIdOf(r: StudentResume): Option<string> {
    r.resumeId
  }

  /** A second user's resume carrying a resumeId already stored is refused,
      although its userId is new. */
  lemma SameResumeIdRefused(stored: StudentResume, r: StudentResume)
    requires ValidStudentResume(r) && Present(r.resumeId) && r.resumeId == stored.resumeId && r.userId != stored.userId
    ensures InsertStudentResume([stored], r) == Failure(DuplicateKey)
  {
    assert [stored][0].resumeId == StudentResumePreSave(r, 1).resumeId;
  }

  /** While no resume is removed, a valid resume without an id for a user
      who has none saves, numbered after the stored ones, and the
      collection keeps ids numbered within its size. */
  lemma ResumeSaveWithinCount(rs: seq<StudentResume>, r: StudentResume)
    requires IdsWithinCount(rs, "STDRES", ResumeIdOf)
    requires ValidStudentResume(r) && !Present(r.resumeId)
    requires forall i :: 0 <= i < |rs| ==> rs[i].userId != r.userId
    ensures InsertStudentResume(rs, r).Success?
    ensures InsertStudentResume(rs, r).value[|rs|].resumeId == Some(GeneratedId("STDRES", 4, |rs|))
    ensures IdsWithinCount(InsertStudentResume(rs, r).value, "STDRES", ResumeIdOf)
  {
    var h := StudentResumePreSave(r, |rs|);
    GeneratedIdRoundTrip("STDRES", 4, |rs|, |rs|);
    WithinCountGrows(rs, h, "STDRES", ResumeIdOf);
  }

  /** Two users' unnumbered resumes both save into an empty collection, as
      STDRES0001 and STDRES0002. */
  lemma TwoUnnumberedResumes(a: StudentResume, b: StudentResume)
    requires ValidStudentResume(a) && ValidStudentResume(b) && !Present(a.resumeId) && !Present(b.resumeId)
    requires a.userId != b.userId
    ensures var s1 := InsertStudentResume([], a);
            && s1.Success? && s1.value[0].resumeId == Some("STDRES0001")
            && var s2 := InsertStudentResume(s1.value, b);
               s2.Success? && s2.value[1].resumeId == Some("STDRES0002")
  {
    assert Decimal(1) == "1" && Decimal(2) == "2";
    assert GeneratedId("STDRES", 4, 0) == "STDRES0001";
    assert GeneratedId("STDRES", 4, 1) == "STDRES0002";
    ResumeSaveWithinCount([], a);
    var s1 := InsertStudentResume([], a);
    assert |s1.value| == 1;
    ResumeSaveWithinCount(s1.value, b);
  }

  function SoftDeleteStudentResume(r: StudentResume, actor: Option<Ref>, now: Stamp): (out: StudentResume)
    ensures out.deletion == Deleted(now, actor)
    ensures out.(deletion := r.deletion) == r
  {
    r.(deletion := Deleted(now, actor))
  }

  /* ================= models/employer.js ================= */

  datatype Employer = Employer(
    employerId: Option<string>,
    fullName: string,
    email: string,
    password: string,
    deletion: Deletion)

  /** The `lowercase` and `trim` setters on `email`. */
  function NormalizeEmail(raw: string): (r: string)
    ensures IsLower(r) && Trim(r) == r
  {
    var r := Trim(Lower(raw));
    assert IsLower(r);
    TrimOfTrimmed(r);
    r
  }

  /** Normalizing a stored email again leaves it as it is. */
  lemma NormalizeEmailIdempotent(raw: string)
    ensures NormalizeEmail(NormalizeEmail(raw)) == NormalizeEmail(raw)
  {
    var r := NormalizeEmail(raw);
    LowerFixesLowercase(r);
  }

  /** A new employer document, with the `trim` setter on fullName and the
      email setters applied. */
  function NewEmployer(fullName: string, email: string, password: string): (e: Employer)
    ensures e.email == NormalizeEmail(email) && e.fullName == Trim(fullName) && e.password == password
    ensures e.employerId.None? && e.deletion == NotDeleted
  {
    Employer(None, Trim(fullName), NormalizeEmail(email), password, NotDeleted)
  }

  /** Required: fullName, email and password, none of them empty. */
  predicate ValidEmployer(e: Employer) {
    e.fullName != "" && e.email != "" && e.password != ""
  }

  /** The unique indexes on email and employerId. */
  ghost predicate EmployerKeysUnique(es: seq<Employer>) {
    forall i, j :: 0 <= i < j < |es| ==> es[i].email != es[j].email && es[i].employerId != es[j].employerId
  }

  /** The pre-save hook: the password is replaced by its hash iff it was
      modified (the hash function is a parameter), then the id is assigned. */
  function EmployerPreSave(e: Employer, passwordModified: bool, hash: string -> string, count: nat): (r: Employer)
    ensures passwordModified ==> r.password == hash(e.password)
    ensures !passwordModified ==> r.password == e.password
    ensures Present(e.employerId) ==> r.employerId == e.employerId
    ensures !Present(e.employerId) ==> r.employerId == Some(GeneratedId("EMP", 4, count))
    ensures r.email == e.email && r.fullName == e.fullName && r.deletion == e.deletion
  {
    var hashed := if passwordModified then hash(e.password) else e.password;
    e.(password := hashed, employerId := Some(AssignId(e.employerId, "EMP", 4, count)))
  }

  /** `save()` of a new employer: the validators, then the pre-save hook (a
      new document's password counts as modified), then the unique indexes
      on email and employerId. */
  function SaveEmployer(es: seq<Employer>, e: Employer, hash: string -> string): (r: Result<seq<Employer>, SaveError>)
    ensures !ValidEmployer(e) ==> r == Failure(ValidationError)
    ensures var e' := EmployerPreSave(e, true, hash, |es|);
            r.Success? <==> (ValidEmployer(e) &&
              forall i :: 0 <= i < |es| ==> es[i].email != e'.email && es[i].employerId != e'.employerId)
    ensures r.Success? ==> r.value == es + [EmployerPreSave(e, true, hash, |es|)]
    ensures EmployerKeysUnique(es) && r.Success? ==> EmployerKeysUnique(r.value)
  {
    var e' := EmployerPreSave(e, true, hash, |es|);
    if !ValidEmployer(e) then Failure(ValidationError)
    else if exists i :: 0 <= i < |es| && (es[i].email == e'.email || es[i].employerId == e'.employerId) then Failure(DuplicateKey)
    else Success(es + [e'])
  }

  /** Two spellings with the same normalised form (they differ only in
      ASCII case or in surrounding white space) are stored as one email:
      the first employer saves, the second is refused by the unique index. */
  lemma EmailSpellingsCollide(name1: string, a: string, pass1: string,
                              name2: string, b: string, pass2: string, hash: string -> string)
    requires Trim(name1) != "" && pass1 != "" && Trim(name2) != "" && pass2 != ""
    requires NormalizeEmail(a) == NormalizeEmail(b) && NormalizeEmail(a) != ""
    ensures var first := SaveEmployer([], NewEmployer(name1, a, pass1), hash);
            && first.Success?
            && SaveEmployer(first.value, NewEmployer(name2, b, pass2), hash) == Failure(DuplicateKey)
  {
    SecondSpellingRefused(NewEmployer(name1, a, pass1), NewEmployer(name2, b, pass2), hash);
  }

  lemma SecondSpellingRefused(e1: Employer, e2: Employer, hash: string -> string)
    requires ValidEmployer(e1) && ValidEmployer(e2) && e1.email == e2.email
    ensures var first := SaveEmployer([], e1, hash);
            first.Success? && SaveEmployer(first.value, e2, hash) == Failure(DuplicateKey)
  {
    FirstEmployerSaves(e1, hash);
    EmailTaken(SaveEmployer([], e1, hash).value, e2, hash, 0);
  }

  lemma FirstEmployerSaves(e: Employer, hash: string -> string)
    requires ValidEmployer(e)
    ensures SaveEmployer([], e, hash) == Success([EmployerPreSave(e, true, hash, 0)])
  {
    assert [] + [EmployerPreSave(e, true, hash, 0)] == [EmployerPreSave(e, true, hash, 0)];
  }

  lemma EmailTaken(es: seq<Employer>, e: Employer, hash: string -> string, k: nat)
    requires ValidEmployer(e) && k < |es| && es[k].email == e.email
    ensures SaveEmployer(es, e, hash) == Failure(DuplicateKey)
  {
    assert es[k].email == EmployerPreSave(e, true, hash, |es|).email;
  }

  /** Case alone never separates two emails. */
  lemma CaseDoesNotSeparate(a: string, b: string)
    requires Lower(a) == Lower(b)
    ensures NormalizeEmail(a) == NormalizeEmail(b)
  {
  }

  function SoftDeleteEmployer(e: Employer, actor: Option<Ref>, now: Stamp): (r: Employer)
    ensures r.deletion == Deleted(now, actor)
    ensures r.(deletion := e.deletion) == e
  {
    e.(deletion := Deleted(now, actor))
  }
}

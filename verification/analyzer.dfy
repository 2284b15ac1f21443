/** The CV analyzer (controllers/analyzer.controller.js): structuring an
    uploaded CV with the language model, the upload handler that stages
    files in the in-memory store, the analysis loop that scores every
    staged CV into a batch, and the ranking of a batch by score. */
module Analyzer {
  import opened Wrappers
  import opened Text
  import opened Json
  import opened Oracles
  import opened CvStore
  import opened Batches
  import Ranking

  /** The services the analyzer calls. Each model call gets the position of
      the CV in its request, so repeated calls may answer differently. */
  datatype Services = Services(
    pdf: Extractor,
    structure: (nat, string) -> LlmReply,
    score: (nat, Json, Json) -> LlmReply,
    parse: JsonParser)

  /* ================= profile defaults ================= */

  /** `obj.key ??= d` on the members of an object. */
  function DefaultMember(m: map<string, Json>, key: string, d: Json): (r: map<string, Json>)
    ensures key in r && (!r[key].JNull? || d.JNull?)
    ensures key in m && !m[key].JNull? ==> r[key] == m[key]
    ensures key !in m || m[key].JNull? ==> r[key] == d
    ensures forall k :: k != key ==> (k in r <==> k in m) && (k in m ==> r[k] == m[k])
  {
    if key in m && !m[key].JNull? then m else m[key := d]
  }

  const EmptySkills: Json :=
    JObj(map["technical" := JArr([]), "soft" := JArr([]), "tools" := JArr([])])

  /** The experience counters `personalInfo` must carry. */
  predicate HasCounters(pi: map<string, Json>) {
    && "professionalJob" in pi && !pi["professionalJob"].JNull?
    && "internship" in pi && !pi["internship"].JNull?
    && "freelancing" in pi && !pi["freelancing"].JNull?
  }

  /** A structured CV as the rest of the application expects it: an object
      with non-null `personalInfo`, `education`, `experience` and `skills`,
      and the three counters when `personalInfo` is an object. */
  predicate Profiled(j: Json) {
    && j.JObj?
    && "personalInfo" in j.fields && !j.fields["personalInfo"].JNull?
    && (j.fields["personalInfo"].JObj? ==> HasCounters(j.fields["personalInfo"].fields))
    && "education" in j.fields && !j.fields["education"].JNull?
    && "experience" in j.fields && !j.fields["experience"].JNull?
    && "skills" in j.fields && !j.fields["skills"].JNull?
  }

  /** The three counter defaults on `parsed.personalInfo`. An array takes
      the members invisibly (serialisation drops them); any other primitive
      makes the assignment throw, as modules run in strict mode. */
  function DefaultCounters(pi: Json): (r: Result<Json, string>)
    ensures pi.JObj? ==> r.Success? && r.value.JObj? && HasCounters(r.value.fields)
    ensures pi.JObj? ==> forall k :: k in pi.fields && !pi.fields[k].JNull? ==>
                           k in r.value.fields && r.value.fields[k] == pi.fields[k]
    ensures pi.JArr? ==> r == Success(pi)
    ensures !pi.JObj? && !pi.JArr? ==> r.Failure?
  {
    match pi
    case JObj(f) =>
      Success(JObj(DefaultMember(DefaultMember(DefaultMember(f, "professionalJob", JNum(0.0)),
                                               "internship", JNum(0.0)), "freelancing", JNum(0.0))))
    case JArr(_) => Success(pi)
    case _ => Failure("Cannot create property on primitive")
  }

  /** The defaulting `structureCvData` applies to the parsed reply. */
  function NormalizeProfile(parsed: Json): (r: Result<Json, string>)
    ensures parsed.JObj? && r.Success? ==> Profiled(r.value)
    ensures parsed.JArr? ==> r == Success(parsed)
    ensures !parsed.JObj? && !parsed.JArr? ==> r.Failure?
  {
    match parsed
    case JObj(f) =>
      var pi := DefaultCounters(Coalesce(Get(parsed, "personalInfo"), JObj(map[])));
      if pi.Failure? then Failure(pi.error)
      else
        Success(JObj(DefaultMember(DefaultMember(DefaultMember(f["personalInfo" := pi.value],
          "education", JArr([])), "experience", JArr([])), "skills", EmptySkills)))
    case JArr(_) => Success(parsed)
    case _ => Failure("Cannot set properties of a primitive")
  }

  /** Normalisation succeeds on every object whose `personalInfo` is missing,
      null, an object or an array; missing or null members get their
      defaults and every present non-null member is kept as it was. */
  lemma NormalizeKeeps(parsed: Json)
    requires parsed.JObj?
    requires var pi := Get(parsed, "personalInfo"); Nullish(pi) || pi.value.JObj? || pi.value.JArr?
    ensures var r := NormalizeProfile(parsed);
            && r.Success? && Profiled(r.value)
            && (forall k :: k in parsed.fields && k != "personalInfo" && !parsed.fields[k].JNull? ==>
                  r.value.fields[k] == parsed.fields[k])
            && ("education" !in parsed.fields || parsed.fields["education"].JNull? ==>
                  r.value.fields["education"] == JArr([]))
            && ("experience" !in parsed.fields || parsed.fields["experience"].JNull? ==>
                  r.value.fields["experience"] == JArr([]))
            && ("skills" !in parsed.fields || parsed.fields["skills"].JNull? ==>
                  r.value.fields["skills"] == EmptySkills)
  {
    var f := parsed.fields;
    var pi := DefaultCounters(Coalesce(Get(parsed, "personalInfo"), JObj(map[])));
    assert pi.Success?;
    var m0 := f["personalInfo" := pi.value];
    ThreeDefaults(m0, "education", JArr([]), "experience", JArr([]), "skills", EmptySkills);
    var m3 := DefaultMember(DefaultMember(DefaultMember(m0, "education", JArr([])), "experience", JArr([])), "skills", EmptySkills);
    assert NormalizeProfile(parsed) == Success(JObj(m3));
    assert m3["personalInfo"] == pi.value;
    forall k | k in f && k != "personalInfo" && !f[k].JNull? ensures m3[k] == f[k] {
      assert m0[k] == f[k];
    }
  }

  /** Three `??=` defaults on distinct keys: each key ends up non-null,
      with its default when it was missing or null, and every other member
      stays as it was. */
  lemma ThreeDefaults(m: map<string, Json>, k1: string, d1: Json, k2: string, d2: Json, k3: string, d3: Json)
    requires k1 != k2 && k2 != k3 && k1 != k3
    ensures var r := DefaultMember(DefaultMember(DefaultMember(m, k1, d1), k2, d2), k3, d3);
            && (forall k :: k in m && !m[k].JNull? ==> k in r && r[k] == m[k])
            && (forall k :: k != k1 && k != k2 && k != k3 ==> (k in r <==> k in m) && (k in m ==> r[k] == m[k]))
            && k1 in r && (k1 !in m || m[k1].JNull? ==> r[k1] == d1)
            && k2 in r && (k2 !in m || m[k2].JNull? ==> r[k2] == d2)
            && k3 in r && (k3 !in m || m[k3].JNull? ==> r[k3] == d3)
  {
    var r1 := DefaultMember(m, k1, d1);
    var r2 := DefaultMember(r1, k2, d2);
    var r := DefaultMember(r2, k3, d3);
    forall k | k in m && !m[k].JNull? ensures k in r && r[k] == m[k] {
      assert r1[k] == m[k];
      assert r2[k] == m[k];
    }
  }

  /** The counters inside `personalInfo`: defaults of 0 when missing or
      null, present non-null values kept. */
  lemma NormalizeCounters(parsed: Json)
    requires parsed.JObj?
    requires var pi := Get(parsed, "personalInfo"); Nullish(pi) || pi.value.JObj?
    ensures var r := NormalizeProfile(parsed);
            var pi := Coalesce(Get(parsed, "personalInfo"), JObj(map[]));
            && r.Success? && r.value.fields["personalInfo"].JObj?
            && var out := r.value.fields["personalInfo"].fields;
               (forall k :: k in pi.fields && !pi.fields[k].JNull? ==> k in out && out[k] == pi.fields[k])
               && ("professionalJob" !in pi.fields || pi.fields["professionalJob"].JNull? ==>
                     out["professionalJob"] == JNum(0.0))
               && ("internship" !in pi.fields || pi.fields["internship"].JNull? ==>
                     out["internship"] == JNum(0.0))
               && ("freelancing" !in pi.fields || pi.fields["freelancing"].JNull? ==>
                     out["freelancing"] == JNum(0.0))
  {
    var c := Coalesce(Get(parsed, "personalInfo"), JObj(map[]));
    NormalizedPersonalInfo(parsed);
    ThreeDefaults(c.fields, "professionalJob", JNum(0.0), "internship", JNum(0.0), "freelancing", JNum(0.0));
  }

  /** Normalisation stores the defaulted `personalInfo` unchanged. */
  lemma NormalizedPersonalInfo(parsed: Json)
    requires parsed.JObj?
    requires var pi := Get(parsed, "personalInfo"); Nullish(pi) || pi.value.JObj?
    ensures var c := DefaultCounters(Coalesce(Get(parsed, "personalInfo"), JObj(map[])));
            && c.Success? && NormalizeProfile(parsed).Success?
            && NormalizeProfile(parsed).value.fields["personalInfo"] == c.value
  {
    var pi := DefaultCounters(Coalesce(Get(parsed, "personalInfo"), JObj(map[])));
    var m0 := parsed.fields["personalInfo" := pi.value];
    ThreeDefaults(m0, "education", JArr([]), "experience", JArr([]), "skills", EmptySkills);
  }

  lemma DefaultMemberFixes(m: map<string, Json>, key: string, d: Json)
    requires key in m && !m[key].JNull?
    ensures DefaultMember(m, key, d) == m
  {
  }

  /** A reply that already has every member is left unchanged, so normalising
      twice is the same as normalising once. */
  lemma NormalizeIdempotent(parsed: Json)
    requires NormalizeProfile(parsed).Success?
    ensures NormalizeProfile(NormalizeProfile(parsed).value) == NormalizeProfile(parsed)
  {
    var r := NormalizeProfile(parsed).value;
    if r.JObj? {
      assert Profiled(r);
      var pi := r.fields["personalInfo"];
      assert Coalesce(Get(r, "personalInfo"), JObj(map[])) == pi;
      if pi.JObj? {
        var f := pi.fields;
        DefaultMemberFixes(f, "professionalJob", JNum(0.0));
        DefaultMemberFixes(f, "internship", JNum(0.0));
        DefaultMemberFixes(f, "freelancing", JNum(0.0));
        assert DefaultCounters(pi) == Success(pi);
      }
      assert r.fields["personalInfo" := pi] == r.fields;
      DefaultMemberFixes(r.fields, "education", JArr([]));
      DefaultMemberFixes(r.fields, "experience", JArr([]));
      DefaultMemberFixes(r.fields, "skills", EmptySkills);
    }
  }

  /* ================= structureCvData ================= */

  /** Most characters of CV text the structuring prompt carries. */
  const CvTextLimit: nat := 6000

  /** `data?.text?.slice(0, 6000) || ""`. */
  function CvText(text: Option<string>): (r: string)
    ensures text.None? ==> r == ""
    ensures text.Some? ==> r <= text.value
                           && |r| == (if |text.value| <= CvTextLimit then |text.value| else CvTextLimit)
  {
    if text.Some? then Take(text.value, CvTextLimit) else ""
  }

  /** `JSON.parse(content)`; a null content parses as `null`. */
  function ParseReply(content: Option<string>, parse: JsonParser): Option<Json> {
    if content.None? then Some(JNull) else parse(content.value)
  }

  /** `structureCvData(buffer)`: extract the text, ask the model to structure
      the first 6000 characters, parse the reply and apply the defaults. Any
      failure along the way rejects. */
  function StructureCv(buffer: seq<byte>, call: nat, svc: Services): (r: Result<Json, string>)
    ensures svc.pdf(buffer).ExtractFailed? ==> r.Failure?
    ensures r.Success? && r.value.JObj? ==> Profiled(r.value)
  {
    match svc.pdf(buffer)
    case ExtractFailed => Failure("PDF extraction failed")
    case ExtractedText(t) =>
      match svc.structure(call, CvText(t))
      case LlmFailed => Failure("model request failed")
      case LlmContent(c) =>
        match ParseReply(c, svc.parse)
        case None => Failure("Invalid JSON returned by AI")
        case Some(v) =>
          var r := NormalizeProfile(v);
          assert r.Success? && r.value.JObj? ==> v.JObj?;
          r
  }

  /** Only the excerpt reaches the model: two models that answer the same
      on the first 6000 characters give the same structured CV. */
  lemma ModelSeesExcerpt(buffer: seq<byte>, call: nat, svc: Services, other: (nat, string) -> LlmReply)
    requires svc.pdf(buffer).ExtractedText?
    requires var sent := CvText(svc.pdf(buffer).text); other(call, sent) == svc.structure(call, sent)
    ensures StructureCv(buffer, call, svc.(structure := other)) == StructureCv(buffer, call, svc)
  {
  }

  /* ================= uploadCvs ================= */

  /** `MAX_FILE_SIZE`: 50 MiB. */
  const MaxFileSize: nat := 50 * 1024 * 1024

  const SizeError: string := "File exceeds 50MB limit"

  /** A file as multer hands it over. */
  datatype UploadedFile = UploadedFile(originalname: string, size: nat, buffer: seq<byte>)

  datatype ProcessedCv = ProcessedCv(id: nat, filename: string, uploadDate: string, extractedData: Json)
  datatype FileError = FileError(filename: string, error: string)
  datatype FileOutcome = Processed(cv: ProcessedCv) | Failed(failure: FileError)
  datatype UploadSummary = UploadSummary(totalFiles: nat, processedFiles: nat, failedFiles: nat)

  datatype UploadResponse =
    | NoFiles
    | Uploaded(success: bool, cvs: seq<ProcessedCv>, errors: seq<FileError>, summary: UploadSummary)

  /** `err.message || "Processing failed"`. */
  function ErrorMessage(e: string): (m: string)
    ensures m != ""
  {
    if e == "" then "Processing failed" else e
  }

  /** The files under the size limit, in upload order. */
  function Kept(files: seq<UploadedFile>): (r: seq<UploadedFile>)
    ensures |r| <= |files|
    decreases |files|
  {
    if files == [] then []
    else
      var last := files[|files| - 1];
      Kept(files[..|files| - 1]) + (if last.size <= MaxFileSize then [last] else [])
  }

  /** What one file contributes: an oversized file fails without being
      read; any other file, stored under `id`, is structured and succeeds or
      fails with the structuring error. */
  function OutcomeOf(file: UploadedFile, call: nat, id: nat, date: string, svc: Services): (o: FileOutcome)
    ensures file.size > MaxFileSize ==> o == Failed(FileError(file.originalname, SizeError))
    ensures o.Processed? ==> o.cv.id == id && o.cv.filename == file.originalname && o.cv.uploadDate == date
    ensures o.Failed? ==> o.failure.filename == file.originalname && o.failure.error != ""
  {
    if file.size > MaxFileSize then Failed(FileError(file.originalname, SizeError))
    else
      match StructureCv(file.buffer, call, svc)
      case Success(s) => Processed(ProcessedCv(id, file.originalname, date, s))
      case Failure(e) => Failed(FileError(file.originalname, ErrorMessage(e)))
  }

  /** The outcome of every file: file `i` is the `i`-th call, and a kept file
      gets the id after those of the kept files before it. */
  function Outcomes(files: seq<UploadedFile>, svc: Services, clock: nat -> string): (os: seq<FileOutcome>)
    ensures |os| == |files|
  {
    seq(|files|, i requires 0 <= i < |files| =>
      OutcomeOf(files[i], i, |Kept(files[..i])| + 1, clock(i), svc))
  }

  function ProcessedOf(os: seq<FileOutcome>): seq<ProcessedCv>
    decreases |os|
  {
    if os == [] then []
    else ProcessedOf(os[..|os| - 1]) + (if os[|os| - 1].Processed? then [os[|os| - 1].cv] else [])
  }

  function FailedOf(os: seq<FileOutcome>): seq<FileError>
    decreases |os|
  {
    if os == [] then []
    else FailedOf(os[..|os| - 1]) + (if os[|os| - 1].Failed? then [os[|os| - 1].failure] else [])
  }

  /** Every outcome lands in exactly one of the two lists. */
  lemma {:induction false} OutcomesSplit(os: seq<FileOutcome>)
    ensures |ProcessedOf(os)| + |FailedOf(os)| == |os|
    decreases |os|
  {
    if os != [] {
      OutcomesSplit(os[..|os| - 1]);
    }
  }

  /** The state the upload loop threads: the store and the two lists. */
  datatype Staging = Staging(store: Store, processed: seq<ProcessedCv>, errors: seq<FileError>)

  /** One iteration of the upload loop for file `i`. */
  function UploadStep(s: Staging, f: UploadedFile, i: nat, svc: Services, clock: nat -> string): Staging {
    if f.size > MaxFileSize then s.(errors := s.errors + [FileError(f.originalname, SizeError)])
    else
      var created := CreateCv(s.store, CvInput(f.originalname, f.buffer, clock(i)));
      var structured := StructureCv(f.buffer, i, svc);
      if structured.Success? then
        Staging(created.0, s.processed + [ProcessedCv(created.1.id, f.originalname, clock(i), structured.value)], s.errors)
      else
        Staging(created.0, s.processed, s.errors + [FileError(f.originalname, ErrorMessage(structured.error))])
  }

  /** The loop state after the first `n` files, starting from a cleared store. */
  function UploadPrefix(fs: seq<UploadedFile>, n: nat, st: Store, svc: Services, clock: nat -> string): Staging
    requires n <= |fs|
  {
    if n == 0 then Staging(ClearCvs(st), [], [])
    else UploadStep(UploadPrefix(fs, n - 1, st, svc, clock), fs[n - 1], n - 1, svc, clock)
  }

  /** The store after the first `n` files holds exactly the kept ones among
      them, with ids 1, 2, ... */
  predicate StoresKept(store: Store, kept: seq<UploadedFile>) {
    && |store.cvs| == |kept|
    && forall j :: 0 <= j < |kept| ==>
         store.cvs[j].filename == kept[j].originalname && store.cvs[j].content == kept[j].buffer
  }

  /** Every listed CV points at the stored record of the same file. */
  predicate PointsIntoStore(processed: seq<ProcessedCv>, store: Store) {
    forall c :: c in processed ==> 1 <= c.id <= |store.cvs| && store.cvs[c.id - 1].filename == c.filename
  }

  lemma KeptStep(fs: seq<UploadedFile>, n: nat)
    requires 0 < n <= |fs|
    ensures Kept(fs[..n]) == Kept(fs[..n - 1]) + (if fs[n - 1].size <= MaxFileSize then [fs[n - 1]] else [])
  {
    assert fs[..n][..n - 1] == fs[..n - 1];
  }

  lemma OutcomesStep(os: seq<FileOutcome>, n: nat)
    requires 0 < n <= |os|
    ensures ProcessedOf(os[..n]) == ProcessedOf(os[..n - 1]) + (if os[n - 1].Processed? then [os[n - 1].cv] else [])
    ensures FailedOf(os[..n]) == FailedOf(os[..n - 1]) + (if os[n - 1].Failed? then [os[n - 1].failure] else [])
  {
    assert os[..n][..n - 1] == os[..n - 1];
  }

  /** The store side of the loop: kept files are stored, in order, with
      consecutive ids, and stored records never change afterwards. */
  lemma {:induction false} UploadPrefixStore(fs: seq<UploadedFile>, n: nat, st: Store, svc: Services, clock: nat -> string)
    requires n <= |fs|
    ensures var s := UploadPrefix(fs, n, st, svc, clock);
            Valid(s.store) && StoresKept(s.store, Kept(fs[..n])) && PointsIntoStore(s.processed, s.store)
    decreases n
  {
    if n > 0 {
      UploadPrefixStore(fs, n - 1, st, svc, clock);
      KeptStep(fs, n);
      var prev := UploadPrefix(fs, n - 1, st, svc, clock);
      UploadStepStore(prev, Kept(fs[..n - 1]), fs[n - 1], n - 1, svc, clock);
      assert UploadPrefix(fs, n, st, svc, clock) == UploadStep(prev, fs[n - 1], n - 1, svc, clock);
    }
  }

  /** One iteration keeps the store facts: a kept file is appended under the
      next id; an oversized one changes nothing. */
  lemma UploadStepStore(s: Staging, kept: seq<UploadedFile>, f: UploadedFile, i: nat, svc: Services, clock: nat -> string)
    requires Valid(s.store) && StoresKept(s.store, kept) && PointsIntoStore(s.processed, s.store)
    ensures var s' := UploadStep(s, f, i, svc, clock);
            var kept' := kept + (if f.size <= MaxFileSize then [f] else []);
            Valid(s'.store) && StoresKept(s'.store, kept') && PointsIntoStore(s'.processed, s'.store)
  {
    if f.size <= MaxFileSize {
      var created := CreateCv(s.store, CvInput(f.originalname, f.buffer, clock(i)));
      var store' := created.0;
      assert store'.cvs == s.store.cvs + [created.1];
      assert StoresKept(store', kept + [f]);
      var s' := UploadStep(s, f, i, svc, clock);
      assert s'.store == store';
      forall c | c in s'.processed
        ensures 1 <= c.id <= |store'.cvs| && store'.cvs[c.id - 1].filename == c.filename
      {
        if c !in s.processed {
          assert c.id == created.1.id == |store'.cvs|;
        }
      }
    }
  }

  /** The list side of the loop: the lists are the outcomes of the first
      `n` files, split by kind. */
  lemma {:induction false} UploadPrefixLists(fs: seq<UploadedFile>, n: nat, st: Store, svc: Services, clock: nat -> string)
    requires n <= |fs|
    ensures var s := UploadPrefix(fs, n, st, svc, clock);
            var os := Outcomes(fs, svc, clock);
            s.processed == ProcessedOf(os[..n]) && s.errors == FailedOf(os[..n])
    decreases n
  {
    if n > 0 {
      UploadPrefixLists(fs, n - 1, st, svc, clock);
      UploadPrefixStore(fs, n - 1, st, svc, clock);
      var os := Outcomes(fs, svc, clock);
      var prev := UploadPrefix(fs, n - 1, st, svc, clock);
      assert |prev.store.cvs| == |Kept(fs[..n - 1])|;
      assert os[n - 1] == OutcomeOf(fs[n - 1], n - 1, |prev.store.cvs| + 1, clock(n - 1), svc);
      ListsStep(prev, fs[n - 1], n - 1, svc, clock);
      var next := UploadStep(prev, fs[n - 1], n - 1, svc, clock);
      assert UploadPrefix(fs, n, st, svc, clock) == next;
      ListsExtend(os, n, prev, next);
    }
  }

  /** Appending the `n`-th outcome to lists that split the first `n - 1`
      gives lists that split the first `n`. */
  lemma ListsExtend(os: seq<FileOutcome>, n: nat, prev: Staging, next: Staging)
    requires 0 < n <= |os|
    requires prev.processed == ProcessedOf(os[..n - 1]) && prev.errors == FailedOf(os[..n - 1])
    requires next.processed == prev.processed + (if os[n - 1].Processed? then [os[n - 1].cv] else [])
    requires next.errors == prev.errors + (if os[n - 1].Failed? then [os[n - 1].failure] else [])
    ensures next.processed == ProcessedOf(os[..n]) && next.errors == FailedOf(os[..n])
  {
    OutcomesStep(os, n);
  }

  /** One iteration appends the file's outcome to the matching list; a kept
      file is stored under the next id. */
  lemma ListsStep(s: Staging, f: UploadedFile, i: nat, svc: Services, clock: nat -> string)
    requires Valid(s.store)
    ensures var s' := UploadStep(s, f, i, svc, clock);
            var o := OutcomeOf(f, i, |s.store.cvs| + 1, clock(i), svc);
            && s'.processed == s.processed + (if o.Processed? then [o.cv] else [])
            && s'.errors == s.errors + (if o.Failed? then [o.failure] else [])
  {
    if f.size <= MaxFileSize {
      var created := CreateCv(s.store, CvInput(f.originalname, f.buffer, clock(i)));
      assert created.1.id == |s.store.cvs| + 1;
    }
  }

  /** `uploadCvs`: with no files, 400 and the store untouched; otherwise the
      store is cleared, every file under the limit is stored (before it is
      structured, so also when structuring fails) and every file yields one
      entry in `cvs` or in `errors`. */
  method UploadCvs(files: Option<seq<UploadedFile>>, st: Store, svc: Services, clock: nat -> string)
    returns (resp: UploadResponse, st': Store)
    ensures files.None? || files.value == [] ==> resp == NoFiles && st' == st
    ensures files.Some? && files.value != [] ==>
              var fs := files.value;
              var os := Outcomes(fs, svc, clock);
              && resp.Uploaded?
              && resp.cvs == ProcessedOf(os) && resp.errors == FailedOf(os)
              && |resp.cvs| + |resp.errors| == |fs|
              && resp.summary == UploadSummary(|fs|, |resp.cvs|, |resp.errors|)
              && (resp.success <==> |resp.cvs| > 0)
    ensures files.Some? && files.value != [] ==>
              Valid(st') && StoresKept(st', Kept(files.value))
    ensures resp.Uploaded? ==> PointsIntoStore(resp.cvs, st')
  {
    if files.None? || files.value == [] {
      return NoFiles, st;
    }
    var fs := files.value;
    var staging := Staging(ClearCvs(st), [], []);
    var i := 0;
    while i < |fs|
      invariant 0 <= i <= |fs|
      invariant staging == UploadPrefix(fs, i, st, svc, clock)
    {
      staging := UploadStep(staging, fs[i], i, svc, clock);
      i := i + 1;
    }
    st' := staging.store;
    resp := Uploaded(|staging.processed| > 0, staging.processed, staging.errors,
                     UploadSummary(|fs|, |staging.processed|, |staging.errors|));
    ghost var os := Outcomes(fs, svc, clock);
    UploadPrefixStore(fs, |fs|, st, svc, clock);
    UploadPrefixLists(fs, |fs|, st, svc, clock);
    assert fs[..|fs|] == fs && os[..|fs|] == os;
    OutcomesSplit(os);
  }
  /* ================= analyzeCvs ================= */

  /** `Math.min(100, Math.max(0, x))`. */
  function Clamp(x: real): (r: real)
    ensures 0.0 <= r <= 100.0
    ensures 0.0 <= x <= 100.0 ==> r == x
    ensures x < 0.0 ==> r == 0.0
    ensures x > 100.0 ==> r == 100.0
  {
    if x < 0.0 then 0.0 else if x > 100.0 then 100.0 else x
  }

  /** The `analysis` block built from the model's scoring reply. */
  function AnalysisOf(a: Json): (r: Analysis)
    ensures 0.0 <= r.score <= 100.0 && 0.0 <= r.matchPercentage <= 100.0
    ensures !r.locked
    ensures r.score == Clamp(NumberOrZero(Get(a, "score")))
  {
    Analysis(
      Clamp(NumberOrZero(Get(a, "score"))),
      Clamp(NumberOrZero(Get(a, "matchPercentage"))),
      Or(Get(a, "matchDetails"), JStr("")),
      Or(Get(a, "strengths"), JArr([])),
      Or(Get(a, "gaps"), JArr([])),
      Or(Get(a, "recommendations"), JArr([])),
      Or(Get(a, "matchedSkills"), JArr([])),
      Or(Get(a, "experienceMatch"), JStr("")),
      false)
  }

  /** One iteration of the analysis loop for a stored CV: structure it, ask
      for a score against `criteria`, and build the payload. */
  function AnalyzeOne(cv: StoredCv, call: nat, criteria: Json, svc: Services): (r: Result<ResumeEntry, string>)
    ensures r.Success? ==> r.value.Scored? && r.value.cv == CvRef(cv.id, cv.filename, cv.uploadDate)
    ensures r.Success? ==> 0.0 <= r.value.analysis.score <= 100.0
                           && 0.0 <= r.value.analysis.matchPercentage <= 100.0
                           && !r.value.analysis.locked
    ensures StructureCv(cv.content, call, svc).Failure? ==> r.Failure?
  {
    match StructureCv(cv.content, call, svc)
    case Failure(e) => Failure(e)
    case Success(structured) =>
      match svc.score(call, criteria, structured)
      case LlmFailed => Failure("model request failed")
      case LlmContent(c) =>
        match ParseReply(c, svc.parse)
        case None => Failure("Unexpected token in JSON")
        case Some(JNull) => Failure("Cannot read properties of null")
        case Some(a) => Success(Scored(CvRef(cv.id, cv.filename, cv.uploadDate), structured, AnalysisOf(a)))
  }

  /** One line of the NDJSON stream. */
  datatype Line = Payload(entry: ResumeEntry) | ErrorLine(id: nat, filename: string, message: string)

  /** The line a CV's analysis produces. */
  function LineOf(cv: StoredCv, r: Result<ResumeEntry, string>): (l: Line)
    ensures l.Payload? <==> r.Success?
  {
    match r
    case Success(e) => Payload(e)
    case Failure(m) => ErrorLine(cv.id, cv.filename, m)
  }

  /** The id a line reports. */
  function LineId(l: Line): int {
    match l
    case Payload(e) => if e.Scored? then e.cv.id else -1
    case ErrorLine(id, _, _) => id
  }

  /** The successful payloads of a stream, in order. */
  function Payloads(lines: seq<Line>): (r: seq<ResumeEntry>)
    ensures |r| <= |lines|
    decreases |lines|
  {
    if lines == [] then []
    else
      var last := lines[|lines| - 1];
      Payloads(lines[..|lines| - 1]) + (if last.Payload? then [last.entry] else [])
  }

  datatype AnalyzeResponse =
    | AnalyzeRejected(status: nat, message: string)
    | Streamed(lines: seq<Line>, delayed: seq<bool>)

  /** The first batch whose `batchId` equals `id`, or -1. */
  function FindBatch(bs: seq<Batch>, id: Option<string>): (i: int)
    ensures -1 <= i < |bs|
    ensures i >= 0 ==> bs[i].batchId == id && forall j :: 0 <= j < i ==> bs[j].batchId != id
    ensures i == -1 ==> forall j :: 0 <= j < |bs| ==> bs[j].batchId != id
    decreases |bs|
  {
    if bs == [] then -1
    else if bs[0].batchId == id then 0
    else
      var k := FindBatch(bs[1..], id);
      if k < 0 then -1 else k + 1
  }

  /** The lookup only looks at the ids. */
  lemma {:induction false} FindBatchSameIds(a: seq<Batch>, b: seq<Batch>, id: Option<string>)
    requires |a| == |b| && forall j :: 0 <= j < |a| ==> a[j].batchId == b[j].batchId
    ensures FindBatch(a, id) == FindBatch(b, id)
    decreases |a|
  {
    if a != [] {
      FindBatchSameIds(a[1..], b[1..], id);
    }
  }

  lemma {:induction false} FindBatchAppended(bs: seq<Batch>, x: Batch, id: Option<string>)
    requires forall j :: 0 <= j < |bs| ==> bs[j].batchId != id
    requires x.batchId == id
    ensures FindBatch(bs + [x], id) == |bs|
    decreases |bs|
  {
    if bs != [] {
      FindBatchAppended(bs[1..], x, id);
      assert (bs + [x])[1..] == bs[1..] + [x];
    }
  }

  /** `Batch.findOneAndUpdate({batchId}, {name, resumes: []}, {upsert: true})`:
      the matching batch is renamed and emptied, or a new one is appended
      (upserts run no required-field validation). */
  function ResetBatch(bs: seq<Batch>, id: string, name: string): (r: seq<Batch>)
    ensures |r| == |bs| || |r| == |bs| + 1
    ensures var k := FindBatch(r, Some(id));
            && 0 <= k && r[k].name == Some(name) && r[k].resumes == []
            && (forall j :: 0 <= j < |bs| && j != k ==> r[j] == bs[j])
            && (k < |bs| ==> r[k] == bs[k].(name := Some(name), resumes := []))
  {
    var k := FindBatch(bs, Some(id));
    if k >= 0 then
      var r := bs[k := bs[k].(name := Some(name), resumes := [])];
      assert FindBatch(r, Some(id)) == k by {
        FindBatchSameIds(r, bs, Some(id));
      }
      r
    else
      var r := bs + [NewBatch(Some(id), None, None, Some(name), [])];
      assert FindBatch(r, Some(id)) == |bs| by {
        FindBatchAppended(bs, NewBatch(Some(id), None, None, Some(name), []), Some(id));
      }
      r
  }

  /** `batchId` and `batchName` pass the truthiness check. */
  predicate Filled(s: Option<string>) {
    s.Some? && s.value != ""
  }

  /** The state the analysis loop threads: the stream so far, whether each
      line was preceded by a delay, the ids already analysed successfully
      (`processed`) and the payloads pushed onto the batch. */
  datatype Progress = Progress(lines: seq<Line>, delayed: seq<bool>, processed: set<nat>, pushed: seq<ResumeEntry>)

  /** One iteration for the `i`-th stored CV: an id already analysed is
      skipped; otherwise wait iff something succeeded before, analyse, and
      on success push the payload and remember the id. */
  function AnalyzeStep(p: Progress, cv: StoredCv, i: nat, criteria: Json, svc: Services): Progress {
    if cv.id in p.processed then p
    else
      var result := AnalyzeOne(cv, i, criteria, svc);
      Progress(p.lines + [LineOf(cv, result)],
               p.delayed + [p.processed != {}],
               if result.Success? then p.processed + {cv.id} else p.processed,
               if result.Success? then p.pushed + [result.value] else p.pushed)
  }

  /** The loop state after the first `n` stored CVs. */
  function AnalyzePrefix(cvs: seq<StoredCv>, n: nat, criteria: Json, svc: Services): Progress
    requires n <= |cvs|
  {
    if n == 0 then Progress([], [], {}, [])
    else AnalyzeStep(AnalyzePrefix(cvs, n - 1, criteria, svc), cvs[n - 1], n - 1, criteria, svc)
  }

  /** One more iteration of the loop extends the prefix by one CV. */
  lemma AnalyzePrefixNext(cvs: seq<StoredCv>, i: nat, criteria: Json, svc: Services)
    requires i < |cvs|
    ensures AnalyzePrefix(cvs, i + 1, criteria, svc)
            == AnalyzeStep(AnalyzePrefix(cvs, i, criteria, svc), cvs[i], i, criteria, svc)
  {
  }

  lemma PayloadsStep(lines: seq<Line>, l: Line)
    ensures Payloads(lines + [l]) == Payloads(lines) + (if l.Payload? then [l.entry] else [])
  {
    assert (lines + [l])[..|lines|] == lines;
  }

  /** Whatever the store holds, the batch receives exactly the successful
      payloads of the stream, and every line has its delay flag. */
  lemma {:induction false} AnalyzePrefixPushes(cvs: seq<StoredCv>, n: nat, criteria: Json, svc: Services)
    requires n <= |cvs|
    ensures var p := AnalyzePrefix(cvs, n, criteria, svc);
            |p.delayed| == |p.lines| && p.pushed == Payloads(p.lines)
    decreases n
  {
    if n > 0 {
      AnalyzePrefixPushes(cvs, n - 1, criteria, svc);
      var p := AnalyzePrefix(cvs, n - 1, criteria, svc);
      var cv := cvs[n - 1];
      if cv.id !in p.processed {
        PayloadsStep(p.lines, LineOf(cv, AnalyzeOne(cv, n - 1, criteria, svc)));
      }
    }
  }

  /** In a store with ids 1, 2, ... no CV is skipped: line `j` is the
      analysis of CV `j`, and the remembered ids are those seen so far. */
  lemma {:induction false} AnalyzePrefixLines(st: Store, n: nat, criteria: Json, svc: Services)
    requires Valid(st) && n <= |st.cvs|
    ensures var p := AnalyzePrefix(st.cvs, n, criteria, svc);
            && |p.lines| == n
            && (forall j :: 0 <= j < n ==> p.lines[j] == LineOf(st.cvs[j], AnalyzeOne(st.cvs[j], j, criteria, svc)))
            && (forall x :: x in p.processed ==> 1 <= x <= n)
            && (p.processed == {} <==> forall j :: 0 <= j < n ==> !p.lines[j].Payload?)
    decreases n
  {
    if n > 0 {
      AnalyzePrefixLines(st, n - 1, criteria, svc);
      assert st.cvs[n - 1].id == n;
      LinesStep(AnalyzePrefix(st.cvs, n - 1, criteria, svc), st.cvs, n, criteria, svc);
    }
  }

  /** One step of the run above: a CV with a fresh id is analysed and its
      line appended. */
  lemma LinesStep(p: Progress, cvs: seq<StoredCv>, n: nat, criteria: Json, svc: Services)
    requires 1 <= n <= |cvs| && |p.lines| == n - 1 && cvs[n - 1].id == n
    requires forall j :: 0 <= j < n - 1 ==> p.lines[j] == LineOf(cvs[j], AnalyzeOne(cvs[j], j, criteria, svc))
    requires forall x :: x in p.processed ==> 1 <= x <= n - 1
    requires p.processed == {} <==> forall j :: 0 <= j < n - 1 ==> !p.lines[j].Payload?
    ensures var q := AnalyzeStep(p, cvs[n - 1], n - 1, criteria, svc);
            && |q.lines| == n
            && (forall j :: 0 <= j < n ==> q.lines[j] == LineOf(cvs[j], AnalyzeOne(cvs[j], j, criteria, svc)))
            && (forall x :: x in q.processed ==> 1 <= x <= n)
            && (q.processed == {} <==> forall j :: 0 <= j < n ==> !q.lines[j].Payload?)
  {
    var cv := cvs[n - 1];
    var res := AnalyzeOne(cv, n - 1, criteria, svc);
    var l := LineOf(cv, res);
    var q := AnalyzeStep(p, cv, n - 1, criteria, svc);
    assert cv.id !in p.processed;
    assert q.lines == p.lines + [l];
    assert forall j :: 0 <= j < n - 1 ==> q.lines[j] == p.lines[j];
    if res.Success? {
      assert q.lines[n - 1].Payload? && cv.id in q.processed;
    } else {
      assert q.processed == p.processed && !q.lines[n - 1].Payload?;
    }
  }

  /** A CV is preceded by a delay iff an earlier CV of the run succeeded. */
  lemma {:induction false} AnalyzePrefixDelays(st: Store, n: nat, criteria: Json, svc: Services)
    requires Valid(st) && n <= |st.cvs|
    ensures var p := AnalyzePrefix(st.cvs, n, criteria, svc);
            |p.delayed| == |p.lines| == n
            && forall j :: 0 <= j < n ==> (p.delayed[j] <==> exists m :: 0 <= m < j && p.lines[m].Payload?)
    decreases n
  {
    if n > 0 {
      AnalyzePrefixDelays(st, n - 1, criteria, svc);
      AnalyzePrefixLines(st, n - 1, criteria, svc);
      assert st.cvs[n - 1].id == n;
      DelaysStep(AnalyzePrefix(st.cvs, n - 1, criteria, svc), st.cvs[n - 1], n, criteria, svc);
    }
  }

  /** One step of the run above: the new line waits iff an earlier line
      was a success. */
  lemma DelaysStep(p: Progress, cv: StoredCv, n: nat, criteria: Json, svc: Services)
    requires 1 <= n && |p.delayed| == |p.lines| == n - 1
    requires cv.id == n && forall x :: x in p.processed ==> 1 <= x <= n - 1
    requires p.processed == {} <==> forall j :: 0 <= j < n - 1 ==> !p.lines[j].Payload?
    requires forall j :: 0 <= j < n - 1 ==> (p.delayed[j] <==> exists m :: 0 <= m < j && p.lines[m].Payload?)
    ensures var q := AnalyzeStep(p, cv, n - 1, criteria, svc);
            |q.delayed| == |q.lines| == n
            && forall j :: 0 <= j < n ==> (q.delayed[j] <==> exists m :: 0 <= m < j && q.lines[m].Payload?)
  {
    var q := AnalyzeStep(p, cv, n - 1, criteria, svc);
    assert cv.id !in p.processed;
    var l := LineOf(cv, AnalyzeOne(cv, n - 1, criteria, svc));
    assert q.lines == p.lines + [l] && q.delayed == p.delayed + [p.processed != {}];
    forall j | 0 <= j < n
      ensures q.delayed[j] <==> exists m :: 0 <= m < j && q.lines[m].Payload?
    {
      assert forall m :: 0 <= m < j ==> q.lines[m] == p.lines[m];
      if j < n - 1 {
        assert q.delayed[j] == p.delayed[j];
      }
    }
  }

  /** `analyzeCvs`: reject a missing batch id or name; with an empty store
      end without touching any batch; otherwise reset the batch and analyse
      every stored CV in order, streaming one line each and pushing each
      success onto the batch. A failure only produces an error line. */
  method AnalyzeCvs(batchId: Option<string>, batchName: Option<string>, criteria: Json,
                    st: Store, batches: seq<Batch>, svc: Services)
    returns (resp: AnalyzeResponse, batches': seq<Batch>)
    ensures !Filled(batchId) || !Filled(batchName) ==>
              resp == AnalyzeRejected(400, "batchId and batchName required") && batches' == batches
    ensures Filled(batchId) && Filled(batchName) && GetCvs(st) == [] ==>
              resp == Streamed([], []) && batches' == batches
    ensures Filled(batchId) && Filled(batchName) && GetCvs(st) != [] ==>
              var k := FindBatch(batches', batchId);
              && resp.Streamed? && |resp.delayed| == |resp.lines|
              && 0 <= k && batches'[k].name == batchName
              && batches'[k].resumes == Payloads(resp.lines)
              && (|batches'| == |batches| || |batches'| == |batches| + 1)
              && (forall j :: 0 <= j < |batches| && j != k ==> batches'[j] == batches[j])
    ensures Filled(batchId) && Filled(batchName) && GetCvs(st) != [] && Valid(st) ==>
              var cvs := GetCvs(st);
              && resp.Streamed? && |resp.lines| == |cvs|
              && (forall i :: 0 <= i < |cvs| ==>
                    resp.lines[i] == LineOf(cvs[i], AnalyzeOne(cvs[i], i, criteria, svc))
                    && LineId(resp.lines[i]) == cvs[i].id)
              && (forall i :: 0 <= i < |cvs| ==>
                    (resp.delayed[i] <==> exists j :: 0 <= j < i && resp.lines[j].Payload?))
  {
    if !Filled(batchId) || !Filled(batchName) {
      return AnalyzeRejected(400, "batchId and batchName required"), batches;
    }
    var cvs := GetCvs(st);
    if |cvs| == 0 {
      return Streamed([], []), batches;
    }
    batches' := ResetBatch(batches, batchId.value, batchName.value);
    var k := FindBatch(batches', batchId);
    ghost var reset := batches';
    var progress;
    progress, batches' := AnalyzeAll(cvs, criteria, svc, batches', k);
    resp := Streamed(progress.lines, progress.delayed);
    assert |resp.delayed| == |resp.lines| && batches'[k].resumes == Payloads(resp.lines) by {
      AnalyzePrefixPushes(cvs, |cvs|, criteria, svc);
    }
    PushAfterReset(batches, batchId.value, batchName.value, progress.pushed);
    if Valid(st) {
      ValidRun(st, criteria, svc);
    }
  }

  /** Appending to the batch just reset leaves it where the lookup finds
      it, with exactly the appended resumes. */
  lemma PushAfterReset(batches: seq<Batch>, id: string, name: string, pushed: seq<ResumeEntry>)
    ensures var r := ResetBatch(batches, id, name);
            var k := FindBatch(r, Some(id));
            var b := r[k := r[k].(resumes := r[k].resumes + pushed)];
            && FindBatch(b, Some(id)) == k && b[k].name == Some(name) && b[k].resumes == pushed
            && (|b| == |batches| || |b| == |batches| + 1)
            && (forall j :: 0 <= j < |batches| && j != k ==> b[j] == batches[j])
  {
    var r := ResetBatch(batches, id, name);
    var k := FindBatch(r, Some(id));
    var b := r[k := r[k].(resumes := r[k].resumes + pushed)];
    assert r[k].resumes + pushed == pushed;
    FindBatchSameIds(b, r, Some(id));
  }

  /** On a valid store the run analyses every CV once, in order. */
  lemma ValidRun(st: Store, criteria: Json, svc: Services)
    requires Valid(st)
    ensures var p := AnalyzePrefix(st.cvs, |st.cvs|, criteria, svc);
            && |p.lines| == |p.delayed| == |st.cvs|
            && (forall i :: 0 <= i < |st.cvs| ==>
                  p.lines[i] == LineOf(st.cvs[i], AnalyzeOne(st.cvs[i], i, criteria, svc))
                  && LineId(p.lines[i]) == st.cvs[i].id)
            && (forall i :: 0 <= i < |st.cvs| ==>
                  (p.delayed[i] <==> exists j :: 0 <= j < i && p.lines[j].Payload?))
  {
    var p := AnalyzePrefix(st.cvs, |st.cvs|, criteria, svc);
    AnalyzePrefixLines(st, |st.cvs|, criteria, svc);
    AnalyzePrefixDelays(st, |st.cvs|, criteria, svc);
    LinesReportIds(st, p.lines, criteria, svc);
  }

  /** The loop of `analyzeCvs` over the stored CVs, pushing each success
      onto batch `k`. */
  method AnalyzeAll(cvs: seq<StoredCv>, criteria: Json, svc: Services, batches: seq<Batch>, k: nat)
    returns (progress: Progress, batches': seq<Batch>)
    requires k < |batches|
    ensures progress == AnalyzePrefix(cvs, |cvs|, criteria, svc)
    ensures batches' == batches[k := batches[k].(resumes := batches[k].resumes + progress.pushed)]
  {
    progress := Progress([], [], {}, []);
    var i := 0;
    while i < |cvs|
      invariant 0 <= i <= |cvs|
      invariant progress == AnalyzePrefix(cvs, i, criteria, svc)
    {
      AnalyzePrefixNext(cvs, i, criteria, svc);
      progress := AnalyzeStep(progress, cvs[i], i, criteria, svc);
      i := i + 1;
    }
    batches' := batches[k := batches[k].(resumes := batches[k].resumes + progress.pushed)];
  }

  /** Every line reports the id of the CV it was produced for. */
  lemma LinesReportIds(st: Store, lines: seq<Line>, criteria: Json, svc: Services)
    requires Valid(st) && |lines| == |st.cvs|
    requires forall j :: 0 <= j < |lines| ==>
               lines[j] == LineOf(st.cvs[j], AnalyzeOne(st.cvs[j], j, criteria, svc))
    ensures forall j :: 0 <= j < |lines| ==> LineId(lines[j]) == st.cvs[j].id
  {
  }
  /* ================= rankCvs ================= */

  /** `rankCvs`: 404 for an unknown batch, otherwise its resumes ordered by
      non-increasing score, a missing score counting as 0. */
  function RankCvs(batchId: Option<string>, batches: seq<Batch>): (r: Result<seq<ResumeEntry>, nat>)
    ensures FindBatch(batches, batchId) < 0 <==> r == Failure(404)
    ensures r.Success? ==>
              var rs := batches[FindBatch(batches, batchId)].resumes;
              && multiset(r.value) == multiset(rs)
              && Ranking.NonIncreasing(r.value, ScoreOf)
  {
    var k := FindBatch(batches, batchId);
    if k < 0 then Failure(404)
    else
      var rs := batches[k].resumes;
      assert multiset(Ranking.SortDesc(rs, ScoreOf)) == multiset(rs) by {
        Ranking.SortPermutes(rs, ScoreOf);
      }
      assert Ranking.NonIncreasing(Ranking.SortDesc(rs, ScoreOf), ScoreOf) by {
        Ranking.SortSorted(rs, ScoreOf);
      }
      Success(Ranking.SortDesc(rs, ScoreOf))
  }

  /** Resumes with equal scores keep their stored order. */
  lemma RankIsStable(batchId: Option<string>, batches: seq<Batch>, k: real)
    requires RankCvs(batchId, batches).Success?
    ensures var rs := batches[FindBatch(batches, batchId)].resumes;
            Ranking.WithKey(RankCvs(batchId, batches).value, ScoreOf, k) == Ranking.WithKey(rs, ScoreOf, k)
  {
    Ranking.SortStable(batches[FindBatch(batches, batchId)].resumes, ScoreOf, k);
  }

  /** Any non-increasing permutation of the batch's resumes that keeps the
      stored order among equal scores is the ranking. */
  lemma RankIsUnique(batchId: Option<string>, batches: seq<Batch>, r: seq<ResumeEntry>)
    requires FindBatch(batches, batchId) >= 0
    requires var rs := batches[FindBatch(batches, batchId)].resumes;
             && multiset(r) == multiset(rs) && Ranking.NonIncreasing(r, ScoreOf)
             && forall k :: Ranking.WithKey(r, ScoreOf, k) == Ranking.WithKey(rs, ScoreOf, k)
    ensures RankCvs(batchId, batches) == Success(r)
  {
    Ranking.SortUnique(batches[FindBatch(batches, batchId)].resumes, r, ScoreOf);
  }

  /** Ranking right after an analysis run orders exactly the run's successful
      payloads, whose scores all lie in [0, 100]. */
  lemma RankAfterAnalysis(batchId: Option<string>, batches: seq<Batch>, lines: seq<Line>)
    requires FindBatch(batches, batchId) >= 0
    requires batches[FindBatch(batches, batchId)].resumes == Payloads(lines)
    requires forall i :: 0 <= i < |lines| && lines[i].Payload? ==>
               lines[i].entry.Scored? && 0.0 <= lines[i].entry.analysis.score <= 100.0
    ensures RankCvs(batchId, batches).Success?
    ensures multiset(RankCvs(batchId, batches).value) == multiset(Payloads(lines))
    ensures forall e :: e in RankCvs(batchId, batches).value ==> 0.0 <= ScoreOf(e) <= 100.0
  {
    PayloadsScored(lines);
    var r := RankCvs(batchId, batches).value;
    forall e | e in r ensures 0.0 <= ScoreOf(e) <= 100.0 {
      assert e in multiset(Payloads(lines));
    }
  }

  lemma {:induction false} PayloadsScored(lines: seq<Line>)
    requires forall i :: 0 <= i < |lines| && lines[i].Payload? ==>
               lines[i].entry.Scored? && 0.0 <= lines[i].entry.analysis.score <= 100.0
    ensures forall e :: e in Payloads(lines) ==> e.Scored? && 0.0 <= e.analysis.score <= 100.0
    decreases |lines|
  {
    if lines != [] {
      PayloadsScored(lines[..|lines| - 1]);
    }
  }
}

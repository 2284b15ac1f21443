# CV screening back end: a Dafny model

This project models the rule-bearing core of an Express/Mongoose back end for
recruiting. Recruiters upload CVs, a language model structures and scores them
against job criteria, the scored CVs are kept in batches and ranked, and batch
resumes become "bulk" applicants next to the applicants who applied through the
portal. The model covers these parts:

- `MemStorage`, the in-memory CV staging store (module `CvStore`).
- The analyzer handlers (module `Analyzer`):
  - `structureCvData` and its profile defaulting;
  - `uploadCvs` and its per-file accounting;
  - the `analyzeCvs` loop, with clamping, one streamed line per CV and pushes onto the batch;
  - `rankCvs`, a stable sort by descending score (module `Ranking`).
- The batch handlers `uploadBatchResumes` and `clearBatch` (module `Batches`):
  - upsert by `cvId`;
  - per-type experience counters.
- The applicant handlers (module `Applicants`):
  - `createApplicant` and `createBulkApplicant`;
  - the bulk fold `createBulkApplicantsFromBatch`;
  - the status-flag update `updateApplicantStatus`.
- The CV Forge handlers (module `CvForge`):
  - `cleanJson`;
  - extractor dispatch;
  - text truncation and the blank-text check;
  - the `enrichCv` merge.
- The GPA repair script (module `Gpa`):
  - `normalizeGpaTo4`, read from text with exact rationals;
  - the per-applicant maximum.
- The Mongoose schema rules of the job, fyp, project, internship, student resume, employer, batch and applicant models (modules `Records`, `Batches`, `Applicants`):
  - required fields, enums and defaults;
  - the unique indexes;
  - the zero-padded id generators;
  - `softDelete`.

Everything is a pure function over immutable values. A collection is a `seq` of documents in insertion order, and `findOne` returns the first match. JSON values are the `Json` datatype. These services are parameters, so every property holds whatever they answer (module `Oracles`):

- the PDF and DOCX text extractors;
- the language model;
- `JSON.parse`;
- the population of a user's email.

Timestamps are also parameters. A fresh ObjectId is computed from the collection by Applicants.FreshRef, which exceeds every stored id and userId.

## Model

| member | source | states |
|---|---|---|
| CvStore.Fresh | storage.js:2-5 | a new store holds no record, reads nothing under any id, and its next id is 1 |
| CvStore.MapSet | storage.js:10 | `Map.set` appends a new key at the end, overwrites an existing key in place, and leaves every other entry where it was |
| CvStore.CreateCv | storage.js:7-12 | the record is the input plus the old counter as id, and the counter grows by exactly one; in a reachable store the record is appended and ids stay 1..n in order |
| CvStore.GetCvs | storage.js:14-16 | records come back in creation order, which is strictly ascending id order |
| CvStore.GetCv | storage.js:18-20 | the record stored under the id, or none iff no record has it; in a reachable store exactly the ids 1..n are found, id i being the i-th record |
| CvStore.ClearCvs | storage.js:22-25 | no records and the counter back at 1 |
| CvStore.CreateThenGet | storage.js:7-20 | the id `createCv` returns reads back the created record, and every other id reads what it read before |
| CvStore.CreatesFromClear | storage.js:7-25 | n creations after a clear issue the ids 1..n to the inputs in order, record i carrying input i's filename, content and upload date |
| Analyzer.DefaultMember | controllers/analyzer.controller.js:77-84 | `??=` sets a member that is missing or null to the default, keeps one that is present and non-null, and touches no other member |
| Analyzer.DefaultCounters | controllers/analyzer.controller.js:77-80 | an object `personalInfo` ends up with the three experience counters and keeps its present non-null members; an array passes through; any other value makes the assignment throw |
| Analyzer.NormalizeProfile | controllers/analyzer.controller.js:77-84 | an object reply that normalises carries personalInfo with the counters, plus education, experience and skills; an array passes; a primitive throws |
| Analyzer.NormalizeKeeps | controllers/analyzer.controller.js:77-84 | when personalInfo is missing, an object or an array, normalising succeeds; present non-null top-level members are kept and missing ones get `[]`, `[]` and `{technical:[],soft:[],tools:[]}` |
| Analyzer.NormalizeCounters | controllers/analyzer.controller.js:77-80 | inside personalInfo each counter is kept when present and non-null and is 0 otherwise |
| Analyzer.DefaultMemberFixes | controllers/analyzer.controller.js:78-84 | defaulting a member that is already present and non-null changes nothing |
| Analyzer.NormalizeIdempotent | controllers/analyzer.controller.js:77-84 | normalising a normalised reply gives it back unchanged |
| Analyzer.CvText | controllers/analyzer.controller.js:57 | the prompt text is a prefix of the extracted text of at most 6000 characters, and "" when there is none |
| Analyzer.StructureCv | controllers/analyzer.controller.js:28-91 | a failed extraction fails the call; an object reply that succeeds is profiled |
| Analyzer.ModelSeesExcerpt | controllers/analyzer.controller.js:56-72 | the result depends on the model only through its answer to the excerpt |
| Analyzer.ErrorMessage | controllers/analyzer.controller.js:139 | a failed file is always reported with a non-empty message |
| Analyzer.OutcomeOf | controllers/analyzer.controller.js:111-141 | an oversized file fails with the size message; a processed file carries the store's id, its own name and the upload date; a failure names its file |
| Analyzer.Outcomes | controllers/analyzer.controller.js:108-142 | one outcome per uploaded file |
| Analyzer.OutcomesSplit | controllers/analyzer.controller.js:129-141 | every outcome lands in exactly one of `cvs` and `errors` |
| Analyzer.UploadPrefixStore | controllers/analyzer.controller.js:103-127 | after any prefix of files the store holds exactly the files under the limit, in order, parse failures included, and every listed CV points at its stored record |
| Analyzer.UploadPrefixLists | controllers/analyzer.controller.js:108-142 | after any prefix of files the two lists are the outcomes of those files |
| Analyzer.UploadCvs | controllers/analyzer.controller.js:96-158 | no files: 400 and the store untouched; otherwise processed + failed = total, success iff something was processed, and the store holds every file under 50 MiB |
| Analyzer.Clamp | controllers/analyzer.controller.js:220-221 | the result lies in [0, 100], equals the input inside it and the nearer bound outside it |
| Analyzer.AnalysisOf | controllers/analyzer.controller.js:219-230 | score and matchPercentage are clamped into [0, 100] (missing as 0) and `locked` is false |
| Analyzer.AnalyzeOne | controllers/analyzer.controller.js:188-240 | a success is a scored payload for this CV with a score in [0, 100]; a structuring failure is a failure |
| Analyzer.LineOf | controllers/analyzer.controller.js:233-247 | a CV yields a payload line iff its analysis succeeded, and an error line otherwise |
| Analyzer.FindBatch | controllers/analyzer.controller.js:268 | the first batch with the id, or -1 iff none has it |
| Analyzer.ResetBatch | controllers/analyzer.controller.js:176-180 | after the upsert the batch with the id exists, carries the new name and no resumes, and every other batch is unchanged |
| Analyzer.AnalyzePrefixPushes | controllers/analyzer.controller.js:184-240 | the resumes pushed so far are exactly the payloads of the stream so far, in order |
| Analyzer.AnalyzePrefixLines | controllers/analyzer.controller.js:184-249 | in a reachable store no CV is skipped: line j is the analysis of stored CV j |
| Analyzer.AnalyzePrefixDelays | controllers/analyzer.controller.js:182-186 | a CV is preceded by a delay iff an earlier CV of the run succeeded |
| Analyzer.AnalyzeAll | controllers/analyzer.controller.js:184-249 | the loop's state is the fold over all stored CVs, and the batch gains exactly the pushed payloads |
| Analyzer.AnalyzeCvs | controllers/analyzer.controller.js:163-260 | missing batchId or batchName: 400 and no batch changes; empty store: end without touching any batch; otherwise one line per stored CV in order, and the batch's resumes equal the success payloads |
| Analyzer.LinesReportIds | controllers/analyzer.controller.js:217-244 | every line reports the id of the CV it was produced for |
| Analyzer.RankCvs | controllers/analyzer.controller.js:265-279 | unknown batch iff 404; otherwise a permutation of the batch's resumes with non-increasing score, a missing score counting as 0 |
| Analyzer.RankIsStable | controllers/analyzer.controller.js:271-275 | resumes with equal scores keep their stored order |
| Analyzer.RankIsUnique | controllers/analyzer.controller.js:271-275 | any non-increasing, order-keeping permutation of the batch's resumes is the ranking, so the three properties define it |
| Analyzer.RankAfterAnalysis | controllers/analyzer.controller.js:228-275 | ranking right after a run orders exactly the run's payloads, all scored in [0, 100] |
| Ranking.SortPermutes | controllers/analyzer.controller.js:272-274 | the sort returns a permutation of its input |
| Ranking.SortSorted | controllers/analyzer.controller.js:272-274 | the sort's result has non-increasing keys |
| Ranking.SortStable | controllers/analyzer.controller.js:272-274 | the sort keeps the input order among equal keys |
| Ranking.SortUnique | controllers/analyzer.controller.js:272-274 | a non-increasing permutation with the input order among equal keys is the sort's result |
| Batches.NewBatch | models/batch.js:59-80 | a new batch is idle and uploaded, not processing, completed or failed, and not deleted |
| Batches.LockedOf | models/batch.js:53 | a resume whose analysis has no `locked` reads as unlocked |
| Batches.ExperienceKey | controllers/batch.controller.js:21 | the counter key is the lowercased type with white space removed, so it is all lower case |
| Batches.RemoveSpaces | controllers/batch.controller.js:21 | the result has no white space and only characters of the input |
| Batches.CamelKeyUnreachable | controllers/batch.controller.js:19-22 | no lowercased key spells `professionalJob` |
| Batches.AddMonthsByType | controllers/batch.controller.js:19-24 | an entry whose lowercased, space-free type is internship, freelancing or miscellaneous adds its months to that counter and changes no other; any other type, `professionalJob` included, changes nothing; the total grows by exactly the months added |
| Batches.CountExperience | controllers/batch.controller.js:20-23 | after the forEach the `professionalJob` counter is still 0 |
| Batches.SummaryOf | controllers/batch.controller.js:18-38 | null extractedData throws; a non-array `experience` throws; otherwise the summary carries the CV's id, filename and date, the counters of its experience (total = their sum, `professionalJob` 0), and personalInfo, degree, gpa, skills, summary and analysis read from the CV with their `\|\|` defaults |
| Batches.SummaryFromFirstEducation | controllers/batch.controller.js:18-37 | a CV whose data holds only an education list takes degree and gpa from the first entry and gets `{}`, `""`, `[]` and total 0 for the rest |
| Batches.FindByCvId | controllers/batch.controller.js:17 | the first resume with the cvId, or -1 iff none has it |
| Batches.Upsert | controllers/batch.controller.js:40-41 | a resume with the same cvId is replaced in place, otherwise the entry is appended; resumes with other cvIds keep their positions |
| Batches.UpsertKeepsDistinct | controllers/batch.controller.js:17-41 | upserting keeps cvIds distinct |
| Batches.UpsertAllLength | controllers/batch.controller.js:15-42 | the list grows by at most one per incoming CV and never shrinks; distinct cvIds stay distinct |
| Batches.LaterEntryWins | controllers/batch.controller.js:15-42 | the last incoming CV with each id is in the batch, and so is every old resume no incoming CV names |
| Batches.RepeatedIdInOneUpload | controllers/batch.controller.js:15-42 | two incoming CVs with the same new id leave only the later one, appended once |
| Batches.UploadBatchResumes | controllers/batch.controller.js:4-50 | a missing or empty list gives 400; with no batch the save fails; a CV whose summary throws fails the call; otherwise the call succeeds iff the first batch validates, and it then holds exactly the upsert of every summary into its resumes, in order, every other batch unchanged |
| Batches.ClearBatch | controllers/batch.controller.js:86-97 | with no batch it still succeeds; otherwise the first batch gets an empty list and saves iff it is valid |
| Batches.ClearBatchIdempotent | controllers/batch.controller.js:86-97 | clearing twice is clearing once, and the batch's resumes end up empty |
| CvForge.DropBeforeBrace | controllers/CvForge.controller.js:21 | the result is the suffix starting at the first `{`, empty when there is none |
| CvForge.DropAfterCloseBrace | controllers/CvForge.controller.js:21 | the result is the prefix ending at the last `}`, empty when there is none |
| CvForge.CleanJson | controllers/CvForge.controller.js:18-26 | never throws: a value iff `JSON.parse` accepts the cleaned text, otherwise the error marker whose `raw` is the cleaned text (null for null content) |
| CvForge.NoFenceAfterRemoval | controllers/CvForge.controller.js:20 | no "```" survives the global removal |
| CvForge.NoFenceReachesParser | controllers/CvForge.controller.js:20-22 | the text handed to `JSON.parse` contains no "```" |
| CvForge.CleanedIsBraced | controllers/CvForge.controller.js:21 | the text handed to `JSON.parse` is empty or runs from a `{` to a `}` |
| CvForge.NoBraceIsInvalid | controllers/CvForge.controller.js:21-24 | a reply without `{` cleans to "" and gives the error marker |
| CvForge.BareObjectUnchanged | controllers/CvForge.controller.js:20-22 | a fence-free reply that trims to `{...}` reaches the parser as that trimmed text |
| CvForge.AskModel | controllers/CvForge.controller.js:77-89 | the model is sent the first `limit` characters; the call answers iff the model returns content, and then the body is `cleanJson` of that content; a failed model call is 500 |
| CvForge.ParseResume | controllers/CvForge.controller.js:42-93 | no file gives 400; extraction failure gives 500; blank text gives 400; non-blank text gets the model's answer to its first 6000 characters |
| CvForge.EmployeeParser | controllers/CvForge.controller.js:99-155 | no file gives 400 and extraction failure 500; any extracted text, blank included, gets the model's answer to its first 15000 characters |
| CvForge.BlankTextParsers | controllers/CvForge.controller.js:54-55 | on blank text with a model that answers, the resume parser gives 400 while the academic parser returns the cleaned reply |
| CvForge.ResumeAnswered | controllers/CvForge.controller.js:57-90 | on non-blank text with a model that answers, the resume parser returns the cleaned reply to the 6000-character excerpt |
| CvForge.ExtractorDispatch | controllers/CvForge.controller.js:50-52 | a MIME type containing "pdf" is read only by the PDF extractor, any other only by the DOCX extractor |
| CvForge.ShortTextSentWhole | controllers/CvForge.controller.js:54-139 | on non-blank text of at most 6000 characters the two parsers answer the same |
| CvForge.SpreadOf | controllers/CvForge.controller.js:199 | an object spreads its members, an array or string its indexed elements, a primitive nothing |
| CvForge.IndexMap | controllers/CvForge.controller.js:199 | the keys are exactly the decimal indexes, each mapped to its element |
| CvForge.EnrichCv | controllers/CvForge.controller.js:161-205 | 400 unless both inputs are truthy; `combined_cv` is `parsed_data` spread plus `ai_enrichment`, which equals `suggestions` |
| Gpa.FractionValue | scripts/fix-gpa.js:13 | the digits after a point stand for a value in [0, 1] |
| Gpa.Round2 | scripts/fix-gpa.js:19 | `toFixed(2)` read back lies within 0.005 of the input and is not negative |
| Gpa.Round2Idempotent | scripts/fix-gpa.js:70 | rounding a rounded value changes nothing |
| Gpa.IndexOf | scripts/fix-gpa.js:11 | the first position of the character, or -1 iff absent |
| Gpa.FirstCommaToPoint | scripts/fix-gpa.js:11 | only the first comma becomes a point; every other character is kept |
| Gpa.ScaleToFour | scripts/fix-gpa.js:18 | the result times the scale is four times the value, and it is not negative |
| Gpa.NormalizeGpaTo4 | scripts/fix-gpa.js:9-42 | null or undefined gives null, and a result is never negative |
| Gpa.GpaExamples | scripts/fix-gpa.js:13-32 | "8/10" gives 3.2, "3/0" gives null, "85%" gives 3.4 |
| Gpa.FractionOfDigits | scripts/fix-gpa.js:13-22 | "v/s" gives (v/s)*4 rounded to hundredths when s > 0, and null when s = 0 |
| Gpa.FractionOfDecimals | scripts/fix-gpa.js:13-22 | the same for any two naturals written in decimal |
| Gpa.PercentOfDigits | scripts/fix-gpa.js:24-32 | "v%" gives (v/100)*4 rounded to hundredths |
| Gpa.NumeralAt | scripts/fix-gpa.js:13 | a number written as digits with an optional point and digits, followed by neither a digit nor a point, is read back at its value |
| Gpa.SeparatorSpelled | scripts/fix-gpa.js:13 | each of "/", "out of" and "of" written at a position is the separator the pattern takes there |
| Gpa.FractionOfNumerals | scripts/fix-gpa.js:11-22 | "v/s", "v out of s" and "v of s", with decimal operands and any white space around the separator, give (v/s)*4 rounded to hundredths when s > 0, and null when s = 0 |
| Gpa.PercentOfNumeral | scripts/fix-gpa.js:11-32 | a decimal v followed by any white space and "%" gives (v/100)*4 rounded to hundredths |
| Gpa.BareDigits | scripts/fix-gpa.js:34-41 | a bare number goes through the range rule: [0,4] kept, (4,10] out of 10, (10,100] out of 100, above 100 null |
| Gpa.BareNumeral | scripts/fix-gpa.js:34-41 | a decimal such as "3.75", with any white space around it, is read at its value and goes through the same range rule |
| Gpa.NumberExamples | scripts/fix-gpa.js:34-41 | 3.7 stays, 9.2 gives 3.68, -3 reads as 3, 100.5 gives null |
| Gpa.DigitFreeIsNull | scripts/fix-gpa.js:34-35 | text without a digit, such as "n/a", gives null |
| Gpa.CommaIsPoint | scripts/fix-gpa.js:11 | "3,5" reads as 3.5 |
| Gpa.NormalizedIsRounded | scripts/fix-gpa.js:19-40 | every value the normaliser returns is already in hundredths |
| Gpa.EducationList | scripts/fix-gpa.js:60-61 | a single education object counts as a one-element list |
| Gpa.EntryGpa | scripts/fix-gpa.js:63-68 | an entry contributes only a value in [0, 4] |
| Gpa.ValueGpa | scripts/fix-gpa.js:64-66 | a raw value whose string form the model cannot build gives nothing; otherwise only a value in [0, 4] is kept |
| Gpa.OneElementArray | scripts/fix-gpa.js:11 | `String([v])` is `String(v)` for non-null v, so a one-element array is read exactly as its element |
| Gpa.ArrayOfOneNumber | scripts/fix-gpa.js:11-40 | the array `[3.5]` counts as 3.5 |
| Gpa.Accepted | scripts/fix-gpa.js:62-68 | all accepted values lie in [0, 4], at most one per entry |
| Gpa.MaxOf | scripts/fix-gpa.js:70 | the maximum is one of the values and bounds them all |
| Gpa.FinalGpa | scripts/fix-gpa.js:69-70 | a final value exists iff some entry was accepted, and it lies in [0, 4] |
| Gpa.FinalIsMaximum | scripts/fix-gpa.js:69-70 | the final value is exactly the largest accepted value |
| Gpa.FixApplicantGpa | scripts/fix-gpa.js:71-78 | the gpa assigned to the in-memory document is the final value when there is one and the old value otherwise |
| Oracles.TextOr | controllers/CvForge.controller.js:28-36 | a rejected extraction fails; a missing text reads as "" |
| Records.Deleted | models/job.js:123-128 | `softDelete` writes isDeleted = true, the time and the actor |
| Records.GeneratedId | models/job.js:117 | the prefix, then count+1 in decimal left-padded with '0' to the width; it is never truncated, and its digits read back as count+1 |
| Records.GeneratedIdRoundTrip | models/job.js:114-118 | reading the number back gives count+1, so different counts give different ids at any width |
| Records.AssignId | models/job.js:115-118 | an existing id is kept; a missing one gets the generated id |
| Records.NewJob | models/job.js:7-82 | title, description and location are stored trimmed; a missing or empty status becomes Active, which is in the enum; scheduleDate as given or null; the other paths as given; not deleted |
| Records.JobPreSave | models/job.js:114-118 | a missing jobId becomes JOB + pad4(count+1); an existing one is never overwritten |
| Records.JobIdExamples | models/job.js:117 | the first job is JOB0001 and the 10000th is JOB10000 |
| Records.SoftDeleteJob | models/job.js:123-128 | only the three deletion fields change |
| Records.InsertById | models/job.js:5 | a save fails validation first, then succeeds iff no stored document has the new id (a missing id clashes with another missing one); it appends the document and keeps ids distinct |
| Records.SaveJob | models/job.js:5-118 | validation (title, description of at most 5000 characters, location, the six enums, a closing date), then the hook numbers a new job after the stored count, then the unique jobId index: success iff valid and the id is not stored; the job is appended and ids stay distinct |
| Records.JobSaveWithinCount | models/job.js:114-118 | while nothing is removed, a valid job without an id always saves and every id stays numbered within the count |
| Records.JobIdReissued | controllers/job.controller.js:111 | after a hard delete the count-based hook reissues a stored id, so the unique index refuses the next new job |
| Records.BlankJobTitleRefused | models/job.js:7-11 | a title of white space only is trimmed to "" and the job is refused by validation |
| Records.JobTextTrimmed | models/job.js:7-36 | the stored title, description and location have no surrounding white space |
| Records.SplitCountIsWords | models/fyp.js:12 | the count is the number of words, but at least 1, whatever the surrounding or repeated white space |
| Records.DescriptionLimit | models/fyp.js:10-15 | a description is valid iff it has at most 500 words, and white-space padding changes nothing |
| Records.FypPreSave | models/fyp.js:32-37 | a missing fypId becomes FYP + pad4(count+1); an existing one is kept |
| Records.SoftDeleteFyp | models/fyp.js:40-45 | only the three deletion fields change |
| Records.NewFyp | models/fyp.js:6-24 | the title is stored trimmed, postedByModel is Company, the other paths as given; not deleted |
| Records.SaveFyp | models/fyp.js:5-37 | validation (title, description, domain, the duration, collaboration and poster enums, at most 500 words), the hook, then the unique fypId index: success iff valid and the id is not stored; ids stay distinct |
| Records.LongDescriptionRefused | models/fyp.js:10-16 | a description of more than 500 words fails validation |
| Records.BlankFypTitleRefused | models/fyp.js:6 | a title of white space only is refused by validation |
| Records.NewProject | models/project.js:7-35 | the title is stored trimmed; status is Open, a missing currency USD, postedByModel Company and both counters 0; the other paths as given |
| Records.ProjectPreSave | models/project.js:45-51 | a missing projectId becomes PROJ + pad5(count+1); an existing one is kept |
| Records.SaveProject | models/project.js:5-51 | validation (title, description, category, budget, duration, deadline, the type, status and poster enums), the hook, then the unique projectId index: success iff valid and the id is not stored; ids stay distinct |
| Records.BlankProjectTitleRefused | models/project.js:7 | a title of white space only is refused by validation |
| Records.NewInternship | models/internship.js:13 | `type` defaults to "Internship" |
| Records.InternshipPreSave | models/internship.js:23-29 | a missing internshipId becomes INTR + pad4(count+1); an existing one is kept |
| Records.SoftDeleteInternship | models/internship.js:31-36 | only the three deletion fields change |
| Records.SaveInternship | models/internship.js:5-29 | validation, the hook, then the unique internshipId index: success iff valid and the id is not stored; ids stay distinct |
| Records.InsertStudentResume | models/studentResume.js:5-45 | validation, then the hook numbers an unnumbered resume after the stored count, then both unique indexes: success iff valid, no resume has its userId and none has the resumeId it ends up with; both stay unique |
| Records.SameResumeIdRefused | models/studentResume.js:5 | a resume carrying a resumeId that is already stored is refused, even for a new user |
| Records.ResumeSaveWithinCount | models/studentResume.js:39-45 | while nothing is removed, a valid unnumbered resume of a new user saves as STDRES + pad4(count+1) and every id stays numbered within the count |
| Records.TwoUnnumberedResumes | models/studentResume.js:39-45 | two users' resumes without ids both save into an empty collection, as STDRES0001 and STDRES0002 |
| Records.StudentResumePreSave | models/studentResume.js:39-45 | a missing resumeId becomes STDRES + pad4(count+1); an existing one is kept |
| Records.SoftDeleteStudentResume | models/studentResume.js:47-52 | only the three deletion fields change |
| Records.NormalizeEmail | models/employer.js:9 | the stored email is lower case and trimmed |
| Records.NormalizeEmailIdempotent | models/employer.js:9 | normalising a stored email again changes nothing |
| Records.NewEmployer | models/employer.js:8-10 | a new employer stores the trimmed fullName and the normalised email |
| Records.SaveEmployer | models/employer.js:7-34 | validation first; then the hook hashes the password and numbers the employer; the save succeeds iff neither the email nor the employerId is stored, and keeps both unique |
| Records.EmailSpellingsCollide | models/employer.js:7-10 | two spellings with the same normalised form (ASCII case, surrounding white space): the first employer saves and the second is refused with a duplicate key |
| Records.CaseDoesNotSeparate | models/employer.js:9 | emails that differ only in ASCII case normalise alike |
| Records.EmployerPreSave | models/employer.js:25-34 | the password is hashed iff it was modified, and a missing employerId becomes EMP + pad4(count+1); nothing else changes |
| Records.SoftDeleteEmployer | models/employer.js:52-57 | only the three deletion fields change |
| Applicants.NewApplicant | models/applicant.js:28-43 | source defaults to Portal, status to Applied, and the deletion fields to not deleted |
| Applicants.ValidationErrors | models/applicant.js:5-42 | no path fails iff the document is valid; userId and resumeId fail iff source is Portal and they are missing; "Interviewed" fails the status enum |
| Applicants.Insert | models/applicant.js:55-58 | a save succeeds iff the document validates and no document has its (userId, jobId, source, isDeleted) key, and it keeps the keys unique |
| Applicants.SaveAt | models/applicant.js:55-58 | re-saving a changed document succeeds iff it validates and no other document has its key |
| Applicants.SoftDelete | models/applicant.js:60-65 | only the three deletion fields change, and the index key changes only in isDeleted |
| Applicants.SoftDeleteAt | models/applicant.js:60-65 | the save after `softDelete` fails iff another document already has the deleted key; other documents are untouched |
| Applicants.FreshRef | controllers/applicant.controller.js:309 | a new ObjectId differs from every id and userId in the collection |
| Applicants.EmailRead | controllers/applicant.controller.js:224 | a string email is read in lower case, a nullish link gives no email, and any other value throws |
| Applicants.CreateApplicant | controllers/applicant.controller.js:6-44 | a missing field, a resumeModel outside {StdResume, EmployeeResume} or an existing (userId, jobId) gives 400, a duplicate key being mapped to 400 and any other save error to 500; otherwise the applicant is appended, valid, and keys stay unique |
| Applicants.FirstPortal | controllers/applicant.controller.js:232-235 | the first portal applicant of the job, or none iff there is none |
| Applicants.CreateBulkApplicant | controllers/applicant.controller.js:213-283 | a missing jobId or email, a matching first portal applicant or an existing bulk applicant of the job (its stored email, or an element of a stored email array, equal to the lowercased one) gives 400; every other path ends in 500 |
| Applicants.PortalCheckSeesFirstOnly | controllers/applicant.controller.js:232-242 | a portal applicant other than the first with the same email is not noticed |
| Applicants.BulkApplicant | controllers/applicant.controller.js:303-313 | a created applicant is Bulk, Applied and BulkResume, carries the resume's data and its score (or 0), is valid, and has a userId distinct from its own id |
| Applicants.CreatedUserIdsAreNoIds | controllers/applicant.controller.js:303-313 | no document's id is the userId of an applicant the run created, so `findById` with that userId finds nothing |
| Applicants.CreateBulkApplicantsFromBatch | controllers/applicant.controller.js:286-319 | a null batch gives [] and changes nothing; otherwise the result is the fold over the resumes |
| Applicants.CreateBulkApplicantsCaseless | controllers/applicant.controller.js:286-319 | the same fold with the lookup comparing emails case-insensitively |
| Applicants.BulkRunGrows | controllers/applicant.controller.js:292-318 | the collection grows by exactly the created applicants, in resume order, each bulk-shaped |
| Applicants.BulkRunKeepsIndex | controllers/applicant.controller.js:303-313 | the created applicants keep the compound index unique |
| Applicants.ThrownStays | controllers/applicant.controller.js:292-293 | a TypeError on one resume ends the loop for good |
| Applicants.PrefixCovers | controllers/applicant.controller.js:292-316 | every resume the loop has passed has an applicant its email lookup finds |
| Applicants.RerunCreatesNothing | controllers/applicant.controller.js:293-301 | when the resumes' emails are lower case, a second run over the batch creates nothing |
| Applicants.CaselessRerunCreatesNothing | controllers/applicant.controller.js:293-301 | with the case-insensitive lookup a second run creates nothing, whatever the case |
| Applicants.CreatedEmailsDistinct | controllers/applicant.controller.js:296-301 | two applicants created in one run never share a lowercased email |
| Applicants.MixedCaseDuplicates | controllers/applicant.controller.js:293-308 | a batch with the email "A@x" gets one applicant on the first run and a second on the next |
| Applicants.FindById | controllers/applicant.controller.js:91 | the first applicant with the id, or -1 iff none |
| Applicants.FindBulk | controllers/applicant.controller.js:94-101 | the first bulk applicant of the job whose stored email, or an element of a stored email array, equals the given one, or -1 iff none |
| Applicants.ArrayEmailFound | controllers/applicant.controller.js:94-101 | after an update stored `["a@x"]` as the email, the status update's bulk fallback finds that document and a new bulk candidate "a@x" is refused with 400 |
| Applicants.FlagsFor | controllers/applicant.controller.js:108-114 | each flag is set iff the status names it |
| Applicants.Updated | controllers/applicant.controller.js:107-118 | status and flags are written; resumeUrl and extractedData change only when supplied; nothing else changes |
| Applicants.UpdateApplicantStatus | controllers/applicant.controller.js:83-137 | 404 iff the lookup finds no document; a non-string bulk email is 500; for a found document the call succeeds iff its re-save does, and then exactly that document is replaced by the updated one; rejections are 400, 404 or 500, a 400 (duplicate key) only when the stored keys already clash; for a found valid document it succeeds iff the status is absent or in the enum |
| Applicants.Target | controllers/applicant.controller.js:90-103 | the document found by `findById`; only when there is none, a bulk request with a truthy email falls back to the bulk `findOne` on the lowercased email, and a non-string email throws |
| Applicants.UpdateKeepsKey | controllers/applicant.controller.js:107-135 | the handler's changes leave the (userId, jobId, source, isDeleted) key alone, so with unique keys the re-save never takes the duplicate-key branch |
| Applicants.AtMostOneFlag | controllers/applicant.controller.js:108-114 | after an update at most one flag is set, the one the status names, and isInterviewed never is |

## Left out

- I/O is not modelled: HTTP responses are reduced to status, message and body. Other things not modelled:
  - NDJSON serialisation and JSON member order;
  - the populate calls;
  - logging;
  - `delay` (only whether a delay precedes a CV is modelled);
  - base64 encoding of stored CVs;
  - the database itself, which is a `seq` of documents in insertion order;
  - connection failures and other database errors besides validation and the unique indexes.
- The PDF and DOCX extractors, the language model, `JSON.parse`, bcrypt and `new Date()` are parameters. The prompts are not modelled.
- Applicants.FreshRef: real ObjectIds are random-looking 12-byte values; the model draws the smallest reference above every stored one, which is enough to keep them distinct.
- Floating point is not modelled. Numbers are exact rationals, and `Number(x.toFixed(2))` is round-half-up to hundredths. Binary rounding of values such as 1.005 differs.
- Lowercasing is ASCII only. Unicode case mapping is not modelled.
- Mongoose strict mode drops undeclared paths on save. The model keeps them as the handlers write them. ResumeSchema casting (the numeric `cv.id` into a String) is not modelled either. The dropped paths are:
  - `score` and the six `is*` flags on applicants;
  - `gpa` on applicants, so the GPA script's `save` stores nothing, and Gpa.FixApplicantGpa is the value assigned in memory only;
  - the summary fields such as `cvId` on batch resumes.
- Batches.UploadBatchResumes: the resume schema casts each `analysis`: score and matchPercentage to Number, matchDetails and experienceMatch to String, strengths, gaps, recommendations and matchedSkills to arrays of String, locked to Boolean and analyzedAt to Date. A value that does not cast (`score: "high"`, `strengths: [{"skill": "x"}]`) makes `batch.save()` fail and the handler answer 500. The model does not represent casting, so its success condition is ValidBatch of the batch alone.
- Analyzer.AnalyzeCvs: the same casts apply to the `$push` of each payload. Clamping makes score and matchPercentage numbers, but a non-string matchDetails or a list of objects would make `updateOne` throw after the success line was written, and the handler would then write an error line for the same CV and not count it as processed. The model lets every push succeed.
- Records.SaveJob: the `requirements` path (a required array of String) is not modelled, nor the casting of `closingDate` and `scheduleDate` to dates; `postedBy` is always present, since `createJob` answers 400 without it. The description's 5000-character maximum counts scalar values here and UTF-16 code units in the source.
- Records.SaveFyp: `postedBy` is always present, as `createFyp` sets it from the company it found; the optional `requirements` and `location` are not modelled.
- Records.SaveProject: the `skills` array, whose elements are required strings, and the optional `subCategory` and `attachments` are not modelled, nor the casting of `budget` to Number and `deadline` to Date: a budget is either a number or absent.
- Batches.Upsert: the resume schema has no `cvId`, so in the stored batch `findIndex(r => r.cvId === cv.id)` never matches a CV that has an id: the handler always appends, and a CV without an id replaces resume 0. Batches.Upsert and its lemmas model the handler's code as written, comparing the `cvId` it writes.
- Analyzer.AnalysisOf: a score or matchPercentage that is not a number (JavaScript coercion, NaN) is not modelled. The scoring reply is read as a number or absent.
- Batches.CountExperience: a `durationMonths` that is not a number is read as 0; the source would concatenate strings.
- Applicants.Matches: Mongo also descends into arrays met earlier on the path `extractedData.personalInfo.email`, such as an array of `personalInfo` objects. The model reads that path through objects only and matches array elements only at the email itself.
- Applicants.CreateBulkApplicantsFromBatch: the model requires a batch that is present to carry a jobId. A batch without one is not modelled, because the lookup would then match applicants without a job.
- The thin read and delete handlers are not modelled, because they hold no rules beyond a query:
  - `getBatchResumes`;
  - `getApplicants`, `getApplicantById` and `deleteApplicant`;
  - `getApplicantsByJob` and `getBulkApplicantsByJob`.
- `updateBatchResume` reads `req.sbody` and always throws. It and the admin, auth, company and user handlers are not part of this model.
- Authentication, Cloudinary uploads and prototype-polluting keys such as `__proto__` are not modelled.
- Batches.AddMonthsByType: a type that lowercases to `constructor` passes the handler's `expMap[key] !== undefined` test through the inherited `Object.prototype.constructor`, so the handler gives `expMap` an own `constructor` member and turns `totalExperience` into a string. The schema drops both on save. The model ignores such a type.
- Behaviour the code does not have, which the model therefore leaves out:
  - `locked` is always false;
  - there is no rate-limit abort;
  - there is no repair of trailing commas or smart quotes in `cleanJson`;
  - there is no portal precedence in the batch dedup;
  - experience months are not scored deterministically with per-category caps;
  - the `scoreBreakdown` fields of the resume schema are never populated.
- The only caller of `createBulkApplicantsFromBatch` is not part of this model.
- Analyzer.CvText: strings here are sequences of Unicode scalar values, while `text.slice(0, 6000)` counts UTF-16 code units. A character outside the Basic Multilingual Plane counts once here and twice there, and `slice` can split its surrogate pair.
- CvForge.AskModel: the excerpt of `limit` characters counts scalar values; the source's 6000- and 15000-character slices count UTF-16 code units.
- CvForge.ParseResume: its 6000-character excerpt counts scalar values, not UTF-16 code units.
- CvForge.EmployeeParser: its 15000-character excerpt counts scalar values, not UTF-16 code units.
- CvForge.SpreadOf: a string spreads into one member per scalar value. In JavaScript, spreading an object from a string yields one member per UTF-16 code unit.
- Batches.First: `s[0]` of a string is its first scalar value here and its first UTF-16 code unit in the source.
- Gpa.FractionOfNumerals: text with other characters before or after the fraction, or upper-case separators, is covered only by Gpa.FindFraction's leftmost-match definition, not by a lemma that computes the result.
- Gpa.EntryGpa: arrays of two or more elements that hold a number or a nested array give no value. `String` would render them, but number-to-string for arbitrary rationals is not modelled. One-element arrays are read as their element.
- Gpa.EntryGpa: a number of magnitude 1e21 or more, or below 1e-6, is read as its magnitude. `String` writes it with an exponent ("5e-7"), and the patterns then read only the mantissa.

## Findings

| source | as written | input that shows it | evidently intended | confidence | as-written member | corrected member |
|---|---|---|---|---|---|---|
| controllers/applicant.controller.js:293-308 | the lookup compares the lowercased resume email with the stored `extractedData`, which keeps the original case | a batch resume with email "A@x", processed twice | a rerun over the same batch creates no applicant, whatever the case of the email | not executed | Applicants.MixedCaseDuplicates | Applicants.CaselessRerunCreatesNothing |

# Submission store — a verified model

`gnull/submission` is a small grading service. A problem owner creates
problems. Students post a comment and files against a problem. Graders attach
accept/reject feedback to a submission. Its core is `SubmDb`, which has three parts:

- a content-addressed blob store: each file is written under the lowercase-hex
  SHA-256 of its bytes, with one file row per distinct content;
- an append-only ledger of problems, submissions, attachments and feedback,
  held in SQLite tables with rowid keys;
- a submission status derived on every read: a submission is accepted
  exactly when its newest feedback has grade 1.

Around it sit the actix handlers, which do three things:

- turn store outcomes into 200/201/404/500 responses;
- check that the problem or submission exists before writing;
- classify the fields of the multipart submission form.

The frontend's `ApiService` adds a per-problem aggregation (attempts,
accepted) and builds the multipart form. The browser sends that form with
the multipart/form-data encoding of section 4.10.21.8 of the WHATWG HTML
standard: line breaks in the comment become CR LF, and `"`, CR and LF in a
file name are percent-escaped. On the backend, actix-web's
`ContentDisposition` reads the quoted filename as a quoted string, where a
backslash quotes the next character and is dropped. The model includes
both, so the round trip from frontend to backend is exact only where
neither changes anything.

The model is written in Dafny, one module per concern:

| file | module | models |
|---|---|---|
| `wrappers.dfy` | `Wrappers` | `Option` and `Result` |
| `bytes.dfy` | `Bytes` | bytes and 32-byte digests |
| `hex.dfy` | `Hex` | `format!("{:x}", digest)` and the content hash |
| `utf8.dfy` | `Utf8` | UTF-8 as `String::from_utf8` accepts it and a browser emits it |
| `records.dfy` | `Records` | rows and response records; the grade check; status derivation |
| `tables.dfy` | `Tables` | what each SQL query computes over tables held as sequences |
| `ledger.dfy` | `Ledger` | the store's state as a value, its invariant, and the state each write leaves behind |
| `db.dfy` | `Db` | the class `SubmDb`: tables, row-id counters and the uploads directory as fields, one method per store operation |
| `multipart.dfy` | `Multipart` | the field loop of `create_submission` |
| `api.dfy` | `Api` | the handlers: guards and outcome-to-response mapping |
| `frontend.dfy` | `Frontend` | `getProblemsWithStats`, `getSubmissionsForProblem`, the form `createSubmission` posts and the browser's encoding of it |
| `scenarios.dfy` | `Scenarios` | the integration suite's workflows, stated for all inputs |

**State and invariant.** `SubmDb` keeps five `seq` tables, one counter per
table standing in for `last_insert_rowid`, and a `map` from hash string to
bytes for the uploads directory. `Valid()` is `Ledger.Inv` of the current
`Snapshot`. It says:

- row i of each table has id i + 1, and each counter equals its table's length;
- no two file rows share a hash;
- every file row's blob is on disk;
- every blob is named by the hash of its own bytes;
- every attachment names an existing submission and file.

**How the writers are stated.** Each writing method of `SubmDb` ensures
that its new state is a `Ledger` transition function (`AfterStore`,
`AfterSubmit`, `AfterFeedback`) of the old state, except `CreateProblem`,
whose one-row append is stated directly. The properties are proved
about those functions as lemmas.

**Failures.** Storage failures are explicit parameters: a `bool` for a
single insert, a `StoreFault` for `store_file`, and a `SubmissionFault` for
`create_submission_with_files`. The fault parameters name where the call
fails, so the partial state a failure leaves is stated exactly. SHA-256 is
a function given to the constructor.

**Referential integrity.** The schema declares foreign keys, but SQLite does
not enforce them without `PRAGMA foreign_keys`. So the model states
referential integrity as its own predicate, `Ledger.Referential`. The
handlers' existence guards are proved to keep it.

## Model

| member | source | states |
|---|---|---|
| Records.Last | src/db.rs:268 | `feedbacks.last()`: present exactly when the list is non-empty, and then its final element |
| Records.DeriveStatus | src/db.rs:305-316 | the status lists the feedbacks unchanged; accepted exactly when there is feedback and the last grade is 1 |
| Records.NoFeedbackNotAccepted | src/db.rs:306 | an ungraded submission is not accepted and lists no feedback |
| Records.LastFeedbackDecides | src/db.rs:268 | after appending feedback `f`, acceptance is `f.grade == 1` whatever came before, and the list is the history plus `f` |
| Records.SameLastSameVerdict | src/db.rs:306 | two histories with the same last grade get the same verdict: not a majority or any-accept rule |
| Records.AllRejectedNotAccepted | tests/integration_test.rs:309-321 | a history of grade-0 feedback only is rejected |
| Hex.LowerHex | src/db.rs:180 | the rendering has two characters per byte, all in 0-9a-f |
| Hex.ContentHash | src/db.rs:178-180 | the hash of any content is 64 characters from 0-9a-f and depends on the bytes alone |
| Hex.LowerHexInjective | src/db.rs:180 | equal renderings come from equal digests |
| Hex.DistinctContentDistinctHash | src/db.rs:178-180 | two contents whose digests differ get distinct hash names |
| Utf8.DecodeEncode | src/api.rs:89 | `from_utf8` gives back any text a browser encoded as UTF-8 |
| Utf8.StrayContinuationRejected | src/api.rs:89 | a leading continuation byte is not UTF-8 (the path that yields "") |
| Tables.Find | src/db.rs:188-193 | `SELECT ... WHERE key = ?` plus one `next()`: a result is a row with that key; none exactly when no row has it |
| Tables.FindFirst | src/db.rs:226-230 | the lookup returns the first row with the key |
| Tables.FindById | src/db.rs:156-169 | with ids 1..n a lookup by id gives row id - 1, and nothing outside 1..n |
| Tables.UniqueHashesDistinct | src/db.rs:187-200 | "no row repeats an earlier hash" is the same as "no two rows share a hash" |
| Tables.RegisteredInvariant | src/db.rs:187-200 | registering a hash keeps ids dense and hashes unique, only appends at most one row, and leaves a row with the hash |
| Tables.RegisteredOnce | src/db.rs:187-200 | after registering, exactly one row carries the hash |
| Tables.FirstNameKept | src/db.rs:193-200 | registering the same hash again under another name changes nothing; the row keeps the first name seen |
| Tables.FindStable | src/db.rs:188-193 | a lookup that succeeds is not disturbed by later appends |
| Tables.RegisterAllInvariant | src/db.rs:222-223 | storing a batch keeps ids dense and hashes unique and only appends |
| Tables.RegisteredFinds | src/db.rs:223-230 | after store_file the lookup by hash finds a row |
| Tables.RegisterAllFinds | src/db.rs:222-230 | after storing a batch every hash in it has a row |
| Tables.RegisterAllAbsent | src/db.rs:187-200 | a hash neither present nor in the batch still has no row |
| Tables.RegisterAllKeepsExisting | src/db.rs:193-200 | a hash that had a row keeps that very row, name included |
| Tables.RegisterAllFirstName | src/db.rs:193-200 | a content new to the table is recorded under the name of its first occurrence in the batch |
| Tables.FilesWithIdDense | src/db.rs:328 | with ids 1..n the file side of the join gives exactly row fid - 1 |
| Tables.FilesWithIdNone | src/db.rs:328 | an id no row has joins to nothing |
| Tables.JoinFilesPerAttachment | src/db.rs:327-340 | the join yields one file per attachment of the submission, repeated content included, each the row its file id names |
| Tables.AttachmentsOfOwn | src/db.rs:328 | a run of attachments of one submission is all kept by the filter |
| Tables.JoinFilesAppend | src/db.rs:327-340 | joining two stretches of the attachment table joins each in turn |
| Tables.JoinFilesOther | src/db.rs:328 | attachments of other submissions contribute nothing |
| Tables.FeedbacksOfNone | src/db.rs:350 | a submission no feedback row names has no feedback |
| Tables.FeedbacksOfAppend | src/db.rs:350-363 | a new feedback row of `sid` appends exactly its feedback to the list of `sid` and nothing to any other |
| Tables.FeedbacksOfSorted | src/db.rs:350-363 | feedbacks come back by strictly ascending id, each exactly what a row of that submission reads as |
| Tables.FeedbacksOfComplete | src/db.rs:350-363 | every feedback row of the submission is among the returned feedbacks |
| Ledger.StoreKeepsInv | src/db.rs:172-203 | store_file keeps the invariant however far it gets; it touches only files and uploads; the file table only grows by appending; unless the blob write fails the blob sits under its hash; on success a row has the hash |
| Ledger.StoreTwiceSameState | src/db.rs:183-200 | storing the same bytes twice, under any names, is the same as storing them once |
| Ledger.FileIdOfFound | src/db.rs:226-231 | the id found by hash is in range and names the row with that hash |
| Ledger.AttachmentsForStable | src/db.rs:226-231 | ids found by hash do not change when later files are registered |
| Ledger.FiledStart | src/db.rs:219-222 | before the file loop nothing has been registered, written or attached |
| Ledger.FiledStore | src/db.rs:223 | the store step of pass i takes the loop state to the one with file i stored as far as the fault allows |
| Ledger.FiledAttach | src/db.rs:233-242 | the attach step of pass i appends the attachment of file i |
| Ledger.WriteAllAddressed | src/db.rs:183-185 | writing a batch of blobs keeps every blob named by its hash |
| Ledger.WriteAllHolds | src/db.rs:183-185 | writing a batch keeps every blob already there and leaves each file of the batch on disk |
| Ledger.RegisterAllOnDisk | src/db.rs:183-200 | rows are only added for hashes whose blobs are on disk |
| Ledger.FiledStorage | src/db.rs:183-200 | registering the first uploads after writing at least their blobs keeps ids dense, hashes unique, every row's blob on disk and every blob named by its hash; each registered upload has a row |
| Ledger.NewAttachmentsResolve | src/db.rs:233-242 | attachments of an existing submission to hashes the file table holds keep every attachment naming an existing submission and file |
| Ledger.FiledInv | src/db.rs:222-243 | every point the file loop reaches for an existing submission satisfies the invariant |
| Ledger.InsertedInv | src/db.rs:212-219 | the submission insert keeps the invariant |
| Ledger.SubmitKeepsInv | src/db.rs:205-246 | create_submission_with_files keeps the invariant however far it gets; problems and feedback are untouched; a failed insert changes nothing; otherwise the submission row goes in first, with the next id |
| Ledger.AttachmentsForResolve | src/db.rs:226-242 | each attachment of a batch belongs to the submission and names the row holding its file's hash |
| Ledger.JoinAttachmentsFor | src/db.rs:327-340 | joining a batch's attachments gives one row per file, each holding that file's hash |
| Ledger.FiledAttachments | src/db.rs:222-243 | at any point of the loop the attachments are the earlier ones plus one per attached file, in input order |
| Ledger.FiledAttachesInOrder | src/db.rs:222-243 | at any point of the loop, new attachment i belongs to the submission and names the row with the hash of file i |
| Ledger.SubmitAttachesInOrder | src/db.rs:205-246 | up to the fault, one attachment per input file in input order, each naming the row with that file's hash; earlier attachments are untouched |
| Ledger.SubmittedFilesJoin | src/db.rs:205-246 | after a successful submission its files, as the join returns them, number the uploads, and file i carries the hash of upload i, even when contents repeat |
| Ledger.GuardedSubmitKeepsRefs | src/api.rs:110-128 | a submission to an existing problem keeps every reference resolving |
| Ledger.NewSubmissionUngraded | src/db.rs:212-219 | a submission just created has no feedback |
| Ledger.SubmissionReadsBack | src/db.rs:205-321 | a submission that went through reads back, hydrated from the new state, with its comment and problem, one file per upload in upload order carrying that upload's hash, and an empty, not accepted status |
| Ledger.FeedbackKeepsInv | src/db.rs:366-390 | create_feedback keeps the invariant; earlier rows are untouched; on success the new feedback, with its message or "", ends the list of its submission and alone decides acceptance; other submissions' feedback is unchanged |
| Ledger.GuardedFeedbackKeepsRefs | src/api.rs:173-189 | feedback on an existing submission keeps every reference resolving |
| Db.SubmDb.constructor | src/db.rs:67-118 | a store opened on a fresh database and uploads directory is empty and valid |
| Db.SubmDb.Reopen | src/db.rs:67-118 | a store reopened on tables and blobs this program left behind is valid and holds exactly them |
| Db.SubmDb.CreateProblem | src/db.rs:120-133 | one row with the next id (fresh among existing ids), holding name and desc, found by that id; a failed insert changes nothing |
| Db.SubmDb.GetProblems | src/db.rs:135-150 | every problem, by ascending id |
| Db.SubmDb.GetProblemById | src/db.rs:152-170 | the row with that id, or None (not an error) exactly when no row has it |
| Db.SubmDb.StoreFile | src/db.rs:172-203 | the state becomes `AfterStore`; the result is the content hash exactly when nothing failed; then the blob is under the hash and a row has it |
| Db.SubmDb.CreateSubmissionWithFiles | src/db.rs:205-246 | the state becomes `AfterSubmit` and the result `SubmitOutcome`: the new id, or an error with every step before the fault left in place |
| Db.SubmDb.FileOne | src/db.rs:222-242 | one pass of the file loop: it fails exactly where the fault strikes, and otherwise advances the loop state by one file |
| Db.SubmDb.Attach | src/db.rs:225-242 | the lookup by hash and the attachment insert of one stored file |
| Db.SubmDb.GetSubmissionFiles | src/db.rs:323-341 | the join: one file row per attachment of the submission, in attachment order, each the row its file id names |
| Db.SubmDb.GetSubmissionFeedbacks | src/db.rs:343-364 | the submission's feedbacks by ascending id |
| Db.SubmDb.Hydrate | src/db.rs:296-317 | a row with its files, feedbacks and derived status |
| Db.SubmDb.GetSubmissionById | src/db.rs:284-321 | the hydrated submission with that id, or None (not an error) exactly when no row has it |
| Db.SubmDb.GetSubmissions | src/db.rs:248-282 | every submission by strictly descending id, each exactly as the lookup by its id gives it |
| Db.SubmDb.CreateFeedback | src/db.rs:366-390 | the state becomes `AfterFeedback`: an invalid grade is an error and writes nothing; otherwise one row with the next id and the message or ""; then acceptance is `grade == 1` |
| Db.SubmDb.GetFileContent | src/db.rs:392-399 | the blob stored under the hash, or an error when there is none; what comes back hashes to the name asked for |
| Multipart.ReadSubmissionForm | src/api.rs:74-106 | the comment and the files the field loop ends with are `CommentOf` and `FileParts` of the fields |
| Multipart.CommentOfAppend | src/api.rs:84-90 | a later `comment` field overwrites every earlier one |
| Multipart.CommentOfNone | src/api.rs:75 | a form without a `comment` field has the empty comment |
| Multipart.BadCommentIsEmpty | src/api.rs:89 | a last `comment` field that is not UTF-8 gives "", whatever came before |
| Multipart.FilePartsAppend | src/api.rs:91-103 | files of consecutive parts of the form are collected in arrival order |
| Multipart.FilePartsUniform | src/api.rs:91-103 | a form of `file*` fields only gives one (filename or "unknown", bytes) part per field in order; a form with none gives no parts |
| Multipart.FilePartsExact | src/api.rs:91-103 | in any form, each `file*` field's part is collected right after the parts of the fields before it |
| Multipart.FilePartsSources | src/api.rs:91-103 | in any form, every collected part is the part of some `file*` field |
| Multipart.IgnoredField | src/api.rs:104 | a field named neither `comment` nor `file*` has no effect, wherever it arrives |
| Api.StatusCode | src/error.rs:4-12 | 2xx exactly for Ok and Created, 404 exactly for not found, 500 exactly for an API error (both `SubmError` variants keep the default `ResponseError`) |
| Api.CreatedReply | src/api.rs:30-36 | Created with `{"id": id}` exactly on success; otherwise the generic error |
| Api.LookupReply | src/api.rs:55-64 | 200 with the row when found, 404 with the message when absent, the generic error when the store failed |
| Api.FileReply | src/api.rs:207-215 | the raw bytes on success; FileNotFound on any failure |
| Api.HandleCreateProblem | src/api.rs:24-37 | Created with the new problem's id, which then finds the row; a failed insert is the generic error and writes nothing |
| Api.HandleGetProblems | src/api.rs:39-49 | 200 with every problem by ascending id |
| Api.HandleGetProblem | src/api.rs:51-65 | 200 with the row, or 404 "Problem not found" exactly when there is none |
| Api.HandleCreateSubmission | src/api.rs:68-135 | a missing problem answers 404 "Problem not found" and writes nothing; otherwise the store call with the form's comment and files; a created submission belongs to an existing problem |
| Api.SubmitToProblem | src/api.rs:125-134 | the store call after the guard, its reply, and referential integrity kept |
| Api.HandleGetSubmissions | src/api.rs:137-147 | 200 with every submission by strictly descending id, each as its own lookup gives it |
| Api.HandleGetSubmission | src/api.rs:149-163 | 200 with the hydrated submission, or 404 "Submission not found" exactly when there is none |
| Api.HandleCreateFeedback | src/api.rs:165-200 | a missing submission answers 404 and writes nothing; an invalid grade answers 500 and writes nothing; Created means the submission's acceptance is now `grade == 1` |
| Api.HandleGetFile | src/api.rs:202-216 | the stored bytes, or FileNotFound when there is no blob; what is served hashes to the requested name |
| Frontend.ProblemsWithStats | frontend/src/api.ts:90-109 | one entry per problem, in order, with id, name and desc unchanged |
| Frontend.SubmissionsForProblemExact | frontend/src/api.ts:111-114 | the filter keeps exactly the submissions for the problem |
| Frontend.SubmissionsForProblemAppend | frontend/src/api.ts:111-114 | the filter keeps the order the list gave |
| Frontend.AttemptsCount | frontend/src/api.ts:97-100 | attempts is the number of submissions whose problem is the problem's id |
| Frontend.SomeAcceptedExists | frontend/src/api.ts:101 | `some` holds exactly when one submission is accepted |
| Frontend.AcceptedIffSomeSubmission | frontend/src/api.ts:101 | a problem is accepted exactly when some submission for it is accepted |
| Frontend.UnattemptedProblem | frontend/src/api.ts:96-108 | a problem nobody submitted to has 0 attempts and is not accepted |
| Frontend.Decimal | frontend/src/api.ts:54 | `${index}` is a non-empty string of decimal digits |
| Frontend.DecimalInjective | frontend/src/api.ts:54 | different indexes give different field names |
| Frontend.FileFieldNameClassified | frontend/src/api.ts:54 | every name the frontend gives a file passes `starts_with("file")` and is not `comment` |
| Frontend.FileFieldNameInjective | frontend/src/api.ts:54 | different indexes give different `file${index}` names |
| Frontend.FileFieldNamesDistinct | frontend/src/api.ts:53-55 | no two file fields of the form share a name |
| Frontend.NormalizedCrlf | frontend/src/api.ts:51 | after the browser's newline normalisation every CR is followed by LF and every LF follows a CR |
| Frontend.CrlfUnchanged | frontend/src/api.ts:51 | a comment whose breaks already are CR LF is sent unchanged |
| Frontend.NormalizeNewlinesFixes | frontend/src/api.ts:51 | normalisation leaves a comment unchanged exactly when its breaks are CR LF, and is idempotent |
| Frontend.EscapedQuoteSafe | frontend/src/api.ts:54 | a file name as the browser escapes it holds no `"`, CR or LF |
| Frontend.QuoteSafeUnescaped | frontend/src/api.ts:54 | a file name without `"`, CR or LF is written unchanged |
| Frontend.EscapeFileNameFixes | frontend/src/api.ts:54 | the browser's escape leaves a file name unchanged exactly when it holds no `"`, CR or LF |
| Frontend.UnquoteQuoteSafe | src/api.rs:92-95 | reading the quoted filename introduces no `"`, CR or LF |
| Frontend.UnquoteShortens | src/api.rs:92-95 | reading the quoted filename never lengthens it, and drops at least one character whenever it holds a backslash |
| Frontend.UnquoteIdentity | src/api.rs:92-95 | a quoted filename without a backslash is read as it is |
| Frontend.ReceivedNameFixes | src/api.rs:92-95 | `get_filename()` returns exactly the browser's file name if and only if it holds no `"`, CR, LF or backslash |
| Frontend.ReceivedFilesExact | frontend/src/api.ts:53-55 | the files as the backend receives them equal the frontend's files exactly when every name is plain |
| Frontend.FileFieldsClassified | frontend/src/api.ts:50-55 | every field of the form after the first is read as a file |
| Frontend.FormComment | frontend/src/api.ts:51 | the backend reads the comment with its line breaks normalised to CR LF, which is the typed comment exactly when its breaks already were CR LF |
| Frontend.FormFiles | frontend/src/api.ts:53-55 | the backend reads the files in order with their bytes intact and their names escaped by the browser and unquoted by actix, which are the frontend's files exactly when no name holds `"`, CR, LF or a backslash |
| Frontend.FormRoundTrip | frontend/src/api.ts:45-67 | the backend's field loop reads the browser's encoding of the comment and files, and reads exactly what the frontend held if and only if the comment breaks lines with CR LF and no file name holds `"`, CR, LF or a backslash |
| Scenarios.ProblemRoundTrip | tests/integration_test.rs:66-78 | a problem just created reads back with its name and desc |
| Scenarios.SubmissionRoundTrip | tests/integration_test.rs:80-131 | a submission posted through the frontend's form reads back with its comment as the browser sent it (breaks as CR LF), its problem and one file per upload in order, each with its content hash, ungraded |
| Scenarios.GradeTwice | tests/integration_test.rs:137-193 | two feedbacks on an ungraded submission are listed oldest first, and the second decides |
| Scenarios.MissingIds | tests/integration_test.rs:343-367 | on an empty store a problem lookup, a submission lookup and a feedback post all answer 404 |
| Scenarios.InvalidGradeIsServerError | tests/integration_test.rs:220-231 | grade 2 on an existing submission is a server error and writes nothing |
| Scenarios.StoreThenDownload | tests/integration_test.rs:203-217 | a stored file downloads as exactly its bytes |

## Left out

- The SQL engine (turso `Builder`/`Connection`, query text, row decoding) is replaced by sequences of rows and id counters. Ids are the rowids of tables that are only inserted into: row i has id i + 1. One counter per table stands in for `last_insert_rowid`, which is per connection; each insert reads it right after its own insert, so the two agree.
- Foreign keys: SQLite does not enforce the schema's foreign keys by default. The model does not rely on them. Referential integrity is `Ledger.Referential`, which the handlers' guards are proved to keep, but the store methods alone do not require it.
- The SHA-256 algorithm is a function parameter of the store: deterministic, 32 bytes out. Collision freedom is not assumed; `Hex.DistinctContentDistinctHash` takes as its hypothesis only that the two digests differ.
- Filesystem I/O (`fs::File::create`, `write_all`, `fs::read`, and `create_dir_all` in `SubmDb::new`) is a map from hash strings to bytes. A blob write either happens whole or not at all; a partially written file is not modelled.
- Db.SubmDb.GetFileContent: a failed blob write leaves the uploads directory unchanged in the model (`BlobWriteFails`). In the code, `fs::File::create` (src/db.rs:184) truncates an existing blob before `write_all` runs, so a failed write of content that is already stored leaves that blob truncated while its file row stays, and `get_file` then serves bytes that do not hash to their name. The `ContentAddressed` conjunct of `Ledger.Inv`, and with it the guarantee of `Db.SubmDb.GetFileContent` and `Api.HandleGetFile` that served bytes hash to the requested name, hold only under this abstraction.
- The uploads path `uploads_dir/hash` is modelled as a map key. So a requested hash such as `../x`, which the filesystem would interpret, is not modelled; such a request simply finds no blob.
- Reads of the store never fail in the model. The reply mappers `Api.LookupReply` and `Api.FileReply` still take the error outcome, so the generic-error path of the lookups is stated.
- The order of the join in `get_submission_files` is not fixed by the query (it has no ORDER BY). The model returns the files in attachment order, which is the order the integration suite takes `files[0]` from.
- The "File not found" error after a successful `store_file` (src/db.rs:230) cannot happen: the store just made the lookup non-empty. It is not modelled as a branch; `Tables.RegisteredFinds` states why.
- i64 ids and grades are unbounded integers. Overflow at 2^63 rows is not modelled.
- The mutex around the store, async/await, actix routing and `HttpResponse` construction, and logging are left out. Each handler is one atomic call on the store.
- Multipart stream errors (`item?` and `chunk?` in src/api.rs:80-100) are left out. A field arrives with its chunks already joined.
- JSON decoding of the request bodies is left out: a request that does not parse never reaches a handler.
- The `/api/` index endpoint (src/api.rs:15-21) returns a constant and is left out.
- Db.SubmDb.constructor: models the first start on a fresh database and uploads directory, like the integration suite's `:memory:` store. `Db.SubmDb.Reopen` covers a restart on the persistent `file.sqlite` and `uploads` of src/main.rs, but only for tables and blobs that satisfy `Ledger.Inv`, as this program leaves them. A database or directory written or edited by anything else is not modelled.
- Frontend.FormFiles / Frontend.FormRoundTrip: a file name ending in an odd run of backslashes leaves the quoted `filename` unterminated, so actix cannot parse the part's header and the request fails as a multipart error (left out above). The model's `Frontend.Unquote` drops that last lone backslash instead, so for such names the model reads a file the program would reject. The round-trip iff is unaffected: such names are not plain.
- A browser's `FormData` turns a lone surrogate of a JavaScript string into U+FFFD. Dafny strings hold only scalar values, so that case does not arise in the model.
- `src/main.rs`, `backend/src/main.rs` and the frontend's UI files (`main.ts`, `router.ts`) are startup and UI plumbing, and are not part of this model. `frontend/src/types.ts` only mirrors the row structs.
- Api.HandleGetFile: a missing blob answers FileNotFound, which keeps actix's default `ResponseError` and so has status 500, not 404. The model follows the code here. A 404 would be the expected status for a missing file; the code answers 500.

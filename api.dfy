/** The HTTP handlers of the backend, reduced to their decisions: which
    guard runs, which store call follows it, and which kind of response each
    outcome becomes. Every handler runs as one atomic call on the store. */
module Api {
  import opened Wrappers
  import opened Bytes
  import opened Hex
  import opened Records
  import opened Tables
  import opened Ledger
  import opened Multipart
  import opened Db

  /** The API's error type. It keeps actix's default `ResponseError`, so
      both variants answer 500. */
  datatype SubmError = FileNotFound | GenericError

  /** The response kinds the handlers produce: 200 with a body, 201 with
      `{"id": id}`, 404 with `{"error": message}`, or an API error. */
  datatype Reply<T> =
    | Ok200(body: T)
    | Created201(id: int)
    | NotFound404(error: string)
    | Failure(err: SubmError)

  /** The status line each response kind gets. */
  function StatusCode<T>(r: Reply<T>): (code: int)
    ensures 200 <= code < 300 <==> r.Ok200? || r.Created201?
    ensures code == 404 <==> r.NotFound404?
    ensures code == 500 <==> r.Failure?
  {
    match r
    case Ok200(_) => 200
    case Created201(_) => 201
    case NotFound404(_) => 404
    case Failure(_) => 500
  }

  /** A create call's outcome as a response: the new id, or the generic
      error whatever went wrong. */
  function CreatedReply<T>(outcome: Result<int, DbError>): (r: Reply<T>)
    ensures r.Created201? <==> outcome.Ok?
    ensures r.Created201? ==> r.id == outcome.value
    ensures outcome.Err? ==> r == Failure(GenericError)
  {
    match outcome
    case Ok(id) => Created201(id)
    case Err(_) => Failure(GenericError)
  }

  /** A lookup's outcome as a response: the row, 404 with `missing` when
      there is none, or the generic error when the store failed. */
  function LookupReply<T>(outcome: Result<Option<T>, DbError>, missing: string): (r: Reply<T>)
    ensures r.Ok200? <==> outcome.Ok? && outcome.value.Some?
    ensures r.Ok200? ==> r.body == outcome.value.value
    ensures r.NotFound404? <==> outcome == Ok(None)
    ensures r.NotFound404? ==> r.error == missing
    ensures outcome.Err? ==> r == Failure(GenericError)
  {
    match outcome
    case Ok(Some(row)) => Ok200(row)
    case Ok(None) => NotFound404(missing)
    case Err(_) => Failure(GenericError)
  }

  /** The outcome of reading a blob as a response: its raw bytes, or
      FileNotFound for any failure. */
  function FileReply(outcome: Result<Bytes, DbError>): (r: Reply<Bytes>)
    ensures r.Ok200? <==> outcome.Ok?
    ensures r.Ok200? ==> r.body == outcome.value
    ensures outcome.Err? ==> r == Failure(FileNotFound)
  {
    match outcome
    case Ok(content) => Ok200(content)
    case Err(_) => Failure(FileNotFound)
  }

  /** `POST /api/problems`. */
  method HandleCreateProblem(db: SubmDb, name: string, desc: string, insertFails: bool) returns (reply: Reply<()>)
    requires db.Valid()
    modifies db
    ensures db.Valid()
    ensures reply == CreatedReply(if insertFails then Err(StorageFailure) else Ok(|old(db.problems)| + 1))
    ensures insertFails ==> db.State() == old(db.State())
    ensures reply.Created201? ==> db.ProblemById(reply.id) == Some(Problem(reply.id, name, desc))
    ensures Referential(old(db.State())) ==> Referential(db.State())
  {
    var outcome := db.CreateProblem(name, desc, insertFails);
    reply := CreatedReply(outcome);
  }

  /** `GET /api/problems`: every problem, by ascending id. */
  method HandleGetProblems(db: SubmDb) returns (reply: Reply<seq<Problem>>)
    requires db.Valid()
    ensures reply == Ok200(db.problems)
    ensures forall i, j :: 0 <= i < j < |reply.body| ==> reply.body[i].id < reply.body[j].id
  {
    var ps := db.GetProblems();
    reply := Ok200(ps);
  }

  /** `GET /api/problems/{id}`. */
  method HandleGetProblem(db: SubmDb, id: int) returns (reply: Reply<Problem>)
    requires db.Valid()
    ensures 1 <= id <= |db.problems| ==> reply == Ok200(db.problems[id - 1])
    ensures !(1 <= id <= |db.problems|) ==> reply == NotFound404("Problem not found")
  {
    var found := db.GetProblemById(id);
    reply := LookupReply(Ok(found), "Problem not found");
  }

  /** `POST /api/problems/{id}/submissions`: read the form, check that the
      problem exists, then create the submission with its files. A missing
      problem answers 404 and writes nothing; a created submission always
      belongs to an existing problem. */
  method HandleCreateSubmission(db: SubmDb, problemId: int, fields: seq<Field>, fault: SubmissionFault)
    returns (reply: Reply<()>)
    requires db.Valid()
    modifies db
    ensures db.Valid()
    ensures !(1 <= problemId <= |old(db.problems)|) ==>
      reply == NotFound404("Problem not found") && db.State() == old(db.State())
    ensures 1 <= problemId <= |old(db.problems)| ==>
      && reply == CreatedReply(SubmitOutcome(old(db.State()), FileParts(fields), fault))
      && db.State() == AfterSubmit(db.sha256, old(db.State()), problemId, CommentOf(fields), FileParts(fields), fault)
    ensures reply.Created201? ==>
      && 1 <= reply.id <= |db.submissions|
      && db.submissions[reply.id - 1] == SubmissionRow(reply.id, CommentOf(fields), problemId)
      && 1 <= problemId <= |db.problems|
    ensures Referential(old(db.State())) ==> Referential(db.State())
  {
    var comment, files := ReadSubmissionForm(fields);
    var problem := db.GetProblemById(problemId);
    if problem.None? {
      return NotFound404("Problem not found");
    }
    reply := SubmitToProblem(db, problemId, comment, files, fault);
  }

  /** The part of `create_submission` after the guard has found the
      problem. */
  method SubmitToProblem(db: SubmDb, problemId: int, comment: string, files: seq<(string, Bytes)>,
                         fault: SubmissionFault) returns (reply: Reply<()>)
    requires db.Valid() && 1 <= problemId <= |db.problems|
    modifies db
    ensures db.Valid()
    ensures reply == CreatedReply(SubmitOutcome(old(db.State()), files, fault))
    ensures db.State() == AfterSubmit(db.sha256, old(db.State()), problemId, comment, files, fault)
    ensures reply.Created201? ==>
      && 1 <= reply.id <= |db.submissions|
      && db.submissions[reply.id - 1] == SubmissionRow(reply.id, comment, problemId)
      && 1 <= problemId <= |db.problems|
    ensures Referential(old(db.State())) ==> Referential(db.State())
  {
    SubmitKeepsInv(db.sha256, db.State(), problemId, comment, files, fault);
    if Referential(db.State()) {
      GuardedSubmitKeepsRefs(db.sha256, db.State(), problemId, comment, files, fault);
    }
    var outcome := db.CreateSubmissionWithFiles(problemId, comment, files, fault);
    reply := CreatedReply(outcome);
  }

  /** `GET /api/submissions`: every submission, newest first, each as its
      own lookup gives it. */
  method HandleGetSubmissions(db: SubmDb) returns (reply: Reply<seq<Submission>>)
    requires db.Valid()
    ensures reply.Ok200? && |reply.body| == |db.submissions|
    ensures forall i, j :: 0 <= i < j < |reply.body| ==> reply.body[i].id > reply.body[j].id
    ensures forall k :: 0 <= k < |reply.body| ==> db.SubmissionById(reply.body[k].id) == Some(reply.body[k])
  {
    var subs := db.GetSubmissions();
    reply := Ok200(subs);
  }

  /** `GET /api/submissions/{id}`. */
  method HandleGetSubmission(db: SubmDb, id: int) returns (reply: Reply<Submission>)
    requires db.Valid()
    ensures 1 <= id <= |db.submissions| ==>
      reply == Ok200(Hydrated(db.submissions[id - 1], db.files, db.attachments, db.feedbacks))
    ensures !(1 <= id <= |db.submissions|) ==> reply == NotFound404("Submission not found")
  {
    var found := db.GetSubmissionById(id);
    reply := LookupReply(Ok(found), "Submission not found");
  }

  /** `POST /api/submissions/{id}/feedback`: check that the submission
      exists, then record the feedback. A missing submission answers 404
      and writes nothing; an invalid grade is the generic error (a 500)
      and writes nothing either. */
  method HandleCreateFeedback(db: SubmDb, sid: int, grade: int, message: Option<string>, insertFails: bool)
    returns (reply: Reply<()>)
    requires db.Valid()
    modifies db
    ensures db.Valid()
    ensures !(1 <= sid <= |old(db.submissions)|) ==>
      reply == NotFound404("Submission not found") && db.State() == old(db.State())
    ensures 1 <= sid <= |old(db.submissions)| ==>
      && reply == CreatedReply(FeedbackOutcome(old(db.State()), grade, insertFails))
      && db.State() == AfterFeedback(old(db.State()), sid, grade, message, insertFails)
    ensures 1 <= sid <= |old(db.submissions)| && !ValidGrade(grade) ==>
      reply == Failure(GenericError) && StatusCode(reply) == 500 && db.State() == old(db.State())
    ensures reply.Created201? ==> (db.StatusOf(sid).accepted <==> grade == 1)
    ensures Referential(old(db.State())) ==> Referential(db.State())
  {
    var found := db.GetSubmissionById(sid);
    if found.None? {
      return NotFound404("Submission not found");
    }
    if Referential(db.State()) {
      GuardedFeedbackKeepsRefs(db.State(), sid, grade, message, insertFails);
    }
    var outcome := db.CreateFeedback(sid, grade, message, insertFails);
    reply := CreatedReply(outcome);
  }

  /** `GET /api/files/{hash}`: the blob's bytes, or FileNotFound; what is
      served always hashes to the requested name. */
  method HandleGetFile(db: SubmDb, hash: string) returns (reply: Reply<Bytes>)
    requires db.Valid()
    ensures hash in db.uploads ==> reply == Ok200(db.uploads[hash])
    ensures hash !in db.uploads ==> reply == Failure(FileNotFound)
    ensures reply.Ok200? ==> ContentHash(db.sha256, reply.body) == hash
  {
    var content := db.GetFileContent(hash);
    reply := FileReply(content);
  }
}

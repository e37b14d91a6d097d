/** End-to-end runs of the handlers, each the shape of one scenario of the
    backend's integration suite, stated for every input instead of one. */
module Scenarios {
  import opened Wrappers
  import opened Bytes
  import opened Hex
  import opened Records
  import opened Tables
  import opened Ledger
  import opened Multipart
  import opened Db
  import opened Api
  import Frontend

  /** A problem that was just created reads back with its name and desc. */
  method ProblemRoundTrip(db: SubmDb, name: string, desc: string) returns (created: Reply<()>, fetched: Reply<Problem>)
    requires db.Valid()
    modifies db
    ensures db.Valid()
    ensures created == Created201(|old(db.problems)| + 1)
    ensures fetched == Ok200(Problem(created.id, name, desc))
  {
    created := HandleCreateProblem(db, name, desc, false);
    fetched := HandleGetProblem(db, created.id);
  }

  /** A submission posted through the frontend's form reads back with the
      comment as the browser sent it (line breaks as CR LF), its problem
      and one file per uploaded file, in upload order, each carrying the
      hash of that file's bytes. */
  method SubmissionRoundTrip(db: SubmDb, problemId: int, comment: string, files: seq<(string, Bytes)>)
    returns (created: Reply<()>, fetched: Reply<Submission>)
    requires db.Valid()
    requires 1 <= problemId <= |db.problems|
    requires Referential(db.State())
    modifies db
    ensures db.Valid()
    ensures created.Created201?
    ensures fetched.Ok200?
    ensures fetched.body.id == created.id && fetched.body.problem == problemId
    ensures fetched.body.comment == Frontend.NormalizeNewlines(comment)
    ensures |fetched.body.files| == |files|
    ensures forall i :: 0 <= i < |files| ==> fetched.body.files[i].hash == ContentHash(db.sha256, files[i].1)
    ensures !fetched.body.status.accepted && fetched.body.status.feedbacks == []
  {
    var form := Frontend.SubmissionForm(comment, files);
    Frontend.FormRoundTrip(comment, files);
    var sent := Frontend.ReceivedFiles(files);
    assert forall i :: 0 <= i < |files| ==> sent[i].1 == files[i].1;
    SubmissionReadsBack(db.sha256, db.State(), problemId, Frontend.NormalizeNewlines(comment), sent, NoFault);
    created := HandleCreateSubmission(db, problemId, form, NoFault);
    fetched := HandleGetSubmission(db, created.id);
  }

  /** Two feedbacks on an ungraded submission, `first` then `second`: the
      submission lists both, oldest first, and the second decides. */
  method GradeTwice(db: SubmDb, sid: int, first: int, second: int) returns (fetched: Reply<Submission>)
    requires db.Valid()
    requires 1 <= sid <= |db.submissions| && FeedbacksOf(db.feedbacks, sid) == []
    requires ValidGrade(first) && ValidGrade(second)
    modifies db
    ensures db.Valid()
    ensures fetched.Ok200?
    ensures |fetched.body.status.feedbacks| == 2
    ensures fetched.body.status.feedbacks[0].grade == first && fetched.body.status.feedbacks[1].grade == second
    ensures fetched.body.status.feedbacks[0].id < fetched.body.status.feedbacks[1].id
    ensures fetched.body.status.accepted <==> second == 1
  {
    FeedbackKeepsInv(db.sha256, db.State(), sid, first, None, false);
    var r1 := HandleCreateFeedback(db, sid, first, None, false);
    FeedbackKeepsInv(db.sha256, db.State(), sid, second, None, false);
    var r2 := HandleCreateFeedback(db, sid, second, None, false);
    fetched := HandleGetSubmission(db, sid);
  }

  /** On an empty store every lookup by id answers 404: a problem, a
      submission, and a feedback for a missing submission. */
  method MissingIds(sha256: Bytes -> Digest, id: int) returns (problem: int, submission: int, feedback: int)
    ensures problem == 404 && submission == 404 && feedback == 404
  {
    var db := new SubmDb(sha256);
    var p := HandleGetProblem(db, id);
    var s := HandleGetSubmission(db, id);
    var f := HandleCreateFeedback(db, id, 1, None, false);
    problem, submission, feedback := StatusCode(p), StatusCode(s), StatusCode(f);
  }

  /** An invalid grade on an existing submission is a server error. */
  method InvalidGradeIsServerError(db: SubmDb, sid: int, grade: int) returns (status: int)
    requires db.Valid()
    requires 1 <= sid <= |db.submissions| && !ValidGrade(grade)
    modifies db
    ensures db.Valid()
    ensures status == 500
    ensures db.State() == old(db.State())
  {
    var reply := HandleCreateFeedback(db, sid, grade, None, false);
    status := StatusCode(reply);
  }

  /** A file that was stored downloads as exactly its bytes. */
  method StoreThenDownload(db: SubmDb, name: string, content: Bytes) returns (downloaded: Reply<Bytes>)
    requires db.Valid()
    modifies db
    ensures db.Valid()
    ensures downloaded == Ok200(content)
  {
    var stored := db.StoreFile(name, content, Healthy);
    downloaded := HandleGetFile(db, stored.value);
  }
}

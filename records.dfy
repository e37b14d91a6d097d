/** The rows and response records of the submission store (`Problem`,
    `FileInfo`, `Feedback`, `SubmissionStatus`, `Submission`), the table rows
    that have no record of their own, and the status derivation. */
module Records {
  import opened Wrappers

  datatype Problem = Problem(id: int, name: string, desc: string)

  /** A row of the file table: the first name seen for a content, and its hash. */
  datatype FileInfo = FileInfo(id: int, name: string, hash: string)

  datatype Feedback = Feedback(id: int, grade: int, message: Option<string>)

  datatype SubmissionStatus = SubmissionStatus(accepted: bool, feedbacks: seq<Feedback>)

  datatype Submission = Submission(
    id: int, comment: string, problem: int, files: seq<FileInfo>, status: SubmissionStatus)

  /** A row of the submission table. */
  datatype SubmissionRow = SubmissionRow(id: int, comment: string, problem: int)

  /** A row of the attachment table: submission id and file id. */
  datatype Attachment = Attachment(submission: int, file: int)

  /** A row of the feedback table; the message column holds "" for a missing message. */
  datatype FeedbackRow = FeedbackRow(id: int, submission: int, grade: int, message: string)

  /** The grade check `create_feedback` makes before inserting. */
  predicate ValidGrade(grade: int) {
    grade == 0 || grade == 1
  }

  /** `feedbacks.last()`. */
  function Last(fbs: seq<Feedback>): (r: Option<Feedback>)
    ensures r.Some? <==> fbs != []
    ensures r.Some? ==> r.value == fbs[|fbs| - 1]
  {
    if fbs == [] then None else Some(fbs[|fbs| - 1])
  }

  /** The status of a submission, computed on every read from its feedback
      list in ascending id order: `last().map_or(false, |f| f.grade == 1)`. */
  function DeriveStatus(fbs: seq<Feedback>): (st: SubmissionStatus)
    ensures st.feedbacks == fbs
    ensures st.accepted <==> |fbs| > 0 && fbs[|fbs| - 1].grade == 1
  {
    var accepted := match Last(fbs)
      case None => false
      case Some(f) => f.grade == 1;
    SubmissionStatus(accepted, fbs)
  }

  /** A submission nobody has graded is not accepted. */
  lemma NoFeedbackNotAccepted()
    ensures DeriveStatus([]) == SubmissionStatus(false, [])
  {
  }

  /** The newest feedback decides, whatever came before it: a later reject
      overturns an accept and a later accept overturns rejects. */
  lemma LastFeedbackDecides(earlier: seq<Feedback>, f: Feedback)
    ensures DeriveStatus(earlier + [f]).accepted <==> f.grade == 1
    ensures DeriveStatus(earlier + [f]).feedbacks == earlier + [f]
  {
  }

  /** Acceptance is not a majority vote: only the last grade matters, so two
      histories that end alike have the same verdict. */
  lemma SameLastSameVerdict(h1: seq<Feedback>, h2: seq<Feedback>)
    requires h1 != [] && h2 != []
    requires h1[|h1| - 1].grade == h2[|h2| - 1].grade
    ensures DeriveStatus(h1).accepted == DeriveStatus(h2).accepted
  {
  }

  /** A history of rejections only is rejected. */
  lemma AllRejectedNotAccepted(fbs: seq<Feedback>)
    requires forall i :: 0 <= i < |fbs| ==> fbs[i].grade == 0
    ensures !DeriveStatus(fbs).accepted
  {
  }
}

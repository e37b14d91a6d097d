/** `SubmDb`: the submission store. Five tables held as sequences of rows,
    one row-id counter per table standing in for `last_insert_rowid`, and
    the uploads directory as a map from hash string to file bytes. */
module Db {
  import opened Wrappers
  import opened Bytes
  import opened Hex
  import opened Records
  import opened Tables
  import opened Ledger

  class SubmDb {
    /** SHA-256, a foreign function: deterministic, 32 bytes out. */
    const sha256: Bytes -> Digest

    var problems: seq<Problem>
    var files: seq<FileInfo>
    var submissions: seq<SubmissionRow>
    var attachments: seq<Attachment>
    var feedbacks: seq<FeedbackRow>
    var lastProblemId: int
    var lastFileId: int
    var lastSubmissionId: int
    var lastFeedbackId: int
    var uploads: map<string, Bytes>

    ghost function State(): Snapshot
      reads this
    {
      Snapshot(problems, files, submissions, attachments, feedbacks,
               lastProblemId, lastFileId, lastSubmissionId, lastFeedbackId, uploads)
    }

    ghost predicate Valid()
      reads this
    {
      Inv(sha256, State())
    }

    ghost function ProblemById(id: int): Option<Problem>
      reads this
    {
      Find(problems, ProblemKey, id)
    }

    ghost function SubmissionById(id: int): Option<Submission>
      reads this
    {
      match Find(submissions, SubmissionKey, id)
      case None => None
      case Some(row) => Some(Hydrated(row, files, attachments, feedbacks))
    }

    ghost function StatusOf(sid: int): SubmissionStatus
      reads this
    {
      DeriveStatus(FeedbacksOf(feedbacks, sid))
    }

    /** `SubmDb::new` followed by `init`: empty tables, empty uploads directory. */
    constructor (sha256: Bytes -> Digest)
      ensures Valid() && this.sha256 == sha256
      ensures State() == Snapshot([], [], [], [], [], 0, 0, 0, 0, map[])
    {
      this.sha256 := sha256;
      problems, files, submissions, attachments, feedbacks := [], [], [], [], [];
      lastProblemId, lastFileId, lastSubmissionId, lastFeedbackId := 0, 0, 0, 0;
      uploads := map[];
    }

    /** `SubmDb::new` followed by `init` on a database file and an uploads
        directory this program wrote before: `CREATE TABLE IF NOT EXISTS`
        keeps the rows, so the store reopens in the state it was left in. */
    constructor Reopen(sha256: Bytes -> Digest, saved: Snapshot)
      requires Inv(sha256, saved)
      ensures Valid() && this.sha256 == sha256
      ensures State() == saved
    {
      this.sha256 := sha256;
      problems, files, submissions := saved.problems, saved.files, saved.submissions;
      attachments, feedbacks := saved.attachments, saved.feedbacks;
      lastProblemId, lastFileId := saved.lastProblemId, saved.lastFileId;
      lastSubmissionId, lastFeedbackId := saved.lastSubmissionId, saved.lastFeedbackId;
      uploads := saved.uploads;
    }

    /** `create_problem`: one insert; the new id names a row holding the
        given name and desc. */
    method CreateProblem(name: string, desc: string, insertFails: bool) returns (r: Result<int, DbError>)
      requires Valid()
      modifies this
      ensures Valid()
      ensures insertFails ==> r == Err(StorageFailure) && State() == old(State())
      ensures !insertFails ==> r == Ok(|old(problems)| + 1)
      ensures r.Ok? ==> State() == old(State()).(
        problems := old(problems) + [Problem(r.value, name, desc)], lastProblemId := r.value)
      ensures r.Ok? ==> forall p :: p in old(problems) ==> p.id != r.value
      ensures r.Ok? ==> ProblemById(r.value) == Some(Problem(r.value, name, desc))
    {
      if insertFails {
        return Err(StorageFailure);
      }
      problems := problems + [Problem(lastProblemId + 1, name, desc)];
      lastProblemId := lastProblemId + 1;
      r := Ok(lastProblemId);
      FindById(problems, ProblemKey, lastProblemId);
    }

    /** `get_problems`: every problem, by ascending id. */
    method GetProblems() returns (ps: seq<Problem>)
      requires Valid()
      ensures ps == problems
      ensures forall i, j :: 0 <= i < j < |ps| ==> ps[i].id < ps[j].id
    {
      ps := [];
      var i := 0;
      while i < |problems|
        invariant 0 <= i <= |problems|
        invariant ps == problems[..i]
      {
        ps := ps + [problems[i]];
        i := i + 1;
      }
    }

    /** `get_problem_by_id`: the row with that id, or None (not an error). */
    method GetProblemById(id: int) returns (r: Option<Problem>)
      requires Valid()
      ensures r.Some? <==> 1 <= id <= |problems|
      ensures r.Some? ==> r.value == problems[id - 1] && r.value.id == id
      ensures r == ProblemById(id)
    {
      r := Find(problems, ProblemKey, id);
      FindById(problems, ProblemKey, id);
    }

    /** `store_file`: write the blob under its hash, then add a file row only
        if no row has that hash; the hash depends on the content alone. */
    method StoreFile(filename: string, content: Bytes, fault: StoreFault) returns (r: Result<string, DbError>)
      requires Valid()
      modifies this
      ensures Valid()
      ensures r == if fault == Healthy then Ok(ContentHash(sha256, content)) else Err(StorageFailure)
      ensures State() == AfterStore(sha256, old(State()), filename, content, fault)
      ensures r.Ok? ==> uploads[r.value] == content && Find(files, HashKey, r.value).Some?
    {
      var hash := ContentHash(sha256, content);
      if fault == BlobWriteFails {
        r := Err(StorageFailure);
      } else {
        uploads := uploads[hash := content];
        if fault == FileTableFails {
          r := Err(StorageFailure);
        } else {
          if Find(files, HashKey, hash).None? {
            files := files + [FileInfo(lastFileId + 1, filename, hash)];
            lastFileId := lastFileId + 1;
          }
          assert files == Registered(old(files), filename, hash);
          r := Ok(hash);
        }
        assert State() == AfterStore(sha256, old(State()), filename, content, fault);
      }
      StoreKeepsInv(sha256, old(State()), filename, content, fault);
    }

    /** `create_submission_with_files`: the submission row first, then for
        each file in input order a store, an id lookup by hash and one
        attachment row; the first failure ends the call with everything
        done so far left in place. */
    method CreateSubmissionWithFiles(problemId: int, comment: string, ups: seq<(string, Bytes)>,
                                     fault: SubmissionFault) returns (r: Result<int, DbError>)
      requires Valid()
      modifies this
      ensures Valid()
      ensures r == SubmitOutcome(old(State()), ups, fault)
      ensures State() == AfterSubmit(sha256, old(State()), problemId, comment, ups, fault)
    {
      if fault == RowInsertFails {
        return Err(StorageFailure);
      }
      submissions := submissions + [SubmissionRow(lastSubmissionId + 1, comment, problemId)];
      lastSubmissionId := lastSubmissionId + 1;
      var sid := lastSubmissionId;
      InsertedInv(sha256, old(State()), problemId, comment);
      ghost var start := State();
      assert start == Inserted(old(State()), problemId, comment);
      FiledStart(sha256, start, sid, ups);
      var i := 0;
      while i < |ups|
        invariant 0 <= i <= |ups| && i <= AttachedCount(fault, |ups|)
        invariant Valid()
        invariant State() == Filed(sha256, start, sid, ups, i, i, i)
      {
        var failed := FileOne(start, sid, ups, i, fault);
        if failed {
          return Err(StorageFailure);
        }
        i := i + 1;
      }
      r := Ok(sid);
    }

    /** One pass of the file loop of `create_submission_with_files`: store
        file i, look its id up by hash and attach it to `sid`. It fails
        exactly where the fault strikes, leaving what the failing step did
        before it failed. */
    method FileOne(ghost start: Snapshot, sid: int, ups: seq<(string, Bytes)>, i: nat, fault: SubmissionFault)
      returns (failed: bool)
      requires Valid() && Inv(sha256, start) && 1 <= sid <= |start.submissions|
      requires i < |ups| && i <= AttachedCount(fault, |ups|)
      requires State() == Filed(sha256, start, sid, ups, i, i, i)
      modifies this
      ensures Valid()
      ensures failed <==> AttachedCount(fault, |ups|) == i
      ensures failed ==>
        State() == Filed(sha256, start, sid, ups, RegisteredCount(fault, |ups|), WrittenCount(fault, |ups|), i)
      ensures !failed ==> State() == Filed(sha256, start, sid, ups, i + 1, i + 1, i + 1)
    {
      var kind := StoreFaultAt(fault, i);
      FiledStore(sha256, start, sid, ups, i, kind);
      var stored := StoreFile(ups[i].0, ups[i].1, kind);
      if stored.Err? {
        return true;
      }
      if fault == AttachmentFails(i) {
        return true;
      }
      Attach(start, sid, ups, i, stored.value);
      failed := false;
    }

    /** The lookup and attachment of file i once it is stored: `SELECT id
        FROM file WHERE hash = ?`, which the store just made non-empty, and
        one attachment row. */
    method Attach(ghost start: Snapshot, sid: int, ups: seq<(string, Bytes)>, i: nat, hash: string)
      requires Valid() && Inv(sha256, start) && 1 <= sid <= |start.submissions|
      requires i < |ups| && hash == ContentHash(sha256, ups[i].1)
      requires State() == Filed(sha256, start, sid, ups, i + 1, i + 1, i)
      requires Find(files, HashKey, hash).Some?
      modifies this
      ensures Valid()
      ensures State() == Filed(sha256, start, sid, ups, i + 1, i + 1, i + 1)
    {
      var fid := Find(files, HashKey, hash).value.id;
      attachments := attachments + [Attachment(sid, fid)];
      FiledAttach(sha256, start, sid, ups, i);
      FiledInv(sha256, start, sid, ups, i + 1, i + 1, i + 1);
    }

    /** `get_submission_files`: the join of the attachment rows of `sid`
        with the file table, one file row per attachment, in attachment
        order. */
    method GetSubmissionFiles(sid: int) returns (fs: seq<FileInfo>)
      requires Valid()
      ensures fs == JoinFiles(files, attachments, sid)
      ensures |fs| == |AttachmentsOf(attachments, sid)|
      ensures forall i :: 0 <= i < |fs| ==>
        var a := AttachmentsOf(attachments, sid)[i];
        a.submission == sid && 1 <= a.file <= |files| && fs[i] == files[a.file - 1]
    {
      fs := [];
      var i := 0;
      while i < |attachments|
        invariant 0 <= i <= |attachments|
        invariant fs == JoinFiles(files, attachments[..i], sid)
      {
        var a := attachments[i];
        JoinFilesStep(files, attachments, sid, i);
        if a.submission == sid {
          FilesWithIdDense(files, a.file);
          fs := fs + [files[a.file - 1]];
        }
        i := i + 1;
      }
      assert attachments[..i] == attachments;
      JoinFilesPerAttachment(files, attachments, sid);
    }

    /** `get_submission_feedbacks`: the feedback rows of `sid` by ascending
        id, each message read back as present. */
    method GetSubmissionFeedbacks(sid: int) returns (fbs: seq<Feedback>)
      requires Valid()
      ensures fbs == FeedbacksOf(feedbacks, sid)
      ensures forall i, j :: 0 <= i < j < |fbs| ==> fbs[i].id < fbs[j].id
    {
      fbs := [];
      var i := 0;
      while i < |feedbacks|
        invariant 0 <= i <= |feedbacks|
        invariant fbs == FeedbacksOf(feedbacks[..i], sid)
      {
        var row := feedbacks[i];
        assert feedbacks[..i + 1][..i] == feedbacks[..i];
        if row.submission == sid {
          fbs := fbs + [Feedback(row.id, row.grade, Some(row.message))];
        }
        i := i + 1;
      }
      assert feedbacks[..i] == feedbacks;
      FeedbacksOfSorted(feedbacks, sid);
    }

    /** A submission row with its files, its feedbacks and the status they
        give, as both submission getters build it. */
    method Hydrate(row: SubmissionRow) returns (sub: Submission)
      requires Valid()
      ensures sub == Hydrated(row, files, attachments, feedbacks)
    {
      var fs := GetSubmissionFiles(row.id);
      var fbs := GetSubmissionFeedbacks(row.id);
      var accepted := match Last(fbs)
        case None => false
        case Some(f) => f.grade == 1;
      sub := Submission(row.id, row.comment, row.problem, fs, SubmissionStatus(accepted, fbs));
    }

    /** `get_submission_by_id`: the hydrated submission, or None for an id
        no row has (not an error). */
    method GetSubmissionById(id: int) returns (r: Option<Submission>)
      requires Valid()
      ensures r == SubmissionById(id)
      ensures r.Some? <==> 1 <= id <= |submissions|
      ensures r.Some? ==> r.value == Hydrated(submissions[id - 1], files, attachments, feedbacks)
      ensures r.Some? ==> r.value.id == id
    {
      FindById(submissions, SubmissionKey, id);
      var row := Find(submissions, SubmissionKey, id);
      if row.None? {
        r := None;
      } else {
        var sub := Hydrate(row.value);
        r := Some(sub);
      }
    }

    /** `get_submissions`: every submission by descending id, each exactly
        as `get_submission_by_id` gives it. */
    method GetSubmissions() returns (subs: seq<Submission>)
      requires Valid()
      ensures |subs| == |submissions|
      ensures forall k :: 0 <= k < |subs| ==>
        subs[k] == Hydrated(submissions[|submissions| - 1 - k], files, attachments, feedbacks)
      ensures forall i, j :: 0 <= i < j < |subs| ==> subs[i].id > subs[j].id
      ensures forall k :: 0 <= k < |subs| ==> SubmissionById(subs[k].id) == Some(subs[k])
    {
      var n := |submissions|;
      subs := [];
      var k := 0;
      while k < n
        invariant 0 <= k <= n
        invariant |subs| == k
        invariant forall m :: 0 <= m < k ==>
          subs[m] == Hydrated(submissions[n - 1 - m], files, attachments, feedbacks)
        invariant forall m :: 0 <= m < k ==> subs[m].id == n - m
      {
        var sub := Hydrate(submissions[n - 1 - k]);
        subs := subs + [sub];
        k := k + 1;
      }
      forall m | 0 <= m < n ensures SubmissionById(subs[m].id) == Some(subs[m]) {
        FindById(submissions, SubmissionKey, n - m);
      }
    }

    /** `create_feedback`: the grade check, then one insert with the
        message stored as "" when absent. */
    method CreateFeedback(sid: int, grade: int, message: Option<string>, insertFails: bool)
      returns (r: Result<int, DbError>)
      requires Valid()
      modifies this
      ensures Valid()
      ensures r == FeedbackOutcome(old(State()), grade, insertFails)
      ensures State() == AfterFeedback(old(State()), sid, grade, message, insertFails)
      ensures r.Ok? ==> (StatusOf(sid).accepted <==> grade == 1)
    {
      FeedbackKeepsInv(sha256, State(), sid, grade, message, insertFails);
      if grade != 0 && grade != 1 {
        return Err(InvalidGrade);
      }
      if insertFails {
        return Err(StorageFailure);
      }
      feedbacks := feedbacks + [FeedbackRow(lastFeedbackId + 1, sid, grade, message.GetOr(""))];
      lastFeedbackId := lastFeedbackId + 1;
      r := Ok(lastFeedbackId);
    }

    /** `get_file_content`: the blob stored under `hash`, or an error when
        there is none. What comes back always hashes to `hash`. */
    method GetFileContent(hash: string) returns (r: Result<Bytes, DbError>)
      requires Valid()
      ensures hash in uploads ==> r == Ok(uploads[hash])
      ensures hash !in uploads ==> r == Err(NoSuchBlob(hash))
      ensures r.Ok? ==> ContentHash(sha256, r.value) == hash
    {
      if hash in uploads {
        r := Ok(uploads[hash]);
      } else {
        r := Err(NoSuchBlob(hash));
      }
    }
  }
}

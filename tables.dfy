/** What the store's SQL queries compute, stated over the tables held as
    sequences of rows in insertion order (which, with ids 1, 2, 3, ..., is
    also ascending id order). */
module Tables {
  import opened Wrappers
  import opened Records

  function ProblemKey(p: Problem): int { p.id }
  function FileKey(f: FileInfo): int { f.id }
  function HashKey(f: FileInfo): string { f.hash }
  function SubmissionKey(s: SubmissionRow): int { s.id }
  function FeedbackKey(f: FeedbackRow): int { f.id }

  /** `SELECT ... WHERE key = ?` followed by a single `next()`: the first
      matching row, or None. */
  function Find<T, K(==)>(rows: seq<T>, key: T -> K, k: K): (r: Option<T>)
    ensures r.Some? ==> r.value in rows && key(r.value) == k
    ensures r.None? <==> forall i :: 0 <= i < |rows| ==> key(rows[i]) != k
  {
    if rows == [] then None
    else if key(rows[0]) == k then Some(rows[0])
    else Find(rows[1..], key, k)
  }

  lemma {:induction false} FindFirst<T, K>(rows: seq<T>, key: T -> K, k: K, j: nat)
    requires j < |rows| && key(rows[j]) == k
    requires forall i :: 0 <= i < j ==> key(rows[i]) != k
    ensures Find(rows, key, k) == Some(rows[j])
  {
    if j > 0 {
      assert key(rows[0]) != k;
      FindFirst(rows[1..], key, k, j - 1);
    }
  }

  /** Row i carries id i + 1: the rowids a fresh SQLite table hands out when
      rows are only ever inserted. */
  ghost predicate DenseIds<T>(rows: seq<T>, id: T -> int) {
    forall i :: 0 <= i < |rows| ==> id(rows[i]) == i + 1
  }

  /** A point lookup by id finds exactly the row with that id, and an id
      outside 1..|rows| finds nothing. */
  lemma FindById<T>(rows: seq<T>, id: T -> int, k: int)
    requires DenseIds(rows, id)
    ensures Find(rows, id, k) == if 1 <= k <= |rows| then Some(rows[k - 1]) else None
  {
    if 1 <= k <= |rows| {
      FindFirst(rows, id, k, k - 1);
    }
  }

  /** No row repeats the hash of an earlier one: each row went in only after
      the lookup for its hash came back empty. */
  ghost predicate UniqueHashes(files: seq<FileInfo>) {
    files == [] ||
    (UniqueHashes(files[..|files| - 1]) &&
     forall i :: 0 <= i < |files| - 1 ==> files[i].hash != files[|files| - 1].hash)
  }

  /** Unique hashes means that no two rows share a hash, and conversely. */
  lemma {:induction false} UniqueHashesDistinct(files: seq<FileInfo>)
    ensures UniqueHashes(files) <==> forall i, j :: 0 <= i < j < |files| ==> files[i].hash != files[j].hash
  {
    if files != [] {
      var init := files[..|files| - 1];
      UniqueHashesDistinct(init);
      assert forall i :: 0 <= i < |init| ==> init[i] == files[i];
    }
  }

  /** The file table after `store_file` registers `hash` under `name`: a new
      row with the next id only when no row has that hash yet. */
  function Registered(files: seq<FileInfo>, name: string, hash: string): seq<FileInfo> {
    if Find(files, HashKey, hash).Some? then files
    else files + [FileInfo(|files| + 1, name, hash)]
  }

  /** Registering keeps ids dense and hashes unique, only ever appends, and
      leaves a row with the hash. */
  lemma RegisteredInvariant(files: seq<FileInfo>, name: string, hash: string)
    requires DenseIds(files, FileKey) && UniqueHashes(files)
    ensures var r := Registered(files, name, hash);
      && DenseIds(r, FileKey) && UniqueHashes(r)
      && |files| <= |r| <= |files| + 1 && r[..|files|] == files
      && Find(r, HashKey, hash).Some?
  {
    var r := Registered(files, name, hash);
    assert r[..|files|] == files;
    if Find(files, HashKey, hash).None? {
      assert HashKey(r[|files|]) == hash;
    }
  }

  /** After registering, exactly one row carries the hash. */
  lemma RegisteredOnce(files: seq<FileInfo>, name: string, hash: string)
    requires DenseIds(files, FileKey) && UniqueHashes(files)
    ensures var r := Registered(files, name, hash);
      forall i, j :: 0 <= i < |r| && 0 <= j < |r| && r[i].hash == hash && r[j].hash == hash ==> i == j
  {
    RegisteredInvariant(files, name, hash);
    UniqueHashesDistinct(Registered(files, name, hash));
  }

  /** The first name seen for a content stays: registering the same hash
      again under another name changes nothing. */
  lemma FirstNameKept(files: seq<FileInfo>, first: string, second: string, hash: string)
    ensures Registered(Registered(files, first, hash), second, hash) == Registered(files, first, hash)
    ensures Find(Registered(files, first, hash), HashKey, hash).Some?
    ensures Find(Registered(files, first, hash), HashKey, hash).value.name ==
            if Find(files, HashKey, hash).Some? then Find(files, HashKey, hash).value.name else first
  {
    var r := Registered(files, first, hash);
    if Find(files, HashKey, hash).None? {
      assert HashKey(r[|files|]) == hash;
      FindFirst(r, HashKey, hash, |files|);
    } else {
      assert r == files;
    }
  }

  /** Finding a key in a prefix is not disturbed by rows appended after it. */
  lemma {:induction false} FindStable<T, K>(a: seq<T>, b: seq<T>, key: T -> K, k: K)
    requires Find(a, key, k).Some?
    ensures Find(a + b, key, k) == Find(a, key, k)
  {
    if key(a[0]) != k {
      assert (a + b)[1..] == a[1..] + b;
      FindStable(a[1..], b, key, k);
    }
  }

  /** The file table after storing a batch of (name, hash) pairs in order. */
  function RegisterAll(files: seq<FileInfo>, named: seq<(string, string)>): seq<FileInfo> {
    if named == [] then files
    else
      var last := named[|named| - 1];
      Registered(RegisterAll(files, named[..|named| - 1]), last.0, last.1)
  }

  /** A batch keeps ids dense and hashes unique and only appends. */
  lemma {:induction false} RegisterAllInvariant(files: seq<FileInfo>, named: seq<(string, string)>)
    requires DenseIds(files, FileKey) && UniqueHashes(files)
    ensures var r := RegisterAll(files, named);
      && DenseIds(r, FileKey) && UniqueHashes(r)
      && |files| <= |r| && r[..|files|] == files
  {
    if named == [] {
      assert files[..|files|] == files;
    } else {
      var init := named[..|named| - 1];
      var last := named[|named| - 1];
      var r0 := RegisterAll(files, init);
      RegisterAllInvariant(files, init);
      RegisteredInvariant(r0, last.0, last.1);
      var r := Registered(r0, last.0, last.1);
      assert r[..|files|] == r0[..|files|];
    }
  }

  /** Registering a hash leaves a row for it, whatever the table held. */
  lemma RegisteredFinds(files: seq<FileInfo>, name: string, hash: string)
    ensures Find(Registered(files, name, hash), HashKey, hash).Some?
  {
    if Find(files, HashKey, hash).None? {
      assert HashKey(Registered(files, name, hash)[|files|]) == hash;
    }
  }

  /** After a batch every hash in it has a row. */
  lemma {:induction false} RegisterAllFinds(files: seq<FileInfo>, named: seq<(string, string)>)
    ensures forall i :: 0 <= i < |named| ==> Find(RegisterAll(files, named), HashKey, named[i].1).Some?
  {
    if named != [] {
      var init := named[..|named| - 1];
      var last := named[|named| - 1];
      var r0 := RegisterAll(files, init);
      RegisterAllFinds(files, init);
      RegisteredFinds(r0, last.0, last.1);
      var r := Registered(r0, last.0, last.1);
      forall i | 0 <= i < |init| ensures Find(r, HashKey, named[i].1).Some? {
        assert named[i] == init[i];
        if r != r0 {
          FindStable(r0, r[|r0|..], HashKey, named[i].1);
          assert r0 + r[|r0|..] == r;
        }
      }
    }
  }

  lemma {:induction false} RegisterAllAbsent(files: seq<FileInfo>, named: seq<(string, string)>, hash: string)
    requires Find(files, HashKey, hash).None?
    requires forall i :: 0 <= i < |named| ==> named[i].1 != hash
    ensures Find(RegisterAll(files, named), HashKey, hash).None?
  {
    if named != [] {
      var init := named[..|named| - 1];
      RegisterAllAbsent(files, init, hash);
    }
  }

  /** A hash that already had a row keeps that row, name included, through
      any batch. */
  lemma {:induction false} RegisterAllKeepsExisting(files: seq<FileInfo>, named: seq<(string, string)>, hash: string)
    requires Find(files, HashKey, hash).Some?
    ensures Find(RegisterAll(files, named), HashKey, hash) == Find(files, HashKey, hash)
  {
    if named != [] {
      var init := named[..|named| - 1];
      var last := named[|named| - 1];
      RegisterAllKeepsExisting(files, init, hash);
      var r0 := RegisterAll(files, init);
      var r := Registered(r0, last.0, last.1);
      FindStable(r0, r[|r0|..], HashKey, hash);
      assert r0 + r[|r0|..] == r;
    }
  }

  /** A content new to the table is recorded under the name of its first
      upload in the batch; later uploads of the same content do not rename it. */
  lemma {:induction false} RegisterAllFirstName(files: seq<FileInfo>, named: seq<(string, string)>, j: nat)
    requires j < |named|
    requires Find(files, HashKey, named[j].1).None?
    requires forall i :: 0 <= i < j ==> named[i].1 != named[j].1
    ensures Find(RegisterAll(files, named), HashKey, named[j].1).Some?
    ensures Find(RegisterAll(files, named), HashKey, named[j].1).value.name == named[j].0
  {
    var h := named[j].1;
    var init := named[..|named| - 1];
    var last := named[|named| - 1];
    var r0 := RegisterAll(files, init);
    var r := Registered(r0, last.0, last.1);
    if j == |named| - 1 {
      forall i | 0 <= i < |init| ensures init[i].1 != h {
        assert init[i] == named[i];
      }
      RegisterAllAbsent(files, init, h);
      assert HashKey(r[|r0|]) == h;
      FindFirst(r, HashKey, h, |r0|);
    } else {
      assert init[j] == named[j];
      forall i | 0 <= i < j ensures init[i].1 != init[j].1 {
        assert init[i] == named[i];
      }
      RegisterAllFirstName(files, init, j);
      FindStable(r0, r[|r0|..], HashKey, h);
      assert r0 + r[|r0|..] == r;
    }
  }

  /** The rows of `files` with id `fid` (the file side of the join). */
  function FilesWithId(files: seq<FileInfo>, fid: int): seq<FileInfo> {
    if files == [] then []
    else FilesWithId(files[..|files| - 1], fid)
         + (if files[|files| - 1].id == fid then [files[|files| - 1]] else [])
  }

  lemma {:induction false} FilesWithIdDense(files: seq<FileInfo>, fid: int)
    requires DenseIds(files, FileKey)
    requires 1 <= fid <= |files|
    ensures FilesWithId(files, fid) == [files[fid - 1]]
  {
    var n := |files|;
    var init := files[..n - 1];
    assert DenseIds(init, FileKey) by {
      forall i | 0 <= i < |init| ensures FileKey(init[i]) == i + 1 {
        assert init[i] == files[i];
      }
    }
    if fid == n {
      FilesWithIdNone(init, fid);
    } else {
      FilesWithIdDense(init, fid);
    }
  }

  lemma {:induction false} FilesWithIdNone(files: seq<FileInfo>, fid: int)
    requires forall i :: 0 <= i < |files| ==> files[i].id != fid
    ensures FilesWithId(files, fid) == []
  {
    if files != [] {
      FilesWithIdNone(files[..|files| - 1], fid);
    }
  }

  /** `SELECT f.id, f.name, f.hash FROM file f JOIN attachment a ON f.id =
      a.file WHERE a.submission = ?`, in attachment order. */
  function JoinFiles(files: seq<FileInfo>, atts: seq<Attachment>, sid: int): seq<FileInfo> {
    if atts == [] then []
    else
      var a := atts[|atts| - 1];
      JoinFiles(files, atts[..|atts| - 1], sid) + (if a.submission == sid then FilesWithId(files, a.file) else [])
  }

  /** The attachments of submission `sid`, in insertion order. */
  function AttachmentsOf(atts: seq<Attachment>, sid: int): seq<Attachment> {
    if atts == [] then []
    else
      var a := atts[|atts| - 1];
      AttachmentsOf(atts[..|atts| - 1], sid) + (if a.submission == sid then [a] else [])
  }

  ghost predicate AttachedFilesExist(files: seq<FileInfo>, atts: seq<Attachment>) {
    forall i :: 0 <= i < |atts| ==> 1 <= atts[i].file <= |files|
  }

  /** With integrity intact the join yields exactly one file per attachment,
      repeated content included: the file of attachment i is the row its file
      id names. */
  lemma {:induction false} JoinFilesPerAttachment(files: seq<FileInfo>, atts: seq<Attachment>, sid: int)
    requires DenseIds(files, FileKey) && AttachedFilesExist(files, atts)
    ensures var own := AttachmentsOf(atts, sid);
      && |JoinFiles(files, atts, sid)| == |own|
      && forall i :: 0 <= i < |own| ==>
           && own[i].submission == sid
           && 1 <= own[i].file <= |files|
           && JoinFiles(files, atts, sid)[i] == files[own[i].file - 1]
  {
    if atts != [] {
      var init := atts[..|atts| - 1];
      var a := atts[|atts| - 1];
      assert AttachedFilesExist(files, init) by {
        forall i | 0 <= i < |init| ensures 1 <= init[i].file <= |files| {
          assert init[i] == atts[i];
        }
      }
      JoinFilesPerAttachment(files, init, sid);
      if a.submission == sid {
        FilesWithIdDense(files, a.file);
      }
    }
  }

  lemma {:induction false} AttachmentsOfOwn(atts: seq<Attachment>, sid: int)
    requires forall i :: 0 <= i < |atts| ==> atts[i].submission == sid
    ensures AttachmentsOf(atts, sid) == atts
  {
    if atts != [] {
      AttachmentsOfOwn(atts[..|atts| - 1], sid);
    }
  }

  /** Scanning one more attachment adds the files it joins to, if it is
      one of `sid`'s. */
  lemma JoinFilesStep(files: seq<FileInfo>, atts: seq<Attachment>, sid: int, i: nat)
    requires i < |atts|
    ensures atts[i].submission == sid ==>
      JoinFiles(files, atts[..i + 1], sid) == JoinFiles(files, atts[..i], sid) + FilesWithId(files, atts[i].file)
    ensures atts[i].submission != sid ==> JoinFiles(files, atts[..i + 1], sid) == JoinFiles(files, atts[..i], sid)
  {
    var before := JoinFiles(files, atts[..i], sid);
    assert atts[..i + 1][..i] == atts[..i];
    assert before + [] == before;
  }

  lemma {:induction false} JoinFilesAppend(files: seq<FileInfo>, a: seq<Attachment>, b: seq<Attachment>, sid: int)
    ensures JoinFiles(files, a + b, sid) == JoinFiles(files, a, sid) + JoinFiles(files, b, sid)
  {
    if b == [] {
      assert a + b == a;
    } else {
      var b' := b[..|b| - 1];
      assert (a + b)[..|a + b| - 1] == a + b';
      JoinFilesAppend(files, a, b', sid);
    }
  }

  lemma {:induction false} JoinFilesOther(files: seq<FileInfo>, atts: seq<Attachment>, sid: int)
    requires forall i :: 0 <= i < |atts| ==> atts[i].submission != sid
    ensures JoinFiles(files, atts, sid) == []
  {
    if atts != [] {
      JoinFilesOther(files, atts[..|atts| - 1], sid);
    }
  }

  /** A row of the feedback table as the API returns it: the message column
      comes back as a present string. */
  function AsFeedback(row: FeedbackRow): Feedback {
    Feedback(row.id, row.grade, Some(row.message))
  }

  /** `SELECT id, grade, message FROM feedback WHERE submission = ? ORDER BY
      id`: the feedback rows must be in ascending id order. */
  function FeedbacksOf(rows: seq<FeedbackRow>, sid: int): seq<Feedback> {
    if rows == [] then []
    else
      var row := rows[|rows| - 1];
      FeedbacksOf(rows[..|rows| - 1], sid) + (if row.submission == sid then [AsFeedback(row)] else [])
  }

  /** A submission no feedback row names has no feedback. */
  lemma {:induction false} FeedbacksOfNone(rows: seq<FeedbackRow>, sid: int)
    requires forall i :: 0 <= i < |rows| ==> rows[i].submission != sid
    ensures FeedbacksOf(rows, sid) == []
  {
    if rows != [] {
      FeedbacksOfNone(rows[..|rows| - 1], sid);
    }
  }

  /** Appending a feedback row for `sid` appends exactly its feedback to the
      list of `sid` and leaves every other submission's list alone. */
  lemma FeedbacksOfAppend(rows: seq<FeedbackRow>, row: FeedbackRow, sid: int)
    ensures FeedbacksOf(rows + [row], sid) ==
            FeedbacksOf(rows, sid) + (if row.submission == sid then [AsFeedback(row)] else [])
  {
    assert (rows + [row])[..|rows|] == rows;
  }

  /** The feedbacks of a submission, as returned, come in strictly
      ascending id order, and each is the reading of a row of that
      submission; `FeedbacksOfComplete` adds that none is missing. */
  lemma {:induction false} FeedbacksOfSorted(rows: seq<FeedbackRow>, sid: int)
    requires DenseIds(rows, FeedbackKey)
    ensures forall i, j :: 0 <= i < j < |FeedbacksOf(rows, sid)| ==>
              FeedbacksOf(rows, sid)[i].id < FeedbacksOf(rows, sid)[j].id
    ensures forall i :: 0 <= i < |FeedbacksOf(rows, sid)| ==>
              FeedbackOfRow(rows, FeedbacksOf(rows, sid)[i], sid)
  {
    if rows != [] {
      var n := |rows|;
      var init := rows[..n - 1];
      var row := rows[n - 1];
      assert DenseIds(init, FeedbackKey) by {
        forall i | 0 <= i < |init| ensures FeedbackKey(init[i]) == i + 1 {
          assert init[i] == rows[i];
        }
      }
      FeedbacksOfSorted(init, sid);
      var fbs0 := FeedbacksOf(init, sid);
      var fbs := FeedbacksOf(rows, sid);
      assert fbs == fbs0 + (if row.submission == sid then [AsFeedback(row)] else []);
      assert row.id == n;
      forall i | 0 <= i < |fbs0| ensures fbs[i] == fbs0[i] && FeedbackOfRow(rows, fbs0[i], sid) {
        assert FeedbackOfRow(init, fbs0[i], sid);
        assert rows[fbs0[i].id - 1] == init[fbs0[i].id - 1];
      }
    }
  }

  /** Every feedback row of a submission is returned for it. */
  lemma {:induction false} FeedbacksOfComplete(rows: seq<FeedbackRow>, sid: int)
    ensures forall r :: 0 <= r < |rows| && rows[r].submission == sid ==> AsFeedback(rows[r]) in FeedbacksOf(rows, sid)
  {
    if rows != [] {
      var n := |rows| - 1;
      var init := rows[..n];
      FeedbacksOfComplete(init, sid);
      assert FeedbacksOf(rows, sid) == FeedbacksOf(init, sid) + (if rows[n].submission == sid then [AsFeedback(rows[n])] else []);
      forall r | 0 <= r < |rows| && rows[r].submission == sid ensures AsFeedback(rows[r]) in FeedbacksOf(rows, sid) {
        if r < n {
          assert init[r] == rows[r];
        }
      }
    }
  }

  /** Feedback `f` is what row `f.id` of `rows` reads as, and that row
      belongs to submission `sid`. */
  ghost predicate FeedbackOfRow(rows: seq<FeedbackRow>, f: Feedback, sid: int) {
    && 1 <= f.id <= |rows|
    && rows[f.id - 1].submission == sid
    && f == AsFeedback(rows[f.id - 1])
  }

  /** A submission as `get_submission_by_id` and `get_submissions` build it
      from its row. */
  function Hydrated(row: SubmissionRow, files: seq<FileInfo>, atts: seq<Attachment>, fbs: seq<FeedbackRow>): Submission {
    Submission(row.id, row.comment, row.problem, JoinFiles(files, atts, row.id),
               DeriveStatus(FeedbacksOf(fbs, row.id)))
  }
}

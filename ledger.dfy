/** The store's persistent state as a value, its invariant, and the state
    each writing operation of `SubmDb` leaves behind. The class in module Db
    is proved to make exactly these transitions. */
module Ledger {
  import opened Wrappers
  import opened Bytes
  import opened Hex
  import opened Records
  import opened Tables

  /** The errors the store's operations return. */
  datatype DbError =
    | StorageFailure          // the SQL engine or the filesystem failed
    | InvalidGrade            // "Grade must be either 0 or 1"
    | NoSuchBlob(hash: string) // reading `uploads_dir/hash` failed

  /** Where `store_file` can fail: creating or writing the blob, or the file
      table lookup or insert that follows it. */
  datatype StoreFault = Healthy | BlobWriteFails | FileTableFails

  /** Where `create_submission_with_files` can fail: the submission insert,
      the store step of file `at`, or the id lookup or attachment insert of
      file `at`. */
  datatype SubmissionFault =
    | NoFault
    | RowInsertFails
    | StoreFails(at: nat, kind: StoreFault)
    | AttachmentFails(at: nat)

  function StoreFaultAt(fault: SubmissionFault, i: nat): StoreFault {
    if fault.StoreFails? && fault.at == i then fault.kind else Healthy
  }

  /** How many of `n` files get an attachment before the fault stops the
      loop (all `n` when it does not strike). */
  function AttachedCount(fault: SubmissionFault, n: nat): (k: nat)
    ensures k <= n
  {
    match fault
    case StoreFails(at, kind) => if at < n && kind != Healthy then at else n
    case AttachmentFails(at) => if at < n then at else n
    case _ => n
  }

  /** How many files the file table has seen registered. */
  function RegisteredCount(fault: SubmissionFault, n: nat): (k: nat)
    ensures k <= n
  {
    if fault.AttachmentFails? && fault.at < n then fault.at + 1 else AttachedCount(fault, n)
  }

  /** How many blobs got written. */
  function WrittenCount(fault: SubmissionFault, n: nat): (k: nat)
    ensures k <= n
  {
    if fault.StoreFails? && fault.at < n && fault.kind == FileTableFails then fault.at + 1
    else RegisteredCount(fault, n)
  }

  /** The whole persistent state, for saying what an operation leaves alone. */
  datatype Snapshot = Snapshot(
    problems: seq<Problem>, files: seq<FileInfo>, submissions: seq<SubmissionRow>,
    attachments: seq<Attachment>, feedbacks: seq<FeedbackRow>,
    lastProblemId: int, lastFileId: int, lastSubmissionId: int, lastFeedbackId: int,
    uploads: map<string, Bytes>)

  /** Every blob is filed under the hash of its own bytes. */
  ghost predicate ContentAddressed(sha256: Bytes -> Digest, dir: map<string, Bytes>) {
    forall h :: h in dir ==> ContentHash(sha256, dir[h]) == h
  }

  /** Every file row has its blob on disk. */
  ghost predicate FilesOnDisk(files: seq<FileInfo>, dir: map<string, Bytes>) {
    forall i :: 0 <= i < |files| ==> files[i].hash in dir
  }

  /** Every attachment refers to an existing submission and file. */
  ghost predicate AttachmentsResolve(atts: seq<Attachment>, submissions: nat, files: nat) {
    forall i :: 0 <= i < |atts| ==>
      1 <= atts[i].submission <= submissions && 1 <= atts[i].file <= files
  }

  /** The store's invariant: ids 1..n with each counter at its table's last
      id; one file row per hash; every file row's blob on disk and every
      blob named by the hash of its own bytes; attachments referring to
      existing submissions and files. */
  ghost predicate Inv(sha256: Bytes -> Digest, s: Snapshot) {
    && DenseIds(s.problems, ProblemKey) && s.lastProblemId == |s.problems|
    && DenseIds(s.files, FileKey) && s.lastFileId == |s.files|
    && DenseIds(s.submissions, SubmissionKey) && s.lastSubmissionId == |s.submissions|
    && DenseIds(s.feedbacks, FeedbackKey) && s.lastFeedbackId == |s.feedbacks|
    && UniqueHashes(s.files)
    && FilesOnDisk(s.files, s.uploads)
    && ContentAddressed(sha256, s.uploads)
    && AttachmentsResolve(s.attachments, |s.submissions|, |s.files|)
  }

  /** The state `store_file` leaves: the blob written (unless that failed),
      then a file row appended when no row has the hash yet (unless the file
      table failed). */
  function AfterStore(sha256: Bytes -> Digest, s: Snapshot, name: string, content: Bytes, fault: StoreFault): Snapshot {
    var hash := ContentHash(sha256, content);
    if fault == BlobWriteFails then s
    else
      var written := s.(uploads := s.uploads[hash := content]);
      if fault == FileTableFails then written
      else
        var registered := Registered(s.files, name, hash);
        written.(files := registered, lastFileId := |registered|)
  }

  /** Storing, however far it gets, keeps the invariant; when it gets
      through, the blob sits under its hash and exactly one row names it. */
  lemma StoreKeepsInv(sha256: Bytes -> Digest, s: Snapshot, name: string, content: Bytes, fault: StoreFault)
    requires Inv(sha256, s)
    ensures var s' := AfterStore(sha256, s, name, content, fault);
      && Inv(sha256, s')
      && s'.problems == s.problems && s'.submissions == s.submissions
      && s'.attachments == s.attachments && s'.feedbacks == s.feedbacks
      && |s.files| <= |s'.files| && s'.files[..|s.files|] == s.files
      && (fault != BlobWriteFails ==> s'.uploads == s.uploads[ContentHash(sha256, content) := content])
      && (fault == Healthy ==> Find(s'.files, HashKey, ContentHash(sha256, content)).Some?)
  {
    var hash := ContentHash(sha256, content);
    if fault != BlobWriteFails {
      var dir := s.uploads[hash := content];
      assert ContentAddressed(sha256, dir);
      if fault == Healthy {
        var registered := Registered(s.files, name, hash);
        RegisteredInvariant(s.files, name, hash);
        assert FilesOnDisk(registered, dir) by {
          forall i | 0 <= i < |registered|
            ensures registered[i].hash in dir
          {
            if i < |s.files| {
              assert registered[i] == s.files[i];
            }
          }
        }
      } else {
        assert s.files[..|s.files|] == s.files;
      }
    } else {
      assert s.files[..|s.files|] == s.files;
    }
  }

  /** Storing the same content a second time, under any name, rewrites the
      same blob and adds no row. */
  lemma StoreTwiceSameState(sha256: Bytes -> Digest, s: Snapshot, first: string, second: string, content: Bytes)
    ensures var once := AfterStore(sha256, s, first, content, Healthy);
      AfterStore(sha256, once, second, content, Healthy) == once
  {
    var hash := ContentHash(sha256, content);
    FirstNameKept(s.files, first, second, hash);
    var once := AfterStore(sha256, s, first, content, Healthy);
    assert once.uploads[hash := content] == once.uploads;
  }

  /** The (name, hash) pairs a batch of uploads registers. The ensures only
      index the definition, for the proofs below. */
  function NamedUploads(sha256: Bytes -> Digest, ups: seq<(string, Bytes)>): (named: seq<(string, string)>)
    ensures |named| == |ups|
    ensures forall i :: 0 <= i < |ups| ==> named[i] == (ups[i].0, ContentHash(sha256, ups[i].1))
  {
    seq(|ups|, i requires 0 <= i < |ups| => (ups[i].0, ContentHash(sha256, ups[i].1)))
  }

  /** The uploads directory after writing the blobs of a batch in order. */
  function WriteAll(sha256: Bytes -> Digest, dir: map<string, Bytes>, ups: seq<(string, Bytes)>): map<string, Bytes> {
    if ups == [] then dir
    else
      var last := ups[|ups| - 1];
      WriteAll(sha256, dir, ups[..|ups| - 1])[ContentHash(sha256, last.1) := last.1]
  }

  /** `SELECT id FROM file WHERE hash = ?`: the id of the row with the hash
      (0 when there is none, which a store that just succeeded rules out). */
  function FileIdOf(files: seq<FileInfo>, hash: string): int {
    match Find(files, HashKey, hash)
    case Some(f) => f.id
    case None => 0
  }

  /** The attachment rows of submission `sid` for a batch of (name, hash)
      pairs, in batch order: each names the row of the file table holding
      its hash. The ensures only index the definition; what the rows mean
      is `AttachmentsForResolve` and `JoinAttachmentsFor`. */
  function AttachmentsFor(sid: int, files: seq<FileInfo>, named: seq<(string, string)>): (atts: seq<Attachment>)
    ensures |atts| == |named|
    ensures forall i :: 0 <= i < |named| ==> atts[i] == Attachment(sid, FileIdOf(files, named[i].1))
  {
    seq(|named|, i requires 0 <= i < |named| => Attachment(sid, FileIdOf(files, named[i].1)))
  }

  /** The state of the file loop of `create_submission_with_files` for
      submission `sid` once the first `registered` files of the batch are
      in the file table, the first `written` blobs are on disk and the
      first `attached` files are attached to `sid`. */
  function Filed(sha256: Bytes -> Digest, s: Snapshot, sid: int, ups: seq<(string, Bytes)>,
                 registered: nat, written: nat, attached: nat): Snapshot
    requires attached <= registered <= |ups| && written <= |ups|
  {
    var named := NamedUploads(sha256, ups);
    var files := RegisterAll(s.files, named[..registered]);
    s.(files := files, lastFileId := |files|,
       uploads := WriteAll(sha256, s.uploads, ups[..written]),
       attachments := s.attachments + AttachmentsFor(sid, files, named[..attached]))
  }

  /** The state right after the submission insert. */
  function Inserted(s: Snapshot, problem: int, comment: string): Snapshot {
    var sid := |s.submissions| + 1;
    s.(submissions := s.submissions + [SubmissionRow(sid, comment, problem)], lastSubmissionId := sid)
  }

  /** The state `create_submission_with_files` leaves: nothing when the
      submission insert fails; otherwise the submission row, the files up
      to the fault registered, their blobs written and attached in input
      order, plus whatever the failing step did before it failed. */
  function AfterSubmit(sha256: Bytes -> Digest, s: Snapshot, problem: int, comment: string,
                       ups: seq<(string, Bytes)>, fault: SubmissionFault): Snapshot
  {
    if fault == RowInsertFails then s
    else
      Filed(sha256, Inserted(s, problem, comment), |s.submissions| + 1, ups,
            RegisteredCount(fault, |ups|), WrittenCount(fault, |ups|), AttachedCount(fault, |ups|))
  }

  /** What `create_submission_with_files` returns. */
  function SubmitOutcome(s: Snapshot, ups: seq<(string, Bytes)>, fault: SubmissionFault): Result<int, DbError> {
    if fault == RowInsertFails || AttachedCount(fault, |ups|) < |ups| then Err(StorageFailure)
    else Ok(|s.submissions| + 1)
  }

  lemma FileIdOfFound(files: seq<FileInfo>, hash: string)
    requires DenseIds(files, FileKey)
    requires Find(files, HashKey, hash).Some?
    ensures 1 <= FileIdOf(files, hash) <= |files|
    ensures files[FileIdOf(files, hash) - 1].hash == hash
  {
    var f := Find(files, HashKey, hash).value;
    var i :| 0 <= i < |files| && files[i] == f;
    assert FileKey(files[i]) == i + 1;
  }

  lemma {:induction false} AttachmentsForStable(sid: int, files: seq<FileInfo>, more: seq<FileInfo>, named: seq<(string, string)>)
    requires forall i :: 0 <= i < |named| ==> Find(files, HashKey, named[i].1).Some?
    ensures AttachmentsFor(sid, files + more, named) == AttachmentsFor(sid, files, named)
  {
    forall i | 0 <= i < |named|
      ensures FileIdOf(files + more, named[i].1) == FileIdOf(files, named[i].1)
    {
      FindStable(files, more, HashKey, named[i].1);
    }
  }

  /** Before the loop: nothing registered, written or attached yet. */
  lemma FiledStart(sha256: Bytes -> Digest, s: Snapshot, sid: int, ups: seq<(string, Bytes)>)
    requires s.lastFileId == |s.files|
    ensures Filed(sha256, s, sid, ups, 0, 0, 0) == s
  {
    assert s.attachments + [] == s.attachments;
  }

  /** The store step of pass i: a failed blob write changes nothing, a
      failed file table step leaves blob i written, and a success also
      registers file i. */
  lemma FiledStore(sha256: Bytes -> Digest, s: Snapshot, sid: int, ups: seq<(string, Bytes)>, i: nat, kind: StoreFault)
    requires i < |ups|
    ensures AfterStore(sha256, Filed(sha256, s, sid, ups, i, i, i), ups[i].0, ups[i].1, kind) ==
      match kind
      case BlobWriteFails => Filed(sha256, s, sid, ups, i, i, i)
      case FileTableFails => Filed(sha256, s, sid, ups, i, i + 1, i)
      case Healthy => Filed(sha256, s, sid, ups, i + 1, i + 1, i)
  {
    var named := NamedUploads(sha256, ups);
    assert named[..i + 1][..i] == named[..i];
    assert ups[..i + 1][..i] == ups[..i];
    assert ups[..i + 1][i] == ups[i];
    if kind == Healthy {
      var before := RegisterAll(s.files, named[..i]);
      var after := RegisterAll(s.files, named[..i + 1]);
      assert after == Registered(before, ups[i].0, ContentHash(sha256, ups[i].1));
      RegisterAllFinds(s.files, named[..i]);
      assert after == before + after[|before|..];
      AttachmentsForStable(sid, before, after[|before|..], named[..i]);
    }
  }

  /** The attach step of pass i appends the attachment of file i. */
  lemma FiledAttach(sha256: Bytes -> Digest, s: Snapshot, sid: int, ups: seq<(string, Bytes)>, i: nat)
    requires i < |ups|
    ensures var f := Filed(sha256, s, sid, ups, i + 1, i + 1, i);
      f.(attachments := f.attachments + [Attachment(sid, FileIdOf(f.files, ContentHash(sha256, ups[i].1)))]) ==
      Filed(sha256, s, sid, ups, i + 1, i + 1, i + 1)
  {
    var named := NamedUploads(sha256, ups);
    var files := RegisterAll(s.files, named[..i + 1]);
    assert named[..i + 1] == named[..i] + [named[i]];
    assert AttachmentsFor(sid, files, named[..i + 1]) ==
           AttachmentsFor(sid, files, named[..i]) + [Attachment(sid, FileIdOf(files, named[i].1))];
  }

  /** Writing a batch keeps every blob named by its hash. */
  lemma {:induction false} WriteAllAddressed(sha256: Bytes -> Digest, dir: map<string, Bytes>, ups: seq<(string, Bytes)>)
    requires ContentAddressed(sha256, dir)
    ensures ContentAddressed(sha256, WriteAll(sha256, dir, ups))
  {
    if ups != [] {
      WriteAllAddressed(sha256, dir, ups[..|ups| - 1]);
    }
  }

  /** Writing a batch keeps every blob already there and leaves each file
      of the batch on disk. */
  lemma {:induction false} WriteAllHolds(sha256: Bytes -> Digest, dir: map<string, Bytes>, ups: seq<(string, Bytes)>)
    ensures forall h :: h in dir ==> h in WriteAll(sha256, dir, ups)
    ensures forall i :: 0 <= i < |ups| ==> ContentHash(sha256, ups[i].1) in WriteAll(sha256, dir, ups)
  {
    if ups != [] {
      var init := ups[..|ups| - 1];
      WriteAllHolds(sha256, dir, init);
      forall i | 0 <= i < |init| ensures ContentHash(sha256, ups[i].1) in WriteAll(sha256, dir, ups) {
        assert init[i] == ups[i];
      }
    }
  }

  /** Registering only hashes whose blobs are on disk keeps every file row's
      blob on disk. */
  lemma {:induction false} RegisterAllOnDisk(files: seq<FileInfo>, named: seq<(string, string)>, dir: map<string, Bytes>)
    requires FilesOnDisk(files, dir)
    requires forall j :: 0 <= j < |named| ==> named[j].1 in dir
    ensures FilesOnDisk(RegisterAll(files, named), dir)
  {
    if named != [] {
      var init := named[..|named| - 1];
      var last := named[|named| - 1];
      forall j | 0 <= j < |init| ensures init[j].1 in dir {
        assert init[j] == named[j];
      }
      RegisterAllOnDisk(files, init, dir);
      var r0 := RegisterAll(files, init);
      var r := Registered(r0, last.0, last.1);
      forall i | 0 <= i < |r| ensures r[i].hash in dir {
        if i < |r0| {
          assert r[i] == r0[i];
        }
      }
    }
  }

  /** The file table and the uploads directory part of the loop state:
      registering the first `registered` uploads after writing the first
      `written` blobs keeps ids dense, hashes unique, every row's blob on
      disk and every blob named by its hash, and leaves a row for each
      registered upload. */
  lemma FiledStorage(sha256: Bytes -> Digest, s: Snapshot, ups: seq<(string, Bytes)>, registered: nat, written: nat)
    requires DenseIds(s.files, FileKey) && UniqueHashes(s.files)
    requires FilesOnDisk(s.files, s.uploads) && ContentAddressed(sha256, s.uploads)
    requires registered <= written <= |ups|
    ensures var reg := NamedUploads(sha256, ups)[..registered];
      var files := RegisterAll(s.files, reg);
      var dir := WriteAll(sha256, s.uploads, ups[..written]);
      && DenseIds(files, FileKey) && UniqueHashes(files) && |s.files| <= |files|
      && FilesOnDisk(files, dir) && ContentAddressed(sha256, dir)
      && forall i :: 0 <= i < |reg| ==> Find(files, HashKey, reg[i].1).Some?
  {
    var named := NamedUploads(sha256, ups);
    var reg := named[..registered];
    var dir := WriteAll(sha256, s.uploads, ups[..written]);
    RegisterAllInvariant(s.files, reg);
    WriteAllAddressed(sha256, s.uploads, ups[..written]);
    WriteAllHolds(sha256, s.uploads, ups[..written]);
    assert FilesOnDisk(s.files, dir);
    forall j | 0 <= j < |reg| ensures reg[j].1 in dir {
      assert ups[..written][j] == ups[j];
    }
    RegisterAllOnDisk(s.files, reg, dir);
    RegisterAllFinds(s.files, reg);
  }

  /** Attachments of an existing submission to hashes the file table holds
      keep every attachment resolving. */
  lemma NewAttachmentsResolve(sid: int, atts: seq<Attachment>, submissions: nat, before: nat,
                              files: seq<FileInfo>, named: seq<(string, string)>)
    requires DenseIds(files, FileKey) && before <= |files|
    requires 1 <= sid <= submissions
    requires AttachmentsResolve(atts, submissions, before)
    requires forall i :: 0 <= i < |named| ==> Find(files, HashKey, named[i].1).Some?
    ensures AttachmentsResolve(atts + AttachmentsFor(sid, files, named), submissions, |files|)
  {
    var added := AttachmentsFor(sid, files, named);
    forall i | 0 <= i < |added| ensures 1 <= added[i].file <= |files| {
      FileIdOfFound(files, named[i].1);
    }
    forall i | 0 <= i < |atts + added|
      ensures 1 <= (atts + added)[i].submission <= submissions
      ensures 1 <= (atts + added)[i].file <= |files|
    {
      if i < |atts| {
        assert (atts + added)[i] == atts[i];
      } else {
        assert (atts + added)[i] == added[i - |atts|];
      }
    }
  }

  /** Any point of the file loop for an existing submission satisfies the
      invariant, as long as no file is registered before its blob is
      written and none is attached before it is registered. */
  lemma FiledInv(sha256: Bytes -> Digest, s: Snapshot, sid: int, ups: seq<(string, Bytes)>,
                 registered: nat, written: nat, attached: nat)
    requires Inv(sha256, s)
    requires 1 <= sid <= |s.submissions|
    requires attached <= registered <= written <= |ups|
    ensures Inv(sha256, Filed(sha256, s, sid, ups, registered, written, attached))
  {
    var named := NamedUploads(sha256, ups);
    var reg := named[..registered];
    var files := RegisterAll(s.files, reg);
    var dir := WriteAll(sha256, s.uploads, ups[..written]);
    var s' := Filed(sha256, s, sid, ups, registered, written, attached);
    FiledStorage(sha256, s, ups, registered, written);
    forall i | 0 <= i < attached ensures Find(files, HashKey, named[..attached][i].1).Some? {
      assert named[..attached][i] == reg[i];
    }
    NewAttachmentsResolve(sid, s.attachments, |s.submissions|, |s.files|, files, named[..attached]);
    assert s' == s.(files := files, lastFileId := |files|, uploads := dir,
                    attachments := s.attachments + AttachmentsFor(sid, files, named[..attached]));
  }

  /** The insert of `create_submission_with_files` keeps the invariant. */
  lemma InsertedInv(sha256: Bytes -> Digest, s: Snapshot, problem: int, comment: string)
    requires Inv(sha256, s)
    ensures Inv(sha256, Inserted(s, problem, comment))
  {
    var s' := Inserted(s, problem, comment);
    assert DenseIds(s'.submissions, SubmissionKey) by {
      forall i | 0 <= i < |s'.submissions| ensures SubmissionKey(s'.submissions[i]) == i + 1 {
        if i < |s.submissions| {
          assert s'.submissions[i] == s.submissions[i];
        }
      }
    }
  }

  /** `create_submission_with_files`, however far it gets, keeps the
      invariant, and leaves the problem and feedback tables alone. Unless
      the very first insert fails, the submission row is in place before
      any file, and stays even if a later step fails. */
  lemma SubmitKeepsInv(sha256: Bytes -> Digest, s: Snapshot, problem: int, comment: string,
                       ups: seq<(string, Bytes)>, fault: SubmissionFault)
    requires Inv(sha256, s)
    ensures var s' := AfterSubmit(sha256, s, problem, comment, ups, fault);
      && Inv(sha256, s')
      && s'.problems == s.problems && s'.feedbacks == s.feedbacks
      && (fault == RowInsertFails ==> s' == s)
      && (fault != RowInsertFails ==>
            s'.submissions == s.submissions + [SubmissionRow(|s.submissions| + 1, comment, problem)])
  {
    if fault != RowInsertFails {
      InsertedInv(sha256, s, problem, comment);
      FiledInv(sha256, Inserted(s, problem, comment), |s.submissions| + 1, ups,
               RegisteredCount(fault, |ups|), WrittenCount(fault, |ups|), AttachedCount(fault, |ups|));
    }
  }

  /** Attachment i of a batch belongs to `sid` and names the file row
      holding hash i, as long as every hash of the batch has a row. */
  lemma AttachmentsForResolve(sid: int, files: seq<FileInfo>, named: seq<(string, string)>)
    requires DenseIds(files, FileKey)
    requires forall i :: 0 <= i < |named| ==> Find(files, HashKey, named[i].1).Some?
    ensures forall i :: 0 <= i < |named| ==>
      var a := AttachmentsFor(sid, files, named)[i];
      && a.submission == sid
      && 1 <= a.file <= |files|
      && files[a.file - 1].hash == named[i].1
  {
    forall i | 0 <= i < |named| {
      FileIdOfFound(files, named[i].1);
    }
  }

  /** The join of a batch's attachments gives one row per file of the batch,
      in batch order, each the row holding that file's hash. */
  lemma JoinAttachmentsFor(sid: int, files: seq<FileInfo>, named: seq<(string, string)>)
    requires DenseIds(files, FileKey)
    requires forall i :: 0 <= i < |named| ==> Find(files, HashKey, named[i].1).Some?
    ensures var joined := JoinFiles(files, AttachmentsFor(sid, files, named), sid);
      && |joined| == |named|
      && forall i :: 0 <= i < |named| ==> joined[i].hash == named[i].1
  {
    var added := AttachmentsFor(sid, files, named);
    AttachmentsForResolve(sid, files, named);
    AttachmentsOfOwn(added, sid);
    JoinFilesPerAttachment(files, added, sid);
  }

  /** At any point of the file loop the attachments are the old ones plus
      one per attached file of the batch, and every attached file's hash
      has a row. */
  lemma FiledAttachments(sha256: Bytes -> Digest, s: Snapshot, sid: int, ups: seq<(string, Bytes)>,
                         registered: nat, written: nat, attached: nat)
    requires DenseIds(s.files, FileKey) && UniqueHashes(s.files)
    requires attached <= registered <= |ups| && written <= |ups|
    ensures var f := Filed(sha256, s, sid, ups, registered, written, attached);
      var named := NamedUploads(sha256, ups)[..attached];
      && f.attachments == s.attachments + AttachmentsFor(sid, f.files, named)
      && DenseIds(f.files, FileKey)
      && forall i :: 0 <= i < |named| ==> Find(f.files, HashKey, named[i].1).Some?
  {
    var all := NamedUploads(sha256, ups);
    var reg := all[..registered];
    RegisterAllInvariant(s.files, reg);
    RegisterAllFinds(s.files, reg);
    forall i | 0 <= i < attached ensures all[..attached][i] == reg[i] {
    }
  }

  /** `after` holds the attachments `base` followed by `k` new ones, and
      new attachment i belongs to `sid` and names the file row of `after`
      holding the hash of upload i. */
  ghost predicate AttachesInOrder(sha256: Bytes -> Digest, base: seq<Attachment>, after: Snapshot,
                                  sid: int, ups: seq<(string, Bytes)>, k: nat)
    requires k <= |ups|
  {
    && |after.attachments| == |base| + k
    && after.attachments[..|base|] == base
    && forall i :: 0 <= i < k ==>
         var a := after.attachments[|base| + i];
         && a.submission == sid
         && 1 <= a.file <= |after.files|
         && after.files[a.file - 1].hash == ContentHash(sha256, ups[i].1)
  }

  /** At any point of the file loop, attachment i of the new ones belongs
      to `sid` and names the file row holding the hash of file i, and the
      attachments that were there before are untouched. */
  lemma FiledAttachesInOrder(sha256: Bytes -> Digest, s: Snapshot, sid: int, ups: seq<(string, Bytes)>,
                             registered: nat, written: nat, attached: nat)
    requires DenseIds(s.files, FileKey) && UniqueHashes(s.files)
    requires attached <= registered <= |ups| && written <= |ups|
    ensures AttachesInOrder(sha256, s.attachments, Filed(sha256, s, sid, ups, registered, written, attached),
                            sid, ups, attached)
  {
    var f := Filed(sha256, s, sid, ups, registered, written, attached);
    FiledAttachments(sha256, s, sid, ups, registered, written, attached);
    var named := NamedUploads(sha256, ups)[..attached];
    var added := AttachmentsFor(sid, f.files, named);
    AttachmentsForResolve(sid, f.files, named);
    assert f.attachments[..|s.attachments|] == s.attachments;
    forall i | 0 <= i < attached
      ensures f.attachments[|s.attachments| + i] == added[i]
      ensures named[i].1 == ContentHash(sha256, ups[i].1)
    {
    }
  }

  /** Up to the fault, the new attachments are the files of the batch in
      input order, repeats included: attachment i belongs to the new
      submission and names the file row holding the hash of file i. The
      attachments that were there before are untouched. */
  lemma SubmitAttachesInOrder(sha256: Bytes -> Digest, s: Snapshot, problem: int, comment: string,
                              ups: seq<(string, Bytes)>, fault: SubmissionFault)
    requires DenseIds(s.files, FileKey) && UniqueHashes(s.files)
    requires fault != RowInsertFails
    ensures AttachesInOrder(sha256, s.attachments, AfterSubmit(sha256, s, problem, comment, ups, fault),
                            |s.submissions| + 1, ups, AttachedCount(fault, |ups|))
  {
    var inserted := Inserted(s, problem, comment);
    FiledAttachesInOrder(sha256, inserted, |s.submissions| + 1, ups,
                         RegisteredCount(fault, |ups|), WrittenCount(fault, |ups|), AttachedCount(fault, |ups|));
  }

  /** When `create_submission_with_files` succeeds, the new submission's
      files, as the join returns them, are one entry per uploaded file in
      upload order, each the row holding that file's hash: repeated
      content gives repeated entries. */
  lemma SubmittedFilesJoin(sha256: Bytes -> Digest, s: Snapshot, problem: int, comment: string,
                           ups: seq<(string, Bytes)>, fault: SubmissionFault)
    requires Inv(sha256, s)
    requires SubmitOutcome(s, ups, fault).Ok?
    ensures var s' := AfterSubmit(sha256, s, problem, comment, ups, fault);
      var joined := JoinFiles(s'.files, s'.attachments, SubmitOutcome(s, ups, fault).value);
      && |joined| == |ups|
      && forall i :: 0 <= i < |ups| ==> joined[i].hash == ContentHash(sha256, ups[i].1)
  {
    var sid := |s.submissions| + 1;
    var n := |ups|;
    var inserted := Inserted(s, problem, comment);
    var s' := AfterSubmit(sha256, s, problem, comment, ups, fault);
    FiledAttachments(sha256, inserted, sid, ups, n, n, n);
    var named := NamedUploads(sha256, ups)[..n];
    var added := AttachmentsFor(sid, s'.files, named);
    assert s'.attachments == s.attachments + added;
    JoinFilesAppend(s'.files, s.attachments, added, sid);
    JoinFilesOther(s'.files, s.attachments, sid);
    JoinAttachmentsFor(sid, s'.files, named);
  }

  /** Every submission names an existing problem and every feedback an
      existing submission. The store does not check this (SQLite leaves
      foreign keys unenforced unless asked); the handlers' guards keep it. */
  ghost predicate Referential(s: Snapshot) {
    && (forall i :: 0 <= i < |s.submissions| ==> 1 <= s.submissions[i].problem <= |s.problems|)
    && (forall i :: 0 <= i < |s.feedbacks| ==> 1 <= s.feedbacks[i].submission <= |s.submissions|)
  }

  /** Submitting to an existing problem keeps every reference resolving. */
  lemma GuardedSubmitKeepsRefs(sha256: Bytes -> Digest, s: Snapshot, problem: int, comment: string,
                               ups: seq<(string, Bytes)>, fault: SubmissionFault)
    requires Referential(s) && 1 <= problem <= |s.problems|
    ensures Referential(AfterSubmit(sha256, s, problem, comment, ups, fault))
  {
    if fault != RowInsertFails {
      var s' := AfterSubmit(sha256, s, problem, comment, ups, fault);
      var row := SubmissionRow(|s.submissions| + 1, comment, problem);
      assert s'.submissions == s.submissions + [row] && s'.problems == s.problems && s'.feedbacks == s.feedbacks;
      forall i | 0 <= i < |s'.submissions| ensures 1 <= s'.submissions[i].problem <= |s'.problems| {
        if i < |s.submissions| {
          assert s'.submissions[i] == s.submissions[i];
        }
      }
    }
  }

  /** A submission that was just created has no feedback yet. */
  lemma NewSubmissionUngraded(sha256: Bytes -> Digest, s: Snapshot, problem: int, comment: string,
                              ups: seq<(string, Bytes)>, fault: SubmissionFault)
    requires Referential(s)
    ensures FeedbacksOf(AfterSubmit(sha256, s, problem, comment, ups, fault).feedbacks, |s.submissions| + 1) == []
  {
    FeedbacksOfNone(s.feedbacks, |s.submissions| + 1);
  }

  /** A submission that went through reads back, hydrated from the new
      state, with its comment and problem, one file per upload in upload
      order carrying that upload's hash, and no feedback, so not accepted. */
  lemma SubmissionReadsBack(sha256: Bytes -> Digest, s: Snapshot, problem: int, comment: string,
                            ups: seq<(string, Bytes)>, fault: SubmissionFault)
    requires Inv(sha256, s) && Referential(s)
    requires SubmitOutcome(s, ups, fault).Ok?
    ensures var s' := AfterSubmit(sha256, s, problem, comment, ups, fault);
      var sid := |s.submissions| + 1;
      && |s'.submissions| == sid
      && var sub := Hydrated(s'.submissions[sid - 1], s'.files, s'.attachments, s'.feedbacks);
         && sub.id == sid && sub.comment == comment && sub.problem == problem
         && |sub.files| == |ups|
         && (forall i :: 0 <= i < |ups| ==> sub.files[i].hash == ContentHash(sha256, ups[i].1))
         && sub.status == SubmissionStatus(false, [])
  {
    SubmitKeepsInv(sha256, s, problem, comment, ups, fault);
    SubmittedFilesJoin(sha256, s, problem, comment, ups, fault);
    NewSubmissionUngraded(sha256, s, problem, comment, ups, fault);
    NoFeedbackNotAccepted();
  }

  /** The state `create_feedback` leaves: nothing on an invalid grade or a
      failed insert, otherwise one appended row with the next id, the
      message stored as "" when absent. */
  function AfterFeedback(s: Snapshot, sid: int, grade: int, message: Option<string>, insertFails: bool): Snapshot {
    if !ValidGrade(grade) || insertFails then s
    else
      var id := |s.feedbacks| + 1;
      s.(feedbacks := s.feedbacks + [FeedbackRow(id, sid, grade, message.GetOr(""))], lastFeedbackId := id)
  }

  function FeedbackOutcome(s: Snapshot, grade: int, insertFails: bool): Result<int, DbError> {
    if !ValidGrade(grade) then Err(InvalidGrade)
    else if insertFails then Err(StorageFailure)
    else Ok(|s.feedbacks| + 1)
  }

  /** Feedback is append-only: the invariant holds, earlier rows are
      untouched, the new row is the last of its submission's feedbacks,
      so it alone decides acceptance, and no other submission's feedback
      changes. */
  lemma FeedbackKeepsInv(sha256: Bytes -> Digest, s: Snapshot, sid: int, grade: int, message: Option<string>, insertFails: bool)
    requires Inv(sha256, s)
    ensures var s' := AfterFeedback(s, sid, grade, message, insertFails);
      && Inv(sha256, s')
      && |s.feedbacks| <= |s'.feedbacks| && s'.feedbacks[..|s.feedbacks|] == s.feedbacks
      && (FeedbackOutcome(s, grade, insertFails).Ok? ==>
            && FeedbacksOf(s'.feedbacks, sid) ==
                 FeedbacksOf(s.feedbacks, sid) + [Feedback(|s.feedbacks| + 1, grade, Some(message.GetOr("")))]
            && (DeriveStatus(FeedbacksOf(s'.feedbacks, sid)).accepted <==> grade == 1))
      && forall other :: other != sid ==> FeedbacksOf(s'.feedbacks, other) == FeedbacksOf(s.feedbacks, other)
  {
    var s' := AfterFeedback(s, sid, grade, message, insertFails);
    if FeedbackOutcome(s, grade, insertFails).Ok? {
      var row := FeedbackRow(|s.feedbacks| + 1, sid, grade, message.GetOr(""));
      assert s'.feedbacks[..|s.feedbacks|] == s.feedbacks;
      assert DenseIds(s'.feedbacks, FeedbackKey) by {
        forall i | 0 <= i < |s'.feedbacks| ensures FeedbackKey(s'.feedbacks[i]) == i + 1 {
          if i < |s.feedbacks| {
            assert s'.feedbacks[i] == s.feedbacks[i];
          }
        }
      }
      FeedbacksOfAppend(s.feedbacks, row, sid);
      forall other | other != sid
        ensures FeedbacksOf(s'.feedbacks, other) == FeedbacksOf(s.feedbacks, other)
      {
        FeedbacksOfAppend(s.feedbacks, row, other);
      }
    } else {
      assert s'.feedbacks[..|s.feedbacks|] == s.feedbacks;
    }
  }

  /** Feedback on an existing submission keeps every reference resolving. */
  lemma GuardedFeedbackKeepsRefs(s: Snapshot, sid: int, grade: int, message: Option<string>, insertFails: bool)
    requires Referential(s) && 1 <= sid <= |s.submissions|
    ensures Referential(AfterFeedback(s, sid, grade, message, insertFails))
  {
    var s' := AfterFeedback(s, sid, grade, message, insertFails);
    forall i | 0 <= i < |s'.feedbacks| ensures 1 <= s'.feedbacks[i].submission <= |s'.submissions| {
      if i < |s.feedbacks| {
        assert s'.feedbacks[i] == s.feedbacks[i];
      }
    }
  }
}

/** The frontend's `ApiService`: the per-problem statistics it computes from
    the problem and submission lists, the per-problem submission filter, and
    the multipart form `createSubmission` builds. */
module Frontend {
  import opened Wrappers
  import opened Bytes
  import opened Records
  import opened Multipart
  import Utf8

  /** A problem with its spread fields and the two computed ones. */
  datatype ProblemWithStats = ProblemWithStats(id: int, name: string, desc: string, attempts: nat, accepted: bool)

  /** `getSubmissionsForProblem`: `submissions.filter(s => s.problem === problemId)`. */
  function SubmissionsForProblem(subs: seq<Submission>, problemId: int): seq<Submission> {
    if subs == [] then []
    else
      var s := subs[|subs| - 1];
      SubmissionsForProblem(subs[..|subs| - 1], problemId) + (if s.problem == problemId then [s] else [])
  }

  /** `submissions.some(s => s.status.accepted)`. */
  function SomeAccepted(subs: seq<Submission>): bool {
    if subs == [] then false
    else SomeAccepted(subs[..|subs| - 1]) || subs[|subs| - 1].status.accepted
  }

  /** The entry `getProblemsWithStats` builds for one problem. */
  function WithStats(p: Problem, subs: seq<Submission>): ProblemWithStats {
    var mine := SubmissionsForProblem(subs, p.id);
    ProblemWithStats(p.id, p.name, p.desc, |mine|, SomeAccepted(mine))
  }

  /** `getProblemsWithStats`: one entry per problem, in the same order, with
      its id, name and desc unchanged. */
  function ProblemsWithStats(problems: seq<Problem>, subs: seq<Submission>): (r: seq<ProblemWithStats>)
    ensures |r| == |problems|
    ensures forall i :: 0 <= i < |r| ==>
      r[i].id == problems[i].id && r[i].name == problems[i].name && r[i].desc == problems[i].desc
  {
    seq(|problems|, i requires 0 <= i < |problems| => WithStats(problems[i], subs))
  }

  /** The filter keeps exactly the submissions for the problem. */
  lemma {:induction false} SubmissionsForProblemExact(subs: seq<Submission>, problemId: int)
    ensures forall s :: s in SubmissionsForProblem(subs, problemId) <==> s in subs && s.problem == problemId
  {
    if subs != [] {
      var init := subs[..|subs| - 1];
      SubmissionsForProblemExact(init, problemId);
      assert subs == init + [subs[|subs| - 1]];
    }
  }

  /** The filter keeps the order `getSubmissions` gave: filtering two
      consecutive stretches filters each in turn. */
  lemma {:induction false} SubmissionsForProblemAppend(a: seq<Submission>, b: seq<Submission>, problemId: int)
    ensures SubmissionsForProblem(a + b, problemId) ==
            SubmissionsForProblem(a, problemId) + SubmissionsForProblem(b, problemId)
  {
    if b == [] {
      assert a + b == a;
    } else {
      var b' := b[..|b| - 1];
      assert (a + b)[..|a + b| - 1] == a + b';
      SubmissionsForProblemAppend(a, b', problemId);
    }
  }

  /** The positions of the submissions for a problem. */
  function PositionsFor(subs: seq<Submission>, problemId: int): set<int> {
    set i | 0 <= i < |subs| && subs[i].problem == problemId
  }

  /** `attempts` is the number of submissions for the problem. */
  lemma {:induction false} AttemptsCount(subs: seq<Submission>, problemId: int)
    ensures |SubmissionsForProblem(subs, problemId)| == |PositionsFor(subs, problemId)|
  {
    if subs != [] {
      var n := |subs| - 1;
      var init := subs[..n];
      AttemptsCount(init, problemId);
      var before := PositionsFor(init, problemId);
      var after := PositionsFor(subs, problemId);
      assert n !in before;
      if subs[n].problem == problemId {
        assert after == before + {n};
      } else {
        assert after == before;
      }
    }
  }

  /** `some` holds exactly when one of the submissions is accepted. */
  lemma {:induction false} SomeAcceptedExists(subs: seq<Submission>)
    ensures SomeAccepted(subs) <==> exists i :: 0 <= i < |subs| && subs[i].status.accepted
  {
    if subs != [] {
      var init := subs[..|subs| - 1];
      SomeAcceptedExists(init);
      assert forall i :: 0 <= i < |init| ==> init[i] == subs[i];
    }
  }

  /** A problem counts as accepted exactly when some submission for it is
      accepted. */
  lemma AcceptedIffSomeSubmission(p: Problem, subs: seq<Submission>)
    ensures WithStats(p, subs).accepted <==>
      exists i :: 0 <= i < |subs| && subs[i].problem == p.id && subs[i].status.accepted
  {
    var mine := SubmissionsForProblem(subs, p.id);
    SomeAcceptedExists(mine);
    SubmissionsForProblemExact(subs, p.id);
    if WithStats(p, subs).accepted {
      var j :| 0 <= j < |mine| && mine[j].status.accepted;
      assert mine[j] in mine;
      var i :| 0 <= i < |subs| && subs[i] == mine[j];
    }
    if exists i :: 0 <= i < |subs| && subs[i].problem == p.id && subs[i].status.accepted {
      var i :| 0 <= i < |subs| && subs[i].problem == p.id && subs[i].status.accepted;
      assert subs[i] in subs;
      assert subs[i] in mine;
      var j :| 0 <= j < |mine| && mine[j] == subs[i];
    }
  }

  /** A problem nobody submitted to has no attempts and is not accepted. */
  lemma UnattemptedProblem(p: Problem, subs: seq<Submission>)
    requires forall i :: 0 <= i < |subs| ==> subs[i].problem != p.id
    ensures WithStats(p, subs).attempts == 0 && !WithStats(p, subs).accepted
  {
    AttemptsCount(subs, p.id);
    assert PositionsFor(subs, p.id) == {};
    AcceptedIffSomeSubmission(p, subs);
  }

  /** `${index}` for a non-negative index. */
  function Decimal(n: nat): (s: string)
    ensures |s| >= 1
    ensures forall i :: 0 <= i < |s| ==> '0' <= s[i] <= '9'
  {
    var d := ('0' as int + n % 10) as char;
    if n < 10 then [d] else Decimal(n / 10) + [d]
  }

  /** Different indexes give different field names. */
  lemma {:induction false} DecimalInjective(m: nat, n: nat)
    requires Decimal(m) == Decimal(n)
    ensures m == n
  {
    if m >= 10 && n >= 10 {
      var dm := Decimal(m);
      assert dm[..|dm| - 1] == Decimal(m / 10);
      assert Decimal(n)[..|Decimal(n)| - 1] == Decimal(n / 10);
      DecimalInjective(m / 10, n / 10);
    }
  }

  /** The field name of file `index`. */
  function FileFieldName(index: nat): string {
    "file" + Decimal(index)
  }

  /** Different indexes give different field names. */
  lemma FileFieldNameInjective(i: nat, j: nat)
    requires FileFieldName(i) == FileFieldName(j)
    ensures i == j
  {
    assert FileFieldName(i)[4..] == Decimal(i);
    assert FileFieldName(j)[4..] == Decimal(j);
    DecimalInjective(i, j);
  }

  /** Line breaks as the multipart/form-data encoding of section 4.10.21.8
      of the WHATWG HTML standard leaves them in a text value: every CR is
      followed by an LF and every LF follows a CR. */
  predicate CrlfLineBreaks(t: string) {
    forall i :: 0 <= i < |t| ==> CrlfAt(t, i)
  }

  /** The character at `i` is no bare CR and no bare LF. */
  predicate CrlfAt(t: string, i: int)
    requires 0 <= i < |t|
  {
    && (t[i] == '\r' ==> i + 1 < |t| && t[i + 1] == '\n')
    && (t[i] == '\n' ==> 0 < i && t[i - 1] == '\r')
  }

  /** The newline normalisation that encoding applies to a text value: a
      CR not followed by an LF, and an LF not preceded by a CR, each become
      CR LF. A textarea's value breaks lines with a bare LF, so a multi-line
      comment arrives with CR LF breaks. */
  function NormalizeNewlines(s: string): string
    decreases |s|
  {
    if s == [] then []
    else if s[0] == '\r' && 1 < |s| && s[1] == '\n' then "\r\n" + NormalizeNewlines(s[2..])
    else if s[0] == '\r' || s[0] == '\n' then "\r\n" + NormalizeNewlines(s[1..])
    else [s[0]] + NormalizeNewlines(s[1..])
  }

  lemma CrlfLineBreaksConcat(p: string, t: string)
    requires CrlfLineBreaks(p) && CrlfLineBreaks(t)
    ensures CrlfLineBreaks(p + t)
  {
    var pt := p + t;
    forall k | 0 <= k < |pt| ensures CrlfAt(pt, k) {
      if k < |p| {
        assert CrlfAt(p, k);
        assert pt[k] == p[k];
        if k + 1 < |p| { assert pt[k + 1] == p[k + 1]; }
        if 0 < k { assert pt[k - 1] == p[k - 1]; }
      } else {
        var j := k - |p|;
        assert CrlfAt(t, j);
        assert pt[k] == t[j];
        if j + 1 < |t| { assert pt[k + 1] == t[j + 1]; }
        if 0 < j { assert pt[k - 1] == t[j - 1]; }
      }
    }
  }

  /** After normalisation every line break is CR LF. */
  lemma {:induction false} NormalizedCrlf(s: string)
    ensures CrlfLineBreaks(NormalizeNewlines(s))
    decreases |s|
  {
    if s != [] {
      assert CrlfAt("\r\n", 0) && CrlfAt("\r\n", 1);
      if s[0] == '\r' && 1 < |s| && s[1] == '\n' {
        NormalizedCrlf(s[2..]);
        CrlfLineBreaksConcat("\r\n", NormalizeNewlines(s[2..]));
      } else if s[0] == '\r' || s[0] == '\n' {
        NormalizedCrlf(s[1..]);
        CrlfLineBreaksConcat("\r\n", NormalizeNewlines(s[1..]));
      } else {
        assert CrlfAt([s[0]], 0);
        NormalizedCrlf(s[1..]);
        CrlfLineBreaksConcat([s[0]], NormalizeNewlines(s[1..]));
      }
    }
  }

  /** A suffix that does not start right after a CR keeps CR LF breaks. */
  lemma CrlfLineBreaksSuffix(s: string, k: nat)
    requires CrlfLineBreaks(s) && k <= |s|
    requires 0 < k ==> s[k - 1] != '\r'
    ensures CrlfLineBreaks(s[k..])
  {
    var t := s[k..];
    forall i | 0 <= i < |t| ensures CrlfAt(t, i) {
      assert CrlfAt(s, k + i);
      assert t[i] == s[k + i];
      if i + 1 < |t| { assert t[i + 1] == s[k + i + 1]; }
      if 0 < i { assert t[i - 1] == s[k + i - 1]; }
    }
  }

  /** Text whose breaks are already CR LF is sent unchanged. */
  lemma {:induction false} CrlfUnchanged(s: string)
    requires CrlfLineBreaks(s)
    ensures NormalizeNewlines(s) == s
    decreases |s|
  {
    if s != [] {
      assert CrlfAt(s, 0);
      if s[0] == '\r' {
        CrlfLineBreaksSuffix(s, 2);
        CrlfUnchanged(s[2..]);
        assert s == "\r\n" + s[2..];
      } else {
        assert s[0] != '\n';
        CrlfLineBreaksSuffix(s, 1);
        CrlfUnchanged(s[1..]);
        assert s == [s[0]] + s[1..];
      }
    }
  }

  /** The comment arrives exactly as typed when, and only when, its line
      breaks are already CR LF; normalising twice is normalising once. */
  lemma NormalizeNewlinesFixes(s: string)
    ensures NormalizeNewlines(s) == s <==> CrlfLineBreaks(s)
    ensures NormalizeNewlines(NormalizeNewlines(s)) == NormalizeNewlines(s)
  {
    NormalizedCrlf(s);
    CrlfUnchanged(NormalizeNewlines(s));
    if CrlfLineBreaks(s) {
      CrlfUnchanged(s);
    }
  }

  /** A file name holding none of the three characters the browser
      escapes. */
  predicate QuoteSafe(t: string) {
    forall i :: 0 <= i < |t| ==> t[i] != '"' && t[i] != '\r' && t[i] != '\n'
  }

  /** A file name that reaches the backend unchanged: quote-safe and
      without a backslash. */
  predicate PlainFileName(t: string) {
    QuoteSafe(t) && forall i :: 0 <= i < |t| ==> t[i] != '\\'
  }

  /** The escape of the same encoding for one character of a file name. */
  function EscapeChar(c: char): string {
    if c == '"' then "%22" else if c == '\r' then "%0D" else if c == '\n' then "%0A" else [c]
  }

  /** The file name as the browser writes it between the quotes of the
      part's `Content-Disposition`: `"`, CR and LF percent-escaped, nothing
      else changed (a backslash is written as it is). */
  function EscapeFileName(s: string): string
    decreases |s|
  {
    if s == [] then [] else EscapeChar(s[0]) + EscapeFileName(s[1..])
  }

  /** An escaped name holds no `"`, CR or LF. */
  lemma {:induction false} EscapedQuoteSafe(s: string)
    ensures QuoteSafe(EscapeFileName(s))
    decreases |s|
  {
    if s != [] {
      EscapedQuoteSafe(s[1..]);
      var e := EscapeChar(s[0]);
      var rest := EscapeFileName(s[1..]);
      forall i | 0 <= i < |e + rest| ensures (e + rest)[i] != '"' && (e + rest)[i] != '\r' && (e + rest)[i] != '\n' {
        if i >= |e| {
          assert (e + rest)[i] == rest[i - |e|];
        }
      }
    }
  }

  /** A quote-safe name is written unchanged. */
  lemma {:induction false} QuoteSafeUnescaped(s: string)
    requires QuoteSafe(s)
    ensures EscapeFileName(s) == s
    decreases |s|
  {
    if s != [] {
      assert QuoteSafe(s[1..]) by {
        forall i | 0 <= i < |s[1..]| ensures s[1..][i] == s[i + 1] { }
      }
      QuoteSafeUnescaped(s[1..]);
      assert s == [s[0]] + s[1..];
    }
  }

  /** The browser writes a name unchanged when, and only when, it is
      quote-safe. */
  lemma EscapeFileNameFixes(s: string)
    ensures EscapeFileName(s) == s <==> QuoteSafe(s)
  {
    EscapedQuoteSafe(s);
    if QuoteSafe(s) {
      QuoteSafeUnescaped(s);
    }
  }

  /** How actix-web's `ContentDisposition` reads a quoted `filename`: a
      backslash quotes the character after it, which is kept, and the
      backslash is dropped. A lone backslash at the very end leaves the
      quoted string unterminated; that case is dropped here (see the
      README). */
  function Unquote(t: string): string
    decreases |t|
  {
    if t == [] then []
    else if t[0] == '\\' then (if |t| == 1 then [] else [t[1]] + Unquote(t[2..]))
    else [t[0]] + Unquote(t[1..])
  }

  /** Unquoting only keeps characters of its input: it introduces no `"`,
      CR or LF. */
  lemma {:induction false} UnquoteQuoteSafe(t: string)
    requires QuoteSafe(t)
    ensures QuoteSafe(Unquote(t))
    decreases |t|
  {
    if t != [] {
      if t[0] == '\\' {
        if |t| > 1 {
          assert QuoteSafe(t[2..]) by {
            forall i | 0 <= i < |t[2..]| ensures t[2..][i] == t[i + 2] { }
          }
          UnquoteQuoteSafe(t[2..]);
          var r := Unquote(t[2..]);
          forall i | 0 <= i < |[t[1]] + r| ensures ([t[1]] + r)[i] != '"' && ([t[1]] + r)[i] != '\r' && ([t[1]] + r)[i] != '\n' {
            if i >= 1 {
              assert ([t[1]] + r)[i] == r[i - 1];
            }
          }
        }
      } else {
        assert QuoteSafe(t[1..]) by {
          forall i | 0 <= i < |t[1..]| ensures t[1..][i] == t[i + 1] { }
        }
        UnquoteQuoteSafe(t[1..]);
        var r := Unquote(t[1..]);
        forall i | 0 <= i < |[t[0]] + r| ensures ([t[0]] + r)[i] != '"' && ([t[0]] + r)[i] != '\r' && ([t[0]] + r)[i] != '\n' {
          if i >= 1 {
            assert ([t[0]] + r)[i] == r[i - 1];
          }
        }
      }
    }
  }

  /** Unquoting never lengthens, and it shortens every text holding a
      backslash. */
  lemma {:induction false} UnquoteShortens(t: string)
    ensures |Unquote(t)| <= |t|
    ensures (exists i :: 0 <= i < |t| && t[i] == '\\') ==> |Unquote(t)| < |t|
    decreases |t|
  {
    if t != [] {
      if t[0] == '\\' {
        if |t| > 1 {
          UnquoteShortens(t[2..]);
        }
      } else {
        UnquoteShortens(t[1..]);
        if exists i :: 0 <= i < |t| && t[i] == '\\' {
          var i :| 0 <= i < |t| && t[i] == '\\';
          assert t[1..][i - 1] == t[i];
        }
      }
    }
  }

  /** Text without a backslash is read as it is. */
  lemma {:induction false} UnquoteIdentity(t: string)
    requires forall i :: 0 <= i < |t| ==> t[i] != '\\'
    ensures Unquote(t) == t
    decreases |t|
  {
    if t != [] {
      assert forall i :: 0 <= i < |t[1..]| ==> t[1..][i] == t[i + 1];
      UnquoteIdentity(t[1..]);
      assert t == [t[0]] + t[1..];
    }
  }

  /** The filename the backend's `get_filename()` returns for a file the
      browser holds under `name`. */
  function ReceivedName(name: string): string {
    Unquote(EscapeFileName(name))
  }

  /** A name reaches the backend unchanged when, and only when, it holds
      no `"`, CR, LF or backslash. */
  lemma ReceivedNameFixes(name: string)
    ensures ReceivedName(name) == name <==> PlainFileName(name)
  {
    var sent := EscapeFileName(name);
    EscapeFileNameFixes(name);
    EscapedQuoteSafe(name);
    UnquoteQuoteSafe(sent);
    UnquoteShortens(sent);
    if PlainFileName(name) {
      UnquoteIdentity(sent);
    } else if QuoteSafe(name) {
      var i :| 0 <= i < |name| && name[i] == '\\';
      assert sent[i] == '\\';
    } else {
      var i :| 0 <= i < |name| && !(name[i] != '"' && name[i] != '\r' && name[i] != '\n');
      assert !QuoteSafe(name);
    }
  }

  /** The (name, bytes) pairs the backend receives for the frontend's
      files: the bytes unchanged, each name as `get_filename()` reads it. */
  function ReceivedFiles(files: seq<(string, Bytes)>): seq<(string, Bytes)> {
    seq(|files|, i requires 0 <= i < |files| => (ReceivedName(files[i].0), files[i].1))
  }

  /** `files.forEach((file, index) => formData.append(`file${index}`, file))`:
      one field per file named `file0`, `file1`, ... in file order, each
      with the file's name as the backend reads it and its bytes. */
  function FileFields(files: seq<(string, Bytes)>): seq<Field> {
    seq(|files|, i requires 0 <= i < |files| => Field(FileFieldName(i), Some(ReceivedName(files[i].0)), files[i].1))
  }

  /** The text field a browser sends for the comment, its line breaks
      normalised. */
  function CommentField(comment: string): Field {
    Field("comment", None, Utf8.Encode(NormalizeNewlines(comment)))
  }

  /** The form `createSubmission` posts: the comment, then the files. */
  function SubmissionForm(comment: string, files: seq<(string, Bytes)>): seq<Field> {
    [CommentField(comment)] + FileFields(files)
  }

  /** No two file fields of the form share a name, so none stands in for
      another. */
  lemma FileFieldNamesDistinct(files: seq<(string, Bytes)>)
    ensures forall i, j :: 0 <= i < j < |FileFields(files)| ==> FileFields(files)[i].name != FileFields(files)[j].name
  {
    var fields := FileFields(files);
    forall i, j | 0 <= i < j < |fields| ensures fields[i].name != fields[j].name {
      if fields[i].name == fields[j].name {
        FileFieldNameInjective(i, j);
      }
    }
  }

  /** Every name the frontend gives a file passes the backend's
      `starts_with("file")` test and is not `comment`. */
  lemma FileFieldNameClassified(index: nat)
    ensures IsFileField(FileFieldName(index))
    ensures FileFieldName(index) != "comment"
  {
    var name := FileFieldName(index);
    assert name[..4] == "file";
    assert name[0] == 'f';
  }

  /** So every field of the form after the first is read as a file. */
  lemma FileFieldsClassified(comment: string, files: seq<(string, Bytes)>)
    ensures var form := SubmissionForm(comment, files);
      forall i :: 1 <= i < |form| ==> IsFileField(form[i].name) && !IsComment(form[i])
  {
    forall i | 0 <= i < |files| {
      FileFieldNameClassified(i);
    }
  }

  /** The backend reads the comment with its line breaks normalised to
      CR LF: exactly the typed comment when, and only when, its breaks
      already were CR LF. */
  lemma FormComment(comment: string, files: seq<(string, Bytes)>)
    ensures CommentOf(SubmissionForm(comment, files)) == NormalizeNewlines(comment)
    ensures CommentOf(SubmissionForm(comment, files)) == comment <==> CrlfLineBreaks(comment)
  {
    var rest := FileFields(files);
    assert !HasComment(rest) by {
      forall i | 0 <= i < |rest| ensures !IsComment(rest[i]) {
        FileFieldNameClassified(i);
      }
    }
    CommentOfAppend([CommentField(comment)], rest);
    Utf8.DecodeEncode(NormalizeNewlines(comment));
    NormalizeNewlinesFixes(comment);
  }

  /** The backend reads the files in order with their bytes intact and
      their names as `get_filename()` reads the browser's escape: exactly
      the frontend's files when, and only when, every name is plain. */
  lemma FormFiles(comment: string, files: seq<(string, Bytes)>)
    ensures FileParts(SubmissionForm(comment, files)) == ReceivedFiles(files)
    ensures FileParts(SubmissionForm(comment, files)) == files <==>
      forall i :: 0 <= i < |files| ==> PlainFileName(files[i].0)
  {
    var head := [CommentField(comment)];
    var rest := FileFields(files);
    FilePartsAppend(head, rest);
    assert FileParts(head) == [] by {
      assert head[..0] == [];
      assert "comment"[..4] == "comm";
    }
    assert FileParts(rest) == ReceivedFiles(files) by {
      forall i | 0 <= i < |rest| ensures IsFileField(rest[i].name) {
        FileFieldNameClassified(i);
      }
      FilePartsUniform(rest);
      var parts := FileParts(rest);
      assert parts == ReceivedFiles(files);
    }
    assert [] + ReceivedFiles(files) == ReceivedFiles(files);
    assert SubmissionForm(comment, files) == head + rest;
    ReceivedFilesExact(files);
  }

  /** The sent files are the frontend's files exactly when every name is
      plain. */
  lemma ReceivedFilesExact(files: seq<(string, Bytes)>)
    ensures ReceivedFiles(files) == files <==> forall i :: 0 <= i < |files| ==> PlainFileName(files[i].0)
  {
    var sent := ReceivedFiles(files);
    forall i | 0 <= i < |files| ensures sent[i] == files[i] <==> PlainFileName(files[i].0) {
      ReceivedNameFixes(files[i].0);
    }
    if forall i :: 0 <= i < |files| ==> PlainFileName(files[i].0) {
      assert sent == files;
    }
  }

  /** What the backend's field loop reads from the frontend's form is what
      the browser's encoding makes of the comment and the files; it is
      exactly what the frontend held when, and only when, the comment
      breaks lines with CR LF and no file name holds `"`, CR, LF or a
      backslash. */
  lemma FormRoundTrip(comment: string, files: seq<(string, Bytes)>)
    ensures CommentOf(SubmissionForm(comment, files)) == NormalizeNewlines(comment)
    ensures FileParts(SubmissionForm(comment, files)) == ReceivedFiles(files)
    ensures CommentOf(SubmissionForm(comment, files)) == comment && FileParts(SubmissionForm(comment, files)) == files
      <==> CrlfLineBreaks(comment) && forall i :: 0 <= i < |files| ==> PlainFileName(files[i].0)
  {
    FormComment(comment, files);
    FormFiles(comment, files);
  }
}

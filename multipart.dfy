/** The multipart form `create_submission` reads: a `comment` field sets the
    comment (decoded as UTF-8, "" when it is not), a field whose name starts
    with "file" adds a (filename, bytes) pair, anything else is skipped. */
module Multipart {
  import opened Wrappers
  import opened Bytes
  import Utf8

  /** One form field, its chunks already joined: the field name, the
      filename of its content disposition (if any) and its bytes. */
  datatype Field = Field(name: string, filename: Option<string>, data: Bytes)

  /** `name.starts_with("file")`. */
  predicate IsFileField(name: string) {
    |name| >= 4 && name[..4] == "file"
  }

  predicate IsComment(f: Field) {
    f.name == "comment"
  }

  /** `String::from_utf8(data).unwrap_or_default()`. */
  function CommentText(data: Bytes): string {
    Utf8.Decode(data).GetOr("")
  }

  /** The comment the loop ends with: the text of the last `comment`
      field, or "" when there is none. */
  function CommentOf(fields: seq<Field>): string {
    if fields == [] then ""
    else
      var f := fields[|fields| - 1];
      if IsComment(f) then CommentText(f.data) else CommentOf(fields[..|fields| - 1])
  }

  /** The part a file field contributes: its filename, or "unknown". */
  function FilePart(f: Field): (string, Bytes) {
    (f.filename.GetOr("unknown"), f.data)
  }

  /** The files the loop collects, in arrival order. */
  function FileParts(fields: seq<Field>): seq<(string, Bytes)> {
    if fields == [] then []
    else
      var f := fields[|fields| - 1];
      FileParts(fields[..|fields| - 1]) + (if IsFileField(f.name) then [FilePart(f)] else [])
  }

  /** Whether any field of `fields` is a `comment` field. */
  predicate HasComment(fields: seq<Field>) {
    exists i :: 0 <= i < |fields| && IsComment(fields[i])
  }

  /** The field loop of `create_submission`: `comment` overwrites, `file*`
      appends, other names are ignored. */
  method ReadSubmissionForm(fields: seq<Field>) returns (comment: string, files: seq<(string, Bytes)>)
    ensures comment == CommentOf(fields)
    ensures files == FileParts(fields)
  {
    comment := "";
    files := [];
    var i := 0;
    while i < |fields|
      invariant 0 <= i <= |fields|
      invariant comment == CommentOf(fields[..i])
      invariant files == FileParts(fields[..i])
    {
      var field := fields[i];
      assert fields[..i + 1][..i] == fields[..i];
      if field.name == "comment" {
        assert field.name[..4] == "comm";
        comment := Utf8.Decode(field.data).GetOr("");
      } else if |field.name| >= 4 && field.name[..4] == "file" {
        var filename := match field.filename
          case Some(n) => n
          case None => "unknown";
        files := files + [(filename, field.data)];
      }
      i := i + 1;
    }
    assert fields[..i] == fields;
  }

  /** The comment of a form is decided by its last part holding one: a
      later `comment` field overwrites every earlier one. */
  lemma {:induction false} CommentOfAppend(a: seq<Field>, b: seq<Field>)
    ensures CommentOf(a + b) == if HasComment(b) then CommentOf(b) else CommentOf(a)
  {
    if b == [] {
      assert a + b == a;
    } else {
      var b' := b[..|b| - 1];
      var f := b[|b| - 1];
      assert (a + b)[..|a + b| - 1] == a + b';
      assert (a + b)[|a + b| - 1] == f;
      CommentOfAppend(a, b');
      if !IsComment(f) {
        if HasComment(b) {
          var i :| 0 <= i < |b| && IsComment(b[i]);
          assert b'[i] == b[i];
        } else {
          assert !HasComment(b') by {
            forall i | 0 <= i < |b'| ensures !IsComment(b'[i]) {
              assert b'[i] == b[i];
            }
          }
        }
      }
    }
  }

  /** The comment is the text of a `comment` field exactly when there is
      one; a form without any has the empty comment. */
  lemma {:induction false} CommentOfNone(fields: seq<Field>)
    requires !HasComment(fields)
    ensures CommentOf(fields) == ""
  {
    if fields != [] {
      var init := fields[..|fields| - 1];
      assert !HasComment(init) by {
        forall i | 0 <= i < |init| ensures !IsComment(init[i]) {
          assert init[i] == fields[i];
        }
      }
      CommentOfNone(init);
    }
  }

  /** A comment whose bytes are not UTF-8 reads as "", whatever came
      before it. */
  lemma BadCommentIsEmpty(fields: seq<Field>, filename: Option<string>, data: Bytes)
    requires Utf8.Decode(data).None?
    ensures CommentOf(fields + [Field("comment", filename, data)]) == ""
  {
    var all := fields + [Field("comment", filename, data)];
    assert all[..|all| - 1] == fields;
  }

  /** Files of two consecutive parts of a form are collected one after the
      other. */
  lemma {:induction false} FilePartsAppend(a: seq<Field>, b: seq<Field>)
    ensures FileParts(a + b) == FileParts(a) + FileParts(b)
  {
    if b == [] {
      assert a + b == a;
    } else {
      var b' := b[..|b| - 1];
      assert (a + b)[..|a + b| - 1] == a + b';
      FilePartsAppend(a, b');
    }
  }

  /** A form made only of `file*` fields gives one part per field, in
      arrival order; a form with none of them gives no parts. */
  lemma {:induction false} FilePartsUniform(fields: seq<Field>)
    ensures |FileParts(fields)| <= |fields|
    ensures (forall i :: 0 <= i < |fields| ==> IsFileField(fields[i].name)) ==>
      |FileParts(fields)| == |fields| && forall i :: 0 <= i < |fields| ==> FileParts(fields)[i] == FilePart(fields[i])
    ensures (forall i :: 0 <= i < |fields| ==> !IsFileField(fields[i].name)) ==> FileParts(fields) == []
  {
    if fields != [] {
      var init := fields[..|fields| - 1];
      FilePartsUniform(init);
      assert forall i :: 0 <= i < |init| ==> init[i] == fields[i];
    }
  }

  /** In any form, every field whose name starts with "file" is collected,
      in arrival order: right after the parts of the fields before it. */
  lemma {:induction false} FilePartsExact(fields: seq<Field>)
    ensures forall i :: 0 <= i < |fields| && IsFileField(fields[i].name) ==>
      |FileParts(fields[..i])| < |FileParts(fields)| && FileParts(fields)[|FileParts(fields[..i])|] == FilePart(fields[i])
  {
    if fields != [] {
      var n := |fields| - 1;
      var init := fields[..n];
      FilePartsExact(init);
      var parts := FileParts(fields);
      assert parts == FileParts(init) + (if IsFileField(fields[n].name) then [FilePart(fields[n])] else []);
      forall i | 0 <= i < |fields| && IsFileField(fields[i].name)
        ensures |FileParts(fields[..i])| < |parts| && parts[|FileParts(fields[..i])|] == FilePart(fields[i])
      {
        if i < n {
          assert fields[..i] == init[..i];
          assert init[i] == fields[i];
        } else {
          assert fields[..i] == init;
        }
      }
    }
  }

  /** And every collected part is the part of a `file*` field. */
  lemma {:induction false} FilePartsSources(fields: seq<Field>)
    ensures forall k :: 0 <= k < |FileParts(fields)| ==>
      exists i :: 0 <= i < |fields| && IsFileField(fields[i].name) && FileParts(fields)[k] == FilePart(fields[i])
  {
    if fields == [] {
      assert FileParts(fields) == [];
    } else {
      var n := |fields| - 1;
      var init := fields[..n];
      FilePartsSources(init);
      assert forall k :: 0 <= k < |FileParts(init)| ==>
        exists i :: 0 <= i < |init| && IsFileField(init[i].name) && FileParts(init)[k] == FilePart(init[i]);
      var before := FileParts(init);
      var parts := FileParts(fields);
      assert parts == before + (if IsFileField(fields[n].name) then [FilePart(fields[n])] else []);
      forall k | 0 <= k < |parts|
        ensures exists i :: 0 <= i < |fields| && IsFileField(fields[i].name) && parts[k] == FilePart(fields[i])
      {
        if k < |before| {
          var i :| 0 <= i < |init| && IsFileField(init[i].name) && before[k] == FilePart(init[i]);
          assert init[i] == fields[i];
          assert parts[k] == before[k];
        } else {
          assert parts[k] == FilePart(fields[n]);
        }
      }
    }
  }

  /** A field that is neither `comment` nor `file*` has no effect, wherever
      it arrives. */
  lemma IgnoredField(a: seq<Field>, f: Field, b: seq<Field>)
    requires !IsComment(f) && !IsFileField(f.name)
    ensures CommentOf(a + [f] + b) == CommentOf(a + b)
    ensures FileParts(a + [f] + b) == FileParts(a + b)
  {
    assert !HasComment([f]);
    CommentOfAppend(a, [f]);
    CommentOfAppend(a + [f], b);
    CommentOfAppend(a, b);
    FilePartsAppend(a, [f]);
    FilePartsAppend(a + [f], b);
    FilePartsAppend(a, b);
    assert FileParts([f]) == [] by {
      assert [f][..0] == [];
    }
  }
}

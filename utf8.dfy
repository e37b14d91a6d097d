/** UTF-8 as `String::from_utf8` accepts it (the well-formed byte sequences of
    RFC 3629, section 4: no overlong forms, no surrogates, nothing above
    U+10FFFF) and as a browser's `FormData` emits a text field. */
module Utf8 {
  import opened Wrappers
  import opened Bytes

  predicate IsContinuation(b: byte) {
    0x80 <= b <= 0xBF
  }

  /** Dafny's `char` is a Unicode scalar value. */
  predicate IsScalar(n: int) {
    0 <= n < 0xD800 || 0xE000 <= n < 0x11_0000
  }

  function EncodeChar(c: char): (e: Bytes)
    ensures 1 <= |e| <= 4
  {
    var n := c as int;
    if n < 0x80 then [n as byte]
    else if n < 0x800 then [(0xC0 + n / 64) as byte, (0x80 + n % 64) as byte]
    else if n < 0x1_0000 then
      var r := n % 4096;
      [(0xE0 + n / 4096) as byte, (0x80 + r / 64) as byte, (0x80 + r % 64) as byte]
    else
      var r := n % 262144;
      var r' := r % 4096;
      [(0xF0 + n / 262144) as byte, (0x80 + r / 4096) as byte,
       (0x80 + r' / 64) as byte, (0x80 + r' % 64) as byte]
  }

  function Encode(s: string): Bytes {
    if s == [] then [] else EncodeChar(s[0]) + Encode(s[1..])
  }

  /** The scalar value a two-, three- or four-byte sequence stands for. */
  function Value2(b0: byte, b1: byte): int {
    (b0 as int - 0xC0) * 64 + (b1 as int - 0x80)
  }

  function Value3(b0: byte, b1: byte, b2: byte): int {
    (b0 as int - 0xE0) * 4096 + (b1 as int - 0x80) * 64 + (b2 as int - 0x80)
  }

  function Value4(b0: byte, b1: byte, b2: byte, b3: byte): int {
    (b0 as int - 0xF0) * 262144 + (b1 as int - 0x80) * 4096 + (b2 as int - 0x80) * 64 + (b3 as int - 0x80)
  }

  /** The second byte of a three-byte sequence: E0 excludes overlong forms,
      ED excludes surrogates. */
  predicate SecondOf3(b0: byte, b1: byte) {
    if b0 == 0xE0 then 0xA0 <= b1 <= 0xBF
    else if b0 == 0xED then 0x80 <= b1 <= 0x9F
    else IsContinuation(b1)
  }

  /** The second byte of a four-byte sequence: F0 excludes overlong forms,
      F4 excludes values above U+10FFFF. */
  predicate SecondOf4(b0: byte, b1: byte) {
    if b0 == 0xF0 then 0x90 <= b1 <= 0xBF
    else if b0 == 0xF4 then 0x80 <= b1 <= 0x8F
    else IsContinuation(b1)
  }

  /** The first character of `b` and the number of bytes it takes, or None
      when `b` does not start with a well-formed sequence. */
  function DecodeFirst(b: Bytes): (r: Option<(char, nat)>)
    requires |b| > 0
    ensures r.Some? ==> 1 <= r.value.1 <= |b|
  {
    var b0 := b[0];
    if b0 < 0x80 then Some((b0 as int as char, 1))
    else if 0xC2 <= b0 <= 0xDF then
      if |b| >= 2 && IsContinuation(b[1]) then Some((Value2(b0, b[1]) as char, 2)) else None
    else if 0xE0 <= b0 <= 0xEF then
      if |b| >= 3 && SecondOf3(b0, b[1]) && IsContinuation(b[2])
      then Some((Value3(b0, b[1], b[2]) as char, 3)) else None
    else if 0xF0 <= b0 <= 0xF4 then
      if |b| >= 4 && SecondOf4(b0, b[1]) && IsContinuation(b[2]) && IsContinuation(b[3])
      then Some((Value4(b0, b[1], b[2], b[3]) as char, 4)) else None
    else None
  }

  /** `String::from_utf8`: the decoded text, or None for ill-formed input. */
  function Decode(b: Bytes): Option<string>
    decreases |b|
  {
    if b == [] then Some("")
    else match DecodeFirst(b)
      case None => None
      case Some((c, n)) =>
        match Decode(b[n..])
        case None => None
        case Some(s) => Some([c] + s)
  }

  lemma DecodeTwo(c: char, rest: Bytes)
    requires 0x80 <= c as int < 0x800
    ensures DecodeFirst(EncodeChar(c) + rest) == Some((c, 2))
  {
    var n := c as int;
    var b := EncodeChar(c) + rest;
    var q, r := n / 64, n % 64;
    assert n == q * 64 + r;
    assert b[0] as int == 0xC0 + q && b[1] as int == 0x80 + r;
    assert Value2(b[0], b[1]) == n;
  }

  lemma DecodeThree(c: char, rest: Bytes)
    requires 0x800 <= c as int < 0x1_0000
    ensures DecodeFirst(EncodeChar(c) + rest) == Some((c, 3))
  {
    var n := c as int;
    var b := EncodeChar(c) + rest;
    var q, r := n / 4096, n % 4096;
    var q', r' := r / 64, r % 64;
    assert n == q * 4096 + r && r == q' * 64 + r';
    assert b[0] as int == 0xE0 + q && b[1] as int == 0x80 + q' && b[2] as int == 0x80 + r';
    assert Value3(b[0], b[1], b[2]) == n;
    assert SecondOf3(b[0], b[1]);
  }

  lemma DecodeFour(c: char, rest: Bytes)
    requires 0x1_0000 <= c as int
    ensures DecodeFirst(EncodeChar(c) + rest) == Some((c, 4))
  {
    var n := c as int;
    assert IsScalar(n);
    var b := EncodeChar(c) + rest;
    var q, r := n / 262144, n % 262144;
    var q', r' := r / 4096, r % 4096;
    var q'', r'' := r' / 64, r' % 64;
    assert n == q * 262144 + r && r == q' * 4096 + r' && r' == q'' * 64 + r'';
    assert b[0] as int == 0xF0 + q && b[1] as int == 0x80 + q';
    assert b[2] as int == 0x80 + q'' && b[3] as int == 0x80 + r'';
    assert Value4(b[0], b[1], b[2], b[3]) == n;
    assert SecondOf4(b[0], b[1]);
  }

  lemma DecodeFirstEncodeChar(c: char, rest: Bytes)
    ensures DecodeFirst(EncodeChar(c) + rest) == Some((c, |EncodeChar(c)|))
  {
    var n := c as int;
    if n < 0x80 {
    } else if n < 0x800 {
      DecodeTwo(c, rest);
    } else if n < 0x1_0000 {
      DecodeThree(c, rest);
    } else {
      DecodeFour(c, rest);
    }
  }

  /** Decoding what was encoded gives back the text: the UTF-8 encoding of
      a text decodes back to that text. */
  lemma {:induction false} DecodeEncode(s: string)
    ensures Decode(Encode(s)) == Some(s)
  {
    if s != [] {
      var e := EncodeChar(s[0]);
      DecodeFirstEncodeChar(s[0], Encode(s[1..]));
      assert (e + Encode(s[1..]))[|e|..] == Encode(s[1..]);
      DecodeEncode(s[1..]);
      assert [s[0]] + s[1..] == s;
    }
  }

  /** A lone continuation byte is not UTF-8. */
  lemma StrayContinuationRejected(b: Bytes)
    requires |b| > 0 && IsContinuation(b[0])
    ensures Decode(b) == None
  {
  }
}

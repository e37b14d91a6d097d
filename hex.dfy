/** The lowercase hexadecimal rendering of a digest that `store_file` uses
    as the content hash: two digits per byte, most significant nibble first. */
module Hex {
  import opened Bytes

  predicate IsLowerHexDigit(c: char) {
    '0' <= c <= '9' || 'a' <= c <= 'f'
  }

  /** The digit for a nibble 0..15. */
  function Digit(n: int): (c: char)
    requires 0 <= n < 16
    ensures IsLowerHexDigit(c)
  {
    if n < 10 then ('0' as int + n) as char else ('a' as int + n - 10) as char
  }

  function ByteDigits(b: byte): string {
    [Digit(b as int / 16), Digit(b as int % 16)]
  }

  function LowerHex(d: Bytes): (s: string)
    ensures |s| == 2 * |d|
    ensures forall i :: 0 <= i < |s| ==> IsLowerHexDigit(s[i])
  {
    if d == [] then "" else ByteDigits(d[0]) + LowerHex(d[1..])
  }

  /** The hash string of a content under a given digest function; this is
      what `store_file` returns and the name of the blob it writes. */
  function ContentHash(sha256: Bytes -> Digest, content: Bytes): (h: string)
    ensures |h| == 64
    ensures forall i :: 0 <= i < |h| ==> IsLowerHexDigit(h[i])
  {
    LowerHex(sha256(content))
  }

  lemma DigitInjective(m: int, n: int)
    requires 0 <= m < 16 && 0 <= n < 16
    requires Digit(m) == Digit(n)
    ensures m == n
  {
  }

  /** Distinct byte strings have distinct renderings. */
  lemma {:induction false} LowerHexInjective(a: Bytes, b: Bytes)
    requires LowerHex(a) == LowerHex(b)
    ensures a == b
  {
    assert |a| == |b|;
    if a != [] {
      var s := LowerHex(a);
      assert s[0] == Digit(a[0] as int / 16) && s[0] == Digit(b[0] as int / 16);
      assert s[1] == Digit(a[0] as int % 16) && s[1] == Digit(b[0] as int % 16);
      DigitInjective(a[0] as int / 16, b[0] as int / 16);
      DigitInjective(a[0] as int % 16, b[0] as int % 16);
      assert a[0] == b[0];
      assert s[2..] == LowerHex(a[1..]) && s[2..] == LowerHex(b[1..]);
      LowerHexInjective(a[1..], b[1..]);
      assert a == [a[0]] + a[1..];
      assert b == [b[0]] + b[1..];
    }
  }

  /** Two contents whose digests differ get distinct hash strings, hence
      distinct file rows and distinct blobs. */
  lemma DistinctContentDistinctHash(sha256: Bytes -> Digest, a: Bytes, b: Bytes)
    requires sha256(a) != sha256(b)
    ensures ContentHash(sha256, a) != ContentHash(sha256, b)
  {
    if ContentHash(sha256, a) == ContentHash(sha256, b) {
      LowerHexInjective(sha256(a), sha256(b));
    }
  }
}

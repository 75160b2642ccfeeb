/**
 * Bytes of a mapped file and the C library primitives the detectors use on
 * them: memcmp (as an equality test), strlen, and the little- and big-endian
 * 32-bit readers (readle/read32le/resolvebe).
 */
module Bytes {
  type byte = bv8

  /** memcmp(a, b, n) == 0: the first n bytes of a and b agree. */
  function MemEq(a: seq<byte>, b: seq<byte>, n: nat): (r: bool)
    requires n <= |a| && n <= |b|
    ensures r <==> a[..n] == b[..n]
  {
    if n == 0 then true
    else
      var rest := MemEq(a[1..], b[1..], n - 1);
      assert a[..n] == [a[0]] + a[1..][..n - 1];
      assert b[..n] == [b[0]] + b[1..][..n - 1];
      a[0] == b[0] && rest
  }

  /** strlen: the number of bytes before the first NUL (all of s if it has none). */
  function CStrLen(s: seq<byte>): (n: nat)
    ensures n <= |s|
    ensures forall i :: 0 <= i < n ==> s[i] != 0
    ensures n < |s| ==> s[n] == 0
  {
    if |s| == 0 || s[0] == 0 then 0 else 1 + CStrLen(s[1..])
  }

  /**
   * The std::string_view a C++ string literal or char array converts to:
   * its length is taken with strlen, so it stops at the first NUL.
   */
  function CStr(lit: seq<byte>): (sv: seq<byte>)
    ensures |sv| <= |lit| && sv == lit[..|sv|]
    ensures 0 !in sv
    ensures |sv| < |lit| ==> lit[|sv|] == 0
  {
    lit[..CStrLen(lit)]
  }

  /** The unsigned value of a byte. */
  function Val(b: byte): (n: nat)
    ensures n < 0x100
  {
    b as nat
  }

  /** The unsigned value of four bytes, least significant first. */
  function Word(b0: byte, b1: byte, b2: byte, b3: byte): (v: nat)
    ensures v < 0x1_0000_0000
  {
    var n0, n1, n2, n3 := Val(b0), Val(b1), Val(b2), Val(b3);
    assert 0x100 * n1 <= 0xFF00 && 0x1_0000 * n2 <= 0xFF_0000 && 0x100_0000 * n3 <= 0xFF00_0000;
    n0 + 0x100 * n1 + 0x1_0000 * n2 + 0x100_0000 * n3
  }

  /** Little-endian unsigned 32-bit value of s[off..off+4]. */
  function LE32(s: seq<byte>, off: nat): (v: nat)
    requires off + 4 <= |s|
    ensures v < 0x1_0000_0000
  {
    Word(s[off], s[off + 1], s[off + 2], s[off + 3])
  }

  /** Big-endian unsigned 32-bit value of s[off..off+4]. */
  function BE32(s: seq<byte>, off: nat): (v: nat)
    requires off + 4 <= |s|
    ensures v < 0x1_0000_0000
  {
    Word(s[off + 3], s[off + 2], s[off + 1], s[off])
  }
}

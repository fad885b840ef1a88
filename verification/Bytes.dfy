/** Bytes as the C sources see them, and the four-byte counts that actor.c copies in and out with memcpy. */
module Bytes {
  type byte = b: int | 0 <= b < 256

  type bytes = seq<byte>

  const U32_LIMIT: int := 0x1_0000_0000

  /** `put_u32` after the cast to `uint32_t`: the host is little-endian. */
  function PutU32(v: nat): (r: bytes)
    ensures |r| == 4
  {
    [v % 256, v / 256 % 256, v / 65536 % 256, v / 16777216 % 256]
  }

  /** `get_u32`. */
  function GetU32(s: bytes, at: nat): (v: int)
    requires at + 4 <= |s|
    ensures 0 <= v < U32_LIMIT
  {
    s[at] as int + 256 * s[at + 1] as int + 65536 * s[at + 2] as int + 16777216 * s[at + 3] as int
  }

  lemma GetPutU32(v: nat, s: bytes, at: nat)
    requires v < U32_LIMIT
    requires at + 4 <= |s| && s[at..at + 4] == PutU32(v)
    ensures GetU32(s, at) == v
  {
    var b, c, d := v / 256, v / 65536, v / 16777216;
    assert v == 256 * b + v % 256;
    assert b == 256 * c + b % 256;
    assert c == 256 * d + c % 256;
    assert d % 256 == d;
    assert s[at] == s[at..at + 4][0] && s[at + 1] == s[at..at + 4][1];
    assert s[at + 2] == s[at..at + 4][2] && s[at + 3] == s[at..at + 4][3];
  }

  /** The four digits of base 256 of a number. */
  lemma Digits256(a: byte, b: byte, c: byte, d: byte)
    ensures var v := a as int + 256 * b as int + 65536 * c as int + 16777216 * d as int;
      v % 256 == a && v / 256 % 256 == b && v / 65536 % 256 == c && v / 16777216 % 256 == d
  {
    var z: int := d;
    var y := c as int + 256 * z;
    var x := b as int + 256 * y;
    var v := a as int + 256 * x;
    assert v / 256 == x && x / 256 == y && y / 256 == z;
    assert v / 65536 == y && v / 16777216 == z;
  }

  lemma PutGetU32(s: bytes, at: nat)
    requires at + 4 <= |s|
    ensures PutU32(GetU32(s, at)) == s[at..at + 4]
  {
    Digits256(s[at], s[at + 1], s[at + 2], s[at + 3]);
  }

  predicate NoNul(s: bytes) { 0 !in s }

  /** What a C string function sees of some bytes: those before the first NUL. */
  function CString(p: bytes): (r: bytes)
    ensures r <= p && NoNul(r) && (|r| < |p| ==> p[|r|] == 0)
  {
    if p == [] || p[0] == 0 then [] else [p[0]] + CString(p[1..])
  }
}

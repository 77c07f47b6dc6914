/** Bytes of the mapped input file and the few byte values the parsers look at. */
module Bytes {

  /** One byte of the input (Go `byte`, C `char` restricted to its unsigned value). */
  newtype byte = b: int | 0 <= b < 256

  const NEWLINE: byte := 10
  const MINUS: byte := 45
  const DOT: byte := 46
  const ZERO: byte := 48
  const SEMICOLON: byte := 59

  predicate IsDigit(b: byte) {
    ZERO <= b <= ZERO + 9
  }

  /** The decimal digit byte for `d`. */
  function Digit(d: int): (b: byte)
    requires 0 <= d < 10
    ensures IsDigit(b) && b as int - ZERO as int == d
  {
    (ZERO as int + d) as byte
  }

  /** `bytes.IndexByte` / `memchr`: the position of the first `b` in `s`, or -1. */
  function IndexByte(s: seq<byte>, b: byte): (r: int)
    ensures -1 <= r < |s|
    ensures r == -1 <==> b !in s
    ensures 0 <= r ==> s[r] == b && b !in s[..r]
  {
    if |s| == 0 then -1
    else if s[0] == b then 0
    else
      var k := IndexByte(s[1..], b);
      assert s[1..][..k + 1] == s[1..k + 2] by { }
      if k < 0 then -1 else k + 1
  }

  /** IndexByte of `s + [b] + t` is `|s|` when `s` does not hold `b`. */
  lemma IndexByteAfter(s: seq<byte>, b: byte, t: seq<byte>)
    requires b !in s
    ensures IndexByte(s + [b] + t, b) == |s|
  {
    var u := s + [b] + t;
    assert u[|s|] == b;
    assert u[..|s|] == s;
  }

  /** Go `int16` arithmetic: two's-complement wrap-around into 16 bits. */
  function WrapInt16(x: int): (r: int)
    ensures -0x8000 <= r < 0x8000
    ensures -0x8000 <= x < 0x8000 ==> r == x
  {
    (x + 0x8000) % 0x1_0000 - 0x8000
  }

  /** Go `int32` arithmetic: two's-complement wrap-around into 32 bits. */
  function WrapInt32(x: int): (r: int)
    ensures -0x8000_0000 <= r < 0x8000_0000
    ensures -0x8000_0000 <= x < 0x8000_0000 ==> r == x
  {
    (x + 0x8000_0000) % 0x1_0000_0000 - 0x8000_0000
  }

  /** Go `uint32` arithmetic: wrap-around modulo 2^32. */
  function WrapUint32(x: int): (r: nat)
    ensures r < 0x1_0000_0000
    ensures 0 <= x < 0x1_0000_0000 ==> r == x
  {
    x % 0x1_0000_0000
  }

  /** Wrapping the running int32 sum before each addition gives the wrapped exact sum. */
  lemma WrapInt32Add(x: int, t: int)
    ensures WrapInt32(WrapInt32(x) + t) == WrapInt32(x + t)
  {
    var q := (x + 0x8000_0000) / 0x1_0000_0000;
    assert WrapInt32(x) == x - q * 0x1_0000_0000;
    ModShift32(x + t + 0x8000_0000, -q);
  }

  /** The same for the uint32 count. */
  lemma WrapUint32Add(x: int, t: int)
    ensures WrapUint32(WrapUint32(x) + t) == WrapUint32(x + t)
  {
    var q := x / 0x1_0000_0000;
    assert WrapUint32(x) == x - q * 0x1_0000_0000;
    ModShift32(x + t, -q);
  }

  lemma ModShift32(a: int, q: int)
    ensures (a + q * 0x1_0000_0000) % 0x1_0000_0000 == a % 0x1_0000_0000
  {
  }
}

/** Bytes, 64-bit counters and the four-byte message header. */
module Bytes {

  newtype byte = x: int | 0 <= x < 256

  /** HEADER_SIZE and MAX_MESSAGE_SIZE. */
  const HEADER: nat := 4
  const MAX_MESSAGE: nat := 65535

  /** One more than the largest uint64_t: the modulus of SeqNumT. */
  const TWO64: nat := 0x1_0000_0000_0000_0000

  /** Unsigned 64-bit addition. */
  function Add64(a: nat, b: nat): (r: nat)
    ensures r < TWO64
  {
    (a + b) % TWO64
  }

  /** Unsigned 64-bit subtraction: wraps round below zero. */
  function Sub64(a: nat, b: nat): (r: nat)
    requires a < TWO64 && b < TWO64
    ensures r < TWO64
    ensures a >= b <==> r == a - b
    ensures a < b <==> r == a - b + TWO64
  {
    if a >= b then a - b else a - b + TWO64
  }

  /** Differences of wrapped counters are exact while the true distance is below 2^64. */
  lemma LagIsExact(a: nat, b: nat)
    requires b <= a < b + TWO64
    ensures Sub64(a % TWO64, b % TWO64) == a - b
  {
    var d := a - b;
    var qa, ra := a / TWO64, a % TWO64;
    var qb, rb := b / TWO64, b % TWO64;
    assert a == qa * TWO64 + ra && b == qb * TWO64 + rb;
  }

  /** An overtaken counter reads as an enormous lag. */
  lemma LagUnderflows(a: nat, b: nat)
    requires a < b < a + TWO64
    ensures Sub64(a % TWO64, b % TWO64) == TWO64 - (b - a)
  {
    var qa, ra := a / TWO64, a % TWO64;
    var qb, rb := b / TWO64, b % TWO64;
    assert a == qa * TWO64 + ra && b == qb * TWO64 + rb;
  }

  lemma Add64OfWrapped(a: nat, b: nat)
    ensures Add64(a % TWO64, b) == (a + b) % TWO64
  {
    var q, r := a / TWO64, a % TWO64;
    assert a == q * TWO64 + r;
    assert (r + b + q * TWO64) % TWO64 == (r + b) % TWO64;
  }

  /** The bytes of an int32_t as copied to memory on a little-endian host. */
  function EncodeHeader(n: int): (h: seq<byte>)
    requires -0x8000_0000 <= n < 0x8000_0000
    ensures |h| == HEADER
  {
    var u := if n < 0 then n + 0x1_0000_0000 else n;
    var (u1, u2, u3) := (u / 256, u / 256 / 256, u / 256 / 256 / 256);
    [(u % 256) as byte, (u1 % 256) as byte, (u2 % 256) as byte, u3 as byte]
  }

  function DecodeHeader(h: seq<byte>): (n: int)
    requires |h| == HEADER
    ensures -0x8000_0000 <= n < 0x8000_0000
  {
    var u := h[0] as int + 256 * (h[1] as int + 256 * (h[2] as int + 256 * h[3] as int));
    if u < 0x8000_0000 then u else u - 0x1_0000_0000
  }

  lemma HeaderRoundTrip(n: int)
    requires -0x8000_0000 <= n < 0x8000_0000
    ensures DecodeHeader(EncodeHeader(n)) == n
  {
    var u := if n < 0 then n + 0x1_0000_0000 else n;
    var u1 := u / 256;
    var u2 := u1 / 256;
    assert u == 256 * u1 + u % 256 && u1 == 256 * u2 + u1 % 256 && u2 == 256 * (u2 / 256) + u2 % 256;
  }

  /** A message as it lies in the ring: its size, then its bytes. */
  function Frame(m: seq<byte>): (f: seq<byte>)
    requires |m| <= MAX_MESSAGE
    ensures |f| == HEADER + |m|
  {
    EncodeHeader(|m|) + m
  }

  /** A frame determines its message. */
  lemma FrameDecodes(m: seq<byte>)
    requires |m| <= MAX_MESSAGE
    ensures DecodeHeader(Frame(m)[..HEADER]) == |m|
    ensures Frame(m)[HEADER..] == m
  {
    assert Frame(m)[..HEADER] == EncodeHeader(|m|);
    HeaderRoundTrip(|m|);
  }
}

/** Numbers as bytes, the least significant byte first, as memcpy leaves them on the machines the code runs on. */
module ByteCodec {

  type byte = b: int | 0 <= b < 256

  type Bytes = seq<byte>

  type uint32 = x: nat | x < 0x1_0000_0000
  type int32 = x: int | -0x8000_0000 <= x < 0x8000_0000
  type int16 = x: int | -0x8000 <= x < 0x8000
  // The bit pattern of a double: sign, eleven bits of exponent, fifty-two of fraction.
  type bits64 = x: nat | x < 0x1_0000_0000_0000_0000

  function Zeros(n: nat): (r: Bytes)
    ensures |r| == n && forall i | 0 <= i < n :: r[i] == 0
  {
    seq(n, _ => 0)
  }

  /** `x` in `n` bytes. */
  function Little(x: nat, n: nat): (r: Bytes)
    ensures |r| == n
  {
    if n == 0 then [] else [x % 256] + Little(x / 256, n - 1)
  }

  function FromLittle(b: Bytes): nat {
    if b == [] then 0 else (b[0] as int) + 256 * FromLittle(b[1..])
  }

  function Pow2(n: nat): (r: nat)
    ensures r >= 1
  {
    if n == 0 then 1 else 2 * Pow2(n - 1)
  }

  function Pow256(n: nat): nat {
    if n == 0 then 1 else 256 * Pow256(n - 1)
  }

  lemma {:induction false} LittleRoundTrip(x: nat, n: nat)
    requires x < Pow256(n)
    ensures FromLittle(Little(x, n)) == x
  {
    if n > 0 {
      LittleRoundTrip(x / 256, n - 1);
      assert Little(x, n)[1..] == Little(x / 256, n - 1);
    }
  }

  lemma {:induction false} FromLittleBound(b: Bytes)
    ensures FromLittle(b) < Pow256(|b|)
  {
    if b != [] { FromLittleBound(b[1..]); }
  }

  lemma Powers()
    ensures Pow256(2) == 0x1_0000 && Pow256(4) == 0x1_0000_0000 && Pow256(8) == 0x1_0000_0000_0000_0000
  {
    assert Pow256(2) == 256 * Pow256(1) && Pow256(4) == 256 * Pow256(3);
    assert Pow256(6) == 256 * Pow256(5) && Pow256(8) == 256 * Pow256(7);
  }

  function Unsigned(i: int32): uint32 {
    if i < 0 then i + 0x1_0000_0000 else i
  }

  function Signed(u: uint32): int32 {
    if u >= 0x8000_0000 then u - 0x1_0000_0000 else u
  }

  /** A word of four bytes. */
  function FromWord(b: Bytes): uint32
    requires |b| == 4
  {
    FromLittleBound(b);
    Powers();
    FromLittle(b)
  }

  function FromInt(b: Bytes): int32
    requires |b| == 4
  {
    Signed(FromWord(b))
  }

  lemma WordRoundTrip(x: uint32)
    ensures FromWord(Little(x, 4)) == x
  {
    Powers();
    LittleRoundTrip(x, 4);
  }

  lemma IntRoundTrip(i: int32)
    ensures FromInt(Little(Unsigned(i), 4)) == i
  {
    WordRoundTrip(Unsigned(i));
  }

  /** A short, in two bytes. */
  function Short(i: int16): Bytes {
    Little(if i < 0 then i + 0x1_0000 else i, 2)
  }

  function FromShort(b: Bytes): int16
    requires |b| == 2
  {
    FromLittleBound(b);
    Powers();
    if FromLittle(b) >= 0x8000 then FromLittle(b) - 0x1_0000 else FromLittle(b)
  }

  lemma ShortRoundTrip(i: int16)
    ensures FromShort(Short(i)) == i
  {
    Powers();
    LittleRoundTrip(if i < 0 then i + 0x1_0000 else i, 2);
  }

  /** Copies bytes into a buffer. */
  method CopyInto(buffer: array<byte>, at: nat, bytes: Bytes)
    requires at + |bytes| <= buffer.Length
    modifies buffer
    ensures buffer[..] == old(buffer[..at]) + bytes + old(buffer[at + |bytes|..])
  {
    for k := 0 to |bytes|
      invariant buffer[..at + k] == old(buffer[..at]) + bytes[..k]
      invariant buffer[at + k..] == old(buffer[at + k..])
    {
      buffer[at + k] := bytes[k];
    }
  }
}

/** Octets, the two byte operations every codec here uses (bit-5 flip and sums modulo 256),
    and the little-endian integer layouts of the debug protocol. */
module Bytes {

  type byte = x: int | 0 <= x < 256

  const TWO_16: int := 0x1_0000
  const TWO_32: int := 0x1_0000_0000
  const TWO_64: int := 0x1_0000_0000_0000_0000

  /** `b ^ 0x20`, written arithmetically: bit 5 is flipped and nothing else. */
  function FlipBit5(b: byte): (r: byte) {
    if b / 32 % 2 == 0 then b + 32 else b - 32
  }

  /** `FlipBit5` is the exclusive or with 0x20: the quotient by 64 and the remainder by 32, that is
      all other bits, are kept, and bit 5 is inverted. */
  lemma FlipBit5IsXor(b: byte)
    ensures FlipBit5(b) % 32 == b % 32
    ensures FlipBit5(b) / 64 == b / 64
    ensures FlipBit5(b) / 32 % 2 == 1 - b / 32 % 2
    ensures FlipBit5(FlipBit5(b)) == b
  {
  }

  function Sum(b: seq<byte>): nat {
    if b == [] then 0 else b[0] + Sum(b[1..])
  }

  lemma {:induction false} SumConcat(a: seq<byte>, b: seq<byte>)
    ensures Sum(a + b) == Sum(a) + Sum(b)
  {
    if a == [] {
      assert a + b == b;
    } else {
      assert (a + b)[1..] == a[1..] + b;
      SumConcat(a[1..], b);
    }
  }

  lemma SumUpdate(a: seq<byte>, k: nat, x: byte)
    requires k < |a|
    ensures Sum(a[k := x]) == Sum(a) - a[k] + x
  {
    var b := a[k := x];
    assert a == a[..k] + ([a[k]] + a[k + 1..]);
    assert b == a[..k] + ([x] + a[k + 1..]);
    SumConcat(a[..k], [a[k]] + a[k + 1..]);
    SumConcat(a[..k], [x] + a[k + 1..]);
  }

  lemma SumNext(b: seq<byte>, i: nat)
    requires i < |b|
    ensures (Sum(b[..i]) % 256 + b[i]) % 256 == Sum(b[..i + 1]) % 256
  {
    assert b[..i + 1] == b[..i] + [b[i]];
    SumConcat(b[..i], [b[i]]);
    assert Sum([b[i]]) == b[i];
  }

  /** The sum loop of both checksums, on a wrapping octet. */
  method ByteSum(b: seq<byte>) returns (s: byte)
    ensures s == Sum(b) % 256
  {
    s := 0;
    for i := 0 to |b|
      invariant s == Sum(b[..i]) % 256
    {
      SumNext(b, i);
      s := (s + b[i]) % 256;
    }
    assert b[..|b|] == b;
  }

  /** `n` zero octets (`make([]byte, n)`). */
  function Zeros(n: nat): (r: seq<byte>)
    ensures |r| == n
    ensures forall i | 0 <= i < n :: r[i] == 0
  {
    seq(n, i => 0)
  }

  /** Little-endian encoding of `v` modulo 256^width. */
  function LittleEndian(v: nat, width: nat): (r: seq<byte>)
    ensures |r| == width
  {
    if width == 0 then [] else [v % 256] + LittleEndian(v / 256, width - 1)
  }

  /** The unsigned integer that little-endian octets denote. */
  function FromLittleEndian(b: seq<byte>): (v: nat) {
    if b == [] then 0 else b[0] + 256 * FromLittleEndian(b[1..])
  }

  function Pow256(width: nat): (p: nat)
    ensures p > 0
  {
    if width == 0 then 1 else 256 * Pow256(width - 1)
  }

  lemma Pow256Values()
    ensures Pow256(2) == TWO_16 && Pow256(4) == TWO_32 && Pow256(8) == TWO_64
  {
    assert Pow256(2) == 256 * (256 * Pow256(0));
    assert Pow256(4) == 256 * (256 * Pow256(2));
    assert Pow256(6) == 256 * (256 * Pow256(4));
    assert Pow256(8) == 256 * (256 * Pow256(6));
  }

  /** Decoding undoes encoding, up to the width's wrap-around. */
  lemma {:induction false} LittleEndianRoundTrip(v: nat, width: nat)
    requires v < Pow256(width)
    ensures FromLittleEndian(LittleEndian(v, width)) == v
  {
    if width > 0 {
      LittleEndianRoundTrip(v / 256, width - 1);
      assert LittleEndian(v, width)[1..] == LittleEndian(v / 256, width - 1);
    }
  }

  /** The octets of a text, one per character. */
  function Ascii(s: string): (r: seq<byte>)
    ensures |r| == |s|
  {
    seq<byte>(|s|, i requires 0 <= i < |s| => s[i] as int % 256)
  }

  /** Decimal digits (`%d`). */
  function Decimal(n: nat): seq<byte> {
    (if n < 10 then [] else Decimal(n / 10)) + [48 + n % 10]
  }

  /** The synthetic memory both mock debug agents serve: the octet at an address is the address modulo 256. */
  function MemoryAt(addr: nat): byte {
    addr % TWO_64 % 256
  }

  function Memory(addr: nat, n: nat): (r: seq<byte>)
    ensures |r| == n
  {
    seq<byte>(n, i requires 0 <= i < n => MemoryAt(addr + i))
  }

  /** The synthetic memory does not notice that addresses wrap. */
  lemma MemoryIsAddressModulo256(addr: nat)
    ensures MemoryAt(addr) == addr % 256
  {
    var q := addr / TWO_64;
    assert addr == 256 * (q * (TWO_64 / 256)) + addr % TWO_64;
  }
}

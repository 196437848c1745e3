/** The GDB Remote Serial Protocol codec: escaping, run-length decoding, checksums and the two hex
    digits that carry them (internal/debug/rsp.go, internal/mockqnx/rsp.go). */
module RspCodec {
  import opened Sequences
  import opened Bytes
  import opened HexText

  const DOLLAR: byte := 0x24
  const HASH: byte := 0x23
  const ESC: byte := 0x7d
  const STAR: byte := 0x2a
  const PLUS: byte := 0x2b
  const MINUS: byte := 0x2d

  predicate IsSpecial(b: byte) {
    b == DOLLAR || b == HASH || b == ESC || b == STAR
  }

  function EscapeByte(b: byte): seq<byte> {
    if IsSpecial(b) then [ESC, FlipBit5(b)] else [b]
  }

  function Escape(p: seq<byte>): seq<byte> {
    if p == [] then [] else EscapeByte(p[0]) + Escape(p[1..])
  }

  function Repeat(b: byte, n: int): (r: seq<byte>)
    ensures |r| == if n < 0 then 0 else n
  {
    seq<byte>(if n < 0 then 0 else n, _ => b)
  }

  /** The client's decoder: escapes and run lengths, the latter repeating the last octet decoded. */
  function DecodeFrom(p: seq<byte>, out: seq<byte>): seq<byte>
    decreases |p|
  {
    if p == [] then out
    else if p[0] == ESC then
      if |p| > 1 then DecodeFrom(p[2..], out + [FlipBit5(p[1])]) else DecodeFrom(p[1..], out)
    else if p[0] == STAR then
      if |p| > 1 && out != [] then DecodeFrom(p[2..], out + Repeat(out[|out| - 1], p[1] as int - 29))
      else DecodeFrom(p[1..], out)
    else DecodeFrom(p[1..], out + [p[0]])
  }

  function Decode(p: seq<byte>): seq<byte> {
    DecodeFrom(p, [])
  }

  /** The stub's decoder: escapes only. */
  function StubDecode(p: seq<byte>): seq<byte> {
    if p == [] then []
    else if p[0] == ESC && |p| > 1 then [FlipBit5(p[1])] + StubDecode(p[2..])
    else [p[0]] + StubDecode(p[1..])
  }

  function Checksum(p: seq<byte>): byte {
    Sum(p) % 256
  }

  // ----- run-length encoding -----

  /** One octet, repeated further times when a run length is given. */
  datatype Item = Once(b: byte) | Run(b: byte, extra: nat)

  predicate Encodable(item: Item) {
    item.Run? ==> item.extra + 29 < 256
  }

  function EncodeItem(item: Item): seq<byte>
    requires Encodable(item)
  {
    EscapeByte(item.b) + (if item.Run? then [STAR, item.extra + 29] else [])
  }

  function Encode(items: seq<Item>): seq<byte>
    requires forall i | 0 <= i < |items| :: Encodable(items[i])
  {
    if items == [] then [] else EncodeItem(items[0]) + Encode(items[1..])
  }

  function ExpandItem(item: Item): seq<byte> {
    [item.b] + (if item.Run? then Repeat(item.b, item.extra) else [])
  }

  function Expand(items: seq<Item>): seq<byte> {
    if items == [] then [] else ExpandItem(items[0]) + Expand(items[1..])
  }

  lemma DecodeItem(item: Item, tail: seq<byte>, out: seq<byte>)
    requires Encodable(item)
    ensures DecodeFrom(EncodeItem(item) + tail, out) == DecodeFrom(tail, out + ExpandItem(item))
  {
    if item.Once? {
      assert EncodeItem(item) + tail == EscapeByte(item.b) + tail;
      assert out + ExpandItem(item) == out + [item.b];
    } else {
      var run := [STAR, item.extra + 29];
      assert EncodeItem(item) + tail == EscapeByte(item.b) + (run + tail);
      assert (run + tail)[2..] == tail;
      assert out + [item.b] + Repeat(item.b, item.extra) == out + ExpandItem(item);
    }
  }

  /** The decoder inverts every escaped run-length encoding. */
  lemma {:induction false} DecodeInvertsEncode(items: seq<Item>, tail: seq<byte>, out: seq<byte>)
    requires forall i | 0 <= i < |items| :: Encodable(items[i])
    ensures DecodeFrom(Encode(items) + tail, out) == DecodeFrom(tail, out + Expand(items))
  {
    if items == [] {
      assert Encode(items) + tail == tail && out + Expand(items) == out;
    } else {
      FirstItem(items, tail, out);
      DecodeItem(items[0], Encode(items[1..]) + tail, out);
      DecodeInvertsEncode(items[1..], tail, out + ExpandItem(items[0]));
    }
  }

  lemma FirstItem(items: seq<Item>, tail: seq<byte>, out: seq<byte>)
    requires items != [] && forall i | 0 <= i < |items| :: Encodable(items[i])
    ensures Encode(items) + tail == EncodeItem(items[0]) + (Encode(items[1..]) + tail)
    ensures out + ExpandItem(items[0]) + Expand(items[1..]) == out + Expand(items)
  {
    Regroup(EncodeItem(items[0]), Encode(items[1..]), tail);
    Regroup(out, ExpandItem(items[0]), Expand(items[1..]));
  }

  function Singles(p: seq<byte>): (items: seq<Item>)
    ensures forall i | 0 <= i < |items| :: Encodable(items[i])
  {
    if p == [] then [] else [Once(p[0])] + Singles(p[1..])
  }

  lemma {:induction false} SinglesEncode(p: seq<byte>)
    ensures Encode(Singles(p)) == Escape(p) && Expand(Singles(p)) == p
  {
    if p != [] {
      SinglesEncode(p[1..]);
      assert Singles(p)[1..] == Singles(p[1..]);
    }
  }

  /** Plain escaping is the encoding without run lengths, so decoding undoes it for every payload. */
  lemma DecodeInvertsEscape(p: seq<byte>)
    ensures Decode(Escape(p)) == p
  {
    SinglesEncode(p);
    DecodeInvertsEncode(Singles(p), [], []);
    assert Escape(p) + [] == Escape(p) && [] + p == p;
  }

  lemma {:induction false} StubDecodeInvertsEscape(p: seq<byte>)
    ensures StubDecode(Escape(p)) == p
  {
    if p != [] {
      StubDecodeInvertsEscape(p[1..]);
    }
  }

  lemma {:induction false} EscapeHidesMarkers(p: seq<byte>)
    ensures DOLLAR !in Escape(p) && HASH !in Escape(p)
  {
    if p != [] {
      EscapeHidesMarkers(p[1..]);
    }
  }

  // ----- hexadecimal -----

  function HexDigit(d: digit): byte {
    if d < 10 then 48 + d else 97 + (d - 10)
  }

  /** Digits of either case; anything else counts as zero. */
  function FromHex(b: byte): digit {
    if 48 <= b <= 57 then b - 48
    else if 97 <= b <= 102 then b - 97 + 10
    else if 65 <= b <= 70 then b - 65 + 10
    else 0
  }

  function HexByte(b: byte): (r: seq<byte>)
    ensures |r| == 2
  {
    [HexDigit(b / 16), HexDigit(b % 16)]
  }

  function UnhexByte(hi: byte, lo: byte): byte {
    FromHex(hi) * 16 + FromHex(lo)
  }

  lemma UnhexHexByte(b: byte)
    ensures UnhexByte(HexByte(b)[0], HexByte(b)[1]) == b
  {
  }

  function HexEncode(p: seq<byte>): (r: seq<byte>)
    ensures |r| == 2 * |p|
  {
    if p == [] then [] else HexByte(p[0]) + HexEncode(p[1..])
  }

  datatype Decoded = Bytes(bytes: seq<byte>) | OddLength

  function HexDecode(s: seq<byte>): Decoded {
    if |s| % 2 != 0 then OddLength
    else Bytes(seq<byte>(|s| / 2, i requires 0 <= i < |s| / 2 => UnhexByte(s[2 * i], s[2 * i + 1])))
  }

  lemma {:induction false} HexEncodeAt(p: seq<byte>, i: nat)
    requires i < |p|
    ensures HexEncode(p)[2 * i] == HexByte(p[i])[0] && HexEncode(p)[2 * i + 1] == HexByte(p[i])[1]
  {
    if i > 0 {
      HexEncodeAt(p[1..], i - 1);
    }
  }

  lemma HexDecodeInvertsEncode(p: seq<byte>)
    ensures HexDecode(HexEncode(p)) == Bytes(p)
  {
    forall i | 0 <= i < |p|
      ensures HexDecode(HexEncode(p)).bytes[i] == p[i]
    {
      HexEncodeAt(p, i);
      UnhexHexByte(p[i]);
    }
  }

  // ----- the codec's loops -----

  method ComputeEscape(p: seq<byte>) returns (out: seq<byte>)
    ensures out == Escape(p)
  {
    out := [];
    ghost var all := Escape(p);
    assert p[0..] == p && [] + all == all;
    for i := 0 to |p|
      invariant out + Escape(p[i..]) == all
    {
      EscapeNext(p, i, out);
      if IsSpecial(p[i]) {
        out := out + [ESC, FlipBit5(p[i])];
      } else {
        out := out + [p[i]];
      }
    }
    assert out + [] == out;
  }

  lemma EscapeNext(p: seq<byte>, i: nat, out: seq<byte>)
    requires i < |p|
    ensures out + Escape(p[i..]) == out + EscapeByte(p[i]) + Escape(p[i + 1..])
  {
    assert p[i..][1..] == p[i + 1..];
    Regroup(out, EscapeByte(p[i]), Escape(p[i + 1..]));
  }

  method ComputeDecode(p: seq<byte>) returns (out: seq<byte>)
    ensures out == Decode(p)
  {
    out := [];
    var i := 0;
    while i < |p|
      invariant 0 <= i <= |p|
      invariant DecodeFrom(p[i..], out) == Decode(p)
    {
      assert p[i..][1..] == p[i + 1..];
      assert i + 1 < |p| ==> p[i..][2..] == p[i + 2..];
      if p[i] == ESC {
        if i + 1 < |p| {
          i := i + 1;
          out := out + [FlipBit5(p[i])];
        }
      } else if p[i] == STAR {
        if i + 1 < |p| && |out| > 0 {
          out := AppendRun(out, p[i + 1] as int - 29);
          i := i + 1;
        }
      } else {
        out := out + [p[i]];
      }
      i := i + 1;
    }
  }

  method AppendRun(out: seq<byte>, count: int) returns (longer: seq<byte>)
    requires out != []
    ensures longer == out + Repeat(out[|out| - 1], count)
  {
    var last := out[|out| - 1];
    longer := out;
    var j := 0;
    while j < count
      invariant j <= count || j == 0
      invariant longer == out + Repeat(last, j)
    {
      longer := longer + [last];
      j := j + 1;
    }
  }

  method ComputeStubDecode(p: seq<byte>) returns (out: seq<byte>)
    ensures out == StubDecode(p)
  {
    out := [];
    var i := 0;
    ghost var all := StubDecode(p);
    assert p[0..] == p && [] + all == all;
    while i < |p|
      invariant 0 <= i <= |p|
      invariant out + StubDecode(p[i..]) == all
    {
      StubDecodeNext(p, i, out);
      if p[i] == ESC && i + 1 < |p| {
        i := i + 1;
        out := out + [FlipBit5(p[i])];
      } else {
        out := out + [p[i]];
      }
      i := i + 1;
    }
    assert out + [] == out;
  }

  lemma StubDecodeNext(p: seq<byte>, i: nat, out: seq<byte>)
    requires i < |p|
    ensures out + StubDecode(p[i..]) ==
      if p[i] == ESC && i + 1 < |p| then out + [FlipBit5(p[i + 1])] + StubDecode(p[i + 2..])
      else out + [p[i]] + StubDecode(p[i + 1..])
  {
    if p[i] == ESC && i + 1 < |p| {
      assert p[i..][2..] == p[i + 2..];
      Regroup(out, [FlipBit5(p[i + 1])], StubDecode(p[i + 2..]));
    } else {
      assert p[i..][1..] == p[i + 1..];
      Regroup(out, [p[i]], StubDecode(p[i + 1..]));
    }
  }

  method ComputeChecksum(p: seq<byte>) returns (s: byte)
    ensures s == Checksum(p)
  {
    s := ByteSum(p);
  }
}

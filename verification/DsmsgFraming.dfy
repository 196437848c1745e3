/** The on-wire frame of the QNX DSMSG debug protocol: 0x7e delimiters, 0x7d escapes and a
    one's-complement checksum (internal/qnxdbg/protocol.go). */
module DsmsgFraming {
  import opened Sequences
  import opened Bytes

  const FRAME_CHAR: byte := 0x7e
  const ESC_CHAR: byte := 0x7d

  function Checksum(b: seq<byte>): byte {
    255 - Sum(b) % 256
  }

  function EscapeByte(c: byte): seq<byte> {
    if c == FRAME_CHAR || c == ESC_CHAR then [ESC_CHAR, FlipBit5(c)] else [c]
  }

  function Escape(b: seq<byte>): seq<byte> {
    if b == [] then [] else EscapeByte(b[0]) + Escape(b[1..])
  }

  function Unescape(b: seq<byte>): (r: seq<byte>)
    ensures |r| <= |b|
    ensures b != [] ==> r != []
  {
    if b == [] then []
    else if b[0] == ESC_CHAR && |b| > 1 then [FlipBit5(b[1])] + Unescape(b[2..])
    else [b[0]] + Unescape(b[1..])
  }

  /** The octets between the two delimiters of a frame. */
  function FrameContent(payload: seq<byte>): seq<byte> {
    Escape(payload) + Escape([Checksum(payload)])
  }

  function Frame(payload: seq<byte>): seq<byte> {
    [FRAME_CHAR] + FrameContent(payload) + [FRAME_CHAR]
  }

  predicate NoDelimiter(b: seq<byte>) {
    FRAME_CHAR !in b
  }

  lemma {:induction false} EscapeHidesDelimiter(b: seq<byte>)
    ensures NoDelimiter(Escape(b))
    ensures b != [] ==> Escape(b) != []
  {
    if b != [] {
      EscapeHidesDelimiter(b[1..]);
    }
  }

  /** Unescaping undoes escaping whatever follows, so it never reads across an escaped prefix. */
  lemma {:induction false} UnescapeEscape(b: seq<byte>, tail: seq<byte>)
    ensures Unescape(Escape(b) + tail) == b + Unescape(tail)
  {
    if b == [] {
      assert Escape(b) + tail == tail;
    } else {
      var t := Escape(b[1..]) + tail;
      Regroup(EscapeByte(b[0]), Escape(b[1..]), tail);
      UnescapeEscape(b[1..], tail);
      Regroup([b[0]], b[1..], Unescape(tail));
      assert [b[0]] + b[1..] == b;
    }
  }

  lemma FrameContentRoundTrip(payload: seq<byte>)
    ensures Unescape(FrameContent(payload)) == payload + [Checksum(payload)]
    ensures NoDelimiter(FrameContent(payload))
    ensures FrameContent(payload) != []
  {
    var c := [Checksum(payload)];
    UnescapeEscape(payload, Escape(c));
    UnescapeEscape(c, []);
    assert Escape(c) + [] == Escape(c);
    EscapeHidesDelimiter(payload);
    EscapeHidesDelimiter(c);
  }

  /** Replacing one content octet by another, neither of them an escape, changes exactly one
      octet of the unescaped content. */
  lemma {:induction false} UnescapeUpdate(c: seq<byte>, k: nat, x: byte) returns (j: nat)
    requires k < |c| && x != c[k]
    requires c[k] != ESC_CHAR && x != ESC_CHAR
    ensures j < |Unescape(c)|
    ensures |Unescape(c[k := x])| == |Unescape(c)|
    ensures Unescape(c[k := x])[j] != Unescape(c)[j]
    ensures Unescape(c[k := x]) == Unescape(c)[j := Unescape(c[k := x])[j]]
  {
    var d := c[k := x];
    if c[0] == ESC_CHAR && |c| > 1 {
      if k == 1 {
        assert d[2..] == c[2..];
        j := 0;
      } else {
        assert d[2..] == c[2..][k - 2 := x];
        var i := UnescapeUpdate(c[2..], k - 2, x);
        j := i + 1;
        BehindOne(FlipBit5(c[1]), Unescape(c[2..]), Unescape(d[2..]), i);
      }
    } else if k == 0 {
      assert d[1..] == c[1..];
      j := 0;
    } else {
      assert d[1..] == c[1..][k - 1 := x];
      var i := UnescapeUpdate(c[1..], k - 1, x);
      j := i + 1;
      BehindOne(c[0], Unescape(c[1..]), Unescape(d[1..]), i);
    }
  }

  lemma BehindOne(h: byte, t: seq<byte>, u: seq<byte>, i: nat)
    requires i < |t| == |u| && u[i] != t[i] && u == t[i := u[i]]
    ensures var a, b := [h] + t, [h] + u;
      |a| == |b| && b[i + 1] != a[i + 1] && b == a[i + 1 := b[i + 1]]
  {
  }

  // ----- the loops of protocol.go -----

  method ComputeChecksum(b: seq<byte>) returns (r: byte)
    ensures r == Checksum(b)
  {
    var s := ByteSum(b);
    r := 255 - s;
  }

  method ComputeEscape(b: seq<byte>) returns (out: seq<byte>)
    ensures out == Escape(b)
  {
    out := [];
    ghost var all := Escape(b);
    assert b[0..] == b && [] + all == all;
    for i := 0 to |b|
      invariant out + Escape(b[i..]) == all
    {
      EscapeNext(b, i, out);
      if b[i] == FRAME_CHAR || b[i] == ESC_CHAR {
        out := out + [ESC_CHAR, FlipBit5(b[i])];
      } else {
        out := out + [b[i]];
      }
    }
    assert out + [] == out;
  }

  lemma EscapeNext(b: seq<byte>, i: nat, out: seq<byte>)
    requires i < |b|
    ensures out + Escape(b[i..]) == out + EscapeByte(b[i]) + Escape(b[i + 1..])
  {
    assert b[i..][1..] == b[i + 1..];
    Regroup(out, EscapeByte(b[i]), Escape(b[i + 1..]));
  }

  method ComputeUnescape(b: seq<byte>) returns (out: seq<byte>)
    ensures out == Unescape(b)
  {
    out := [];
    var i := 0;
    ghost var all := Unescape(b);
    assert b[0..] == b && [] + all == all;
    while i < |b|
      invariant 0 <= i <= |b|
      invariant out + Unescape(b[i..]) == all
    {
      if b[i] == ESC_CHAR && i + 1 < |b| {
        i := i + 1;
        out := out + [FlipBit5(b[i])];
      } else {
        out := out + [b[i]];
      }
      i := i + 1;
    }
    assert out + [] == out;
  }

  method ComputeFrame(payload: seq<byte>) returns (out: seq<byte>)
    ensures out == Frame(payload)
  {
    var cs := ComputeChecksum(payload);
    var body := ComputeEscape(payload);
    var tail := ComputeEscape([cs]);
    out := [FRAME_CHAR] + body + tail + [FRAME_CHAR];
    assert out == Frame(payload);
  }
}

/** Packets on the wire and the mock stub (internal/mockqnx/rsp.go). */
module RspStub {
  import opened Sequences
  import opened Bytes
  import opened HexText
  import opened RspCodec

  // ----- packets -----

  datatype Packet = NoPacket | Packet(raw: seq<byte>, hi: byte, lo: byte, rest: seq<byte>)

  /** The first complete packet: a dollar, anything up to a hash, two checksum digits. */
  function NextPacket(s: seq<byte>): (r: Packet)
    ensures r.Packet? ==> |r.rest| < |s|
  {
    var i := IndexOf(s, DOLLAR);
    if i == |s| then NoPacket
    else
      var t := s[i + 1..];
      var j := IndexOf(t, HASH);
      if j + 2 < |t| then Packet(t[..j], t[j + 1], t[j + 2], t[j + 3..]) else NoPacket
  }

  function WirePacket(payload: seq<byte>): seq<byte> {
    var body := Escape(payload);
    [DOLLAR] + body + [HASH] + HexByte(Checksum(body))
  }

  /** Junk without a dollar in front of a packet is skipped, and the packet is found whole. */
  lemma NextPacketOf(junk: seq<byte>, payload: seq<byte>, rest: seq<byte>)
    requires DOLLAR !in junk
    ensures var body := Escape(payload);
      var cs := HexByte(Checksum(body));
      && NextPacket(junk + WirePacket(payload) + rest) == Packet(body, cs[0], cs[1], rest)
      && UnhexByte(cs[0], cs[1]) == Checksum(body)
  {
    var body := Escape(payload);
    EscapeHidesMarkers(payload);
    PacketIsFound(junk, body, HexByte(Checksum(body)), rest);
    UnhexHexByte(Checksum(body));
  }

  lemma PacketIsFound(junk: seq<byte>, body: seq<byte>, cs: seq<byte>, rest: seq<byte>)
    requires DOLLAR !in junk && HASH !in body && |cs| == 2
    ensures NextPacket(junk + ([DOLLAR] + body + [HASH] + cs) + rest) == Packet(body, cs[0], cs[1], rest)
  {
    var s := junk + ([DOLLAR] + body + [HASH] + cs) + rest;
    var t := body + [HASH] + (cs + rest);
    assert s == junk + [DOLLAR] + t;
    IndexOfAfter(junk, DOLLAR, t);
    assert s[|junk| + 1..] == t;
    IndexOfAfter(body, HASH, cs + rest);
    assert t[..|body|] == body && t[|body| + 3..] == rest;
  }

  // ----- the stub's replies -----

  const CLOSE: seq<byte> := [0] + Ascii("__close__")

  const FEATURES: string := "PacketSize=4000;" + "multiprocess+;" + "vContSupported+;" + "QStartNoAckMode+"

  predicate HasPrefix(p: seq<byte>, prefix: seq<byte>) {
    prefix <= p
  }

  /** `ParseUint(s, 16, 64)` with its error ignored: zero for a malformed numeral, the largest
      value for one that does not fit. */
  function ParseUint(s: seq<byte>): nat {
    if s == [] || exists i | 0 <= i < |s| :: !IsHex(s[i]) then 0
    else
      var v := Value(seq<digit>(|s|, i requires 0 <= i < |s| => FromHex(s[i])));
      if v < TWO_64 then v else TWO_64 - 1
  }

  predicate IsHex(b: byte) {
    48 <= b <= 57 || 97 <= b <= 102 || 65 <= b <= 70
  }

  function Registers(): seq<byte> {
    seq<byte>(128, i requires 0 <= i < 128 => i)
  }

  function Handle(p: seq<byte>): seq<byte> {
    if p == [] then []
    else if HasPrefix(p, Ascii("qSupported")) then Ascii(FEATURES)
    else if p == Ascii("QStartNoAckMode") then Ascii("OK")
    else if HasPrefix(p, Ascii("vAttach")) then Ascii("T05thread:1;")
    else HandleRunning(p)
  }

  /** The cases of a stopped or running process. */
  function HandleRunning(p: seq<byte>): seq<byte>
    requires p != []
  {
    if p == Ascii("?") || p == Ascii("c") || p == Ascii("s") then Ascii("T05thread:1;")
    else if p == Ascii("g") then HexEncode(Registers())
    else if HasPrefix(p, Ascii("m")) then HandleRead(p[1..])
    else HandleOther(p)
  }

  /** The cases after the memory read. */
  function HandleOther(p: seq<byte>): seq<byte> {
    if HasPrefix(p, Ascii("M")) || HasPrefix(p, Ascii("Z")) || HasPrefix(p, Ascii("z")) then Ascii("OK")
    else if p == Ascii("qfThreadInfo") then Ascii("m1")
    else if p == Ascii("qsThreadInfo") then Ascii("l")
    else if HasPrefix(p, Ascii("Hg")) || HasPrefix(p, Ascii("Hc")) then Ascii("OK")
    else if p == Ascii("D") then Ascii("OK")
    else if p == Ascii("k") then CLOSE
    else []
  }

  function HandleRead(body: seq<byte>): seq<byte> {
    var comma := IndexOf(body, 0x2c);
    if comma == |body| then Ascii("E01")
    else HexEncode(Memory(ParseUint(body[..comma]), ParseUint(body[comma + 1..])))
  }

  lemma TextIsNotClose(s: string)
    requires s != "" && s[0] as int % 256 != 0
    ensures Ascii(s) != CLOSE
  {
    assert Ascii(s)[0] != CLOSE[0];
  }

  lemma HexIsNotClose(bytes: seq<byte>)
    ensures HexEncode(bytes) != CLOSE
  {
    if bytes != [] {
      assert HexEncode(bytes)[0] == HexDigit(bytes[0] / 16) != 0;
    }
  }

  lemma RepliesAreNotClose()
    ensures Ascii(FEATURES) != CLOSE
    ensures Ascii("OK") != CLOSE && Ascii("T05thread:1;") != CLOSE && Ascii("E01") != CLOSE
    ensures Ascii("m1") != CLOSE && Ascii("l") != CLOSE
  {
    TextIsNotClose(FEATURES);
    TextIsNotClose("OK");
    TextIsNotClose("T05thread:1;");
    TextIsNotClose("E01");
    TextIsNotClose("m1");
    TextIsNotClose("l");
  }

  lemma KillCloses()
    ensures Handle(Ascii("k")) == CLOSE
  {
    var p := Ascii("k");
    assert |p| == 1 && p[0] == 0x6b;
    assert Ascii("?")[0] == 0x3f && Ascii("c")[0] == 0x63 && Ascii("s")[0] == 0x73 && Ascii("g")[0] == 0x67;
    assert Ascii("m")[0] == 0x6d && Ascii("M")[0] == 0x4d && Ascii("Z")[0] == 0x5a && Ascii("z")[0] == 0x7a;
    assert Ascii("D")[0] == 0x44;
  }

  /** Only the kill packet closes the connection. */
  lemma OnlyKillCloses(p: seq<byte>)
    ensures Handle(p) == CLOSE <==> p == Ascii("k")
  {
    if p == Ascii("k") {
      KillCloses();
    } else {
      OthersDoNotClose(p);
    }
  }

  lemma OthersDoNotClose(p: seq<byte>)
    requires p != Ascii("k")
    ensures Handle(p) != CLOSE
  {
    RepliesAreNotClose();
    if p != [] {
      RunningIsNotClose(p);
    }
  }

  lemma RunningIsNotClose(p: seq<byte>)
    requires p != [] && p != Ascii("k")
    ensures HandleRunning(p) != CLOSE
  {
    RepliesAreNotClose();
    HexIsNotClose(Registers());
    OtherIsNotClose(p);
    ReadIsNotClose(p[1..]);
  }

  lemma OtherIsNotClose(p: seq<byte>)
    requires p != Ascii("k")
    ensures HandleOther(p) != CLOSE
  {
    RepliesAreNotClose();
  }

  lemma ReadIsNotClose(body: seq<byte>)
    ensures HandleRead(body) != CLOSE
  {
    RepliesAreNotClose();
    var comma := IndexOf(body, 0x2c);
    if comma < |body| {
      HexIsNotClose(Memory(ParseUint(body[..comma]), ParseUint(body[comma + 1..])));
    }
  }

  // ----- the stub's run -----

  /** A stub's reply to a payload; the mock's is `Handle`. */
  type Handler = seq<byte> -> seq<byte>

  /** What a stub writes for a packet, whether that ends the connection, and how many more it refuses. */
  datatype Reaction = Reaction(written: seq<byte>, last: bool, refusals: nat)

  /** The next `refusals` packets are damaged on the way and answered with a minus; the mock itself
      refuses none. */
  function React(handle: Handler, raw: seq<byte>, refusals: nat): Reaction {
    if refusals > 0 then Reaction([MINUS], false, refusals - 1)
    else
      var resp := handle(StubDecode(raw));
      if resp == CLOSE then Reaction([PLUS], true, 0) else Reaction([PLUS] + WirePacket(resp), false, 0)
  }

  type ReactFn = (seq<byte>, nat) -> Reaction

  /** The function value is the reaction of a stub with this handler. (The trigger keeps proofs about the
      loop free of what that is.) */
  ghost predicate Implements(react: ReactFn, handle: Handler) {
    forall raw: seq<byte>, refusals: nat {:trigger React(handle, raw, refusals)} ::
      react(raw, refusals) == React(handle, raw, refusals)
  }

  datatype StubRun = StubRun(out: seq<byte>, rest: seq<byte>, closed: bool, refusals: nat)

  /** What a stub with these reactions writes for the input `s`. */
  function Serve(react: ReactFn, s: seq<byte>, refusals: nat): StubRun
    decreases |s|
  {
    match NextPacket(s)
    case NoPacket => StubRun([], s, false, refusals)
    case Packet(raw, _, _, rest) =>
      var r := react(raw, refusals);
      if r.last then StubRun(r.written, rest, true, r.refusals)
      else Resume(r.written, Serve(react, rest, r.refusals))
  }

  function Resume(out: seq<byte>, later: StubRun): StubRun {
    later.(out := out + later.out)
  }

  /** One packet of the run, appended to what was written before. */
  lemma ServeRound(react: ReactFn, out: seq<byte>, s: seq<byte>, refusals: nat)
    ensures var p := NextPacket(s);
      var all := Resume(out, Serve(react, s, refusals));
      if p.NoPacket? then all == StubRun(out, s, false, refusals)
      else
        var r := react(p.raw, refusals);
        all == if r.last then StubRun(out + r.written, p.rest, true, r.refusals)
               else Resume(out + r.written, Serve(react, p.rest, r.refusals))
  {
    var p := NextPacket(s);
    if p.NoPacket? {
      assert out + [] == out;
    } else {
      var r := react(p.raw, refusals);
      Regroup(out, r.written, Serve(react, p.rest, r.refusals).out);
    }
  }

  class Stub {
    const handle: Handler
    ghost const react: ReactFn
    var inbox: seq<byte>
    var closed: bool
    var refusals: nat

    constructor (handle: Handler, refusals: nat)
      ensures this.handle == handle && Implements(react, handle)
      ensures inbox == [] && !closed && this.refusals == refusals
    {
      this.handle := handle;
      react := (raw: seq<byte>, n: nat) => React(handle, raw, n);
      inbox, closed, this.refusals := [], false, refusals;
    }

    /** The read/handle/write loop, run until it would block for more input. */
    method Receive(bytes: seq<byte>) returns (out: seq<byte>)
      requires Implements(react, handle)
      modifies this
      ensures !old(closed) ==> StubRun(out, inbox, closed, refusals) == Serve(react, old(inbox) + bytes, old(refusals))
      ensures old(closed) ==> out == [] && closed && inbox == old(inbox) && refusals == old(refusals)
    {
      out := [];
      if closed {
        return;
      }
      inbox := inbox + bytes;
      ghost var all := Serve(react, inbox, refusals);
      assert [] + all.out == all.out;
      while true
        invariant !closed && all == Resume(out, Serve(react, inbox, refusals))
        decreases |inbox|
      {
        ServeRound(react, out, inbox, refusals);
        var p := ReadPacket(inbox);
        if p.NoPacket? {
          return;
        }
        inbox := p.rest;
        var written, last := Handle(p.raw);
        out := out + written;
        if last {
          closed := true;
          return;
        }
      }
    }

    /** One packet: refused, or acknowledged and answered, unless it ends the connection. */
    method Handle(raw: seq<byte>) returns (written: seq<byte>, last: bool)
      requires Implements(react, handle)
      modifies this`refusals
      ensures Reaction(written, last, refusals) == react(raw, old(refusals))
    {
      ghost var r := React(handle, raw, refusals);
      if refusals > 0 {
        refusals := refusals - 1;
        return [MINUS], false;
      }
      written := [PLUS];
      var payload := ComputeStubDecode(raw);
      var resp := handle(payload);
      if resp == CLOSE {
        return written, true;
      }
      var packet := WritePacket(resp);
      written, last := written + packet, false;
    }
  }

  /** The reading loops of both sides: up to a dollar, then up to a hash, then two digits. */
  method ReadPacket(s: seq<byte>) returns (r: Packet)
    ensures r == NextPacket(s)
  {
    var i := SkipToStart(s);
    if i == |s| {
      return NoPacket;
    }
    r := ReadBody(s[i + 1..]);
  }

  method SkipToStart(s: seq<byte>) returns (i: nat)
    ensures i == IndexOf(s, DOLLAR)
  {
    i := 0;
    while i < |s| && s[i] != DOLLAR
      invariant 0 <= i <= |s|
      invariant DOLLAR !in s[..i]
    {
      assert s[..i + 1] == s[..i] + [s[i]];
      i := i + 1;
    }
    if i == |s| {
      assert s[..i] == s;
    } else {
      assert s == s[..i] + [DOLLAR] + s[i + 1..];
      IndexOfAfter(s[..i], DOLLAR, s[i + 1..]);
    }
  }

  method ReadBody(t: seq<byte>) returns (r: Packet)
    ensures var j := IndexOf(t, HASH);
      r == if j + 2 < |t| then Packet(t[..j], t[j + 1], t[j + 2], t[j + 3..]) else NoPacket
  {
    var raw: seq<byte> := [];
    var j := 0;
    while j < |t| && t[j] != HASH
      invariant 0 <= j <= |t|
      invariant raw == t[..j] && HASH !in raw
    {
      raw := raw + [t[j]];
      j := j + 1;
    }
    if j == |t| {
      assert raw == t;
      return NoPacket;
    }
    assert t == raw + [HASH] + t[j + 1..];
    IndexOfAfter(raw, HASH, t[j + 1..]);
    if j + 2 < |t| {
      r := Packet(raw, t[j + 1], t[j + 2], t[j + 3..]);
    } else {
      r := NoPacket;
    }
  }

  method WritePacket(payload: seq<byte>) returns (packet: seq<byte>)
    ensures packet == WirePacket(payload)
  {
    var body := ComputeEscape(payload);
    var sum := ComputeChecksum(body);
    packet := [DOLLAR] + body;
    packet := packet + [HASH] + HexByte(sum);
  }
}

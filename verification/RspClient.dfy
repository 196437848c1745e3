/** The RSP client (internal/debug/rsp.go) talking to the mock stub: every octet the client writes
    is handed to the stub, and every octet the stub writes is appended to the client's unread
    input. */
module RspClient {
  import opened Sequences
  import opened Bytes
  import opened HexText
  import opened RspCodec
  import opened RspStub

  datatype Reply = Reply(payload: seq<byte>) | BadChecksum | TooManyNaks | EndOfInput

  /** What becomes of a packet: acknowledged (or sent, in no-ack mode), refused, or sent into the void. */
  datatype Delivery = Delivered | Refused | Lost

  const MAX_ATTEMPTS: nat := 5

  predicate IsAck(b: byte) {
    b == PLUS || b == MINUS
  }

  /** Where the first acknowledgement is; the length if there is none. */
  function AckIndex(s: seq<byte>): (k: nat)
    ensures k <= |s|
    ensures k < |s| ==> IsAck(s[k])
    ensures forall i | 0 <= i < k :: !IsAck(s[i])
  {
    if s == [] || IsAck(s[0]) then 0 else 1 + AckIndex(s[1..])
  }

  class Client {
    const stub: Stub
    var br: seq<byte>
    var noAck: bool
    /** Everything written so far, packets and acknowledgements. */
    ghost var sent: seq<byte>

    /** Between commands nothing is unread here, and no packet has been begun there. The stub may have
        closed the connection. */
    ghost predicate Valid()
      reads this, stub
    {
      && Implements(stub.react, stub.handle)
      && br == []
      && DOLLAR !in stub.inbox
      && (noAck ==> stub.refusals == 0)
    }

    constructor (stub: Stub)
      requires Implements(stub.react, stub.handle) && stub.inbox == [] && !stub.closed
      ensures this.stub == stub
      ensures Valid() && !noAck && sent == []
    {
      this.stub := stub;
      br, noAck, sent := [], false, [];
    }

    method Write(bytes: seq<byte>)
      requires Implements(stub.react, stub.handle)
      modifies this`br, this`sent, stub
      ensures !old(stub.closed) ==>
        var run := Serve(stub.react, old(stub.inbox) + bytes, old(stub.refusals));
        && stub.inbox == run.rest && stub.closed == run.closed && stub.refusals == run.refusals
        && br == old(br) + run.out
      ensures old(stub.closed) ==>
        stub.closed && stub.inbox == old(stub.inbox) && stub.refusals == old(stub.refusals) && br == old(br)
      ensures sent == old(sent) + bytes
    {
      var answer := stub.Receive(bytes);
      br := br + answer;
      sent := sent + bytes;
    }

    /** Reads up to and including the next acknowledgement, skipping stray octets. */
    method ReadAck() returns (found: bool, ack: byte)
      modifies this`br
      ensures var k := AckIndex(old(br));
        if k == |old(br)| then !found && br == []
        else found && ack == old(br)[k] && br == old(br)[k + 1..]
    {
      var i := 0;
      while i < |br|
        invariant 0 <= i <= |br|
        invariant AckIndex(br) == i + AckIndex(br[i..])
      {
        if IsAck(br[i]) {
          found, ack := true, br[i];
          br := br[i + 1..];
          return;
        }
        assert br[i..][1..] == br[i + 1..];
        i := i + 1;
      }
      found, ack := false, 0;
      br := [];
    }

    /** One transmission: acknowledged, or refused or lost and everything as before. */
    method Transmit(payload: seq<byte>, packet: seq<byte>) returns (d: Delivery)
      requires Valid() && packet == WirePacket(payload)
      modifies this`br, this`sent, stub
      ensures d == Fate(noAck, old(stub.closed), old(stub.refusals))
      ensures sent == old(sent) + packet
      ensures stub.closed == (old(stub.closed) || (d == Delivered && stub.handle(payload) == CLOSE))
      ensures d == Delivered && !old(stub.closed) ==> stub.inbox == [] && stub.refusals == 0
      ensures d == Delivered && !old(stub.closed) ==>
        br == (if noAck then [PLUS] else []) + AnswerTo(stub.handle, payload, 0)
      ensures d != Delivered || old(stub.closed) ==> Valid()
      ensures d == Refused ==> stub.refusals == old(stub.refusals) - 1
      ensures old(stub.closed) ==> stub.refusals == old(stub.refusals)
    {
      ghost var ack, answer := if stub.refusals > 0 then MINUS else PLUS, AnswerTo(stub.handle, payload, stub.refusals);
      ServeOnePacket(stub.react, stub.handle, stub.inbox, payload, stub.refusals);
      assert [] + ([ack] + answer) == [ack] + answer;
      Write(packet);
      if noAck {
        return Delivered;
      }
      d := AwaitAck(old(stub.closed), ack, answer);
    }

    /** The next acknowledgement, `first` unless the stub is gone. */
    method AwaitAck(ghost gone: bool, ghost first: byte, ghost rest: seq<byte>) returns (d: Delivery)
      requires if gone then br == [] else IsAck(first) && br == [first] + rest
      modifies this`br
      ensures d == if gone then Lost else if first == PLUS then Delivered else Refused
      ensures br == if gone then [] else rest
    {
      var found, ack := ReadAck();
      d := if !found then Lost else if ack == PLUS then Delivered else Refused;
    }

    /** Sends a packet until it is acknowledged, at most five times; in no-ack mode, once. The number
        of copies is one more than the number of refusals. */
    method SendPacket(payload: seq<byte>) returns (d: Delivery)
      requires Valid()
      modifies this`br, this`sent, stub
      ensures d == Outcome(noAck, old(stub.closed), old(stub.refusals))
      ensures sent == old(sent) + Copies(WirePacket(payload), Attempts(old(stub.closed), old(stub.refusals)))
      ensures stub.closed == (old(stub.closed) || (d == Delivered && stub.handle(payload) == CLOSE))
      ensures d == Delivered && !old(stub.closed) ==> stub.inbox == [] && stub.refusals == 0
      ensures d == Delivered && !old(stub.closed) ==>
        br == (if noAck then [PLUS] else []) + AnswerTo(stub.handle, payload, 0)
      ensures d != Delivered || old(stub.closed) ==> Valid()
      ensures d == Refused ==> stub.refusals == old(stub.refusals) - MAX_ATTEMPTS
    {
      var packet := WritePacket(payload);
      for attempt := 0 to MAX_ATTEMPTS
        invariant Valid() && stub.closed == old(stub.closed)
        invariant stub.refusals == old(stub.refusals) - attempt
        invariant noAck || stub.closed ==> attempt == 0
        invariant sent == old(sent) + Copies(packet, attempt)
      {
        CopiesStep(old(sent), packet, attempt);
        d := Transmit(payload, packet);
        if d != Refused {
          return;
        }
      }
      d := Refused;
    }

    /** Reads one packet, checks it, acknowledges it, except in no-ack mode, and decodes it. */
    method ReadPacket() returns (r: Reply)
      requires Implements(stub.react, stub.handle) && DOLLAR !in stub.inbox
      modifies this`br, this`sent, stub
      ensures match NextPacket(old(br))
        case NoPacket => r == EndOfInput && br == []
        case Packet(raw, hi, lo, rest) =>
          && br == rest
          && r == (if Checksum(raw) == UnhexByte(hi, lo) then Reply(Decode(raw)) else BadChecksum)
      ensures sent == old(sent) +
        if noAck || r.EndOfInput? then [] else [if r.BadChecksum? then MINUS else PLUS]
      ensures DOLLAR !in stub.inbox
      ensures stub.closed == old(stub.closed) && stub.refusals == old(stub.refusals)
    {
      var p := RspStub.ReadPacket(br);
      match p
      case NoPacket =>
        br := [];
        r := EndOfInput;
        assert sent + [] == sent;
      case Packet(raw, hi, lo, rest) =>
        br := rest;
        assert sent + [] == sent;
        var sum := ComputeChecksum(raw);
        var good := sum == UnhexByte(hi, lo);
        if !noAck {
          Acknowledge(if good then PLUS else MINUS);
        }
        if !good {
          return BadChecksum;
        }
        var payload := ComputeDecode(raw);
        r := Reply(payload);
    }

    method Acknowledge(ack: byte)
      requires Implements(stub.react, stub.handle) && IsAck(ack) && DOLLAR !in stub.inbox
      modifies this`br, this`sent, stub
      ensures br == old(br) && DOLLAR !in stub.inbox && sent == old(sent) + [ack]
      ensures stub.closed == old(stub.closed) && stub.refusals == old(stub.refusals)
    {
      var answer := stub.Receive([ack]);
      br := br + answer;
      sent := sent + [ack];
    }

    /** A command and its response: through escaping, framing, checksums and acknowledgements the
        caller sees exactly the stub's answer, or that there is none. */
    method Command(payload: seq<byte>) returns (r: Reply)
      requires Valid()
      modifies this`br, this`sent, stub
      ensures Valid()
      ensures r == Answered(stub.handle, payload, old(stub.closed), old(stub.refusals))
      ensures stub.closed == (old(stub.closed) || r == EndOfInput)
      ensures r != TooManyNaks && !old(stub.closed) ==> stub.refusals == 0
      ensures sent == old(sent) + Copies(WirePacket(payload), Attempts(old(stub.closed), old(stub.refusals)))
                                + if r.Reply? && !noAck then [PLUS] else []
    {
      var d := SendPacket(payload);
      assert sent + [] == sent;
      if d == Lost {
        return EndOfInput;
      }
      if d == Refused {
        return TooManyNaks;
      }
      ghost var junk: seq<byte> := if noAck then [PLUS] else [];
      if !old(stub.closed) {
        AnswerIsRead(stub.handle, payload, junk);
      }
      r := ReadPacket();
    }

    /** Switches to no-ack mode if the stub agrees. */
    method EnableNoAck() returns (r: Reply)
      requires Valid()
      modifies this`br, this`sent, this`noAck, stub
      ensures Valid()
      ensures r == Answered(stub.handle, Ascii("QStartNoAckMode"), old(stub.closed), old(stub.refusals))
      ensures stub.closed == (old(stub.closed) || r == EndOfInput)
      ensures noAck == (old(noAck) || r == Reply(Ascii("OK")))
    {
      r := Command(Ascii("QStartNoAckMode"));
      if !r.Reply? {
        return;
      }
      if r.payload == Ascii("OK") {
        noAck := true;
      }
    }

    /** One call, during which the link refuses the packet some number of times; without acknowledgements
        there are no refusals. */
    method Execute(c: Call, naks: nat) returns (r: Reply)
      requires Valid()
      modifies this`br, this`sent, this`noAck, stub
      ensures Valid()
      ensures r == Answered(stub.handle, PayloadOf(c), old(stub.closed), if old(noAck) then 0 else naks)
      ensures stub.closed == (old(stub.closed) || r == EndOfInput)
      ensures noAck == (old(noAck) || (c.EnableNoAck? && r == Reply(Ascii("OK"))))
    {
      stub.refusals := if noAck then 0 else naks;
      if c.EnableNoAck? {
        r := EnableNoAck();
      } else {
        r := Command(c.payload);
      }
    }

    /** Any sequence of commands, with the switch to no-ack mode anywhere in it. During the k-th call the
        link refuses the packet `naks[k]` times. */
    method Run(calls: seq<Call>, naks: seq<nat>) returns (replies: seq<Reply>)
      requires Valid() && |naks| == |calls|
      modifies this`br, this`sent, this`noAck, stub
      ensures Valid()
      ensures replies == Replies(stub.handle, calls, naks, Link(old(noAck), old(stub.closed)))
    {
      replies := [];
      ghost var all := Replies(stub.handle, calls, naks, Link(noAck, stub.closed));
      assert calls[0..] == calls && naks[0..] == naks && [] + all == all;
      for k := 0 to |calls|
        invariant Valid()
        invariant replies + Replies(stub.handle, calls[k..], naks[k..], Link(noAck, stub.closed)) == all
      {
        NextReply(stub.handle, calls, naks, k, Link(noAck, stub.closed), replies);
        var r := Execute(calls[k], naks[k]);
        replies := replies + [r];
      }
      assert replies + [] == replies;
    }
  }

  /** What becomes of one transmission, and of a packet that is transmitted again when refused. */
  function Fate(noAck: bool, closed: bool, refusals: nat): Delivery {
    if noAck then Delivered else if closed then Lost else if refusals == 0 then Delivered else Refused
  }

  function Outcome(noAck: bool, closed: bool, refusals: nat): Delivery {
    if noAck then Delivered else if closed then Lost else if refusals < MAX_ATTEMPTS then Delivered else Refused
  }

  /** The number of copies sent. */
  function Attempts(closed: bool, refusals: nat): nat {
    if closed then 1 else if refusals < MAX_ATTEMPTS then refusals + 1 else MAX_ATTEMPTS
  }

  /** The reply to a command whose packet is refused some number of times. */
  function Answered(handle: Handler, payload: seq<byte>, closed: bool, refusals: nat): Reply {
    if closed then EndOfInput
    else if refusals >= MAX_ATTEMPTS then TooManyNaks
    else if handle(payload) == CLOSE then EndOfInput
    else Reply(handle(payload))
  }

  /** A stub that closes the connection has acknowledged the packet, and no more. */
  lemma AnswerIsRead(handle: Handler, payload: seq<byte>, junk: seq<byte>)
    requires DOLLAR !in junk
    ensures var p := NextPacket(junk + AnswerTo(handle, payload, 0));
      if handle(payload) == CLOSE then p == NoPacket
      else p.Packet? && p.rest == [] && Checksum(p.raw) == UnhexByte(p.hi, p.lo) && Decode(p.raw) == handle(payload)
  {
    if handle(payload) == CLOSE {
      assert junk + [] == junk;
    } else {
      var resp := handle(payload);
      assert junk + WirePacket(resp) + [] == junk + WirePacket(resp);
      NextPacketOf(junk, resp, []);
      DecodeInvertsEscape(resp);
    }
  }

  /** The mode of the link, and whether it is closed. */
  datatype Link = Link(noAck: bool, closed: bool)

  function NextAnswer(handle: Handler, c: Call, naks: nat, link: Link): Reply {
    Answered(handle, PayloadOf(c), link.closed, if link.noAck then 0 else naks)
  }

  function LinkAfter(c: Call, link: Link, r: Reply): Link {
    Link(link.noAck || (c.EnableNoAck? && r == Reply(Ascii("OK"))), link.closed || r == EndOfInput)
  }

  /** The replies of a whole session. */
  function Replies(handle: Handler, calls: seq<Call>, naks: seq<nat>, link: Link): (rs: seq<Reply>)
    requires |naks| == |calls|
    ensures |rs| == |calls|
    decreases |calls|
  {
    if calls == [] then []
    else
      var r := NextAnswer(handle, calls[0], naks[0], link);
      [r] + Replies(handle, calls[1..], naks[1..], LinkAfter(calls[0], link, r))
  }

  lemma NextReply(handle: Handler, calls: seq<Call>, naks: seq<nat>, k: nat, link: Link, before: seq<Reply>)
    requires k < |calls| == |naks|
    ensures var r := NextAnswer(handle, calls[k], naks[k], link);
      before + Replies(handle, calls[k..], naks[k..], link)
        == before + [r] + Replies(handle, calls[k + 1..], naks[k + 1..], LinkAfter(calls[k], link, r))
  {
    assert calls[k..][1..] == calls[k + 1..] && naks[k..][1..] == naks[k + 1..];
    var r := NextAnswer(handle, calls[k], naks[k], link);
    Regroup(before, [r], Replies(handle, calls[k + 1..], naks[k + 1..], LinkAfter(calls[k], link, r)));
  }

  /** The switch to no-ack mode, and the end of the connection, as seen in the replies. */
  ghost predicate Switched(calls: seq<Call>, rs: seq<Reply>, i: nat)
    requires i <= |calls| == |rs|
  {
    exists j | 0 <= j < i :: calls[j].EnableNoAck? && rs[j] == Reply(Ascii("OK"))
  }

  ghost predicate HasEnded(rs: seq<Reply>, i: nat)
    requires i <= |rs|
  {
    exists j | 0 <= j < i :: rs[j] == EndOfInput
  }

  /** Each reply is the stub's answer to its own command, or there were five refusals; fewer than five are
      never noticed, and once the stub has agreed to no-ack mode there is nothing to refuse. A command that
      the stub answers by closing the connection has no reply, and after it no command has. */
  lemma {:induction false} RepliesAreAnswers(handle: Handler, calls: seq<Call>, naks: seq<nat>, link: Link, i: nat)
    requires i < |calls| == |naks|
    ensures var rs := Replies(handle, calls, naks, link);
      rs[i] == Answered(handle, PayloadOf(calls[i]), link.closed || HasEnded(rs, i),
                        if link.noAck || Switched(calls, rs, i) then 0 else naks[i])
    decreases i
  {
    if i > 0 {
      var rs := Replies(handle, calls, naks, link);
      var next := LinkAfter(calls[0], link, rs[0]);
      RepliesAreAnswers(handle, calls[1..], naks[1..], next, i - 1);
      assert rs[1..] == Replies(handle, calls[1..], naks[1..], next);
    }
  }

  // ----- memory reads of a debug session (internal/debug/session.go) -----

  function HexNumeral(n: nat): seq<byte> {
    var ds := Digits(n);
    seq<byte>(|ds|, i requires 0 <= i < |ds| => HexDigit(ds[i]))
  }

  /** A number in hexadecimal, with a sign if negative (`%x`). */
  function HexNumber(n: int): seq<byte> {
    if n < 0 then [MINUS] + HexNumeral(-n) else HexNumeral(n)
  }

  const COMMA: byte := 0x2c

  function ReadArguments(addr: nat, length: int): seq<byte> {
    HexNumber(addr) + [COMMA] + HexNumber(length)
  }

  function ReadCommand(addr: nat, length: int): seq<byte> {
    Ascii("m") + ReadArguments(addr, length)
  }

  predicate IsError(resp: seq<byte>) {
    |resp| == 3 && resp[0] == 0x45
  }

  lemma ParseHexNumber(n: nat)
    requires n < TWO_64
    ensures ParseUint(HexNumber(n)) == n
    ensures COMMA !in HexNumber(n)
  {
    var ds, s := Digits(n), HexNumber(n);
    assert seq<digit>(|s|, i requires 0 <= i < |s| => FromHex(s[i])) == ds;
    ValueOfDigits(n);
  }

  lemma ReadCommandTakesReadBranch(p: seq<byte>)
    requires p != [] && p[0] == 0x6d
    ensures Handle(p) == HandleRead(p[1..])
  {
    assert Ascii("qSupported")[0] == 0x71 && Ascii("QStartNoAckMode")[0] == 0x51 && Ascii("vAttach")[0] == 0x76;
    RunningTakesReadBranch(p);
  }

  lemma RunningTakesReadBranch(p: seq<byte>)
    requires p != [] && p[0] == 0x6d
    ensures HandleRunning(p) == HandleRead(p[1..])
  {
    assert Ascii("?")[0] == 0x3f && Ascii("c")[0] == 0x63 && Ascii("s")[0] == 0x73 && Ascii("g")[0] == 0x67;
    assert Ascii("m") == [0x6d];
  }

  lemma ReadCommandIsHandled(addr: nat, length: int)
    requires addr < TWO_64 && length < TWO_64
    ensures Handle(ReadCommand(addr, length)) == HexEncode(Memory(addr, if length < 0 then 0 else length))
  {
    ArgumentsAreRead(ReadArguments(addr, length));
    ReadArgumentsAreHandled(addr, length);
  }

  lemma ArgumentsAreRead(args: seq<byte>)
    ensures Handle(Ascii("m") + args) == HandleRead(args)
  {
    var p := Ascii("m") + args;
    assert p[0] == 0x6d && p[1..] == args;
    ReadCommandTakesReadBranch(p);
  }

  lemma ReadArgumentsAreHandled(addr: nat, length: int)
    requires addr < TWO_64 && length < TWO_64
    ensures HandleRead(ReadArguments(addr, length)) == HexEncode(Memory(addr, if length < 0 then 0 else length))
  {
    ParseHexNumber(addr);
    ParseLength(length);
    HandleReadOf(HexNumber(addr), HexNumber(length));
  }

  lemma HandleReadOf(a: seq<byte>, l: seq<byte>)
    requires COMMA !in a
    ensures HandleRead(a + [COMMA] + l) == HexEncode(Memory(ParseUint(a), ParseUint(l)))
  {
    var body := a + [COMMA] + l;
    IndexOfAfter(a, COMMA, l);
    assert body[..|a|] == a && body[|a| + 1..] == l;
  }

  lemma ParseLength(length: int)
    requires length < TWO_64
    ensures ParseUint(HexNumber(length)) == if length < 0 then 0 else length
  {
    if length >= 0 {
      ParseHexNumber(length);
    } else {
      assert !IsHex(HexNumber(length)[0]);
    }
  }

  /** A memory read through the whole stack: the octets from `addr` on, as many as asked for,
      wrapping at the end of the address space. */
  method ReadMemory(client: Client, addr: nat, length: int) returns (r: Decoded)
    requires client.Valid() && client.stub.handle == Handle && client.stub.refusals == 0 && !client.stub.closed
    requires addr < TWO_64 && length < TWO_64 / 2
    modifies client, client.stub
    ensures client.Valid()
    ensures r == Bytes(Memory(addr, if length < 0 then 0 else length))
  {
    var cmd := ReadCommand(addr, length);
    ghost var bytes := Memory(addr, if length < 0 then 0 else length);
    ReadCommandIsHandled(addr, length);
    HexIsNotClose(bytes);
    var resp := client.Command(cmd);
    HexDecodeInvertsEncode(bytes);
    if IsError(resp.payload) {
      return OddLength;
    }
    r := HexDecode(resp.payload);
  }

  datatype Call = Send(payload: seq<byte>) | EnableNoAck

  function PayloadOf(c: Call): seq<byte> {
    if c.Send? then c.payload else Ascii("QStartNoAckMode")
  }

  /** A whole session with the mock stub over a refusing link, which the kill packet, and nothing else, ends:
      every command before that, in either mode, returns the stub's answer to it unless its packet is refused
      five times. Nothing is unread at the end. */
  method MockSession(calls: seq<Call>, naks: seq<nat>) returns (replies: seq<Reply>, client: Client)
    requires |naks| == |calls|
    ensures fresh(client) && fresh(client.stub) && client.Valid()
    ensures replies == Replies(Handle, calls, naks, Link(false, false))
    ensures forall i | 0 <= i < |calls| && naks[i] < MAX_ATTEMPTS && !HasEnded(replies, i) ::
      replies[i] == if PayloadOf(calls[i]) == Ascii("k") then EndOfInput else Reply(Handle(PayloadOf(calls[i])))
  {
    var stub := new Stub(Handle, 0);
    client := new Client(stub);
    replies := client.Run(calls, naks);
    forall i | 0 <= i < |calls| && naks[i] < MAX_ATTEMPTS && !HasEnded(replies, i)
      ensures replies[i] == if PayloadOf(calls[i]) == Ascii("k") then EndOfInput else Reply(Handle(PayloadOf(calls[i])))
    {
      OnlyKillCloses(PayloadOf(calls[i]));
      RepliesAreAnswers(Handle, calls, naks, Link(false, false), i);
    }
  }

  function Copies(packet: seq<byte>, n: nat): seq<byte> {
    if n == 0 then [] else Copies(packet, n - 1) + packet
  }

  lemma CopiesStep(sent: seq<byte>, packet: seq<byte>, n: nat)
    ensures sent + Copies(packet, n) + packet == sent + Copies(packet, n + 1)
  {
  }

  /** What follows the acknowledgement of a packet. */
  function AnswerTo(handle: Handler, payload: seq<byte>, refusals: nat): seq<byte> {
    if refusals > 0 || handle(payload) == CLOSE then [] else WirePacket(handle(payload))
  }

  lemma ServeOnePacket(react: ReactFn, handle: Handler, junk: seq<byte>, payload: seq<byte>, refusals: nat)
    requires Implements(react, handle) && DOLLAR !in junk
    ensures var answer := AnswerTo(handle, payload, refusals);
      Serve(react, junk + WirePacket(payload), refusals) ==
        if refusals > 0 then StubRun([MINUS] + answer, [], false, refusals - 1)
        else StubRun([PLUS] + answer, [], handle(payload) == CLOSE, 0)
  {
    var s, raw := junk + WirePacket(payload), Escape(payload);
    assert s + [] == s;
    NextPacketOf(junk, payload, []);
    StubDecodeInvertsEscape(payload);
    var r := React(handle, raw, refusals);
    assert r.written + [] == r.written;
    assert [MINUS] + [] == [MINUS] && [PLUS] + [] == [PLUS];
  }
}

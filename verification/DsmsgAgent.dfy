/** The mock debug agent (internal/mockqnx/dsmsg.go): a loop that reads frames, without checking
    their checksum, and answers each debug message. */
module DsmsgAgent {
  import opened Sequences
  import opened Bytes
  import opened DsmsgFraming
  import opened DsmsgScanner
  import opened DsmsgDemux

  const RESP_ERR: byte := 0x20
  const RESP_OK: byte := 0x21
  const RESP_OK_STATUS: byte := 0x22
  const RESP_OK_DATA: byte := 0x23
  const RESP_NOTIFY: byte := 0x40

  const LOADED_PID: nat := 0x2000
  const DEFAULT_PC: nat := 0x4000

  /** "mockproc" */
  const PROCESS_NAME: seq<byte> := [0x6d, 0x6f, 0x63, 0x6b, 0x70, 0x72, 0x6f, 0x63]

  /** The attached process and the address of the last breakpoint set (0 for none). */
  datatype State = State(pid: nat, breakAddr: nat)

  const INITIAL: State := State(0x1000, 0)

  datatype Answer = Answer(state: State, replies: seq<seq<byte>>)

  function ReplyTo(code: byte, mid: byte, body: seq<byte>): seq<byte> {
    [code, 0, mid, 1] + body
  }

  function StopAddress(a: State): nat {
    if a.breakAddr == 0 then DEFAULT_PC else a.breakAddr
  }

  function NotifyBody(a: State): seq<byte> {
    LittleEndian(a.pid, 4) + LittleEndian(1, 4) + LittleEndian(StopAddress(a), 8)
  }

  /** The breakpoint message: a 32-bit size, negative (as two's complement) for removal, then the address. */
  function AfterBreak(a: State, body: seq<byte>): State {
    if |body| < 12 then a
    else if FromLittleEndian(body[..4]) >= TWO_32 / 2 then a.(breakAddr := 0)
    else a.(breakAddr := FromLittleEndian(body[4..12]))
  }

  function AfterAttach(a: State, body: seq<byte>): State {
    if |body| >= 4 then a.(pid := FromLittleEndian(body[..4])) else a
  }

  function MemoryReply(body: seq<byte>): seq<byte> {
    if |body| >= 14 then Memory(FromLittleEndian(body[4..12]), FromLittleEndian(body[12..14]))
    else Memory(0, 0)
  }

  function RegisterBlock(): seq<byte> {
    Zeros(0x100) + LittleEndian(DEFAULT_PC, 8) + Zeros(8)
  }

  function MapEntry(a: State): seq<byte> {
    LittleEndian(a.pid, 4) + LittleEndian(0, 4) + LittleEndian(0x400000, 8) + LittleEndian(0x1000, 8)
  }

  /** The answer to one debug message: [command, subcommand, id, channel] + body. */
  function Handle(a: State, p: seq<byte>): (r: Answer)
    requires |p| >= 4
  {
    var cmd, mid, body := p[0], p[2], p[4..];
    if cmd == 0 then Answer(a, [ReplyTo(RESP_OK_STATUS, mid, [0x20, 0x04, 0x00, 0x00])])
    else if cmd == 23 then Answer(a, [ReplyTo(RESP_OK_STATUS, mid, [0x01, 0x03, 0x00, 0x00])])
    else if cmd == 27 then Answer(a, [ReplyTo(RESP_OK_DATA, mid, MapEntry(a))])
    else if cmd == 4 then
      var a' := a.(pid := LOADED_PID);
      Answer(a', [ReplyTo(RESP_OK_DATA, mid, LittleEndian(LOADED_PID, 4) + LittleEndian(1, 4) + PROCESS_NAME)])
    else if cmd == 5 then
      Answer(AfterAttach(a, body), [ReplyTo(RESP_OK_DATA, mid, Zeros(8) + PROCESS_NAME)])
    else if cmd == 11 then Answer(a, [ReplyTo(RESP_OK_DATA, mid, RegisterBlock())])
    else if cmd == 9 then Answer(a, [ReplyTo(RESP_OK_DATA, mid, MemoryReply(body))])
    else if cmd == 14 then Answer(AfterBreak(a, body), [ReplyTo(RESP_OK, mid, [])])
    else if cmd == 13 then Answer(a, [ReplyTo(RESP_OK, mid, []), ReplyTo(RESP_NOTIFY, mid, NotifyBody(a))])
    else if cmd in {24, 21, 2, 12, 10, 6, 8} then Answer(a, [ReplyTo(RESP_OK, mid, [])])
    else Answer(a, [ReplyTo(RESP_ERR, mid, [0x16, 0, 0, 0])])
  }

  /** Control and echo frames, shorter than a header, are ignored. */
  function React(a: State, p: seq<byte>): Answer {
    if |p| < 4 then Answer(a, []) else Handle(a, p)
  }

  type ReactFn = (State, seq<byte>) -> Answer

  /** The function value is the agent's reaction. (The trigger keeps proofs about the serve loop free of
      what that is.) */
  ghost predicate Implements(react: ReactFn) {
    forall a: State, p: seq<byte> {:trigger React(a, p)} :: react(a, p) == React(a, p)
  }

  /** Every message is answered at once under its own id on the debug channel; only Run is followed
      by a second frame, the stop notification. */
  lemma EveryMessageIsAnswered(react: ReactFn, a: State, p: seq<byte>)
    requires Implements(react) && |p| >= 4
    ensures var replies := react(a, p).replies;
      && |replies| == (if p[0] == 13 then 2 else 1)
      && (forall i | 0 <= i < |replies| :: |replies[i]| >= 4 && replies[i][2] == p[2] && replies[i][3] == 1)
      && (forall i | 0 <= i < |replies| :: replies[i][0] == RESP_NOTIFY <==> i == 1)
  {
    assert React(a, p) == Handle(a, p);
  }

  /** The agent's run over a list of frames, whose checksums it strips. */
  function Serve(react: ReactFn, a: State, cs: seq<seq<byte>>): Answer
    decreases |cs|
  {
    if cs == [] then Answer(a, [])
    else
      var first := react(a, StripChecksum(cs[0]));
      var later := Serve(react, first.state, cs[1..]);
      Answer(later.state, first.replies + later.replies)
  }

  function Resume(sent: seq<seq<byte>>, later: Answer): Answer {
    later.(replies := sent + later.replies)
  }

  /** One frame of the run over a stream, after some replies were sent. */
  lemma ServeRound(react: ReactFn, a: State, s: seq<byte>, sent: seq<seq<byte>>)
    ensures var seg := NextSegment(s);
      var all := Resume(sent, Serve(react, a, Contents([], s)));
      if seg.NoFrame? then Contents([], s) == [] && all == Answer(a, sent)
      else
        var first := react(a, StripChecksum(seg.content));
        && all == Resume(sent + first.replies, Serve(react, first.state, Contents([], seg.rest)))
        && Remainder([], seg.rest) == Remainder([], s)
  {
    var seg := NextSegment(s);
    NextSegmentIsFirstContent(s);
    if seg.NoFrame? {
      assert sent + [] == sent;
    } else {
      NextSegmentKeepsRemainder(s);
      var first, cs := react(a, StripChecksum(seg.content)), Contents([], seg.rest);
      assert ([seg.content] + cs)[1..] == cs;
      Regroup(sent, first.replies, Serve(react, first.state, cs).replies);
    }
  }

  class Agent {
    /** Text and control frames sent in front of replies; the mock sends none. */
    const script: Script
    ghost const react: ReactFn
    ghost const wire: WireFn
    var inbox: seq<byte>
    /** The number of replies sent. */
    var turn: nat
    var attachedPid: nat
    var breakAddr: nat

    function Current(): State
      reads this`attachedPid, this`breakAddr
    {
      State(attachedPid, breakAddr)
    }

    constructor (script: Script)
      ensures this.script == script && Current() == INITIAL && inbox == [] && turn == 0
      ensures Implements(react) && Carries(wire, script)
    {
      this.script := script;
      react := (a, p) => React(a, p);
      wire := (k: nat, replies: seq<seq<byte>>) => Wire(script, k, replies);
      inbox, turn := [], 0;
      attachedPid, breakAddr := 0x1000, 0;
    }

    /** The frame the agent sends before it reads anything. */
    method Greet() returns (out: seq<byte>)
      ensures out == Frame([0])
    {
      out := ComputeFrame([0]);
    }

    method Dispatch(p: seq<byte>) returns (replies: seq<seq<byte>>)
      requires |p| >= 4
      modifies this`attachedPid, this`breakAddr
      ensures Answer(Current(), replies) == Handle(old(Current()), p)
    {
      var cmd, mid, body := p[0], p[2], p[4..];
      if cmd == 0 {
        replies := [ReplyTo(RESP_OK_STATUS, mid, [0x20, 0x04, 0x00, 0x00])];
      } else if cmd == 23 {
        replies := [ReplyTo(RESP_OK_STATUS, mid, [0x01, 0x03, 0x00, 0x00])];
      } else if cmd == 27 {
        replies := [ReplyTo(RESP_OK_DATA, mid, MapEntry(Current()))];
      } else if cmd == 4 {
        attachedPid := LOADED_PID;
        replies := [ReplyTo(RESP_OK_DATA, mid, LittleEndian(attachedPid, 4) + LittleEndian(1, 4) + PROCESS_NAME)];
      } else if cmd == 5 {
        if |body| >= 4 {
          attachedPid := FromLittleEndian(body[..4]);
        }
        replies := [ReplyTo(RESP_OK_DATA, mid, Zeros(8) + PROCESS_NAME)];
      } else if cmd == 11 {
        replies := [ReplyTo(RESP_OK_DATA, mid, RegisterBlock())];
      } else if cmd == 9 {
        var data := FillMemory(body);
        replies := [ReplyTo(RESP_OK_DATA, mid, data)];
      } else if cmd == 14 {
        if |body| >= 12 {
          if FromLittleEndian(body[..4]) >= TWO_32 / 2 {
            breakAddr := 0;
          } else {
            breakAddr := FromLittleEndian(body[4..12]);
          }
        }
        replies := [ReplyTo(RESP_OK, mid, [])];
      } else if cmd == 13 {
        var ip := breakAddr;
        if ip == 0 {
          ip := DEFAULT_PC;
        }
        var notif := LittleEndian(attachedPid, 4) + LittleEndian(1, 4) + LittleEndian(ip, 8);
        replies := [ReplyTo(RESP_OK, mid, []), ReplyTo(RESP_NOTIFY, mid, notif)];
      } else if cmd in {24, 21, 2, 12, 10, 6, 8} {
        replies := [ReplyTo(RESP_OK, mid, [])];
      } else {
        replies := [ReplyTo(RESP_ERR, mid, [0x16, 0, 0, 0])];
      }
    }

    /** The fill loop of a memory read. */
    method FillMemory(body: seq<byte>) returns (data: seq<byte>)
      ensures data == MemoryReply(body)
    {
      var addr, size := 0, 0;
      if |body| >= 14 {
        addr, size := FromLittleEndian(body[4..12]), FromLittleEndian(body[12..14]);
      }
      data := [];
      for i := 0 to size
        invariant data == Memory(addr, i)
      {
        data := data + [(addr + i) % TWO_64 % 256];
      }
    }

    /** The body of the read/dispatch loop for one frame. */
    method ServeFrame(content: seq<byte>) returns (out: seq<byte>)
      requires content != [] && Implements(react) && Carries(wire, script)
      modifies this`attachedPid, this`breakAddr, this`turn
      ensures var answer := react(old(Current()), StripChecksum(content));
        && Current() == answer.state
        && out == wire(old(turn), answer.replies) && turn == old(turn) + |answer.replies|
    {
      var dec := ComputeUnescape(content);
      var p := dec[..|dec| - 1];
      assert p == StripChecksum(content);
      ghost var answer := React(Current(), p);
      NothingIsCarried(wire, script, turn);
      if |p| < 4 {
        return [];
      }
      var replies := Dispatch(p);
      out := SendAll(script, turn, replies);
      assert Wire(script, turn, replies) == out;
      turn := turn + |replies|;
    }

    /** The read/dispatch loop, run until it would block for more input. */
    method Receive(bytes: seq<byte>) returns (out: seq<byte>)
      requires Implements(react) && Carries(wire, script)
      modifies this
      ensures var served := Serve(react, old(Current()), Contents([], old(inbox) + bytes));
        && Current() == served.state
        && out == wire(old(turn), served.replies) && turn == old(turn) + |served.replies|
      ensures Contents([], inbox) == [] && Remainder([], inbox) == Remainder([], old(inbox) + bytes)
      ensures Remainder([], inbox) == [] ==> inbox == []
    {
      inbox := inbox + bytes;
      out := [];
      ghost var all := Serve(react, Current(), Contents([], inbox));
      ghost var open := Remainder([], inbox);
      ghost var sent: seq<seq<byte>> := [];
      assert Resume([], all) == all;
      NothingIsCarried(wire, script, turn);
      while true
        invariant out == wire(old(turn), sent) && turn == old(turn) + |sent|
        invariant all == Resume(sent, Serve(react, Current(), Contents([], inbox)))
        invariant Remainder([], inbox) == open
        decreases |inbox|
      {
        ServeRound(react, Current(), inbox, sent);
        var seg := ReadSegment(inbox);
        if seg.NoFrame? {
          if Remainder([], inbox) == [] {
            inbox := [];  // only delimiters are left, and the reader has skipped them
          }
          return;
        }
        inbox := seg.rest;
        out, sent := ServeNext(seg.content, out, old(turn), sent);
      }
    }

    /** Appends the answer to one frame to what was written before. */
    method ServeNext(content: seq<byte>, before: seq<byte>, ghost first: nat, ghost sent: seq<seq<byte>>)
      returns (out: seq<byte>, ghost sent': seq<seq<byte>>)
      requires content != [] && Implements(react) && Carries(wire, script)
      requires before == wire(first, sent) && turn == first + |sent|
      modifies this`attachedPid, this`breakAddr, this`turn
      ensures out == wire(first, sent') && turn == first + |sent'|
      ensures var answer := react(old(Current()), StripChecksum(content));
        sent' == sent + answer.replies && Current() == answer.state
    {
      ghost var replies := react(Current(), StripChecksum(content)).replies;
      CarriedInTwo(wire, script, first, sent, replies);
      var more := ServeFrame(content);
      out, sent' := before + more, sent + replies;
    }
  }

  /** Sends replies, each behind what the script puts in front of it. */
  method SendAll(script: Script, first: nat, replies: seq<seq<byte>>) returns (out: seq<byte>)
    ensures out == Wire(script, first, replies)
  {
    out := [];
    for i := 0 to |replies|
      invariant out == Frames(Mixed(script, first, replies[..i]))
    {
      MixedNext(script, first, replies, i);
      var one := SendOne(Turn(script, first + i), replies[i]);
      out := out + one;
    }
    assert replies[..|replies|] == replies;
  }

  method SendOne(noise: seq<seq<byte>>, reply: seq<byte>) returns (out: seq<byte>)
    ensures out == Frames(noise + [reply])
  {
    out := [];
    var all := noise + [reply];
    for i := 0 to |all|
      invariant out == Frames(all[..i])
    {
      assert all[..i + 1] == all[..i] + [all[i]];
      FramesConcat(all[..i], [all[i]]);
      var f := ComputeFrame(all[i]);
      FramesOfOne(all[i]);
      out := out + f;
    }
    assert all[..|all|] == all;
  }

  lemma {:induction false} NextSegmentKeepsRemainder(s: seq<byte>)
    requires NextSegment(s).Segment?
    ensures Remainder([], NextSegment(s).rest) == Remainder([], s)
  {
    if s[0] == FRAME_CHAR {
      NextSegmentKeepsRemainder(s[1..]);
    } else {
      var k := IndexOf(s, FRAME_CHAR);
      assert s == s[..k] + s[k..];
      assert s[k..][1..] == s[k + 1..];
      ContentsRun(s[..k], s[k..]);
    }
  }
}

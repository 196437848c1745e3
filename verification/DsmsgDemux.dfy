/** Demultiplexing of the debug connection (`readResponse` and `Output`, internal/qnxdbg/client.go):
    debug replies are returned, program output is set aside, control frames are dropped. */
module DsmsgDemux {
  import opened Sequences
  import opened Bytes
  import opened DsmsgFraming
  import opened DsmsgScanner

  const CHAN_DEBUG: byte := 1
  const CHAN_TEXT: byte := 2

  /** Octets not yet read, and program output not yet fetched. */
  datatype Inbox = Inbox(stream: seq<byte>, output: seq<byte>)

  predicate IsControl(payload: seq<byte>) {
    |payload| < 4
  }

  predicate IsText(payload: seq<byte>) {
    |payload| >= 4 && payload[3] == CHAN_TEXT
  }

  /** `readResponse`: a debug payload, or the error that ended the search for one. */
  function ReadResponse(ib: Inbox): (Inbox, FrameResult)
    decreases |ib.stream|
  {
    match NextSegment(ib.stream)
    case NoFrame => (Inbox([], ib.output), EndOfInput)
    case Segment(content, rest) =>
      match CheckedPayload(content)
      case Payload(p) =>
        if IsControl(p) then ReadResponse(Inbox(rest, ib.output))
        else if IsText(p) then ReadResponse(Inbox(rest, ib.output + p[4..]))
        else (Inbox(rest, ib.output), Payload(p))
      case error => (Inbox(rest, ib.output), error)
  }

  // ----- what a list of frames holds, independently of who reads it -----

  function TextOf(content: seq<byte>): seq<byte> {
    match CheckedPayload(content)
    case Payload(p) => if IsText(p) then p[4..] else []
    case _ => []
  }

  function EventOf(content: seq<byte>): seq<FrameResult> {
    match CheckedPayload(content)
    case Payload(p) => if IsControl(p) || IsText(p) then [] else [Payload(p)]
    case error => [error]
  }

  /** All program output carried by the frames. */
  function Text(cs: seq<seq<byte>>): seq<byte> {
    if cs == [] then [] else TextOf(cs[0]) + Text(cs[1..])
  }

  /** All debug payloads and broken frames, in order. */
  function Events(cs: seq<seq<byte>>): seq<FrameResult> {
    if cs == [] then [] else EventOf(cs[0]) + Events(cs[1..])
  }

  lemma {:induction false} EventsConcat(a: seq<seq<byte>>, b: seq<seq<byte>>)
    ensures Events(a + b) == Events(a) + Events(b)
  {
    if a == [] {
      assert a + b == b;
    } else {
      assert (a + b)[1..] == a[1..] + b;
      EventsConcat(a[1..], b);
    }
  }

  /** One frame of `readResponse`, told by what the frame holds. */
  lemma ReadResponseStep(ib: Inbox)
    requires NextSegment(ib.stream).Segment?
    ensures var Segment(content, rest) := NextSegment(ib.stream);
      ReadResponse(ib) ==
        (if EventOf(content) == [] then ReadResponse(Inbox(rest, ib.output + TextOf(content)))
         else (Inbox(rest, ib.output), EventOf(content)[0]))
    ensures EventOf(NextSegment(ib.stream).content) != [] ==> TextOf(NextSegment(ib.stream).content) == []
  {
    assert ib.output + [] == ib.output;
  }

  /** One call conserves text, whatever the stream. */
  lemma {:induction false} ReadResponseKeepsText(ib: Inbox)
    ensures var ib' := ReadResponse(ib).0;
      ib'.output + Text(Contents([], ib'.stream)) == ib.output + Text(Contents([], ib.stream))
    decreases |ib.stream|
  {
    NextSegmentIsFirstContent(ib.stream);
    if NextSegment(ib.stream).Segment? {
      var Segment(content, rest) := NextSegment(ib.stream);
      ReadResponseStep(ib);
      TextMoves(ib.output, content, Contents([], rest));
      if EventOf(content) == [] {
        ReadResponseKeepsText(Inbox(rest, ib.output + TextOf(content)));
      } else {
        assert ib.output + TextOf(content) == ib.output;
      }
    }
  }

  lemma TextMoves(output: seq<byte>, c: seq<byte>, cs: seq<seq<byte>>)
    ensures output + Text([c] + cs) == output + TextOf(c) + Text(cs)
  {
    Regroup(output, TextOf(c), Text(cs));
  }

  /** One call delivers the first event of the stream, or finds that there is none. */
  lemma {:induction false} ReadResponseIsFirstEvent(ib: Inbox)
    ensures var (ib', r) := ReadResponse(ib);
      && Events(Contents([], ib.stream)) ==
           (if r.EndOfInput? then [] else [r] + Events(Contents([], ib'.stream)))
      && (r.EndOfInput? ==> ib'.stream == [])
    decreases |ib.stream|
  {
    NextSegmentIsFirstContent(ib.stream);
    if NextSegment(ib.stream).Segment? {
      var Segment(content, rest) := NextSegment(ib.stream);
      ReadResponseStep(ib);
      if EventOf(content) == [] {
        ReadResponseIsFirstEvent(Inbox(rest, ib.output + TextOf(content)));
      }
    }
  }

  // ----- any interleaving of the two calls -----

  datatype Call = Receive | TakeOutput

  datatype Trace = Trace(inbox: Inbox, replies: seq<FrameResult>, taken: seq<byte>)

  function Calls(ib: Inbox, calls: seq<Call>): Trace
    decreases |calls|
  {
    if calls == [] then Trace(ib, [], [])
    else match calls[0]
      case Receive =>
        var (ib', r) := ReadResponse(ib);
        var t := Calls(ib', calls[1..]);
        t.(replies := [r] + t.replies)
      case TakeOutput =>
        var t := Calls(Inbox(ib.stream, []), calls[1..]);
        t.(taken := ib.output + t.taken)
  }

  /** Program output is neither lost, duplicated nor reordered: what was fetched, what is pending
      and what is still unread always make up the whole. */
  lemma {:induction false} OutputIsConserved(ib: Inbox, calls: seq<Call>)
    ensures var t := Calls(ib, calls);
      t.taken + (t.inbox.output + Text(Contents([], t.inbox.stream))) == ib.output + Text(Contents([], ib.stream))
    decreases |calls|
  {
    if calls != [] {
      if calls[0].Receive? {
        ReadResponseKeepsText(ib);
        OutputIsConserved(ReadResponse(ib).0, calls[1..]);
      } else {
        var t := Calls(Inbox(ib.stream, []), calls[1..]);
        var left := t.inbox.output + Text(Contents([], t.inbox.stream));
        OutputIsConserved(Inbox(ib.stream, []), calls[1..]);
        Regroup(ib.output, t.taken, left);
        assert [] + Text(Contents([], ib.stream)) == Text(Contents([], ib.stream));
      }
    }
  }

  function Receives(calls: seq<Call>): nat {
    if calls == [] then 0 else (if calls[0].Receive? then 1 else 0) + Receives(calls[1..])
  }

  /** The first `n` events, then end of input for ever. */
  function FirstEvents(events: seq<FrameResult>, n: nat): seq<FrameResult> {
    seq(n, i requires 0 <= i < n => if i < |events| then events[i] else EndOfInput)
  }

  lemma FirstOfEvents(r: FrameResult, later: seq<FrameResult>, n: nat)
    requires r.EndOfInput? ==> later == []
    ensures FirstEvents(if r.EndOfInput? then [] else [r] + later, n + 1) == [r] + FirstEvents(later, n)
  {
  }

  /** The replies returned are the events of the stream in order, whatever else is called between. */
  lemma {:induction false} RepliesAreEvents(ib: Inbox, calls: seq<Call>)
    ensures Calls(ib, calls).replies == FirstEvents(Events(Contents([], ib.stream)), Receives(calls))
    decreases |calls|
  {
    if calls != [] {
      if calls[0].Receive? {
        ReadResponseIsFirstEvent(ib);
        RepliesAreEvents(ReadResponse(ib).0, calls[1..]);
        var (ib', r) := ReadResponse(ib);
        FirstOfEvents(r, Events(Contents([], ib'.stream)), Receives(calls[1..]));
      } else {
        RepliesAreEvents(Inbox(ib.stream, []), calls[1..]);
      }
    }
  }

  /** Inserting a text or control frame between two frames never changes a reply. */
  lemma NoiseFramesAreInvisible(
    before: seq<byte>, noise: seq<byte>, after: seq<byte>, output: seq<byte>, calls: seq<Call>)
    requires IsControl(noise) || IsText(noise)
    requires Remainder([], before) == []
    ensures Calls(Inbox(before + Frame(noise) + after, output), calls).replies
         == Calls(Inbox(before + after, output), calls).replies
  {
    EventsWithoutNoise(before, noise, after);
    RepliesAreEvents(Inbox(before + Frame(noise) + after, output), calls);
    RepliesAreEvents(Inbox(before + after, output), calls);
  }

  lemma NoiseHasNoEvents(noise: seq<byte>)
    requires IsControl(noise) || IsText(noise)
    ensures Contents([], Frame(noise)) == [FrameContent(noise)] && Remainder([], Frame(noise)) == []
    ensures Events([FrameContent(noise)]) == []
  {
    ScanFrame([], noise);
    ReadFrameOfFrame(noise, []);
    assert EventOf(FrameContent(noise)) == [];
  }

  lemma EventsWithoutNoise(before: seq<byte>, noise: seq<byte>, after: seq<byte>)
    requires IsControl(noise) || IsText(noise)
    requires Remainder([], before) == []
    ensures Events(Contents([], before + Frame(noise) + after)) == Events(Contents([], before + after))
  {
    var c := FrameContent(noise);
    NoiseHasNoEvents(noise);
    ContentsConcat([], before, after);
    ContentsConcat([], before, Frame(noise));
    ContentsConcat([], before + Frame(noise), after);
    var a, b := Contents([], before), Contents([], after);
    EventsConcat(a, [c]);
    EventsConcat(a + [c], b);
    EventsConcat(a, b);
  }

  // ----- an agent that speaks between its replies -----

  /** What an agent sends besides its replies: the k-th list goes out in front of its k-th reply. */
  type Script = seq<seq<seq<byte>>>

  predicate IsNoise(payloads: seq<seq<byte>>) {
    forall i | 0 <= i < |payloads| :: IsControl(payloads[i]) || IsText(payloads[i])
  }

  predicate IsChatter(script: Script) {
    forall k | 0 <= k < |script| :: IsNoise(script[k])
  }

  function Turn(script: Script, k: nat): seq<seq<byte>> {
    if k < |script| then script[k] else []
  }

  /** Replies, of which the first is the k-th of all, with what the script puts in front of each. */
  function Mixed(script: Script, k: nat, replies: seq<seq<byte>>): seq<seq<byte>>
    decreases |replies|
  {
    if replies == [] then [] else Turn(script, k) + [replies[0]] + Mixed(script, k + 1, replies[1..])
  }

  function Wire(script: Script, k: nat, replies: seq<seq<byte>>): seq<byte> {
    Frames(Mixed(script, k, replies))
  }

  type WireFn = (nat, seq<seq<byte>>) -> seq<byte>

  /** The function value is what goes over the wire by the script. (The trigger keeps proofs about the two
      ends free of what that is.) */
  ghost predicate Carries(wire: WireFn, script: Script) {
    forall k: nat, replies: seq<seq<byte>> {:trigger Wire(script, k, replies)} ::
      wire(k, replies) == Wire(script, k, replies)
  }

  lemma NothingIsCarried(wire: WireFn, script: Script, k: nat)
    requires Carries(wire, script)
    ensures wire(k, []) == []
  {
    assert Wire(script, k, []) == [];
  }

  /** The program output in a list of payloads, and in the script up to the k-th reply. */
  function Bodies(payloads: seq<seq<byte>>): seq<byte> {
    if payloads == [] then []
    else (if IsText(payloads[0]) then payloads[0][4..] else []) + Bodies(payloads[1..])
  }

  function Said(script: Script, k: nat): seq<byte> {
    if k == 0 then [] else Said(script, k - 1) + Bodies(Turn(script, k - 1))
  }

  lemma SaidNext(script: Script, k: nat, taken: seq<byte>, output: seq<byte>)
    requires taken + output == Said(script, k)
    ensures taken + (output + Bodies(Turn(script, k))) == Said(script, k + 1)
  {
    Regroup(taken, output, Bodies(Turn(script, k)));
  }

  lemma {:induction false} MixedConcat(script: Script, k: nat, a: seq<seq<byte>>, b: seq<seq<byte>>)
    ensures Mixed(script, k, a + b) == Mixed(script, k, a) + Mixed(script, k + |a|, b)
    decreases |a|
  {
    if a == [] {
      assert a + b == b;
    } else {
      assert (a + b)[1..] == a[1..] + b;
      MixedConcat(script, k + 1, a[1..], b);
      Regroup(Turn(script, k) + [a[0]], Mixed(script, k + 1, a[1..]), Mixed(script, k + |a|, b));
    }
  }

  lemma MixedOne(script: Script, k: nat, reply: seq<byte>)
    ensures Mixed(script, k, [reply]) == Turn(script, k) + [reply]
  {
  }

  lemma MixedFrames(script: Script, k: nat, a: seq<seq<byte>>, b: seq<seq<byte>>)
    ensures Frames(Mixed(script, k, a + b)) == Frames(Mixed(script, k, a)) + Frames(Mixed(script, k + |a|, b))
  {
    MixedConcat(script, k, a, b);
    FramesConcat(Mixed(script, k, a), Mixed(script, k + |a|, b));
  }

  lemma CarriedInTwo(wire: WireFn, script: Script, k: nat, a: seq<seq<byte>>, b: seq<seq<byte>>)
    requires Carries(wire, script)
    ensures wire(k, a + b) == wire(k, a) + wire(k + |a|, b)
  {
    MixedFrames(script, k, a, b);
    assert Wire(script, k, a + b) == Wire(script, k, a) + Wire(script, k + |a|, b);
  }

  lemma MixedNext(script: Script, k: nat, replies: seq<seq<byte>>, i: nat)
    requires i < |replies|
    ensures Frames(Mixed(script, k, replies[..i + 1]))
         == Frames(Mixed(script, k, replies[..i])) + Frames(Turn(script, k + i) + [replies[i]])
  {
    assert replies[..i + 1] == replies[..i] + [replies[i]];
    MixedFrames(script, k, replies[..i], [replies[i]]);
    MixedOne(script, k + i, replies[i]);
  }

  /** One call passes over noise, collecting its text, and returns the first reply. */
  lemma {:induction false} NoiseIsPassedOver(
    noise: seq<seq<byte>>, reply: seq<byte>, rest: seq<byte>, output: seq<byte>)
    requires IsNoise(noise) && !IsControl(reply) && !IsText(reply)
    ensures ReadResponse(Inbox(Frames(noise) + (Frame(reply) + rest), output))
         == (Inbox(rest, output + Bodies(noise)), Payload(reply))
    decreases |noise|
  {
    if noise == [] {
      assert Frames(noise) + (Frame(reply) + rest) == Frame(reply) + rest && output + [] == output;
      ReadFrameOfFrame(reply, rest);
    } else {
      var later := Frames(noise[1..]) + (Frame(reply) + rest);
      Regroup(Frame(noise[0]), Frames(noise[1..]), Frame(reply) + rest);
      ReadFrameOfFrame(noise[0], later);
      var said := if IsText(noise[0]) then noise[0][4..] else [];
      NoiseIsPassedOver(noise[1..], reply, rest, output + said);
      Regroup(output, said, Bodies(noise[1..]));
      assert output + [] == output;
    }
  }

  /** The same for the first of some replies that go out by the script. */
  lemma FirstReplyIsRead(wire: WireFn, script: Script, k: nat, replies: seq<seq<byte>>, output: seq<byte>)
    requires Carries(wire, script) && IsChatter(script)
    requires replies != [] && !IsControl(replies[0]) && !IsText(replies[0])
    ensures ReadResponse(Inbox(wire(k, replies), output))
         == (Inbox(wire(k + 1, replies[1..]), output + Bodies(Turn(script, k))), Payload(replies[0]))
  {
    var later := Wire(script, k + 1, replies[1..]);
    FirstOnTheWire(script, k, replies);
    NoiseIsPassedOver(Turn(script, k), replies[0], later, output);
  }

  lemma FirstOnTheWire(script: Script, k: nat, replies: seq<seq<byte>>)
    requires replies != []
    ensures Wire(script, k, replies)
         == Frames(Turn(script, k)) + (Frame(replies[0]) + Wire(script, k + 1, replies[1..]))
  {
    var noise, later := Turn(script, k), Mixed(script, k + 1, replies[1..]);
    FramesConcat(noise + [replies[0]], later);
    FramesConcat(noise, [replies[0]]);
    FramesOfOne(replies[0]);
    Regroup(Frames(noise), Frame(replies[0]), Frames(later));
  }
}

/** The DSMSG client (internal/qnxdbg/client.go and commands.go) talking to the mock agent: every
    octet a client call writes is handed to the agent, and every octet the agent writes is
    appended to the client's unread input. */
module DsmsgClient {
  import opened Bytes
  import opened DsmsgFraming
  import opened DsmsgScanner
  import opened DsmsgDemux
  import opened DsmsgAgent
  import opened DsmsgCommands

  /** One request message and the reply read for it. */
  datatype Exchange = Exchange(request: seq<byte>, reply: seq<byte>)

  /** Every reply carries the id of its request, requests are numbered from 2 and wrap at 256,
      and both stay on the debug channel. */
  ghost predicate InOrder(log: seq<Exchange>) {
    forall k | 0 <= k < |log| ::
      && |log[k].request| >= 4 && |log[k].reply| >= 4
      && log[k].request[2] == (2 + k) % 256 && log[k].request[3] == CHAN_DEBUG
      && log[k].reply[2] == log[k].request[2] && log[k].reply[3] == CHAN_DEBUG
  }

  function RequestsOf(log: seq<Exchange>): seq<seq<byte>> {
    seq(|log|, i requires 0 <= i < |log| => log[i].request)
  }

  /** The messages for a list of requests of which the first gets the id `first`. */
  function Messages(requests: seq<Request>, first: nat): seq<seq<byte>> {
    seq(|requests|, i requires 0 <= i < |requests| => Message(requests[i], (first + i) % 256))
  }

  lemma NextId(n: nat)
    ensures ((1 + n) % 256 + 1) % 256 == (2 + n) % 256
  {
  }

  lemma SentOne(log: seq<Exchange>, e: Exchange, q: Request)
    requires e.request == Message(q, (2 + |log|) % 256)
    ensures Sent(log, log + [e], [q])
  {
  }

  lemma SentConcat(a: seq<Exchange>, b: seq<Exchange>, c: seq<Exchange>, first: seq<Request>, then_: seq<Request>)
    requires Sent(a, b, first) && Sent(b, c, then_)
    ensures Sent(a, c, first + then_)
  {
    assert |RequestsOf(b)| == |a| + |first|;
    var all := Messages(first + then_, 2 + |a|);
    assert all == Messages(first, 2 + |a|) + Messages(then_, 2 + |b|);
  }

  /** A message sent to an idle agent is handled, and nothing of it is left. */
  lemma MessageIsHandled(react: ReactFn, a: State, msg: seq<byte>)
    ensures Serve(react, a, Contents([], Frame(msg))) == react(a, msg)
    ensures Remainder([], Frame(msg)) == []
  {
    var c := FrameContent(msg);
    ScanFrame([], msg);
    StripChecksumOfFrame(msg);
    assert Contents([], Frame(msg)) == [c];
    var h := react(a, msg);
    assert Serve(react, a, [c]) == h by {
      var none: seq<seq<byte>> := [];
      assert [c][1..] == none;
      assert h.replies + [] == h.replies;
    }
  }

  lemma ResetIsIgnored(react: ReactFn)
    requires Implements(react)
    ensures NextSegment(Frame([0])) == Segment(FrameContent([0]), [])
    ensures CheckedPayload(FrameContent([0])) == Payload([0])
    ensures Serve(react, INITIAL, Contents([], [] + Frame([0]))) == Answer(INITIAL, [])
    ensures Remainder([], [] + Frame([0])) == []
  {
    ReadFrameOfFrame([0], []);
    assert Frame([0]) + [] == Frame([0]) == [] + Frame([0]);
    MessageIsHandled(react, INITIAL, [0]);
    assert React(INITIAL, [0]) == Answer(INITIAL, []);
  }

  class Client {
    const agent: Agent
    var br: seq<byte>
    var output: seq<byte>
    var mid: byte
    /** The exchanges since the handshake. */
    ghost var log: seq<Exchange>
    /** The number of replies read, and the program output fetched so far. */
    ghost var heard: nat
    ghost var taken: seq<byte>

    /** Between commands nothing is unread on either side, and ids count the exchanges. */
    ghost predicate Valid()
      reads this, agent
    {
      && Implements(agent.react) && Carries(agent.wire, agent.script)
      && br == [] && agent.inbox == []
      && agent.attachedPid < TWO_32
      && mid == (1 + |log|) % 256
      && InOrder(log)
      && heard == agent.turn && Collected()
    }

    /** Program output fetched and pending is what the agent said in front of the replies read. */
    ghost predicate Collected()
      reads this, agent
    {
      IsChatter(agent.script) && taken + output == Said(agent.script, heard)
    }

    /** How many replies more than requests there were: the handshake's and the stop notifications. */
    ghost function Extra(): int
      reads this, agent
    {
      agent.turn - |log|
    }

    ghost function Target(): Target
      reads this, agent
    {
      DsmsgCommands.Target.Target(agent.Current(), |log|)
    }

    constructor (agent: Agent)
      requires Implements(agent.react) && Carries(agent.wire, agent.script) && IsChatter(agent.script)
      requires agent.Current() == INITIAL && agent.inbox == [] && agent.turn == 0
      modifies agent
      ensures this.agent == agent
      ensures Valid() && log == [] && taken == [] && Extra() == 2
      ensures agent.Current() == INITIAL
    {
      this.agent := agent;
      br, output, mid, log, heard, taken := [], [], 0, [], 0, [];
      new;
      var greeting := agent.Greet();
      br := greeting;
      Handshake();
    }

    // ----- frames -----

    method WriteFrame(payload: seq<byte>)
      requires Implements(agent.react) && Carries(agent.wire, agent.script)
      modifies this`br, agent
      ensures var served := Serve(agent.react, old(agent.Current()), Contents([], old(agent.inbox) + Frame(payload)));
        && agent.Current() == served.state
        && br == old(br) + agent.wire(old(agent.turn), served.replies)
        && agent.turn == old(agent.turn) + |served.replies|
      ensures Remainder([], old(agent.inbox) + Frame(payload)) == [] ==> agent.inbox == []
    {
      var f := ComputeFrame(payload);
      var answer := agent.Receive(f);
      br := br + answer;
    }

    method ReadFrame() returns (r: FrameResult)
      modifies this`br
      ensures match NextSegment(old(br))
        case NoFrame => r == EndOfInput && br == []
        case Segment(content, rest) => r == CheckedPayload(content) && br == rest
    {
      var seg := ReadSegment(br);
      match seg
      case NoFrame =>
        br := [];
        r := EndOfInput;
      case Segment(content, rest) =>
        br := rest;
        var dec := ComputeUnescape(content);
        if |dec| < 1 {
          return EmptyFrame;
        }
        var payload, cs := dec[..|dec| - 1], dec[|dec| - 1];
        var sum := ComputeChecksum(payload);
        if sum != cs {
          return BadChecksum;
        }
        r := Payload(payload);
    }

    method ReadResponse() returns (r: FrameResult)
      modifies this`br, this`output
      ensures (Inbox(br, output), r) == DsmsgDemux.ReadResponse(Inbox(old(br), old(output)))
    {
      while true
        invariant DsmsgDemux.ReadResponse(Inbox(br, output)) == DsmsgDemux.ReadResponse(Inbox(old(br), old(output)))
        decreases |br|
      {
        r := ReadFrame();
        if !r.Payload? {
          return;
        }
        var p := r.payload;
        if |p| < 4 {
          continue;
        }
        if p[3] == CHAN_TEXT {
          output := output + p[4..];
          continue;
        }
        return;
      }
    }

    /** Fetches and clears the program output read so far. */
    method Output() returns (out: seq<byte>)
      modifies this`output, this`taken
      ensures out == old(output) && output == [] && taken == old(taken) + out
      ensures old(Valid()) ==> Valid()
    {
      out := output;
      output := [];
      taken := taken + out;
      assert taken + [] == taken;
    }

    /** Echo the agent's reset frame, connect under id 0, agree on the protocol version under id 1. */
    method Handshake()
      requires br == Frame([0]) && agent.inbox == [] && log == []
      requires Implements(agent.react) && Carries(agent.wire, agent.script)
      requires agent.Current() == INITIAL && heard == agent.turn == 0 && Collected()
      modifies this`br, this`output, this`mid, this`heard, agent
      ensures Valid() && log == [] && agent.turn == 2
      ensures agent.Current() == INITIAL
    {
      EchoReset();
      HandshakeIsAnswered(agent.react);
      mid := 0;
      Introduce(Message(Request(0, 0, [0x00, 0x07, 0x00, 0x00]), mid));
      mid := 1;
      Introduce(Message(Request(23, 0, [0x00, 0x07]), mid));
    }

    /** A message that leaves the agent as it is and has one reply. */
    method Introduce(msg: seq<byte>)
      requires Implements(agent.react) && Carries(agent.wire, agent.script)
      requires br == [] && agent.inbox == [] && heard == agent.turn && Collected()
      requires |msg| >= 4 && msg[0] != 13 && agent.react(agent.Current(), msg).state == agent.Current()
      modifies this`br, this`output, this`heard, agent
      ensures br == [] && agent.inbox == [] && heard == agent.turn == old(agent.turn) + 1 && Collected()
      ensures agent.Current() == old(agent.Current())
    {
      var reply := ExchangeOne(msg);
    }

    /** A frame too short to be a message is not answered. */
    method EchoReset()
      requires Implements(agent.react) && Carries(agent.wire, agent.script)
      requires br == Frame([0]) && agent.inbox == [] && agent.Current() == INITIAL
      modifies this`br, agent
      ensures br == [] && agent.inbox == [] && agent.Current() == INITIAL && agent.turn == old(agent.turn)
    {
      ResetIsIgnored(agent.react);
      NothingIsCarried(agent.wire, agent.script, agent.turn);
      var reset := ReadFrame();
      WriteFrame(reset.payload);
    }

    /** Write one message and read the next response, from a state with nothing pending. */
    method ExchangeOne(msg: seq<byte>) returns (r: FrameResult)
      requires Implements(agent.react) && Carries(agent.wire, agent.script) && |msg| >= 4
      requires br == [] && agent.inbox == [] && heard == agent.turn && Collected()
      modifies this`br, this`output, this`heard, agent
      ensures var answer := agent.react(old(agent.Current()), msg);
        && |answer.replies| == (if msg[0] == 13 then 2 else 1)
        && r == Payload(answer.replies[0])
        && agent.Current() == answer.state
        && agent.turn == old(agent.turn) + |answer.replies|
        && br == agent.wire(heard, answer.replies[1..])
      ensures msg[0] != 13 ==> br == []
      ensures agent.inbox == [] && heard == old(heard) + 1 && Collected()
    {
      ghost var replies := agent.react(agent.Current(), msg).replies;
      MessageIsHandled(agent.react, agent.Current(), msg);
      EveryMessageIsAnswered(agent.react, agent.Current(), msg);
      assert [] + Frame(msg) == Frame(msg);
      WriteFrame(msg);
      assert [] + agent.wire(heard, replies) == agent.wire(heard, replies);
      r := ReceiveReply(replies);
      NothingIsCarried(agent.wire, agent.script, heard);
    }

    method ReadFirst(ghost replies: seq<seq<byte>>) returns (r: FrameResult)
      requires IsChatter(agent.script) && replies != [] && !IsControl(replies[0]) && !IsText(replies[0])
      requires Carries(agent.wire, agent.script) && br == agent.wire(heard, replies)
      modifies this`br, this`output
      ensures r == Payload(replies[0]) && output == old(output) + Bodies(Turn(agent.script, heard))
      ensures br == agent.wire(heard + 1, replies[1..])
    {
      FirstReplyIsRead(agent.wire, agent.script, heard, replies, output);
      r := ReadResponse();
    }

    /** Reads the first of some replies, and what was said in front of it. */
    method ReceiveReply(ghost replies: seq<seq<byte>>) returns (r: FrameResult)
      requires Collected() && replies != [] && !IsControl(replies[0]) && !IsText(replies[0])
      requires Carries(agent.wire, agent.script) && br == agent.wire(heard, replies)
      modifies this`br, this`output, this`heard
      ensures r == Payload(replies[0]) && heard == old(heard) + 1
      ensures br == agent.wire(heard, replies[1..]) && Collected()
    {
      SaidNext(agent.script, heard, taken, output);
      r := ReadFirst(replies);
      heard := heard + 1;
    }

    // ----- commands -----

    /** One transaction: the next id, one message, the next response. */
    method TransactSub(cmd: byte, sub: byte, body: seq<byte>) returns (r: FrameResult)
      requires Valid()
      modifies this`br, this`output, this`mid, this`log, this`heard, agent
      ensures var msg := Message(Request(cmd, sub, body), (2 + |old(log)|) % 256);
        var answer := agent.react(old(agent.Current()), msg);
        && |answer.replies| == (if cmd == CMD_RUN then 2 else 1)
        && r == Payload(answer.replies[0])
        && agent.Current() == answer.state
        && br == agent.wire(heard, answer.replies[1..])
        && agent.turn == heard + |answer.replies| - 1 && heard == old(heard) + 1
        && log == old(log) + [Exchange(msg, answer.replies[0])]
      ensures agent.inbox == [] && Collected()
      ensures cmd != CMD_RUN ==> br == []
      ensures mid == (1 + |log|) % 256 && InOrder(log)
    {
      NextId(|log|);
      mid := (mid + 1) % 256;
      r := ExchangeInOrder(Message(Request(cmd, sub, body), mid));
    }

    /** Write one message, read its reply, and take both down. */
    method ExchangeInOrder(msg: seq<byte>) returns (r: FrameResult)
      requires Implements(agent.react) && Carries(agent.wire, agent.script) && InOrder(log)
      requires |msg| >= 4 && msg[2] == (2 + |log|) % 256 && msg[3] == CHAN_DEBUG
      requires br == [] && agent.inbox == [] && heard == agent.turn && Collected()
      modifies this`br, this`output, this`log, this`heard, agent
      ensures var answer := agent.react(old(agent.Current()), msg);
        && |answer.replies| == (if msg[0] == 13 then 2 else 1)
        && r == Payload(answer.replies[0])
        && agent.Current() == answer.state
        && agent.turn == old(agent.turn) + |answer.replies|
        && br == agent.wire(heard, answer.replies[1..])
        && log == old(log) + [Exchange(msg, answer.replies[0])]
      ensures msg[0] != 13 ==> br == []
      ensures agent.inbox == [] && heard == old(heard) + 1 && Collected() && InOrder(log)
    {
      EveryMessageIsAnswered(agent.react, agent.Current(), msg);
      r := ExchangeOne(msg);
      log := log + [Exchange(msg, r.payload)];
    }

    /** One request, `answer` being the agent's reaction to it, and the first of its replies. */
    method Ask(q: Request, ghost answer: Answer) returns (r: FrameResult)
      requires Valid() && answer.state.pid < TWO_32
      requires answer == agent.react(agent.Current(), Message(q, (2 + |log|) % 256))
      modifies this`br, this`output, this`mid, this`log, this`heard, agent
      ensures answer.replies != [] && r == Payload(answer.replies[0]) && |r.payload| >= 4
      ensures agent.Current() == answer.state && Sent(old(log), log, [q])
      ensures |log| == |old(log)| + 1 && mid == (1 + |log|) % 256 && InOrder(log) && heard == old(heard) + 1
      ensures br == agent.wire(heard, answer.replies[1..])
      ensures agent.inbox == [] && agent.turn == heard + |answer.replies| - 1 && Collected()
      ensures q.cmd != CMD_RUN ==> Valid() && Extra() == old(Extra())
    {
      r := TransactSub(q.cmd, q.sub, q.body);
      SentOne(old(log), log[|old(log)|], q);
    }

    /** The commands that are one question and one answer. */
    method Single(c: Command) returns (res: Result)
      requires Valid() && IsSingle(c)
      modifies this`br, this`output, this`mid, this`log, this`heard, agent
      ensures Valid()
      ensures (Target(), res) == Perform(old(Target()), c)
      ensures Sent(old(log), log, RequestsFor(c))
      ensures Extra() == old(Extra())
    {
      var q := SingleRequest(c);
      ghost var mid := (2 + |log|) % 256;
      SinglePerforms(Target(), c);
      SingleReactionPerforms(agent.react, agent.Current(), c, mid);
      var reply := Ask(q, agent.react(agent.Current(), Message(q, mid)));
      res := SingleResult(c, reply.payload);
    }

    /** Resume with the given subcommand and wait for the stop notification. */
    method Resume(sub: byte, tid: int) returns (stop: StopEvent)
      requires Valid()
      modifies this`br, this`output, this`mid, this`log, this`heard, agent
      ensures Valid()
      ensures Sent(old(log), log, [RunRequest(sub, tid)])
      ensures Extra() == old(Extra()) + 1
      ensures agent.Current() == old(agent.Current())
      ensures var a := old(agent.Current());
        stop == StopEvent(RESP_NOTIFY, a.pid, 1, ReplyTo(RESP_NOTIFY, (1 + |log|) % 256, NotifyBody(a)))
    {
      ghost var a, id := agent.Current(), (2 + |log|) % 256;
      ghost var notice := ReplyTo(RESP_NOTIFY, id, NotifyBody(a));
      RunIsPerformed(agent.react, a, sub, tid, id);
      NotificationDecodes(a, id);
      var ack := Ask(RunRequest(sub, tid), Answer(a, [ReplyTo(RESP_OK, id, []), notice]));
      var p := ReceiveReply([notice]);
      NothingIsCarried(agent.wire, agent.script, heard);
      stop := StopResult(p.payload);
    }

    /** One read request and what its reply says. */
    method ReadChunk(addr: u64, want: nat) returns (r: ChunkReply)
      requires Valid() && want <= MAX_CHUNK
      modifies this`br, this`output, this`mid, this`log, this`heard, agent
      ensures Valid()
      ensures agent.Current() == old(agent.Current())
      ensures Sent(old(log), log, [MemoryReadRequest(addr, want)])
      ensures Extra() == old(Extra())
      ensures r == Chunk(Memory(addr, want))
    {
      ghost var a, id := agent.Current(), (2 + |log|) % 256;
      ReadIsPerformed(agent.react, a, addr, want, id);
      var reply := Ask(MemoryReadRequest(addr, want), Answer(a, [ReplyTo(RESP_OK_DATA, id, Memory(addr, want))]));
      if !reply.Payload? {
        r := LinkError;
      } else if reply.payload[0] == RESP_ERR {
        r := TargetError;
      } else {
        r := Chunk(ReplyBody(reply.payload));
      }
    }

    /** The next request of a read, and the requests so far. */
    method ReadNext(addr: u64, want: nat, ghost start: seq<Exchange>, ghost done: seq<Request>)
      returns (r: ChunkReply, ghost done': seq<Request>)
      requires Valid() && want <= MAX_CHUNK && Sent(start, log, done)
      modifies this`br, this`output, this`mid, this`log, this`heard, agent
      ensures Valid() && agent.Current() == old(agent.Current()) && Extra() == old(Extra())
      ensures done' == done + [MemoryReadRequest(addr, want)] && Sent(start, log, done')
      ensures r == Chunk(Memory(addr, want))
    {
      ghost var before := log;
      r := ReadChunk(addr, want);
      done' := done + [MemoryReadRequest(addr, want)];
      SentConcat(start, before, log, done, [MemoryReadRequest(addr, want)]);
    }

    method ReadMemory(addr: u64, n: int) returns (r: ReadOutcome)
      requires Valid()
      modifies this`br, this`output, this`mid, this`log, this`heard, agent
      ensures Valid()
      ensures agent.Current() == old(agent.Current())
      ensures Sent(old(log), log, ReadRequests(addr, n, 0))
      ensures Extra() == old(Extra())
      ensures r == ChunkedRead(MockAnswer, addr, n, 0, [])
    {
      var out := [];
      ghost var done: seq<Request> := [];
      ghost var all, requests := ChunkedRead(MockAnswer, addr, n, 0, []), ReadRequests(addr, n, 0);
      while |out| < n
        invariant Valid() && agent.Current() == old(agent.Current()) && Extra() == old(Extra())
        invariant ChunkedRead(MockAnswer, addr, n, |done|, out) == all
        invariant Sent(old(log), log, done)
        invariant done + ReadRequests(addr, n, |out|) == requests
        decreases n - |out|
      {
        var want := n - |out|;
        if want > MAX_CHUNK {
          want := MAX_CHUNK;
        }
        ReadRound(addr, n, |done|, out, done);
        var reply;
        reply, done := ReadNext((addr + |out|) % TWO_64, want, old(log), done);
        if reply.LinkError? {
          return ReadBroken(out);
        }
        if reply.TargetError? {
          if |out| > 0 {
            break;
          }
          return ReadFailed;
        }
        var data := reply.bytes;
        if |data| == 0 {
          break;
        }
        data := AtMost(data, want);
        out := out + data;
        if |data| < want {
          break;
        }
      }
      assert done + [] == done;
      r := ReadOk(out);
    }

    /** One message of which only the success of the reply matters: a memory write or a staging message. */
    method Acknowledged(q: Request) returns (ok: bool)
      requires Valid()
      requires q.cmd == CMD_MEMWR || q.cmd == CMD_ENV
      modifies this`br, this`output, this`mid, this`log, this`heard, agent
      ensures Valid()
      ensures agent.Current() == old(agent.Current())
      ensures Sent(old(log), log, [q])
      ensures Extra() == old(Extra())
      ensures ok
    {
      ghost var a, id := agent.Current(), (2 + |log|) % 256;
      AckIsPerformed(agent.react, a, q, id);
      var reply := Ask(q, Answer(a, [ReplyTo(RESP_OK, id, [])]));
      ok := reply.Payload? && reply.payload[0] != RESP_ERR;
    }

    method WriteMemory(addr: u64, data: seq<byte>) returns (total: nat, ok: bool)
      requires Valid()
      modifies this`br, this`output, this`mid, this`log, this`heard, agent
      ensures Valid()
      ensures agent.Current() == old(agent.Current())
      ensures Sent(old(log), log, WriteRequests(addr, data, 0))
      ensures Extra() == old(Extra())
      ensures ok && total == |data|
    {
      total, ok := 0, true;
      ghost var done: seq<Request> := [];
      while total < |data|
        invariant Valid() && agent.Current() == old(agent.Current()) && Extra() == old(Extra())
        invariant ok && total <= |data|
        invariant Sent(old(log), log, done)
        invariant done + WriteRequests(addr, data, total) == WriteRequests(addr, data, 0)
      {
        var end := total + MAX_CHUNK;
        if end > |data| {
          end := |data|;
        }
        WriteRound(addr, data, total, done);
        var q := MemoryWriteRequest(addr + total, data[total..end]);
        ghost var before := log;
        ok := Acknowledged(q);
        SentConcat(old(log), before, log, done, [q]);
        if !ok {
          return;
        }
        done := done + [q];
        total := end;
      }
      assert done + [] == done;
    }

    /** The staging loops of a launch. */
    method Stage(sub: byte, items: seq<seq<byte>>) returns (ok: bool)
      requires Valid()
      modifies this`br, this`output, this`mid, this`log, this`heard, agent
      ensures Valid()
      ensures agent.Current() == old(agent.Current())
      ensures Sent(old(log), log, EnvRequests(sub, items))
      ensures Extra() == old(Extra())
      ensures ok
    {
      ok := true;
      for i := 0 to |items|
        invariant Valid() && agent.Current() == old(agent.Current()) && Extra() == old(Extra())
        invariant ok
        invariant Sent(old(log), log, EnvRequests(sub, items[..i]))
      {
        ghost var before := log;
        ghost var done := EnvRequests(sub, items[..i]);
        var q := Request(CMD_ENV, sub, items[i] + [0]);
        ok := Acknowledged(q);
        SentConcat(old(log), before, log, done, [q]);
        assert done + [q] == EnvRequests(sub, items[..i + 1]);
        if !ok {
          return;
        }
      }
      assert items[..|items|] == items;
    }

    method Launch(path: seq<byte>, args: seq<seq<byte>>, env: Environment) returns (res: Result)
      requires Valid()
      modifies this`br, this`output, this`mid, this`log, this`heard, agent
      ensures Valid()
      ensures agent.Current() == old(agent.Current()).(pid := LOADED_PID)
      ensures Sent(old(log), log, LaunchRequests(path, args, env))
      ensures Extra() == old(Extra())
      ensures res == Launched(LOADED_PID, 1)
    {
      var resetEnv := Request(CMD_ENV, ENV_RESET_ENV, Zeros(1024));
      var resetArgv := Request(CMD_ENV, ENV_RESET_ARGV, Zeros(1024));
      var staged := [path, path] + args;
      var ok := Acknowledged(resetEnv);
      if !ok {
        return Failed;
      }
      ghost var l1, r1 := log, [resetEnv];
      ok := Stage(ENV_SET_ENV, EnvironmentOf(env));
      if !ok {
        return Failed;
      }
      ghost var l2, r2 := log, EnvRequests(ENV_SET_ENV, EnvironmentOf(env));
      SentConcat(old(log), l1, l2, r1, r2);
      ok := Acknowledged(resetArgv);
      if !ok {
        return Failed;
      }
      ghost var l3 := log;
      SentConcat(old(log), l2, l3, r1 + r2, [resetArgv]);
      ok := Stage(ENV_SET_ARGV, staged);
      if !ok {
        return Failed;
      }
      ghost var l4, r4 := log, EnvRequests(ENV_SET_ARGV, staged);
      SentConcat(old(log), l3, l4, r1 + r2 + [resetArgv], r4);
      res := Load(path, |staged|);
      SentConcat(old(log), l4, log, r1 + r2 + [resetArgv] + r4, [LoadRequest(path, |staged|)]);
    }

    method Load(path: seq<byte>, staged: nat) returns (res: Result)
      requires Valid()
      modifies this`br, this`output, this`mid, this`log, this`heard, agent
      ensures Valid()
      ensures agent.Current() == old(agent.Current()).(pid := LOADED_PID)
      ensures Sent(old(log), log, [LoadRequest(path, staged)])
      ensures Extra() == old(Extra())
      ensures res == Launched(LOADED_PID, 1)
    {
      var body := LoadBody(path, staged);
      ghost var a, id := agent.Current(), (2 + |log|) % 256;
      LoadIsPerformed(agent.react, a, path, staged, id);
      var q := Request(CMD_LOAD, 0, body);
      var reply := Ask(q, agent.react(a, Message(q, id)));
      res := LoadResult(reply.payload);
    }

    /** Continue and step. */
    method Go(c: Command) returns (res: Result)
      requires Valid() && (c.Continue? || c.Step?)
      modifies this`br, this`output, this`mid, this`log, this`heard, agent
      ensures Valid()
      ensures (Target(), res) == Perform(old(Target()), c)
      ensures Sent(old(log), log, RequestsFor(c))
      ensures Extra() == old(Extra()) + 1
    {
      var sub, tid := RUN_CONTINUE, 1;
      if c.Step? {
        sub, tid := RUN_STEP, if c.tid <= 0 then 1 else c.tid;
      }
      var stop := Resume(sub, tid);
      res := Halted(stop);
      GoPerforms(old(log), log, old(agent.Current()), c, sub, tid, stop);
    }

    method Read(c: Command) returns (res: Result)
      requires Valid() && c.ReadMemory?
      modifies this`br, this`output, this`mid, this`log, this`heard, agent
      ensures Valid()
      ensures (Target(), res) == Perform(old(Target()), c)
      ensures Sent(old(log), log, RequestsFor(c))
      ensures Extra() == old(Extra())
    {
      MockReadIsFlat(c.addr, c.n);
      var r := ReadMemory(c.addr, c.n);
      res := Data(r.data);
      ManyPerform(old(log), log, old(agent.Current()), c);
    }

    method Write(c: Command) returns (res: Result)
      requires Valid() && c.WriteMemory?
      modifies this`br, this`output, this`mid, this`log, this`heard, agent
      ensures Valid()
      ensures (Target(), res) == Perform(old(Target()), c)
      ensures Sent(old(log), log, RequestsFor(c))
      ensures Extra() == old(Extra())
    {
      var total, ok := WriteMemory(c.addr, c.data);
      res := Wrote(total);
      ManyPerform(old(log), log, old(agent.Current()), c);
    }

    method Start(c: Command) returns (res: Result)
      requires Valid() && c.Launch?
      modifies this`br, this`output, this`mid, this`log, this`heard, agent
      ensures Valid()
      ensures (Target(), res) == Perform(old(Target()), c)
      ensures Sent(old(log), log, RequestsFor(c))
      ensures Extra() == old(Extra())
    {
      res := Launch(c.path, c.args, c.env);
      ManyPerform(old(log), log, old(agent.Current()), c);
    }

    /** Any one command. */
    method Execute(c: Command) returns (res: Result)
      requires Valid()
      modifies this`br, this`output, this`mid, this`log, this`heard, agent
      ensures Valid()
      ensures (Target(), res) == Perform(old(Target()), c)
      ensures Sent(old(log), log, RequestsFor(c))
      ensures Extra() == old(Extra()) + Stops([c])
    {
      if c.ReadMemory? {
        res := Read(c);
      } else if c.WriteMemory? {
        res := Write(c);
      } else if c.Launch? {
        res := Start(c);
      } else if c.Continue? || c.Step? {
        res := Go(c);
      } else {
        res := Single(c);
      }
    }

    /** Any sequence of commands: the whole stack of layouts, ids, frames, checksums and escapes is
        invisible, and after each command both sides are in step again. */
    method Run(cmds: seq<Command>) returns (results: seq<Result>)
      requires Valid()
      modifies this`br, this`output, this`mid, this`log, this`heard, agent
      ensures Valid()
      ensures History(Target(), results) == PerformAll(old(Target()), cmds)
      ensures taken == old(taken) && Extra() == old(Extra()) + Stops(cmds)
    {
      results := [];
      for i := 0 to |cmds|
        invariant Valid() && Extra() == old(Extra()) + Stops(cmds[..i])
        invariant History(Target(), results) == PerformAll(old(Target()), cmds[..i])
      {
        PerformNext(old(Target()), cmds, i);
        var r := Execute(cmds[i]);
        results := results + [r];
      }
      assert cmds[..|cmds|] == cmds;
    }
  }

  /** A session with a fresh agent that sends text and control frames between its replies as it likes: the
      results are those of the quiet target, and the output collected is the text that was sent. At the end no
      frame is pending, and every reply has come under the id of its request. */
  method Session(script: Script, cmds: seq<Command>) returns (results: seq<Result>, output: seq<byte>, client: Client)
    requires IsChatter(script)
    ensures fresh(client) && fresh(client.agent) && client.Valid()
    ensures History(client.Target(), results) == PerformAll(DsmsgCommands.Target.Target(INITIAL, 0), cmds)
    ensures output == Said(script, 2 + |client.log| + Stops(cmds))
  {
    var agent := new Agent(script);
    client := new Client(agent);
    assert client.Target() == DsmsgCommands.Target.Target(INITIAL, 0);
    results, output := Converse(client, cmds);
  }

  method Converse(client: Client, cmds: seq<Command>) returns (results: seq<Result>, output: seq<byte>)
    requires client.Valid() && client.taken == [] && client.Extra() == 2
    modifies client, client.agent
    ensures client.Valid()
    ensures History(client.Target(), results) == PerformAll(old(client.Target()), cmds)
    ensures output == Said(client.agent.script, 2 + |client.log| + Stops(cmds))
  {
    results := client.Run(cmds);
    output := client.Output();
    assert [] + output == output;
  }

  method LoadBody(path: seq<byte>, staged: nat) returns (body: seq<byte>)
    ensures body == LoadRequest(path, staged).body
  {
    var n := staged;
    if n < 3 {
      n := 3;
    }
    var markers := [];
    for i := 0 to n
      invariant markers == Markers(i)
    {
      markers := markers + Marker(i);
    }
    body := Zeros(8) + path + [0] + markers + [0];
  }

  lemma ManyPerform(before: seq<Exchange>, after: seq<Exchange>, a: State, c: Command)
    requires Sent(before, after, RequestsFor(c))
    ensures Perform(DsmsgCommands.Target.Target(a, |before|), c)
         == (DsmsgCommands.Target.Target(StateAfter(a, c), |after|), ResultOf(a, c, (1 + |after|) % 256))
  {
    SentCount(before, after, c);
  }

  lemma GoPerforms(
    before: seq<Exchange>, after: seq<Exchange>, a: State, c: Command, sub: byte, tid: int, stop: StopEvent)
    requires c.Continue? || c.Step?
    requires sub == (if c.Step? then RUN_STEP else RUN_CONTINUE)
    requires tid == if c.Continue? || c.tid <= 0 then 1 else c.tid
    requires Sent(before, after, [RunRequest(sub, tid)])
    requires stop == StopEvent(RESP_NOTIFY, a.pid, 1, ReplyTo(RESP_NOTIFY, (1 + |after|) % 256, NotifyBody(a)))
    ensures Sent(before, after, RequestsFor(c))
    ensures Perform(DsmsgCommands.Target.Target(a, |before|), c)
         == (DsmsgCommands.Target.Target(a, |after|), Halted(stop))
  {
    ManyPerform(before, after, a, c);
  }

  lemma SentCount(before: seq<Exchange>, after: seq<Exchange>, c: Command)
    requires Sent(before, after, RequestsFor(c))
    ensures |after| == |before| + Exchanges(c)
  {
    RequestCount(c);
    assert |RequestsOf(after)| == |before| + |RequestsFor(c)|;
  }

  /** The log grew by exactly these requests, numbered on. */
  ghost predicate Sent(before: seq<Exchange>, after: seq<Exchange>, requests: seq<Request>) {
    RequestsOf(after) == RequestsOf(before) + Messages(requests, 2 + |before|)
  }
}

/** The debugger's commands (internal/qnxdbg/commands.go): their message layouts, and what each
    does to the target when nothing is said about messages at all. */
module DsmsgCommands {
  import opened Bytes
  import opened DsmsgAgent
  import opened DsmsgDemux

  type u64 = x: int | 0 <= x < TWO_64

  const MAX_CHUNK: nat := 0x400
  const NUM_SIGNALS: nat := 72

  const CMD_SELECT: byte := 2
  const CMD_LOAD: byte := 4
  const CMD_ATTACH: byte := 5
  const CMD_DETACH: byte := 6
  const CMD_KILL: byte := 7
  const CMD_STOP: byte := 8
  const CMD_MEMRD: byte := 9
  const CMD_MEMWR: byte := 10
  const CMD_REGRD: byte := 11
  const CMD_REGWR: byte := 12
  const CMD_RUN: byte := 13
  const CMD_BRK: byte := 14
  const CMD_PIDLIST: byte := 19
  const CMD_ENV: byte := 21
  const CMD_HANDLESIG: byte := 24
  const CMD_CPU_INFO: byte := 25
  const CMD_TID_NAMES: byte := 26
  const CMD_PROC_MAP: byte := 27

  const BRK_EXEC: byte := 1
  const RUN_CONTINUE: byte := 0
  const RUN_STEP: byte := 1

  const ENV_RESET_ARGV: byte := 0
  const ENV_SET_ARGV: byte := 1
  const ENV_RESET_ENV: byte := 2
  const ENV_SET_ENV: byte := 3

  /** A nil environment selects the default one. */
  datatype Environment = DefaultEnv | Env(vars: seq<seq<byte>>)

  datatype Command =
    | Attach(pid: int)
    | Detach(pid: int)
    | Kill(pid: int)
    | Select(pid: int, tid: int)
    | ReadRegisters(offset: int, size: int)
    | WriteRegisters(offset: int, data: seq<byte>)
    | SetBreakpoint(addr: u64, size: int)
    | ClearBreakpoint(addr: u64)
    | SetWatchpoint(typ: byte, addr: u64, size: int)
    | Stop
    | MapInfo(pid: int)
    | HandleSig(table: seq<byte>)
    | CPUInfo
    | ThreadNames
    | ProcInfo(pid: int, tid: int)
    | Pidlist(pid: int, tid: int, next: bool)
    | Continue
    | Step(tid: int)
    | ReadMemory(addr: u64, n: int)
    | WriteMemory(addr: u64, data: seq<byte>)
    | Launch(path: seq<byte>, args: seq<seq<byte>>, env: Environment)

  datatype StopEvent = StopEvent(code: byte, pid: nat, tid: nat, raw: seq<byte>)

  datatype Result =
    | Done
    | Failed
    | Data(bytes: seq<byte>)
    | Process(pid: nat, tid: nat, raw: seq<byte>)
    | Halted(stop: StopEvent)
    | Wrote(total: nat)
    | Launched(pid: nat, tid: nat)

  // ----- message layouts -----

  datatype Request = Request(cmd: byte, sub: byte, body: seq<byte>)

  function Message(r: Request, mid: byte): seq<byte> {
    [r.cmd, r.sub, mid, CHAN_DEBUG] + r.body
  }

  /** Conversions to a fixed width wrap around. */
  function Le16(x: int): seq<byte> { LittleEndian(x % TWO_16, 2) }
  function Le32(x: int): seq<byte> { LittleEndian(x % TWO_32, 4) }
  function Le64(x: int): seq<byte> { LittleEndian(x % TWO_64, 8) }

  function BreakRequest(typ: byte, addr: u64, size: int): Request {
    Request(CMD_BRK, typ, Le32(size) + Le64(addr))
  }

  function RunRequest(sub: byte, tid: int): Request {
    Request(CMD_RUN, sub, Le32(0) + Le32(tid) + Zeros(12))
  }

  function MemoryReadRequest(addr: nat, want: nat): Request {
    Request(CMD_MEMRD, 0, Zeros(4) + Le64(addr) + Le16(want) + Zeros(6))
  }

  function MemoryWriteRequest(addr: nat, data: seq<byte>): Request {
    Request(CMD_MEMWR, 0, Zeros(4) + Le64(addr) + data)
  }

  /** The signal table, cut or zero-padded to its fixed length. */
  function SignalTable(table: seq<byte>): seq<byte> {
    if |table| >= NUM_SIGNALS then table[..NUM_SIGNALS] else table + Zeros(NUM_SIGNALS - |table|)
  }

  predicate IsSingle(c: Command) {
    !(c.Continue? || c.Step? || c.ReadMemory? || c.WriteMemory? || c.Launch?)
  }

  /** The one message of a command that is a single question and answer. */
  function SingleRequest(c: Command): Request
    requires IsSingle(c)
  {
    match c
    case Attach(pid) => Request(CMD_ATTACH, 0, Le32(pid))
    case Detach(pid) => Request(CMD_DETACH, 0, Le32(pid))
    case Kill(pid) => Request(CMD_KILL, 0, Le32(pid))
    case Select(pid, tid) => Request(CMD_SELECT, 0, Le32(pid) + Le32(tid))
    case ReadRegisters(offset, size) => Request(CMD_REGRD, 0, Le16(offset) + Le16(size))
    case WriteRegisters(offset, data) => Request(CMD_REGWR, 0, Le16(offset) + data)
    case SetBreakpoint(addr, size) => BreakRequest(BRK_EXEC, addr, size)
    case ClearBreakpoint(addr) => BreakRequest(BRK_EXEC, addr, -1)
    case SetWatchpoint(typ, addr, size) => BreakRequest(typ, addr, if size <= 0 then 1 else size)
    case Stop => Request(CMD_STOP, 0, [])
    case MapInfo(pid) => Request(CMD_PROC_MAP, 0, Le32(pid))
    case HandleSig(table) => Request(CMD_HANDLESIG, 0, SignalTable(table))
    case CPUInfo => Request(CMD_CPU_INFO, 0, Le32(0))
    case ThreadNames => Request(CMD_TID_NAMES, 0, Le32(0))
    case ProcInfo(pid, tid) => Request(CMD_PIDLIST, 2, Le32(pid) + Le32(tid))
    case Pidlist(pid, tid, next) => Request(CMD_PIDLIST, if next then 1 else 0, Le32(pid) + Le32(tid))
  }

  function ReplyBody(p: seq<byte>): seq<byte> {
    if |p| <= 4 then [] else p[4..]
  }

  /** What a single command returns for a reply. */
  function SingleResult(c: Command, p: seq<byte>): Result
    requires IsSingle(c) && p != []
  {
    var body := ReplyBody(p);
    if p[0] == RESP_ERR && !c.Stop? then Failed
    else match c
      case ReadRegisters(_, _) => Data(body)
      case MapInfo(_) => Data(body)
      case CPUInfo => Data(body)
      case ThreadNames => Data(body)
      case ProcInfo(_, _) => Data(body)
      case Pidlist(_, _, _) =>
        if |body| >= 8 then Process(FromLittleEndian(body[..4]), FromLittleEndian(body[4..8]), body)
        else Process(0, 0, body)
      case _ => Done
  }

  function StopResult(p: seq<byte>): StopEvent
    requires p != []
  {
    var body := ReplyBody(p);
    if |body| >= 8 then StopEvent(p[0], FromLittleEndian(body[..4]), FromLittleEndian(body[4..8]), p)
    else StopEvent(p[0], 0, 0, p)
  }

  // ----- launching -----

  function EnvironmentOf(env: Environment): seq<seq<byte>> {
    match env
    case DefaultEnv => [Ascii("PATH=/proc/boot:/system/bin"), Ascii("HOME=/"), Ascii("LD_BIND_NOW=1")]
    case Env(vars) => vars
  }

  function EnvRequests(sub: byte, items: seq<seq<byte>>): seq<Request> {
    seq(|items|, i requires 0 <= i < |items| => Request(CMD_ENV, sub, items[i] + [0]))
  }

  function Marker(i: nat): seq<byte> {
    [0x40] + Decimal(i) + [0]
  }

  function Markers(n: nat): seq<byte> {
    if n == 0 then [] else Markers(n - 1) + Marker(n - 1)
  }

  function LoadRequest(path: seq<byte>, staged: nat): Request {
    Request(CMD_LOAD, 0, Zeros(8) + path + [0] + Markers(if staged < 3 then 3 else staged) + [0])
  }

  /** The whole conversation of a launch: environment, arguments, load. */
  function LaunchRequests(path: seq<byte>, args: seq<seq<byte>>, env: Environment): seq<Request> {
    [Request(CMD_ENV, ENV_RESET_ENV, Zeros(1024))]
    + EnvRequests(ENV_SET_ENV, EnvironmentOf(env))
    + [Request(CMD_ENV, ENV_RESET_ARGV, Zeros(1024))]
    + EnvRequests(ENV_SET_ARGV, [path, path] + args)
    + [LoadRequest(path, 2 + |args|)]
  }

  // ----- chunked memory transfer -----

  /** A target's answer to one read request. */
  datatype ChunkReply = Chunk(bytes: seq<byte>) | TargetError | LinkError

  /** What `ReadMemory` returns: the data, the data read before the link failed, or an error. */
  datatype ReadOutcome = ReadOk(data: seq<byte>) | ReadBroken(data: seq<byte>) | ReadFailed

  /** The request size of the next chunk. */
  function Want(n: int, got: nat): int {
    if n - got > MAX_CHUNK then MAX_CHUNK else n - got
  }

  /** A reply longer than the request is cut. */
  function AtMost(bytes: seq<byte>, want: nat): seq<byte> {
    if |bytes| > want then bytes[..want] else bytes
  }

  /** The chunk loop against any target: `answer(k, addr, want)` is its reply to the k-th request. */
  function ChunkedRead(answer: (nat, nat, nat) -> ChunkReply, addr: u64, n: int, k: nat, out: seq<byte>): ReadOutcome
    decreases n - |out|
  {
    if |out| >= n then ReadOk(out)
    else
      var want := Want(n, |out|);
      match answer(k, (addr + |out|) % TWO_64, want)
      case LinkError => ReadBroken(out)
      case TargetError => if out != [] then ReadOk(out) else ReadFailed
      case Chunk(bytes) =>
        var data := AtMost(bytes, want);
        if data == [] then ReadOk(out)
        else if |data| < want then ReadOk(out + data)
        else ChunkedRead(answer, addr, n, k + 1, out + data)
  }

  /** The loop of `ReadMemory` over any target. */
  method ReadChunks(answer: (nat, nat, nat) -> ChunkReply, addr: u64, n: int) returns (r: ReadOutcome)
    ensures r == ChunkedRead(answer, addr, n, 0, [])
  {
    var out := [];
    var k: nat := 0;
    while |out| < n
      invariant ChunkedRead(answer, addr, n, k, out) == ChunkedRead(answer, addr, n, 0, [])
      decreases n - |out|
    {
      var want := n - |out|;
      if want > MAX_CHUNK {
        want := MAX_CHUNK;
      }
      var reply := answer(k, (addr + |out|) % TWO_64, want);
      if reply.LinkError? {
        return ReadBroken(out);
      }
      if reply.TargetError? {
        if |out| > 0 {
          break;
        }
        return ReadFailed;
      }
      var data := reply.bytes;
      if |data| == 0 {
        break;
      }
      if |data| > want {
        data := data[..want];
      }
      if |data| < want {
        return ReadOk(out + data);
      }
      k, out := k + 1, out + data;
    }
    r := ReadOk(out);
  }

  /** The flat reference: `n` octets of a 64-bit address space from `addr`, wrapping at its end. */
  function Flat(memory: u64 -> byte, addr: nat, n: nat): (r: seq<byte>)
    ensures |r| == n
  {
    seq<byte>(n, i requires 0 <= i < n => memory((addr + i) % TWO_64))
  }

  /** A target whose every data reply is a prefix of its memory at the requested address. */
  ghost predicate AnswersFrom(answer: (nat, nat, nat) -> ChunkReply, memory: u64 -> byte) {
    forall k: nat, a: u64, w: nat ::
      match answer(k, a, w)
      case Chunk(bytes) => bytes == Flat(memory, a, |bytes|)
      case _ => true
  }

  /** A target that never answers less than it is asked for. */
  ghost predicate AnswersInFull(answer: (nat, nat, nat) -> ChunkReply) {
    forall k: nat, a: u64, w: nat :: answer(k, a, w).Chunk? && |answer(k, a, w).bytes| >= w
  }

  lemma FlatExtends(memory: u64 -> byte, addr: u64, m: nat, more: nat)
    ensures Flat(memory, addr, m) + Flat(memory, (addr + m) % TWO_64, more) == Flat(memory, addr, m + more)
  {
    var tail, whole := Flat(memory, (addr + m) % TWO_64, more), Flat(memory, addr, m + more);
    forall i | 0 <= i < more
      ensures tail[i] == whole[m + i]
    {
      WrapTwice(addr + m, i);
    }
    assert whole[..m] == Flat(memory, addr, m);
    assert whole[m..] == tail;
  }

  lemma WrapTwice(x: nat, i: nat)
    ensures (x % TWO_64 + i) % TWO_64 == (x + i) % TWO_64
  {
    var q := x / TWO_64;
    assert x == TWO_64 * q + x % TWO_64;
    WrapDrop(x % TWO_64 + i, q);
  }

  lemma {:induction false} WrapDrop(y: nat, q: nat)
    ensures (y + TWO_64 * q) % TWO_64 == y % TWO_64
  {
    if q > 0 {
      WrapDrop(y, q - 1);
      assert y + TWO_64 * q == (y + TWO_64 * (q - 1)) + TWO_64;
    }
  }

  /** Whatever prefixes or errors the target answers with, the result is flat memory from `addr`, no
      longer than asked for; and all of it when no answer falls short. */
  lemma {:induction false} ChunkedReadIsFlat(
      answer: (nat, nat, nat) -> ChunkReply, memory: u64 -> byte, addr: u64, n: int, k: nat, out: seq<byte>)
    requires AnswersFrom(answer, memory)
    requires out == Flat(memory, addr, |out|)
    requires |out| <= n || out == []
    ensures var r := ChunkedRead(answer, addr, n, k, out);
      && (!r.ReadFailed? ==> r.data == Flat(memory, addr, |r.data|) && out <= r.data && (|r.data| <= n || r.data == []))
      && (AnswersInFull(answer) ==> r == ReadOk(Flat(memory, addr, if n < 0 then 0 else n)))
    decreases n - |out|
  {
    if |out| < n {
      var want := Want(n, |out|);
      var a := (addr + |out|) % TWO_64;
      var reply := answer(k, a, want);
      if reply.Chunk? && reply.bytes != [] {
        var data := AtMost(reply.bytes, want);
        assert data == Flat(memory, a, |data|);
        FlatExtends(memory, addr, |out|, |data|);
        if |data| >= want {
          ChunkedReadIsFlat(answer, memory, addr, n, k + 1, out + data);
        }
      }
    }
  }

  /** The messages of a chunked read from offset `got` on, when no answer falls short. */
  function ReadRequests(addr: u64, n: int, got: nat): seq<Request>
    decreases n - got
  {
    if got >= n then []
    else [MemoryReadRequest((addr + got) % TWO_64, Want(n, got))] + ReadRequests(addr, n, got + Want(n, got))
  }

  /** How the mock agent answers a read. */
  function MockAnswer(k: nat, addr: nat, want: nat): ChunkReply {
    Chunk(Memory(addr, want))
  }

  function MockMemory(addr: u64): byte {
    MemoryAt(addr)
  }

  /** Against the mock agent a chunked read of any length returns exactly that many octets, the
      i-th of them `(addr + i) % 256`. */
  lemma MockReadIsFlat(addr: u64, n: int)
    ensures var m := if n < 0 then 0 else n;
      && ChunkedRead(MockAnswer, addr, n, 0, []) == ReadOk(Memory(addr, m))
      && (forall i | 0 <= i < m :: Memory(addr, m)[i] == (addr + i) % 256)
  {
    var m := if n < 0 then 0 else n;
    forall k: nat, a: u64, w: nat
      ensures MockAnswer(k, a, w).bytes == Flat(MockMemory, a, w)
    {
      FlatIsMemory(a, w);
    }
    ChunkedReadIsFlat(MockAnswer, MockMemory, addr, n, 0, []);
    FlatIsMemory(addr, m);
    forall i | 0 <= i < m
      ensures Memory(addr, m)[i] == (addr + i) % 256
    {
      MemoryIsAddressModulo256(addr + i);
    }
  }

  lemma FlatIsMemory(addr: nat, n: nat)
    ensures Flat(MockMemory, addr, n) == Memory(addr, n)
  {
    forall i | 0 <= i < n
      ensures Flat(MockMemory, addr, n)[i] == Memory(addr, n)[i]
    {
      var a := (addr + i) % TWO_64;
      assert Flat(MockMemory, addr, n)[i] == MockMemory(a) == MemoryAt(a);
      assert Memory(addr, n)[i] == MemoryAt(addr + i);
      assert a % TWO_64 == a;
    }
  }

  /** Where a write chunk that starts at `total` ends. */
  function ChunkEnd(total: nat, length: nat): nat {
    if total + MAX_CHUNK > length then length else total + MAX_CHUNK
  }

  /** The messages of a chunked write from `data[total..]` on. */
  function WriteRequests(addr: u64, data: seq<byte>, total: nat): seq<Request>
    decreases |data| - total
  {
    if total >= |data| then []
    else
      var end := ChunkEnd(total, |data|);
      [MemoryWriteRequest(addr + total, data[total..end])] + WriteRequests(addr, data, end)
  }

  /** Memory after `data` has been stored from `addr` on, wrapping at the end of the address space. */
  function Stored(memory: u64 -> byte, addr: nat, data: seq<byte>): u64 -> byte {
    (a: u64) => var i := (a - addr) % TWO_64; if i < |data| then data[i] else memory(a)
  }

  /** What a target does that carries out write messages one after the other. */
  function Apply(memory: u64 -> byte, requests: seq<Request>): u64 -> byte {
    if requests == [] then memory
    else
      var body := requests[0].body;
      if |body| < 12 then Apply(memory, requests[1..])
      else Apply(Stored(memory, FromLittleEndian(body[4..12]), body[12..]), requests[1..])
  }

  lemma Le16RoundTrip(x: int)
    ensures FromLittleEndian(Le16(x)) == x % TWO_16
  {
    Pow256Values();
    LittleEndianRoundTrip(x % TWO_16, 2);
  }

  lemma Le32RoundTrip(x: int)
    ensures FromLittleEndian(Le32(x)) == x % TWO_32
  {
    Pow256Values();
    LittleEndianRoundTrip(x % TWO_32, 4);
  }

  lemma Le64RoundTrip(x: int)
    ensures FromLittleEndian(Le64(x)) == x % TWO_64
  {
    Pow256Values();
    LittleEndianRoundTrip(x % TWO_64, 8);
  }

  lemma MemoryWriteLayout(addr: nat, data: seq<byte>)
    ensures var body := MemoryWriteRequest(addr, data).body;
      |body| >= 12 && FromLittleEndian(body[4..12]) == addr % TWO_64 && body[12..] == data
  {
    var body := MemoryWriteRequest(addr, data).body;
    assert body[4..12] == Le64(addr);
    Le64RoundTrip(addr);
  }

  lemma MemoryReadLayout(addr: u64, want: nat)
    requires want <= MAX_CHUNK
    ensures var body := MemoryReadRequest(addr, want).body;
      |body| == 20 && FromLittleEndian(body[4..12]) == addr && FromLittleEndian(body[12..14]) == want
  {
    var body := MemoryReadRequest(addr, want).body;
    assert body[4..12] == Le64(addr);
    assert body[12..14] == Le16(want);
    Le64RoundTrip(addr);
    Le16RoundTrip(want);
  }

  lemma BreakLayout(typ: byte, addr: u64, size: int)
    ensures var body := BreakRequest(typ, addr, size).body;
      |body| == 12 && FromLittleEndian(body[..4]) == size % TWO_32 && FromLittleEndian(body[4..12]) == addr
  {
    var body := BreakRequest(typ, addr, size).body;
    assert body[..4] == Le32(size) && body[4..12] == Le64(addr);
    Le32RoundTrip(size);
    Le64RoundTrip(addr);
  }

  /** The distance from `addr + total` to `a`, both seen around the address space. */
  lemma Distance(a: u64, addr: u64, total: nat)
    requires total <= TWO_64
    ensures var i := (a - addr) % TWO_64;
      (a - (addr + total) % TWO_64) % TWO_64 == if i >= total then i - total else i - total + TWO_64
  {
    var start := (addr + total) % TWO_64;
    var i, j := (a - addr) % TWO_64, (a - start) % TWO_64;
    assert i == a - addr || i == a - addr + TWO_64;
    assert j == a - start || j == a - start + TWO_64;
  }

  lemma StoreInTwo(memory: u64 -> byte, addr: u64, data: seq<byte>, total: nat, end: nat, b: u64)
    requires total <= end <= |data| <= TWO_64
    ensures Stored(Stored(memory, addr, data[..total]), (addr + total) % TWO_64, data[total..end])(b)
         == Stored(memory, addr, data[..end])(b)
  {
    Distance(b, addr, total);
  }

  /** Chunking a write is invisible: after the first `total` octets are stored, the remaining
      messages leave memory as one flat store of all of `data` would. */
  lemma {:induction false} ChunkedWriteIsFlat(memory: u64 -> byte, addr: u64, data: seq<byte>, total: nat, a: u64)
    requires total <= |data| <= TWO_64
    ensures Apply(Stored(memory, addr, data[..total]), WriteRequests(addr, data, total))(a)
         == Stored(memory, addr, data)(a)
    decreases |data| - total
  {
    if total == |data| {
      assert data[..total] == data;
    } else {
      var end := ChunkEnd(total, |data|);
      var chunk := data[total..end];
      MemoryWriteLayout(addr + total, chunk);
      var before := Stored(memory, addr, data[..total]);
      var after := Stored(before, (addr + total) % TWO_64, chunk);
      ChunkedWriteIsFlat(memory, addr, data, end, a);
      forall b: u64
        ensures after(b) == Stored(memory, addr, data[..end])(b)
      {
        StoreInTwo(memory, addr, data, total, end, b);
      }
      ApplyExtensional(after, Stored(memory, addr, data[..end]), WriteRequests(addr, data, end), a);
    }
  }

  lemma {:induction false} ApplyExtensional(m: u64 -> byte, m': u64 -> byte, requests: seq<Request>, a: u64)
    requires forall b: u64 :: m(b) == m'(b)
    ensures Apply(m, requests)(a) == Apply(m', requests)(a)
    decreases |requests|
  {
    if requests != [] {
      var body := requests[0].body;
      if |body| < 12 {
        ApplyExtensional(m, m', requests[1..], a);
      } else {
        var at := FromLittleEndian(body[4..12]);
        ApplyExtensional(Stored(m, at, body[12..]), Stored(m', at, body[12..]), requests[1..], a);
      }
    }
  }

  // ----- the target as the user of the debugger sees it -----

  /** The agent's state and the number of messages exchanged since the handshake. */
  datatype Target = Target(state: State, exchanged: nat)

  /** The id of the last message: ids run from 2 and wrap at 256. */
  function LastId(t: Target): byte {
    (1 + t.exchanged) % 256
  }

  function Chunks(n: int): nat {
    if n <= 0 then 0 else (n + (MAX_CHUNK - 1)) / MAX_CHUNK
  }

  function Exchanges(c: Command): nat {
    match c
    case ReadMemory(_, n) => Chunks(n)
    case WriteMemory(_, data) => Chunks(|data|)
    case Launch(_, args, env) => |EnvironmentOf(env)| + |args| + 5
    case _ => 1
  }

  /** All messages of a command. */
  function RequestsFor(c: Command): seq<Request> {
    match c
    case Continue => [RunRequest(RUN_CONTINUE, 1)]
    case Step(tid) => [RunRequest(RUN_STEP, if tid <= 0 then 1 else tid)]
    case ReadMemory(addr, n) => ReadRequests(addr, n, 0)
    case WriteMemory(addr, data) => WriteRequests(addr, data, 0)
    case Launch(path, args, env) => LaunchRequests(path, args, env)
    case _ => [SingleRequest(c)]
  }

  lemma {:induction false} ReadRequestCount(addr: u64, n: int, got: nat)
    ensures |ReadRequests(addr, n, got)| == Chunks(n - got)
    decreases n - got
  {
    if got < n {
      ReadRequestCount(addr, n, got + Want(n, got));
    }
  }

  lemma {:induction false} WriteRequestCount(addr: u64, data: seq<byte>, total: nat)
    ensures |WriteRequests(addr, data, total)| == Chunks(|data| - total)
    decreases |data| - total
  {
    if total < |data| {
      WriteRequestCount(addr, data, ChunkEnd(total, |data|));
    }
  }

  lemma RequestCount(c: Command)
    ensures |RequestsFor(c)| == Exchanges(c)
  {
    match c
    case ReadMemory(addr, n) => ReadRequestCount(addr, n, 0);
    case WriteMemory(addr, data) => WriteRequestCount(addr, data, 0);
    case _ =>
  }

  function Break(a: State, addr: u64, size: int): State {
    a.(breakAddr := if size % TWO_32 >= TWO_32 / 2 then 0 else addr)
  }

  function StateAfter(a: State, c: Command): State {
    match c
    case Attach(pid) => a.(pid := pid % TWO_32)
    case Launch(_, _, _) => a.(pid := LOADED_PID)
    case SetBreakpoint(addr, size) => Break(a, addr, size)
    case ClearBreakpoint(addr) => a.(breakAddr := 0)
    case SetWatchpoint(_, addr, size) => Break(a, addr, if size <= 0 then 1 else size)
    case _ => a
  }

  /** The result of a command, the last of whose messages has the given id. */
  function ResultOf(a: State, c: Command, mid: byte): Result {
    match c
    case Kill(_) => Failed
    case CPUInfo => Failed
    case ThreadNames => Failed
    case ProcInfo(_, _) => Failed
    case Pidlist(_, _, _) => Failed
    case ReadRegisters(_, _) => Data(RegisterBlock())
    case MapInfo(_) => Data(MapEntry(a))
    case ReadMemory(addr, n) => Data(Memory(addr, if n < 0 then 0 else n))
    case WriteMemory(_, data) => Wrote(|data|)
    case Continue => Halted(StopEvent(RESP_NOTIFY, a.pid, 1, ReplyTo(RESP_NOTIFY, mid, NotifyBody(a))))
    case Step(_) => Halted(StopEvent(RESP_NOTIFY, a.pid, 1, ReplyTo(RESP_NOTIFY, mid, NotifyBody(a))))
    case Launch(_, _, _) => Launched(LOADED_PID, 1)
    case _ => Done
  }

  function Perform(t: Target, c: Command): (Target, Result) {
    var t' := Target(StateAfter(t.state, c), t.exchanged + Exchanges(c));
    (t', ResultOf(t.state, c, LastId(t')))
  }

  datatype History = History(target: Target, results: seq<Result>)

  function PerformAll(t: Target, cmds: seq<Command>): History
    decreases |cmds|
  {
    if cmds == [] then History(t, [])
    else
      var n := |cmds| - 1;
      var before := PerformAll(t, cmds[..n]);
      var (t', r) := Perform(before.target, cmds[n]);
      History(t', before.results + [r])
  }

  lemma PerformNext(t: Target, cmds: seq<Command>, i: nat)
    requires i < |cmds|
    ensures var before := PerformAll(t, cmds[..i]);
      var next := Perform(before.target, cmds[i]);
      PerformAll(t, cmds[..i + 1]) == History(next.0, before.results + [next.1])
    ensures Stops(cmds[..i + 1]) == Stops(cmds[..i]) + (if cmds[i].Continue? || cmds[i].Step? then 1 else 0)
  {
    assert cmds[..i + 1][..i] == cmds[..i];
  }

  /** How many of the commands end on a stop notification. */
  function Stops(cmds: seq<Command>): nat {
    if cmds == [] then 0
    else
      var n := |cmds| - 1;
      Stops(cmds[..n]) + (if cmds[n].Continue? || cmds[n].Step? then 1 else 0)
  }

  /** The process most recently attached or launched. */
  function LatestPid(initial: nat, cmds: seq<Command>): nat
    decreases |cmds|
  {
    if cmds == [] then initial
    else match cmds[|cmds| - 1]
      case Attach(pid) => pid % TWO_32
      case Launch(_, _, _) => LOADED_PID
      case _ => LatestPid(initial, cmds[..|cmds| - 1])
  }

  /** Every continue and step in every history ends on a stop notification for the process most
      recently attached or launched. */
  lemma {:induction false} StopsReportLatestPid(t: Target, cmds: seq<Command>)
    ensures PerformAll(t, cmds).target.state.pid == LatestPid(t.state.pid, cmds)
    ensures |PerformAll(t, cmds).results| == |cmds|
    ensures forall i | 0 <= i < |cmds| && (cmds[i].Continue? || cmds[i].Step?) ::
      var r := PerformAll(t, cmds).results[i];
      && r.Halted? && r.stop.code == RESP_NOTIFY
      && r.stop.pid == LatestPid(t.state.pid, cmds[..i]) && r.stop.tid == 1
    decreases |cmds|
  {
    if cmds != [] {
      var n := |cmds| - 1;
      StopsReportLatestPid(t, cmds[..n]);
      forall i | 0 <= i < |cmds|
        ensures cmds[..n][..if i < n then i else n] == cmds[..i]
      {
      }
    }
  }

  /** The pid a stop reports is the one encoded in the notification, whatever the id. */
  lemma NotificationDecodes(a: State, mid: byte)
    requires a.pid < TWO_32
    ensures StopResult(ReplyTo(RESP_NOTIFY, mid, NotifyBody(a)))
         == StopEvent(RESP_NOTIFY, a.pid, 1, ReplyTo(RESP_NOTIFY, mid, NotifyBody(a)))
  {
    var p, body := ReplyTo(RESP_NOTIFY, mid, NotifyBody(a)), NotifyBody(a);
    assert p[4..] == body;
    assert body[..4] == LittleEndian(a.pid, 4);
    assert body[4..8] == LittleEndian(1, 4);
    Pow256Values();
    LittleEndianRoundTrip(a.pid, 4);
    LittleEndianRoundTrip(1, 4);
  }

  lemma BreakIsPerformed(a: State, typ: byte, addr: u64, size: int, mid: byte)
    ensures Handle(a, Message(BreakRequest(typ, addr, size), mid))
         == Answer(Break(a, addr, size), [ReplyTo(RESP_OK, mid, [])])
  {
    var r := BreakRequest(typ, addr, size);
    assert Message(r, mid)[4..] == r.body;
    BreakLayout(typ, addr, size);
  }

  lemma AttachIsPerformed(a: State, pid: int, mid: byte)
    ensures Handle(a, Message(Request(CMD_ATTACH, 0, Le32(pid)), mid))
         == Answer(a.(pid := pid % TWO_32), [ReplyTo(RESP_OK_DATA, mid, Zeros(8) + PROCESS_NAME)])
  {
    var body := Le32(pid);
    assert Message(Request(CMD_ATTACH, 0, body), mid)[4..] == body;
    assert body[..4] == body;
    Le32RoundTrip(pid);
  }

  /** Through the message layouts the agent does what the command is specified to do. */
  lemma SingleCommandIsPerformed(a: State, c: Command, mid: byte)
    requires IsSingle(c)
    ensures var answer := Handle(a, Message(SingleRequest(c), mid));
      && answer.state == StateAfter(a, c)
      && |answer.replies| == 1 && answer.replies[0] != []
      && SingleResult(c, answer.replies[0]) == ResultOf(a, c, mid)
  {
    match c
    case Attach(pid) => AttachIsPerformed(a, pid, mid);
    case SetBreakpoint(addr, size) => BreakIsPerformed(a, BRK_EXEC, addr, size, mid);
    case ClearBreakpoint(addr) => BreakIsPerformed(a, BRK_EXEC, addr, -1, mid);
    case SetWatchpoint(typ, addr, size) => BreakIsPerformed(a, typ, addr, if size <= 0 then 1 else size, mid);
    case _ => OtherCommandIsPerformed(a, c, mid);
  }

  /** The same for the agent's reaction as a function value. */
  lemma SingleReactionPerforms(react: ReactFn, a: State, c: Command, mid: byte)
    requires Implements(react) && IsSingle(c)
    ensures var answer := react(a, Message(SingleRequest(c), mid));
      && answer.state == StateAfter(a, c)
      && |answer.replies| == 1 && answer.replies[0] != []
      && SingleResult(c, answer.replies[0]) == ResultOf(a, c, mid)
  {
    var p := Message(SingleRequest(c), mid);
    SingleCommandIsPerformed(a, c, mid);
    assert React(a, p) == Handle(a, p);
  }

  lemma SinglePerforms(t: Target, c: Command)
    requires IsSingle(c) && t.state.pid < TWO_32
    ensures Perform(t, c)
         == (Target(StateAfter(t.state, c), t.exchanged + 1), ResultOf(t.state, c, (2 + t.exchanged) % 256))
    ensures StateAfter(t.state, c).pid < TWO_32
    ensures RequestsFor(c) == [SingleRequest(c)] && SingleRequest(c).cmd != CMD_RUN
  {
  }

  lemma OtherCommandIsPerformed(a: State, c: Command, mid: byte)
    requires IsSingle(c)
    requires !(c.Attach? || c.SetBreakpoint? || c.ClearBreakpoint? || c.SetWatchpoint?)
    ensures var answer := Handle(a, Message(SingleRequest(c), mid));
      && answer.state == StateAfter(a, c)
      && |answer.replies| == 1 && answer.replies[0] != []
      && SingleResult(c, answer.replies[0]) == ResultOf(a, c, mid)
  {
  }

  lemma ReadIsPerformed(react: ReactFn, a: State, addr: u64, want: nat, mid: byte)
    requires Implements(react) && want <= MAX_CHUNK
    ensures react(a, Message(MemoryReadRequest(addr, want), mid))
         == Answer(a, [ReplyTo(RESP_OK_DATA, mid, Memory(addr, want))])
  {
    var r := MemoryReadRequest(addr, want);
    assert Message(r, mid)[4..] == r.body;
    MemoryReadLayout(addr, want);
    assert React(a, Message(r, mid)) == Handle(a, Message(r, mid));
  }

  /** A run is answered, and then the stop is notified. */
  lemma RunIsPerformed(react: ReactFn, a: State, sub: byte, tid: int, mid: byte)
    requires Implements(react)
    ensures react(a, Message(RunRequest(sub, tid), mid))
         == Answer(a, [ReplyTo(RESP_OK, mid, []), ReplyTo(RESP_NOTIFY, mid, NotifyBody(a))])
  {
    var p := Message(RunRequest(sub, tid), mid);
    assert React(a, p) == Handle(a, p);
  }

  /** Memory writes and staging messages are acknowledged and leave the agent as it is. */
  lemma AckIsPerformed(react: ReactFn, a: State, q: Request, mid: byte)
    requires Implements(react) && (q.cmd == CMD_MEMWR || q.cmd == CMD_ENV)
    ensures react(a, Message(q, mid)) == Answer(a, [ReplyTo(RESP_OK, mid, [])])
  {
    assert React(a, Message(q, mid)) == Handle(a, Message(q, mid));
  }

  /** Connecting and agreeing on a version leave the agent as it is. */
  lemma HandshakeIsAnswered(react: ReactFn)
    requires Implements(react)
    ensures react(INITIAL, Message(Request(0, 0, [0x00, 0x07, 0x00, 0x00]), 0)).state == INITIAL
    ensures react(INITIAL, Message(Request(23, 0, [0x00, 0x07]), 1)).state == INITIAL
  {
    var connect := Message(Request(0, 0, [0x00, 0x07, 0x00, 0x00]), 0);
    var protover := Message(Request(23, 0, [0x00, 0x07]), 1);
    assert React(INITIAL, connect) == Handle(INITIAL, connect);
    assert React(INITIAL, protover) == Handle(INITIAL, protover);
  }

  /** One round of the read loop against the mock agent. */
  lemma ReadRound(addr: u64, n: int, k: nat, out: seq<byte>, done: seq<Request>)
    requires |out| < n
    ensures var want := Want(n, |out|);
      var a := (addr + |out|) % TWO_64;
      && ChunkedRead(MockAnswer, addr, n, k, out) == ChunkedRead(MockAnswer, addr, n, k + 1, out + Memory(a, want))
      && done + ReadRequests(addr, n, |out|)
           == (done + [MemoryReadRequest(a, want)]) + ReadRequests(addr, n, |out| + want)
  {
    var want := Want(n, |out|);
    var a := (addr + |out|) % TWO_64;
    var bytes := Memory(a, want);
    assert MockAnswer(k, a, want) == Chunk(bytes);
    var rest := ReadRequests(addr, n, |out| + want);
    assert done + ([MemoryReadRequest(a, want)] + rest) == (done + [MemoryReadRequest(a, want)]) + rest;
  }

  /** What a launch returns for the reply to its load message. */
  function LoadResult(p: seq<byte>): Result
    requires p != []
  {
    var body := ReplyBody(p);
    if p[0] == RESP_ERR then Failed
    else if |body| >= 8 then Launched(FromLittleEndian(body[..4]), FromLittleEndian(body[4..8]))
    else Launched(0, 0)
  }

  lemma LoadIsPerformed(react: ReactFn, a: State, path: seq<byte>, staged: nat, mid: byte)
    requires Implements(react)
    ensures var answer := react(a, Message(LoadRequest(path, staged), mid));
      && answer.state == a.(pid := LOADED_PID)
      && |answer.replies| == 1 && answer.replies[0] != []
      && LoadResult(answer.replies[0]) == Launched(LOADED_PID, 1)
  {
    var p := Message(LoadRequest(path, staged), mid);
    assert React(a, p) == Handle(a, p);
    var body := LittleEndian(LOADED_PID, 4) + LittleEndian(1, 4) + PROCESS_NAME;
    assert ReplyTo(RESP_OK_DATA, mid, body)[4..] == body;
    assert body[..4] == Le32(LOADED_PID) && body[4..8] == Le32(1);
    Le32RoundTrip(LOADED_PID);
    Le32RoundTrip(1);
  }

  /** One round of the write loop. */
  lemma WriteRound(addr: u64, data: seq<byte>, total: nat, done: seq<Request>)
    requires total < |data|
    ensures var end := ChunkEnd(total, |data|);
      done + WriteRequests(addr, data, total)
        == (done + [MemoryWriteRequest(addr + total, data[total..end])]) + WriteRequests(addr, data, end)
  {
    var end := ChunkEnd(total, |data|);
    var q, rest := MemoryWriteRequest(addr + total, data[total..end]), WriteRequests(addr, data, end);
    assert done + ([q] + rest) == (done + [q]) + rest;
  }
}

/** The mock qconn daemon (internal/mockqnx/server.go): a line-driven state machine with a broker
    and leaf services, and a file service that carries raw payloads in the same stream. */
module QconnDaemon {
  import opened QconnText
  import opened QconnHex
  import opened QconnLines

  datatype Vfile = Vfile(path: string, isProc: bool)

  datatype State = State(svc: Service, fds: map<nat, Vfile>, files: map<string, string>, nfd: nat)

  const INITIAL: State := State(Broker, map[], map[], 0)

  /** The reaction to a command: the new state, the text written, and whether a prompt follows. No
      prompt means that the connection is closed. */
  datatype Reaction = Reaction(state: State, text: string, alive: bool)

  function Output(r: Reaction): string {
    if r.alive then r.text + Prompt(r.state.svc) else r.text
  }

  const GREETING: string := "QCONN\r\n" + Prompt(Broker) + NOISE + "\r\n"
  const UNKNOWN: string := "error unknown-command\r\n"

  /** What a target is: what its broker reports, and what the child started by a command writes. */
  datatype Host = Host(tables: Tables, launch: string -> string)

  // ----- broker, control and launcher services -----

  function InfoLine(tables: Tables): string {
    if tables.attributes == [] then "" else AttributeLine(tables.attributes)
  }

  function BrokerReact(tables: Tables, st: State, cmd: string): Reaction {
    if cmd == "quit" then Reaction(st, "", false)
    else if cmd == "versions ?" then Reaction(st, VersionLine(tables.versions) + "\r\n", true)
    else if HasPrefix(cmd, "versions ") then Reaction(st, "256\r\n", true)
    else if cmd == "info" then Reaction(st, InfoLine(tables) + "\r\n", true)
    else if cmd == "service launcher" then Reaction(st.(svc := Launcher), "OK\r\n", true)
    else if cmd == "service file" then Reaction(st.(svc := File), "OK\r\n", true)
    else if cmd == "service cntl" then Reaction(st.(svc := Cntl), "OK\r\n", true)
    else Reaction(st, UNKNOWN, true)
  }

  function CntlReact(st: State, cmd: string): Reaction {
    if cmd == "done" || cmd == "quit" then Reaction(st.(svc := Broker), "", true)
    else if HasPrefix(cmd, "kill ") then Reaction(st, "ok\r\n", true)
    else Reaction(st, UNKNOWN, true)
  }

  function LauncherReact(st: State, launch: string -> string, cmd: string): Reaction {
    if cmd == "done" || cmd == "quit" then Reaction(st.(svc := Broker), "", true)
    else if cmd == "chdir /" then Reaction(st, "OK\r\n", true)
    else if HasPrefix(cmd, "start/flags") then Reaction(st, "OK 8300\r\n" + launch(cmd), false)
    else Reaction(st, UNKNOWN, true)
  }

  // ----- file service -----

  const FILE_MODE: nat := 0x81a4
  const PROC_SIZE: nat := 0x7fff_ffff
  const PROC_NODE: string := "synthetic proc node\n"

  predicate InProc(path: string) {
    HasPrefix(path, "/proc/")
  }

  predicate IsMemory(path: string) {
    InProc(path) && EndsWith(path, "/as")
  }

  function Content(files: map<string, string>, path: string): string {
    if path in files then files[path] else ""
  }

  /** `:flags:mode`, both hexadecimal. */
  predicate IsNumericTail(tail: string) {
    HasPrefix(tail, ":") &&
    match CutAt(tail[1..], ':')
    case NotFound => false
    case Cut(flags, mode) => IsHex(flags) && IsHex(mode)
  }

  /** `path":flags:mode`, the path without quotes. */
  function ParseQuoted(s: string): Option<string> {
    match CutAt(s, '"')
    case NotFound => None
    case Cut(path, tail) => if path != "" && IsNumericTail(tail) then Some(path) else None
  }

  /** `o:"path":flags:mode` */
  function ParseOpen(cmd: string): Option<string> {
    if HasPrefix(cmd, "o:\"") then ParseQuoted(cmd[3..]) else None
  }

  /** The files after an open: process nodes are filled in, everything else is left alone. */
  function FilesAfterOpen(files: map<string, string>, path: string): map<string, string> {
    if InProc(path) && !IsMemory(path) then files[path := PROC_NODE] else files
  }

  function SizeOf(files: map<string, string>, path: string): nat {
    if IsMemory(path) then PROC_SIZE else |Content(files, path)|
  }

  function OpenReact(st: State, cmd: string): Reaction {
    match ParseOpen(cmd)
    case None => Reaction(st, "error bad-open\r\n", true)
    case Some(path) => Opened(st, path)
  }

  function Opened(st: State, path: string): Reaction {
    Reaction(OpenedState(st, path), OpenReply(st.nfd + 3, SizeOf(FilesAfterOpen(st.files, path), path), path), true)
  }

  function OpenedState(st: State, path: string): State {
    State(st.svc, st.fds[st.nfd + 3 := Vfile(path, IsMemory(path))], FilesAfterOpen(st.files, path), st.nfd + 1)
  }

  function OpenReply(fd: nat, size: nat, path: string): string {
    OpenLine(fd, size, path) + "\r\n"
  }

  function OpenLine(fd: nat, size: nat, path: string): string {
    OpenHead(fd, size) + path + "\""
  }

  function OpenHead(fd: nat, size: nat): string {
    "o:" + Hex(fd) + ":" + Hex(FILE_MODE) + ":" + Hex(size) + ":\""
  }

  datatype Transfer = Transfer(fd: nat, off: nat, n: nat)

  /** `r:fd:offset:count` and `w:fd:offset:count`, after the first two characters. */
  function ParseTransfer(args: string): Option<Transfer> {
    match CutAt(args, ':')
    case NotFound => None
    case Cut(fd, tail) =>
      match CutAt(tail, ':')
      case NotFound => None
      case Cut(off, n) =>
        if IsHex(fd) && IsHex(off) && IsHex(n) then Some(Transfer(ParseDigits(fd), ParseDigits(off), ParseDigits(n)))
        else None
  }

  /** The synthetic memory of a process: the octet at an offset is the offset modulo 256. */
  function ProcBytes(off: nat, n: nat): (s: string)
    ensures |s| == n
  {
    seq<char>(n, i requires 0 <= i < n => ((off + i) % 256) as char)
  }

  function Slice(buf: string, off: nat, n: nat): string {
    if off >= |buf| then "" else if off + n > |buf| then buf[off..] else buf[off..off + n]
  }

  function ReadVfile(st: State, t: Transfer): string {
    if t.fd !in st.fds then ""
    else if st.fds[t.fd].isProc then ProcBytes(t.off, t.n)
    else Slice(Content(st.files, st.fds[t.fd].path), t.off, t.n)
  }

  function Zeros(n: nat): (s: string)
    ensures |s| == n
  {
    seq<char>(n, i => '\0')
  }

  /** A buffer after `data` was stored at `off`; it grows, zero-filled, if need be. */
  function Overlay(buf: string, off: nat, data: string): (r: string)
    ensures |r| == if off + |data| > |buf| then off + |data| else |buf|
  {
    var n := if off + |data| > |buf| then off + |data| else |buf|;
    seq<char>(n, i requires 0 <= i < n =>
      if off <= i < off + |data| then data[i - off] else if i < |buf| then buf[i] else '\0')
  }

  function StoreVfile(st: State, fd: nat, off: nat, data: string): State {
    if fd !in st.fds || st.fds[fd].isProc then st
    else
      var path := st.fds[fd].path;
      st.(files := st.files[path := Overlay(Content(st.files, path), off, data)])
  }

  function ReadReact(st: State, cmd: string): Reaction
    requires |cmd| >= 2
  {
    match ParseTransfer(cmd[2..])
    case None => Reaction(st, "error bad-read\r\n", true)
    case Some(t) =>
      var data := ReadVfile(st, t);
      Reaction(st, "o:" + Hex(|data|) + ":0:0\r\n" + data, true)
  }

  function WriteReact(st: State, cmd: string, payload: string): Reaction
    requires |cmd| >= 2
  {
    match ParseTransfer(cmd[2..])
    case None => Reaction(st, "error bad-write\r\n", true)
    case Some(t) => Reaction(StoreVfile(st, t.fd, t.off, payload), "o:" + Hex(t.n) + ":0\r\n", true)
  }

  /** A letter and a colon in front. */
  predicate IsCommand(cmd: string, letter: char) {
    |cmd| >= 2 && cmd[0] == letter && cmd[1] == ':'
  }

  function FileReact(st: State, cmd: string, payload: string): Reaction {
    if cmd == "q" || cmd == "done" || cmd == "quit" then Reaction(st.(svc := Broker), "", true)
    else if IsCommand(cmd, 'o') then OpenReact(st, cmd)
    else if IsCommand(cmd, 'c') || IsCommand(cmd, 'd') || IsCommand(cmd, 'a') then Reaction(st, "o\r\n", true)
    else if IsCommand(cmd, 'r') then ReadReact(st, cmd)
    else if IsCommand(cmd, 'w') then WriteReact(st, cmd, payload)
    else Reaction(st, UNKNOWN, true)
  }

  function React(host: Host, st: State, cmd: string, payload: string): Reaction {
    match st.svc
    case Broker => BrokerReact(host.tables, st, cmd)
    case Launcher => LauncherReact(st, host.launch, cmd)
    case File => FileReact(st, cmd, payload)
    case Cntl => CntlReact(st, cmd)
    case Sinfo => Reaction(st, "", false)
  }

  /** The number of raw octets a command takes from the stream after its line. */
  function PayloadSize(st: State, cmd: string): nat {
    if st.svc == File && IsCommand(cmd, 'w') then
      match ParseTransfer(cmd[2..])
      case None => 0
      case Some(t) => t.n
    else 0
  }

  // ----- the session -----

  class Session {
    const host: Host
    /** The reactions above and the payload sizes, as values. */
    ghost const react: ReactFn
    ghost const size: SizeFn
    var svc: Service
    var fds: map<nat, Vfile>
    var files: map<string, string>
    var nfd: nat
    var inbox: string
    var closed: bool

    function Current(): State
      reads this`svc, this`fds, this`files, this`nfd
    {
      State(svc, fds, files, nfd)
    }

    constructor (host: Host)
      ensures Current() == INITIAL && this.host == host && Implements(react, size, host)
      ensures inbox == "" && !closed
    {
      this.host := host;
      react := (st, cmd, payload) => React(host, st, cmd, payload);
      size := (st, cmd) => PayloadSize(st, cmd);
      svc, fds, files, nfd := Broker, map[], map[], 0;
      inbox, closed := "", false;
    }

    method BrokerCommand(cmd: string) returns (text: string, alive: bool)
      modifies this`svc
      ensures Reaction(Current(), text, alive) == BrokerReact(host.tables, old(Current()), cmd)
    {
      text, alive := "", true;
      if cmd == "quit" {
        alive := false;
      } else if cmd == "versions ?" {
        text := VersionLine(host.tables.versions) + "\r\n";
      } else if HasPrefix(cmd, "versions ") {
        text := "256\r\n";
      } else if cmd == "info" {
        text := InfoLine(host.tables) + "\r\n";
      } else if cmd == "service launcher" {
        svc := Launcher;
        text := "OK\r\n";
      } else if cmd == "service file" {
        svc := File;
        text := "OK\r\n";
      } else if cmd == "service cntl" {
        svc := Cntl;
        text := "OK\r\n";
      } else {
        text := UNKNOWN;
      }
    }

    method CntlCommand(cmd: string) returns (text: string, alive: bool)
      modifies this`svc
      ensures Reaction(Current(), text, alive) == CntlReact(old(Current()), cmd)
    {
      text, alive := "", true;
      if cmd == "done" || cmd == "quit" {
        svc := Broker;
      } else if HasPrefix(cmd, "kill ") {
        text := "ok\r\n";
      } else {
        text := UNKNOWN;
      }
    }

    method LauncherCommand(cmd: string) returns (text: string, alive: bool)
      modifies this`svc
      ensures Reaction(Current(), text, alive) == LauncherReact(old(Current()), host.launch, cmd)
    {
      text, alive := "", true;
      if cmd == "done" || cmd == "quit" {
        svc := Broker;
      } else if cmd == "chdir /" {
        text := "OK\r\n";
      } else if HasPrefix(cmd, "start/flags") {
        text, alive := "OK 8300\r\n" + host.launch(cmd), false;
      } else {
        text := UNKNOWN;
      }
    }

    method Open(cmd: string) returns (text: string)
      modifies this`fds, this`files, this`nfd
      ensures Reaction(Current(), text, true) == OpenReact(old(Current()), cmd)
    {
      var m := ParseOpen(cmd);
      if m.None? {
        return "error bad-open\r\n";
      }
      text := OpenPath(m.value);
    }

    method OpenPath(path: string) returns (text: string)
      modifies this`fds, this`files, this`nfd
      ensures Reaction(Current(), text, true) == Opened(old(Current()), path)
    {
      var fd := nfd + 3;
      nfd := nfd + 1;
      var size;
      if InProc(path) && EndsWith(path, "/as") {
        size := PROC_SIZE;
      } else if InProc(path) {
        files := files[path := PROC_NODE];
        size := |files[path]|;
      } else {
        size := |Content(files, path)|;
      }
      fds := fds[fd := Vfile(path, IsMemory(path))];
      text := OpenReply(fd, size, path);
    }

    /** The fill loop of a process node, or a slice of a stored file. */
    method Fetch(t: Transfer) returns (data: string)
      ensures data == ReadVfile(Current(), t)
    {
      if t.fd !in fds {
        return "";
      }
      if fds[t.fd].isProc {
        data := "";
        for i := 0 to t.n
          invariant data == ProcBytes(t.off, i)
        {
          data := data + [((t.off + i) % 256) as char];
        }
        return;
      }
      var buf := Content(files, fds[t.fd].path);
      if t.off >= |buf| {
        return "";
      }
      var end := t.off + t.n;
      if end > |buf| {
        end := |buf|;
      }
      data := buf[t.off..end];
    }

    /** Grows the stored buffer if need be and copies the data into it. */
    method Store(fd: nat, off: nat, data: string)
      modifies this`files
      ensures Current() == StoreVfile(old(Current()), fd, off, data)
    {
      if fd !in fds || fds[fd].isProc {
        return;
      }
      var path := fds[fd].path;
      var buf := Copied(Content(files, path), off, data);
      files := files[path := buf];
    }

    /** A grown copy of the buffer, with the data in it. */
    static method Copied(was: string, off: nat, data: string) returns (buf: string)
      ensures buf == Overlay(was, off, data)
    {
      buf := was;
      var need := off + |data|;
      if need > |buf| {
        buf := buf + Zeros(need - |buf|);
      }
      buf := buf[..off] + data + buf[need..];
    }

    method FileCommand(cmd: string, payload: string) returns (text: string)
      modifies this`svc, this`fds, this`files, this`nfd
      ensures Reaction(Current(), text, true) == FileReact(old(Current()), cmd, payload)
    {
      text := "";
      if cmd == "q" || cmd == "done" || cmd == "quit" {
        svc := Broker;
      } else if IsCommand(cmd, 'o') {
        text := Open(cmd);
      } else if IsCommand(cmd, 'c') || IsCommand(cmd, 'd') || IsCommand(cmd, 'a') {
        text := "o\r\n";
      } else if IsCommand(cmd, 'r') {
        text := ReadCommand(cmd);
      } else if IsCommand(cmd, 'w') {
        text := WriteCommand(cmd, payload);
      } else {
        text := UNKNOWN;
      }
    }

    method ReadCommand(cmd: string) returns (text: string)
      requires |cmd| >= 2
      ensures Reaction(Current(), text, true) == ReadReact(Current(), cmd)
    {
      var m := ParseTransfer(cmd[2..]);
      if m.None? {
        return "error bad-read\r\n";
      }
      var data := Fetch(m.value);
      text := "o:" + Hex(|data|) + ":0:0\r\n" + data;
    }

    method WriteCommand(cmd: string, payload: string) returns (text: string)
      requires |cmd| >= 2
      modifies this`files
      ensures Reaction(Current(), text, true) == WriteReact(old(Current()), cmd, payload)
    {
      var m := ParseTransfer(cmd[2..]);
      if m.None? {
        return "error bad-write\r\n";
      }
      Store(m.value.fd, m.value.off, payload);
      text := "o:" + Hex(m.value.n) + ":0\r\n";
    }

    method Dispatch(cmd: string, payload: string) returns (text: string, alive: bool)
      modifies this`svc, this`fds, this`files, this`nfd
      ensures Reaction(Current(), text, alive) == React(host, old(Current()), cmd, payload)
    {
      match svc
      case Broker => text, alive := BrokerCommand(cmd);
      case Launcher => text, alive := LauncherCommand(cmd);
      case Cntl => text, alive := CntlCommand(cmd);
      case File =>
        text := FileCommand(cmd, payload);
        alive := true;
      case Sinfo => text, alive := "", false;
    }

    /** The command loop, run until it would block for more input; a closed session reads no more. */
    method Receive(bytes: string) returns (out: string)
      requires Implements(react, size, host)
      modifies this
      ensures Served(Current(), out, inbox, !closed) ==
        Hear(react, size, old(closed), old(Current()), old(inbox) + bytes)
    {
      inbox := inbox + bytes;
      out := "";
      if closed {
        return;
      }
      ghost var all := Serve(react, size, Current(), inbox);
      while true
        invariant !closed
        invariant all == Resume(out, Serve(react, size, Current(), inbox))
        decreases |inbox|
      {
        ServeRound(react, size, Current(), inbox, out);
        var next := TakeCommand(inbox);
        if next.NoCommand? {
          return;
        }
        inbox := next.rest;
        var written, alive := ServeCommand(next.cmd, next.payload);
        out := out + written;
        if !alive {
          closed := true;
          return;
        }
      }
    }

    /** Reads a line, and the payload it announces if that has arrived. */
    method TakeCommand(s: string) returns (next: Command)
      requires Implements(react, size, host)
      ensures next == NextCommand(size, Current(), s)
    {
      var line := CutAt(s, '\n');
      if line.NotFound? {
        return NoCommand;
      }
      var cmd := TrimRightCR(line.before);
      var n := PayloadSize(Current(), cmd);
      if n > |line.after| {
        return NoCommand;
      }
      next := Command(cmd, line.after[..n], line.after[n..]);
    }

    /** One command: its text, and the prompt unless the connection ends. */
    method ServeCommand(cmd: string, payload: string) returns (written: string, alive: bool)
      requires Implements(react, size, host)
      modifies this`svc, this`fds, this`files, this`nfd
      ensures var r := react(old(Current()), cmd, payload);
        Current() == r.state && written == Output(r) && alive == r.alive
    {
      written, alive := Dispatch(cmd, payload);
      if alive {
        written := written + Prompt(svc);
      }
    }
  }

  // ----- the command loop -----

  type ReactFn = (State, string, string) -> Reaction
  type SizeFn = (State, string) -> nat

  /** The function values are the daemon's reactions and payload sizes. (The triggers keep proofs
      about the command loop free of what these are.) */
  ghost predicate Implements(react: ReactFn, size: SizeFn, host: Host) {
    && (forall st: State, cmd: string, payload: string {:trigger React(host, st, cmd, payload)} ::
          react(st, cmd, payload) == React(host, st, cmd, payload))
    && (forall st: State, cmd: string {:trigger PayloadSize(st, cmd)} :: size(st, cmd) == PayloadSize(st, cmd))
  }

  datatype Command = NoCommand | Command(cmd: string, payload: string, rest: string)

  /** The first complete command of the input: a line and the payload it announces. */
  function NextCommand(size: SizeFn, st: State, s: string): (r: Command)
    ensures r.Command? ==> |r.rest| < |s|
  {
    match CutAt(s, '\n')
    case NotFound => NoCommand
    case Cut(line, after) =>
      var cmd := TrimRightCR(line);
      var n := size(st, cmd);
      if n <= |after| then Command(cmd, after[..n], after[n..]) else NoCommand
  }

  datatype Served = Served(state: State, out: string, rest: string, alive: bool)

  /** What a daemon with these reactions writes for the input `s`. */
  function Serve(react: ReactFn, size: SizeFn, st: State, s: string): Served
    decreases |s|
  {
    match NextCommand(size, st, s)
    case NoCommand => Served(st, "", s, true)
    case Command(cmd, payload, rest) =>
      var r := react(st, cmd, payload);
      if !r.alive then Served(r.state, r.text, rest, false)
      else Resume(Output(r), Serve(react, size, r.state, rest))
  }

  /** The same for a session that may be closed already. */
  function Hear(react: ReactFn, size: SizeFn, closed: bool, st: State, s: string): Served {
    if closed then Served(st, "", s, false) else Serve(react, size, st, s)
  }

  function Resume(out: string, later: Served): Served {
    later.(out := out + later.out)
  }

  lemma ServeRound(react: ReactFn, size: SizeFn, st: State, s: string, out: string)
    ensures match NextCommand(size, st, s)
      case NoCommand => Resume(out, Serve(react, size, st, s)) == Served(st, out, s, true)
      case Command(cmd, payload, rest) =>
        var r := react(st, cmd, payload);
        Resume(out, Serve(react, size, st, s)) ==
          if !r.alive then Served(r.state, out + Output(r), rest, false)
          else Resume(out + Output(r), Serve(react, size, r.state, rest))
  {
    var next := NextCommand(size, st, s);
    if next.NoCommand? {
      assert out + "" == out;
    } else {
      var r := react(st, next.cmd, next.payload);
      if r.alive {
        var written, later := Output(r), Serve(react, size, r.state, next.rest).out;
        assert out + (written + later) == out + written + later;
      }
    }
  }

  /** Input is never swallowed: a daemon that stays connected has kept all of it, or has written something
      that ends in a prompt. */
  lemma {:induction false} ServeLeavesTrace(react: ReactFn, size: SizeFn, st: State, s: string)
    ensures var r := Serve(react, size, st, s);
      r.alive ==> (r.out == "" && r.rest == s) || (r.out != "" && r.out[|r.out| - 1] == '>')
    decreases |s|
  {
    var next := NextCommand(size, st, s);
    if next.Command? {
      var r := react(st, next.cmd, next.payload);
      if r.alive {
        PromptShape(r.state.svc);
        ServeLeavesTrace(react, size, r.state, next.rest);
      }
    }
  }

  /** One command to an idle daemon. */
  lemma ServeOne(react: ReactFn, size: SizeFn, st: State, cmd: string, payload: string)
    requires '\n' !in cmd && (cmd == "" || cmd[|cmd| - 1] != '\r')
    requires size(st, cmd) == |payload|
    ensures var r := react(st, cmd, payload);
      Serve(react, size, st, cmd + "\n" + payload) == Served(r.state, Output(r), "", r.alive)
  {
    var s := cmd + "\n" + payload;
    assert s == cmd + ['\n'] + payload;
    CutAtFirst(cmd, '\n', payload);
    assert TrimRightCR(cmd) == cmd;
    assert payload[..|payload|] == payload && payload[|payload|..] == "";
    var r := react(st, cmd, payload);
    if r.alive {
      assert CutAt("", '\n') == NotFound;
      assert Serve(react, size, r.state, "") == Served(r.state, "", "", true);
      assert Output(r) + "" == Output(r);
    }
  }
}

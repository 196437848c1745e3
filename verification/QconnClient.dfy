/** The qconn client (internal/qconn/client.go, file.go, cntl.go) talking to the mock daemon: what the
    client writes is handed to the daemon before the next read, and what the daemon writes is
    appended to the client's input. */
module QconnClient {
  import opened QconnText
  import opened QconnHex
  import opened QconnFraming
  import opened QconnLines
  import opened QconnDaemon
  import opened QconnReplies
  import opened QconnFields
  import opened QconnCommands
  import opened QconnStore
  import opened QconnExchanges
  import opened QconnOpening

  class Client {
    const fc: FrameConn
    const daemon: Session
    var current: Service
    var info: Option<map<string, string>>
    /** Whether any exchange has taken place since the handshake. */
    ghost var exchanged: bool

    /** Nothing is under way: all that was written is served, and all that was answered is read,
        except the last line of the greeting before the first exchange. */
    ghost predicate Idle()
      reads this, fc, daemon
    {
      && Implements(daemon.react, daemon.size, daemon.host) && Reportable(daemon.host.tables)
      && fc.outbox == "" && daemon.inbox == "" && !daemon.closed
      && Leftover(fc.input) && (exchanged ==> fc.input == "")
    }

    /** The client knows which service the daemon is in. */
    ghost predicate Valid()
      reads this, fc, daemon
    {
      && Idle()
      && current == daemon.svc && current != Sinfo
      && (current != Broker ==> exchanged)
      && (info.Some? ==> info.value == Table(AttributePairs(daemon.host.tables.attributes)))
    }

    /** Connects to a fresh daemon and reads its greeting up to the broker prompt. The line after
        the prompt is left unread. */
    constructor (daemon: Session)
      requires Implements(daemon.react, daemon.size, daemon.host) && Reportable(daemon.host.tables)
      requires daemon.Current() == INITIAL && daemon.inbox == "" && !daemon.closed
      ensures this.daemon == daemon && fresh(fc)
      ensures Valid() && !exchanged && info == None
      ensures fc.input == NOISE + "\r\n"
    {
      this.daemon := daemon;
      fc := new FrameConn(GREETING);
      current, info, exchanged := Broker, None, false;
      new;
      GreetingIsRead();
      var banner, ok := Handshake();
    }

    /** Reads the greeting, whatever it is, up to the first prompt. */
    method Handshake() returns (banner: string, ok: bool)
      modifies fc
      ensures IsResponse(old(fc.input), banner, ok, fc.input)
      ensures fc.outbox == old(fc.outbox) + UntilPrompt(old(fc.input), "", "").replies
    {
      banner, ok := fc.ReadUntilPrompt();
    }

    // ----- the wire -----

    /** The network carries what was written to the daemon, and the daemon's answer back. */
    method Pump(ghost wire: string, ghost served: Served)
      requires Implements(daemon.react, daemon.size, daemon.host)
      requires wire == daemon.inbox + fc.outbox
      requires served == Hear(daemon.react, daemon.size, daemon.closed, daemon.Current(), wire)
      modifies fc, daemon
      ensures Served(daemon.Current(), served.out, daemon.inbox, !daemon.closed) == served
      ensures fc.input == old(fc.input) + served.out && fc.outbox == ""
    {
      var bytes := fc.outbox;
      fc.outbox := "";
      var answer := daemon.Receive(bytes);
      fc.input := fc.input + answer;
    }

    /** One command in the current service and the text up to the next prompt, whatever state the two ends
        are in. */
    method Raw(cmd: string, ghost served: Served) returns (resp: string, ok: bool)
      requires Implements(daemon.react, daemon.size, daemon.host)
      requires served == Hear(daemon.react, daemon.size, daemon.closed, daemon.Current(),
                              daemon.inbox + (fc.outbox + cmd + "\n"))
      modifies fc, daemon, this`exchanged
      ensures Served(daemon.Current(), served.out, daemon.inbox, !daemon.closed) == served && exchanged
      ensures IsResponse(old(fc.input) + served.out, resp, ok, fc.input)
      ensures fc.outbox == UntilPrompt(old(fc.input) + served.out, "", "").replies
    {
      fc.WriteLine(cmd);
      Pump(daemon.inbox + fc.outbox, served);
      resp, ok := fc.ReadUntilPrompt();
      exchanged := true;
    }

    method Write(cmd: string, payload: string)
      requires fc.outbox == "" && daemon.inbox == ""
      modifies fc`outbox
      ensures daemon.inbox + fc.outbox == cmd + "\n" + payload
    {
      fc.WriteLine(cmd);
      fc.WriteRaw(payload);
    }

    /** One command line and the payload after it, carried to an idle daemon. */
    method Carry(cmd: string, payload: string, ghost served: Served)
      requires Idle() && served == Serve(daemon.react, daemon.size, daemon.Current(), cmd + "\n" + payload)
      modifies fc, daemon
      ensures fc.input == old(fc.input) + served.out && fc.outbox == ""
      ensures Served(daemon.Current(), served.out, daemon.inbox, !daemon.closed) == served
    {
      Write(cmd, payload);
      Pump(cmd + "\n" + payload, served);
    }

    /** The same for a command that takes the whole payload and keeps the connection. */
    method Send(cmd: string, payload: string, ghost r: Reaction)
      requires Idle() && OneLine(cmd)
      requires daemon.size(daemon.Current(), cmd) == |payload|
      requires r == daemon.react(daemon.Current(), cmd, payload) && r.alive
      modifies fc, daemon
      ensures fc.input == old(fc.input) + (r.text + Prompt(r.state.svc))
      ensures fc.outbox == "" && daemon.inbox == "" && !daemon.closed
      ensures daemon.Current() == r.state
    {
      ServeOne(daemon.react, daemon.size, daemon.Current(), cmd, payload);
      Carry(cmd, payload, Served(r.state, Output(r), "", true));
    }

    /** Reads a quiet response up to the prompt. */
    method AwaitPrompt(ghost text: string, ghost svc: Service) returns (resp: string, ok: bool)
      requires fc.input == text + Prompt(svc) && Quiet(text)
      modifies fc
      ensures ok && resp == TrimLeft(text)
      ensures fc.input == "" && fc.outbox == old(fc.outbox)
    {
      ReadQuiet(text, svc, "");
      assert text + Prompt(svc) + "" == fc.input;
      resp, ok := fc.ReadUntilPrompt();
    }

    /** One command to an idle daemon and its response, `r` being the daemon's reaction. */
    method Ask(cmd: string, ghost r: Reaction) returns (resp: string, ok: bool)
      requires Idle() && Answers(daemon.react, daemon.size, daemon.Current(), cmd, r)
      modifies fc, daemon, this`exchanged
      ensures Idle() && exchanged
      ensures daemon.Current() == r.state
      ensures ok && resp == TrimLeft(old(fc.input) + r.text)
    {
      AnswerIsRead(daemon.react, daemon.size, daemon.Current(), cmd, r, fc.input);
      assert daemon.inbox + (fc.outbox + cmd + "\n") == cmd + "\n";
      resp, ok := Raw(cmd, Served(r.state, Output(r), "", true));
    }

    /** One command whose response is a single meaningful line. */
    method Query(cmd: string, ghost r: Reaction, ghost line: string) returns (first: string, ok: bool)
      requires Idle() && Answers(daemon.react, daemon.size, daemon.Current(), cmd, r)
      requires Meaningful(line) && r.text == line + "\r\n"
      modifies fc, daemon, this`exchanged
      ensures Idle() && exchanged
      ensures daemon.Current() == r.state
      ensures ok && first == line
    {
      ghost var unread := fc.input;
      var resp;
      resp, ok := Ask(cmd, r);
      assert unread + r.text == unread + line + "\r\n";
      FirstLineOf(unread, line);
      first := ComputeFirstLine(resp);
    }

    // ----- services -----

    /** Returns from a leaf service to the broker. */
    method LeaveService() returns (ok: bool)
      requires Valid() && current != Broker
      modifies fc, daemon, this`current, this`exchanged
      ensures Valid() && current == Broker && ok
      ensures daemon.Current() == old(daemon.Current()).(svc := Broker)
    {
      ghost var st := daemon.Current();
      LeaveAnswers(daemon.react, daemon.size, daemon.host, st);
      var resp;
      resp, ok := Ask(LeaveCommand(current), Reaction(st.(svc := Broker), "", true));
      if !ok {
        return;
      }
      current := Broker;
    }

    /** Switches to a service unless already there. The daemon refuses one, which leaves both ends in the
        broker. */
    method Ensure(svc: Service) returns (ok: bool)
      requires Valid()
      modifies fc, daemon, this`current, this`exchanged
      ensures Valid() && (ok <==> svc != Sinfo) && current == (if ok then svc else Broker)
      ensures daemon.Current() == old(daemon.Current()).(svc := current)
    {
      ok := true;
      if current == svc {
        return;
      }
      if current != Broker {
        ok := LeaveService();
        if !ok {
          return;
        }
      }
      if svc == Broker {
        return;
      }
      ok := Enter(svc);
    }

    method Enter(svc: Service) returns (ok: bool)
      requires Valid() && current == Broker && svc != Broker
      modifies fc, daemon, this`current, this`exchanged
      ensures Valid() && (ok <==> svc != Sinfo) && current == (if ok then svc else Broker)
      ensures daemon.Current() == old(daemon.Current()).(svc := current)
    {
      ghost var st := daemon.Current();
      ServiceAnswers(daemon.react, daemon.size, daemon.host, st, svc);
      ghost var expected := EnteredLine(st, svc);
      var line;
      line, ok := Query("service " + Name(svc), Entered(st, svc), expected);
      ok := ok && HasPrefix(line, "OK");
      if ok {
        current := svc;
      }
    }

    // ----- descriptors -----

    /** One command of which nothing is known but what the daemon answers, and the first line of the
        response. */
    method Attempt(cmd: string, ghost served: Served) returns (first: string, ok: bool)
      requires Idle() && exchanged && served == Serve(daemon.react, daemon.size, daemon.Current(), cmd + "\n")
      modifies fc, daemon, this`exchanged
      ensures Idle() <==> InStep(served)
      ensures exchanged && daemon.Current() == served.state
      ensures first == FirstLine(ResponseText(served.out)) && (!ok ==> first == "")
    {
      assert daemon.inbox + (fc.outbox + cmd + "\n") == cmd + "\n";
      HeardLeavesTrace(daemon.react, daemon.size, false, daemon.Current(), cmd + "\n");
      ghost var input := fc.input;
      var resp;
      resp, ok := Raw(cmd, served);
      StepAfter(input, served, resp, ok, fc.input, fc.outbox);
      first := ComputeFirstLine(resp);
    }

    /** Opens a file. The two ends are in step afterwards exactly if the path can be spoken of. */
    method OpenFile(path: string, flags: nat, mode: int) returns (h: Option<Handle>)
      requires Valid() && current == File && InRange(daemon.Current()) && !Hides(path)
      modifies fc, daemon, this`exchanged
      ensures Idle() <==> Speakable(path, mode)
      ensures Speakable(path, mode) ==> Valid() && IsOpening(old(daemon.Current()), daemon.Current(), path, mode, h)
      ensures Interrupts(path, mode) ==> h == None
    {
      ghost var served, decode :=
        OpenIsServed(daemon.react, daemon.size, daemon.host, daemon.Current(), path, flags, mode);
      var first, ok := Attempt(OpenCommand(path, flags, mode), served);
      NothingIsNoHandle(decode);
      if !ok {
        return None;
      }
      h := DecodeOpen(first, decode);
    }

    /** The deferred close after a write that lost step: it does not make up for it. */
    method Abandon(fd: nat) returns (ok: bool)
      requires Implements(daemon.react, daemon.size, daemon.host) && Prompt(File) <= fc.input && fc.outbox == ""
      modifies fc, daemon, this`exchanged
      ensures !Idle()
    {
      ghost var wire := daemon.inbox + (fc.outbox + CloseCommand(fd) + "\n");
      ghost var served := Hear(daemon.react, daemon.size, daemon.closed, daemon.Current(), wire);
      HeardLeavesTrace(daemon.react, daemon.size, daemon.closed, daemon.Current(), wire);
      ghost var input := fc.input;
      var resp;
      resp, ok := Raw(CloseCommand(fd), served);
      StaysBehind(input, served, resp, ok, fc.input);
      var line := ComputeFirstLine(resp);
      ok := ok && IsOk(line);
    }

    method CloseFile(fd: nat) returns (ok: bool)
      requires Valid() && current == File
      modifies fc, daemon, this`exchanged
      ensures Valid() && daemon.Current() == old(daemon.Current()) && ok
    {
      HexIsPlain(Hex(fd), fd);
      var cmd := CloseCommand(fd);
      assert cmd[|cmd| - 1] == Hex(fd)[|Hex(fd)| - 1];
      ok := Acknowledged(cmd);
    }

    method ChangeMode(fd: nat, mode: int) returns (ok: bool)
      requires Valid() && current == File
      modifies fc, daemon, this`exchanged
      ensures Valid() && daemon.Current() == old(daemon.Current()) && ok
    {
      ok := Acknowledged(ChmodCommand(fd, mode));
    }

    /** A command that is answered by a bare acknowledgement. */
    method Acknowledged(cmd: string) returns (ok: bool)
      requires Valid() && current == File && OneLine(cmd)
      requires IsCommand(cmd, 'c') || IsCommand(cmd, 'd') || IsCommand(cmd, 'a')
      modifies fc, daemon, this`exchanged
      ensures Valid() && daemon.Current() == old(daemon.Current()) && ok
    {
      ghost var st := daemon.Current();
      AckAnswers(daemon.react, daemon.size, daemon.host, st, cmd, cmd[0]);
      assert "o\r\n" == "o" + "\r\n" && MeaningfulWords();
      var line;
      line, ok := Query(cmd, Reaction(st, "o\r\n", true), "o");
      ok := ok && IsOk(line);
    }

    // ----- transfers -----

    /** Reads at most a chunk. A negative offset is refused, and the error response is read whole. */
    method ReadAt(fd: nat, off: int, n: nat) returns (data: string, ok: bool)
      requires Valid() && current == File && fd <= MAX_INT64 && off <= MAX_INT64
      modifies fc, daemon, this`exchanged
      ensures Valid() && daemon.Current() == old(daemon.Current())
      ensures ok == (off >= 0)
      ensures off >= 0 ==> data == ReadVfile(daemon.Current(), Transfer(fd, off, AtMostChunk(n)))
    {
      var want := n;
      if want > READ_CHUNK {
        want := READ_CHUNK;
      }
      ghost var st := daemon.Current();
      ghost var answer := if off < 0 then None else Some(ReadVfile(st, Transfer(fd, off, want)));
      ReadIsAnswered(daemon.react, daemon.size, daemon.host, st, fd, off, want);
      Send(ReadCommand(fd, off, want), "", Reaction(st, ReadText(answer), true));
      assert fc.input == ReadText(answer) + Prompt(File);
      data, ok := ReceiveData(answer);
    }

    /** A status line, the data it announces, and the prompt. */
    method ReceiveData(ghost answer: Option<string>) returns (data: string, ok: bool)
      requires fc.input == ReadText(answer) + Prompt(File)
      requires answer.Some? ==> |answer.value| <= READ_CHUNK
      modifies fc
      ensures fc.input == "" && fc.outbox == old(fc.outbox)
      ensures ok == answer.Some? && (ok ==> data == answer.value)
    {
      ghost var status, rest := ReadStatus(answer, Prompt(File));
      var line;
      line, ok := fc.ReadResponseLine();
      assert ok && line == status && fc.input == rest;
      data := "";
      if !ok {
        return;
      }
      QuietWithoutPromptEnd("");
      assert "" + Prompt(File) == Prompt(File);
      if !HasPrefix(line, "o:") {
        var resp, okPrompt := AwaitPrompt("", File);
        return "", false;
      }
      var count := StatusCount(line);
      if count.None? {
        return "", false;
      }
      if count.value > 0 {
        data, ok := fc.ReadN(count.value);
        if !ok {
          return;
        }
      }
      var resp, okPrompt := AwaitPrompt("", File);
      ok := okPrompt;
    }

    /** Writes at an offset. A status line that is not `o:` is returned as an error without reading on
        to the prompt, so the two ends stay in step exactly if the offset is not negative. */
    method WriteAt(fd: nat, off: int, data: string) returns (nw: int, ok: bool)
      requires Valid() && current == File && fd <= MAX_INT64 && off <= MAX_INT64 && |data| <= MAX_INT64
      modifies fc, daemon
      ensures ok == (off >= 0)
      ensures Idle() <==> off >= 0
      ensures off >= 0 ==>
        Valid() && nw == |data| && daemon.Current() == StoreVfile(old(daemon.Current()), fd, off, data)
      ensures off < 0 ==> Prompt(File) <= fc.input && fc.outbox == ""
    {
      ghost var served, rest := WriteIsServed(daemon.react, daemon.size, daemon.host, daemon.Current(), fd, off, data);
      Carry(WriteCommand(fd, off, |data|), data, served);
      nw, ok := ReceiveCount(off, |data|, rest);
    }

    /** The status line of a write and, unless it is an error, the prompt after it. */
    method ReceiveCount(ghost off: int, ghost n: nat, ghost rest: string) returns (nw: int, ok: bool)
      requires n <= MAX_INT64 && fc.input == WriteText(off, n) + rest && (off >= 0 ==> rest == Prompt(File))
      modifies fc
      ensures fc.outbox == old(fc.outbox) && ok == (off >= 0)
      ensures fc.input == if off >= 0 then "" else rest
      ensures off >= 0 ==> nw == n
    {
      ghost var status := WriteStatus(off, n, rest);
      var line;
      line, ok := fc.ReadResponseLine();
      assert ok && line == status && fc.input == rest;
      if !ok {
        return 0, false;
      }
      if !HasPrefix(line, "o:") {
        return 0, false;
      }
      nw := LenientHex(StatusField(line));
      QuietWithoutPromptEnd("");
      assert "" + Prompt(File) == Prompt(File);
      var resp;
      resp, ok := AwaitPrompt("", File);
    }

    // ----- whole files -----

    method ReadChunk(fd: nat, off: int, want: nat, ghost path: string) returns (chunk: string, ok: bool)
      requires Valid() && current == File && IsOpen(daemon.Current(), fd, path)
      requires fd <= MAX_INT64 && off <= MAX_INT64 && want <= READ_CHUNK
      modifies fc, daemon, this`exchanged
      ensures Valid() && daemon.Current() == old(daemon.Current())
      ensures ok == (off >= 0) && (ok ==> chunk == Range(daemon.files, path, off, want))
    {
      chunk, ok := ReadAt(fd, off, want);
    }

    /** The next chunk of a range: nothing once all is read. */
    method ReadNext(fd: nat, off: int, ghost n: int, out: string, want: nat, ghost path: string)
      returns (chunk: string, ok: bool)
      requires Valid() && current == File && IsOpen(daemon.Current(), fd, path)
      requires fd <= MAX_INT64 && off + n <= MAX_INT64 && 0 < want <= READ_CHUNK && |out| + want <= n
      requires |out| > 0 ==> off >= 0
      requires off >= 0 ==> out == Range(daemon.files, path, off, |out|)
      modifies fc, daemon, this`exchanged
      ensures Valid() && daemon.Current() == old(daemon.Current())
      ensures ok == (off >= 0)
      ensures ok && chunk == "" ==> out == Range(daemon.files, path, off, n)
      ensures ok ==> |chunk| <= want && out + chunk == Range(daemon.files, path, off, |out + chunk|)
    {
      if off >= 0 {
        RangeRound(daemon.files, path, off, out, want, n);
      }
      chunk, ok := ReadChunk(fd, off + |out|, want, path);
    }

    method ReadRange(fd: nat, off: int, n: int, ghost path: string) returns (out: string, ok: bool)
      requires Valid() && current == File && IsOpen(daemon.Current(), fd, path)
      requires fd <= MAX_INT64 && off <= MAX_INT64 && off + n <= MAX_INT64
      modifies fc, daemon, this`exchanged
      ensures Valid() && daemon.Current() == old(daemon.Current())
      ensures ok == (n <= 0 || off >= 0)
      ensures ok ==> out == if n <= 0 then "" else Range(daemon.files, path, off, n)
    {
      out, ok := "", true;
      ghost var st := daemon.Current();
      ghost var files := st.files;
      while |out| < n
        invariant Valid() && daemon.Current() == st && ok
        invariant |out| <= n || |out| == 0
        invariant |out| > 0 ==> off >= 0
        invariant off >= 0 ==> out == Range(files, path, off, |out|)
        decreases n - |out|
      {
        var want := n - |out|;
        if want > READ_CHUNK {
          want := READ_CHUNK;
        }
        var chunk;
        chunk, ok := ReadNext(fd, off, n, out, want, path);
        if !ok {
          return;
        }
        if |chunk| == 0 {
          return;
        }
        out := out + chunk;
      }
    }

    method ReadWhole(fd: nat, size: nat, ghost path: string) returns (out: string, ok: bool)
      requires Valid() && current == File && IsOpen(daemon.Current(), fd, path)
      requires fd <= MAX_INT64 && size <= MAX_INT64 && size == SizeOf(daemon.files, path)
      modifies fc, daemon, this`exchanged
      ensures Valid() && daemon.Current() == old(daemon.Current())
      ensures ok && out == Whole(daemon.files, path)
    {
      out, ok := "", true;
      ghost var st := daemon.Current();
      assert Range(st.files, path, 0, 0) == "";
      var off: nat := 0;
      while true
        invariant Valid() && daemon.Current() == st && ok
        invariant off == |out| && off <= size && ReadSoFar(st.files, path, out)
        decreases size - off
      {
        var chunk;
        chunk, ok := ReadChunk(fd, off, READ_CHUNK, path);
        if !ok {
          return;
        }
        WholeRound(st.files, path, out);
        if |chunk| == 0 {
          break;
        }
        out := out + chunk;
        off := off + |chunk|;
        if size > 0 && off >= size {
          break;
        }
      }
    }

    method WriteChunk(fd: nat, off: int, chunk: string, ghost path: string) returns (nw: int, ok: bool)
      requires Valid() && current == File && IsOpen(daemon.Current(), fd, path) && chunk != ""
      requires fd <= MAX_INT64 && off <= MAX_INT64 && |chunk| <= MAX_INT64
      modifies fc, daemon
      ensures ok == (off >= 0)
      ensures off >= 0 ==>
        && Valid() && nw == |chunk|
        && daemon.Current() == old(daemon.Current()).(files := Stored(old(daemon.files), path, off, chunk))
      ensures off < 0 ==> Prompt(File) <= fc.input && fc.outbox == ""
    {
      nw, ok := WriteAt(fd, off, chunk);
    }

    /** The next chunk of some data; `files(k)` are the files with the first k octets stored. */
    method WriteNext(fd: nat, off: int, data: string, total: nat, end: nat, ghost path: string, ghost was: Files,
                     ghost files: StoreFn)
      returns (nw: int, ok: bool)
      requires Valid() && current == File && IsOpen(daemon.Current(), fd, path) && total < end <= |data|
      requires fd <= MAX_INT64 && off + |data| <= MAX_INT64 && |data| <= MAX_INT64
      requires off < 0 ==> total == 0
      requires off >= 0 ==> daemon.files == files(total) && Stores(files, was, path, off, data)
      modifies fc, daemon
      ensures ok == (off >= 0)
      ensures ok ==>
        Valid() && nw == end - total && daemon.Current() == old(daemon.Current()).(files := files(end))
      ensures !ok ==> Prompt(File) <= fc.input && fc.outbox == ""
    {
      if off >= 0 {
        StoreNext(files, was, path, off, data, total, end);
      }
      nw, ok := WriteChunk(fd, off + total, data[total..end], path);
    }

    method WriteAll(fd: nat, off: int, data: string, ghost path: string) returns (total: nat, ok: bool)
      requires Valid() && current == File && IsOpen(daemon.Current(), fd, path)
      requires fd <= MAX_INT64 && off <= MAX_INT64 && off + |data| <= MAX_INT64 && |data| <= MAX_INT64
      modifies fc, daemon
      ensures ok == (off >= 0 || data == "")
      ensures ok ==> Valid() && total == |data| && daemon.svc == File
      ensures ok ==> daemon.files == if off < 0 then old(daemon.files) else Stored(old(daemon.files), path, off, data)
      ensures ok ==> daemon.fds == old(daemon.fds) && daemon.nfd == old(daemon.nfd)
      ensures !ok ==> Prompt(File) <= fc.input && fc.outbox == ""
    {
      ghost var files := StoreSteps(daemon.files, path, if off < 0 then 0 else off, data);
      total, ok := WriteChunks(fd, off, data, path, files);
    }

    method WriteChunks(fd: nat, off: int, data: string, ghost path: string, ghost files: StoreFn)
      returns (total: nat, ok: bool)
      requires Valid() && current == File && IsOpen(daemon.Current(), fd, path)
      requires fd <= MAX_INT64 && off <= MAX_INT64 && off + |data| <= MAX_INT64 && |data| <= MAX_INT64
      requires files(0) == daemon.files && (off >= 0 ==> Stores(files, daemon.files, path, off, data))
      modifies fc, daemon
      ensures ok == (off >= 0 || data == "")
      ensures ok ==>
        Valid() && total == |data| && daemon.Current() == old(daemon.Current()).(files := files(|data|))
      ensures !ok ==> Prompt(File) <= fc.input && fc.outbox == ""
    {
      total, ok := 0, true;
      ghost var st := daemon.Current();
      while total < |data|
        invariant Valid() && ok && total <= |data|
        invariant off < 0 ==> total == 0
        invariant daemon.Current() == st.(files := files(total))
        decreases |data| - total
      {
        var end := total + WRITE_CHUNK;
        if end > |data| {
          end := |data|;
        }
        var nw;
        nw, ok := WriteNext(fd, off, data, total, end, path, st.files, files);
        if !ok {
          return;
        }
        if nw <= 0 {
          break;
        }
        total := total + nw;
      }
    }

    // ----- calls -----

    /** The service is entered and the file opened. */
    method Begin(path: string, flags: nat, mode: int) returns (h: Option<Handle>)
      requires Valid() && Utterable(path, mode) && InRange(daemon.Current())
      modifies fc, daemon, this`current, this`exchanged
      ensures Valid() <==> Speakable(path, mode)
      ensures h.Some? <==> Openable(path, mode) && Reaches(path)
      ensures h.Some? ==>
        && 0 <= h.value.fd <= MAX_INT64 && IsOpen(daemon.Current(), h.value.fd, path) && current == File
        && h.value.mode == FILE_MODE && h.value.size == SizeOf(daemon.files, path) <= MAX_INT64
      ensures Valid() ==>
        && daemon.nfd <= old(daemon.nfd) + 1
        && daemon.files == (if Openable(path, mode) then FilesAfterOpen(old(daemon.files), path) else old(daemon.files))
    {
      ghost var st := daemon.Current();
      var ok := Ensure(File);
      if !ok {
        return None;
      }
      SizeInRange(st, path);
      h := OpenFile(path, flags, mode);
    }

    method Stat(path: string) returns (r: Result)
      requires Valid() && Admissible(Call.Stat(path)) && InRange(daemon.Current())
      modifies fc, daemon, this`current, this`exchanged
      ensures r == ResultOf(daemon.host.tables, old(daemon.files), Call.Stat(path))
      ensures Valid() <==> KeepsStep(Call.Stat(path))
      ensures Valid() ==>
        && daemon.nfd <= old(daemon.nfd) + 1
        && daemon.files == FilesAfter(old(daemon.files), Call.Stat(path))
    {
      var h := Begin(path, O_RDONLY, 0);
      if h.None? {
        return Failed;
      }
      r := Status(h.value.mode, h.value.size);
      var closed := CloseFile(h.value.fd);
    }

    method ReadFile(path: string) returns (r: Result)
      requires Valid() && Admissible(Call.ReadFile(path)) && InRange(daemon.Current())
      modifies fc, daemon, this`current, this`exchanged
      ensures r == ResultOf(daemon.host.tables, old(daemon.files), Call.ReadFile(path))
      ensures Valid() <==> KeepsStep(Call.ReadFile(path))
      ensures Valid() ==>
        && daemon.nfd <= old(daemon.nfd) + 1
        && daemon.files == FilesAfter(old(daemon.files), Call.ReadFile(path))
    {
      var h := Begin(path, O_RDONLY, 0);
      if h.None? {
        return Failed;
      }
      var out, ok := ReadWhole(h.value.fd, h.value.size, path);
      r := if ok then Data(out) else Failed;
      var closed := CloseFile(h.value.fd);
    }

    method ReadFileRange(path: string, off: int, n: int) returns (r: Result)
      requires Valid() && Admissible(Call.ReadFileRange(path, off, n)) && InRange(daemon.Current())
      modifies fc, daemon, this`current, this`exchanged
      ensures r == ResultOf(daemon.host.tables, old(daemon.files), Call.ReadFileRange(path, off, n))
      ensures Valid() <==> KeepsStep(Call.ReadFileRange(path, off, n))
      ensures Valid() ==>
        && daemon.nfd <= old(daemon.nfd) + 1
        && daemon.files == FilesAfter(old(daemon.files), Call.ReadFileRange(path, off, n))
    {
      var h := Begin(path, O_RDONLY, 0);
      if h.None? {
        return Failed;
      }
      var out, ok := ReadRange(h.value.fd, off, n, path);
      r := if ok then Data(out) else Failed;
      var closed := CloseFile(h.value.fd);
    }

    method WriteFile(path: string, data: string, mode: int) returns (r: Result)
      requires Valid() && Admissible(Call.WriteFile(path, data, mode)) && InRange(daemon.Current())
      modifies fc, daemon, this`current, this`exchanged
      ensures r == ResultOf(daemon.host.tables, old(daemon.files), Call.WriteFile(path, data, mode))
      ensures Valid() <==> KeepsStep(Call.WriteFile(path, data, mode))
      ensures Valid() ==>
        && daemon.nfd <= old(daemon.nfd) + 1
        && daemon.files == FilesAfter(old(daemon.files), Call.WriteFile(path, data, mode))
    {
      var m := mode;
      if m == 0 {
        m := MODE_RW_ALL;
      }
      var h := Begin(path, O_CREATE_TRUNCATE, m);
      if h.None? {
        return Failed;
      }
      var total, ok := WriteAll(h.value.fd, 0, data, path);
      r := if ok then Wrote(total) else Failed;
      var closed := CloseFile(h.value.fd);
    }

    /** Writes at an offset. Something written at a negative offset, and only that, costs the two ends
        their step for good. */
    method WriteFileAt(path: string, at: int, data: string) returns (r: Result)
      requires Valid() && Admissible(Call.WriteFileAt(path, at, data)) && InRange(daemon.Current())
      modifies fc, daemon, this`current, this`exchanged
      ensures r == ResultOf(daemon.host.tables, old(daemon.files), Call.WriteFileAt(path, at, data))
      ensures Valid() <==> KeepsStep(Call.WriteFileAt(path, at, data))
      ensures Valid() ==>
        && daemon.files == FilesAfter(old(daemon.files), Call.WriteFileAt(path, at, data))
        && daemon.nfd <= old(daemon.nfd) + 1
    {
      var h := Begin(path, O_RDWR, 0);
      if h.None? {
        return Failed;
      }
      var total, ok := WriteAll(h.value.fd, at, data, path);
      if ok {
        r := Wrote(total);
        var closed := CloseFile(h.value.fd);
      } else {
        r := Failed;
        var closed := Abandon(h.value.fd);
      }
    }

    method Delete(path: string) returns (r: Result)
      requires Valid()
      modifies fc, daemon, this`current, this`exchanged
      ensures r == ResultOf(daemon.host.tables, old(daemon.files), Call.Delete(path))
      ensures Valid() <==> KeepsStep(Call.Delete(path))
      ensures Valid() ==>
        && daemon.nfd <= old(daemon.nfd) + 1
        && daemon.files == FilesAfter(old(daemon.files), Call.Delete(path))
    {
      var ok := Ensure(File);
      if !ok {
        return Failed;
      }
      OtherCalls(daemon.host.tables, daemon.files, path);
      ok := Remove(path);
      r := if ok then Done else Failed;
    }

    method Remove(path: string) returns (ok: bool)
      requires Valid() && current == File
      modifies fc, daemon, this`exchanged
      ensures ok && (Valid() <==> '\n' !in path) && (Valid() ==> daemon.Current() == old(daemon.Current()))
    {
      ghost var served := DeleteIsServed(daemon.react, daemon.size, daemon.host, daemon.Current(), path);
      ok := Confirm(DeleteCommand(path), served, '\n' !in path);
    }

    /** A command that is acknowledged, with or without other answers after that. */
    method Confirm(cmd: string, ghost served: Served, ghost alone: bool) returns (ok: bool)
      requires Valid() && current == File
      requires served == Serve(daemon.react, daemon.size, daemon.Current(), cmd + "\n")
      requires IsOk(FirstLine(ResponseText(served.out)))
      requires (InStep(served) <==> alone) && (alone ==> served.state == daemon.Current())
      modifies fc, daemon, this`exchanged
      ensures ok && (Valid() <==> alone) && (alone ==> daemon.Current() == old(daemon.Current()))
    {
      ghost var now := served.state;
      var line;
      line, ok := Attempt(cmd, served);
      assert Idle() <==> alone;
      assert daemon.Current() == now;
      ok := ok && IsOk(line);
    }

    method Mkdir(path: string, mode: int) returns (r: Result)
      requires Valid() && Admissible(Call.Mkdir(path, mode)) && InRange(daemon.Current())
      modifies fc, daemon, this`current, this`exchanged
      ensures r == ResultOf(daemon.host.tables, old(daemon.files), Call.Mkdir(path, mode))
      ensures Valid() <==> KeepsStep(Call.Mkdir(path, mode))
      ensures Valid() ==>
        && daemon.nfd <= old(daemon.nfd) + 1
        && daemon.files == FilesAfter(old(daemon.files), Call.Mkdir(path, mode))
    {
      var m := mode;
      if m == 0 {
        m := MODE_DIR;
      }
      var h := Begin(path, O_CREATE, DirectoryMode(m));
      if h.None? {
        return Failed;
      }
      var ok := CloseFile(h.value.fd);
      r := if ok then Done else Failed;
    }

    method Chmod(path: string, mode: int) returns (r: Result)
      requires Valid() && Admissible(Call.Chmod(path, mode)) && InRange(daemon.Current())
      modifies fc, daemon, this`current, this`exchanged
      ensures r == ResultOf(daemon.host.tables, old(daemon.files), Call.Chmod(path, mode))
      ensures Valid() <==> KeepsStep(Call.Chmod(path, mode))
      ensures Valid() ==>
        && daemon.nfd <= old(daemon.nfd) + 1
        && daemon.files == FilesAfter(old(daemon.files), Call.Chmod(path, mode))
    {
      var h := Begin(path, O_RDONLY, 0);
      if h.None? {
        return Failed;
      }
      var ok := ChangeMode(h.value.fd, mode);
      r := if ok then Done else Failed;
      var closed := CloseFile(h.value.fd);
    }

    method Versions() returns (r: Result)
      requires Valid()
      modifies fc, daemon, this`current, this`exchanged
      ensures Valid() && r == ResultOf(daemon.host.tables, old(daemon.files), Call.Versions)
      ensures daemon.files == FilesAfter(old(daemon.files), Call.Versions) && daemon.nfd <= old(daemon.nfd) + 1
    {
      var ok := Ensure(Broker);
      if !ok {
        return Failed;
      }
      BrokerAnswers(daemon.react, daemon.size, daemon.host, daemon.Current());
      VersionsAreMeaningful(daemon.host.tables);
      ghost var expected := VersionLine(daemon.host.tables.versions);
      var line;
      line, ok := Query("versions ?", Reaction(daemon.Current(), expected + "\r\n", true), expected);
      if !ok {
        return Failed;
      }
      VersionsAreRead(daemon.host.tables.versions);
      var m := CollectVersions(line);
      r := Numbers(m);
    }

    /** The attributes are read once and kept. */
    method Info() returns (r: Result)
      requires Valid()
      modifies fc, daemon, this
      ensures Valid() && r == ResultOf(daemon.host.tables, old(daemon.files), Call.Info)
      ensures daemon.files == FilesAfter(old(daemon.files), Call.Info) && daemon.nfd <= old(daemon.nfd) + 1
    {
      OtherCalls(daemon.host.tables, daemon.files, "");
      if info.Some? {
        return Attributes(info.value);
      }
      var ok := Ensure(Broker);
      if !ok {
        return Failed;
      }
      ghost var unread := fc.input;
      BrokerAnswers(daemon.react, daemon.size, daemon.host, daemon.Current());
      var resp;
      resp, ok := Ask("info", Reaction(daemon.Current(), InfoLine(daemon.host.tables) + "\r\n", true));
      if !ok {
        return Failed;
      }
      InfoIgnoresNoise(unread, daemon.host.tables);
      var m := CollectAttributes(resp);
      info := Some(m);
      r := Attributes(m);
    }

    method Signal(pid: int, sig: int) returns (r: Result)
      requires Valid()
      modifies fc, daemon, this`current, this`exchanged
      ensures Valid() && r == ResultOf(daemon.host.tables, old(daemon.files), Call.Signal(pid, sig))
      ensures daemon.files == FilesAfter(old(daemon.files), Call.Signal(pid, sig)) && daemon.nfd <= old(daemon.nfd) + 1
    {
      var ok := Ensure(Cntl);
      if !ok {
        return Failed;
      }
      KillAnswers(daemon.react, daemon.size, daemon.host, daemon.Current(), pid, sig);
      ok := Kill(KillCommand(pid, sig));
      r := if ok then Done else Failed;
    }

    method Kill(cmd: string) returns (ok: bool)
      requires Valid() && current == Cntl
      requires Answers(daemon.react, daemon.size, daemon.Current(), cmd, Reaction(daemon.Current(), "ok\r\n", true))
      modifies fc, daemon, this`exchanged
      ensures Valid() && daemon.Current() == old(daemon.Current()) && ok
    {
      assert "ok\r\n" == "ok" + "\r\n" && MeaningfulWords();
      var line;
      line, ok := Query(cmd, Reaction(daemon.Current(), "ok\r\n", true), "ok");
      ok := ok && IsOkWord(TrimSpace(line));
    }

    // ----- runs -----

    method Execute(c: Call) returns (r: Result)
      requires Valid() && Admissible(c) && InRange(daemon.Current())
      modifies fc, daemon, this
      ensures r == ResultOf(daemon.host.tables, old(daemon.files), c)
      ensures Valid() <==> KeepsStep(c)
      ensures Valid() ==> daemon.files == FilesAfter(old(daemon.files), c) && daemon.nfd <= old(daemon.nfd) + 1
    {
      match c
      case Versions => r := Versions();
      case Info => r := Info();
      case Stat(path) => r := Stat(path);
      case ReadFile(path) => r := ReadFile(path);
      case ReadFileRange(path, off, n) => r := ReadFileRange(path, off, n);
      case WriteFile(path, data, mode) => r := WriteFile(path, data, mode);
      case WriteFileAt(path, at, data) => r := WriteFileAt(path, at, data);
      case Delete(path) => r := Delete(path);
      case Mkdir(path, mode) => r := Mkdir(path, mode);
      case Chmod(path, mode) => r := Chmod(path, mode);
      case Signal(pid, sig) => r := Signal(pid, sig);
    }

    /** Over any sequence of calls, up to one that loses step, the calls return, and do to the daemon's
        files, what the same calls do on the plain store; and the two ends are in step at the end exactly
        if no call has lost step. */
    method Run(calls: seq<Call>) returns (results: seq<Result>)
      requires Valid() && Bounded(daemon.files) && daemon.nfd + |calls| + 3 <= MAX_INT64
      requires forall i | 0 <= i < |calls| :: Admissible(calls[i])
      requires forall i | 0 <= i < |calls| - 1 :: KeepsStep(calls[i])
      modifies fc, daemon, this
      ensures results == PerformAll(daemon.host.tables, old(daemon.files), calls).results
      ensures Valid() <==> forall i | 0 <= i < |calls| :: KeepsStep(calls[i])
      ensures Valid() ==> daemon.files == PerformAll(daemon.host.tables, old(daemon.files), calls).files
    {
      results := [];
      for i := 0 to |calls|
        invariant Valid() <==> forall j | 0 <= j < i :: KeepsStep(calls[j])
        invariant Valid() ==> Bounded(daemon.files) && daemon.nfd <= old(daemon.nfd) + i
        invariant Valid() ==> daemon.files == PerformAll(daemon.host.tables, old(daemon.files), calls[..i]).files
        invariant results == PerformAll(daemon.host.tables, old(daemon.files), calls[..i]).results
      {
        PerformNext(daemon.host.tables, old(daemon.files), calls, i);
        StaysBounded(daemon.files, calls[i]);
        var r := Execute(calls[i]);
        results := results + [r];
      }
      assert calls[..|calls|] == calls;
    }
  }

  /** A session with a fresh daemon. */
  method MockSession(host: Host, calls: seq<Call>) returns (results: seq<Result>, client: Client)
    requires Reportable(host.tables) && |calls| + 3 <= MAX_INT64
    requires forall i | 0 <= i < |calls| :: Admissible(calls[i])
    requires forall i | 0 <= i < |calls| - 1 :: KeepsStep(calls[i])
    ensures fresh(client) && fresh(client.daemon) && client.daemon.host == host
    ensures results == PerformAll(host.tables, map[], calls).results
    ensures client.Valid() <==> forall i | 0 <= i < |calls| :: KeepsStep(calls[i])
    ensures client.Valid() ==> client.daemon.files == PerformAll(host.tables, map[], calls).files
  {
    var daemon := new Session(host);
    client := new Client(daemon);
    results := client.Run(calls);
  }

  /** Over the wire, a read returns what the last write to that file stored, whatever the octets and
      whatever other calls come before and in between. */
  method RoundTrip(host: Host, before: seq<Call>, path: string, data: string, mode: int, between: seq<Call>)
    returns (read: Result)
    requires Reportable(host.tables) && |before| + |between| + 5 <= MAX_INT64
    requires forall c | c in before + between :: Admissible(c) && KeepsStep(c)
    requires forall c | c in between :: !Writes(c, path)
    requires Openable(path, WriteMode(mode)) && Utterable(path, 0) && Reaches(path) && !InProc(path)
    requires |data| <= MAX_INT64
    ensures var was := Content(PerformAll(host.tables, map[], before).files, path);
      read == Data(data + Beyond(was, |data|))
  {
    var most := before + [Call.WriteFile(path, data, mode)] + between;
    var calls := most + [Call.ReadFile(path)];
    forall i | 0 <= i < |calls|
      ensures Admissible(calls[i]) && KeepsStep(calls[i])
    {
      if i < |before| {
        assert calls[i] == before[i] && before[i] in before + between;
      } else if |before| < i < |most| {
        assert calls[i] == between[i - |before| - 1] && calls[i] in before + between;
      }
    }
    var results, client := MockSession(host, calls);
    RunReadsBackWhatItWrote(host.tables, map[], before, path, data, mode, between);
    read := results[|results| - 1];
  }
}

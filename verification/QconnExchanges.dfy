/** The exchanges of the qconn client, seen from both ends: what the daemon answers to each command as the
    client writes it, and what the client reads in the answer. */
module QconnExchanges {
  import opened Telnet
  import opened QconnText
  import opened QconnHex
  import opened QconnFraming
  import opened QconnLines
  import opened QconnDaemon
  import opened QconnReplies
  import opened QconnFields
  import opened QconnCommands
  import opened QconnStore

  /** `EqualFold(s, "ok")` */
  predicate IsOkWord(s: string) {
    |s| == 2 && (s[0] == 'o' || s[0] == 'O') && (s[1] == 'k' || s[1] == 'K')
  }

  lemma VersionsAreMeaningful(tables: Tables)
    requires Reportable(tables)
    ensures Meaningful(VersionLine(tables.versions))
  {
    VersionLineIsPlain(tables.versions);
    VersionLineEnd(tables.versions);
    NoiseShape();
  }

  lemma InfoIgnoresNoise(unread: string, tables: Tables)
    requires Leftover(unread) && Reportable(tables)
    ensures AttributesOf(TrimLeft(unread + (InfoLine(tables) + "\r\n"))) == Table(AttributePairs(tables.attributes))
  {
    var line, a := InfoLine(tables), tables.attributes[0];
    assert line[0] == AttributeText(a)[0];
    assert IsAttribute(a);
    assert unread + (line + "\r\n") == unread + line + "\r\n";
    AttributesIgnoreNoise(unread, line);
    AttributesAreRead(tables.attributes);
  }

  /** The answer to a write: a refusal, or a status line. */
  function WriteText(off: int, n: nat): string {
    if off < 0 then "error bad-write\r\n" else "o:" + Hex(n) + ":0\r\n"
  }

  /** What the daemon writes for a write command and its payload. A refused write leaves the payload
      in the stream, to be taken for commands. */
  lemma WriteIsServed(react: ReactFn, size: SizeFn, host: Host, st: State, fd: nat, off: int, data: string)
    returns (served: Served, rest: string)
    requires Implements(react, size, host) && st.svc == File
    requires fd <= MAX_INT64 && off <= MAX_INT64 && |data| <= MAX_INT64
    ensures served == Serve(react, size, st, WriteCommand(fd, off, |data|) + "\n" + data)
    ensures Prompt(File) <= rest && "" + served.out == WriteText(off, |data|) + rest
    ensures off >= 0 ==> rest == Prompt(File)
    ensures off >= 0 ==> served.state == StoreVfile(st, fd, off, data) && served.rest == "" && served.alive
  {
    var cmd := WriteCommand(fd, off, |data|);
    served := Serve(react, size, st, cmd + "\n" + data);
    assert "" + served.out == served.out;
    PromptShape(File);
    if off >= 0 {
      WriteAnswers(react, size, host, st, fd, off, data);
      ServeOne(react, size, st, cmd, data);
      rest := Prompt(File);
    } else {
      NegativeWriteAnswers(react, size, host, st, fd, off, data);
      var more := ServeThenMore(react, size, st, cmd, data);
      rest := Prompt(File) + more;
    }
  }

  lemma ServeThenMore(react: ReactFn, size: SizeFn, st: State, cmd: string, data: string) returns (more: string)
    requires OneLine(cmd) && size(st, cmd) == 0 && react(st, cmd, "").alive
    ensures var r := react(st, cmd, "");
      Serve(react, size, st, cmd + "\n" + data).out == r.text + (Prompt(r.state.svc) + more)
  {
    var s, r := cmd + "\n" + data, react(st, cmd, "");
    assert s == cmd + ['\n'] + data;
    CutAtFirst(cmd, '\n', data);
    assert TrimRightCR(cmd) == cmd;
    assert data[..0] == "" && data[0..] == data;
    assert NextCommand(size, st, s) == QconnDaemon.Command.Command(cmd, "", data);
    more := Serve(react, size, r.state, data).out;
    assert Output(r) + more == r.text + (Prompt(r.state.svc) + more);
  }

  lemma WriteStatus(off: int, n: nat, rest: string) returns (line: string)
    requires n <= MAX_INT64
    ensures UntilNewline(WriteText(off, n) + rest, "", "") == Found(line + "\r", rest, "")
    ensures CleanLine(line + "\r") == line
    ensures HasPrefix(line, "o:") <==> off >= 0
    ensures off >= 0 ==> LenientHex(StatusField(line)) == n
  {
    if off < 0 {
      line := "error bad-write";
      RefusedTransfer(line);
      assert WriteText(off, n) == line + "\r\n";
    } else {
      line := "o:" + Hex(n) + ":0";
      StatusLine(n, ":0");
      AcceptedWrite("o:" + Hex(n));
    }
    LineIsRead(line, rest);
  }

  lemma AcceptedWrite(head: string)
    ensures head + ":0\r\n" == head + ":0" + "\r\n"
  {
    assert ":0\r\n" == ":0" + "\r\n";
  }

  /** The refusal of a transfer is a line of its own, and no status. */
  lemma RefusedTransfer(line: string)
    requires line == "error bad-write" || line == "error bad-read"
    ensures CleanLine(line + "\r") == line && !HasPrefix(line, "o:") && '\n' !in line && IAC !in line
  {
    CleanStatus(line);
    assert line[0] == 'e' && "o:"[0] == 'o';
  }

  function AtMostChunk(n: nat): nat {
    if n > READ_CHUNK then READ_CHUNK else n
  }

  /** The answer to a read: a refusal, or a status line and the data. */
  function ReadText(answer: Option<string>): string {
    match answer
    case None => "error bad-read\r\n"
    case Some(data) => "o:" + Hex(|data|) + ":0:0\r\n" + data
  }

  lemma ReadIsAnswered(react: ReactFn, size: SizeFn, host: Host, st: State, fd: nat, off: int, n: nat)
    requires Implements(react, size, host) && st.svc == File
    requires fd <= MAX_INT64 && off <= MAX_INT64 && n <= READ_CHUNK
    ensures var answer := if off < 0 then None else Some(ReadVfile(st, Transfer(fd, off, n)));
      var cmd := ReadCommand(fd, off, n);
      && OneLine(cmd) && size(st, cmd) == 0
      && react(st, cmd, "") == Reaction(st, ReadText(answer), true)
      && (answer.Some? ==> |answer.value| <= n)
  {
    if off < 0 {
      NegativeReadAnswers(react, size, host, st, fd, off, n);
    } else {
      ReadAnswers(react, size, host, st, fd, off, n);
    }
  }

  /** What the status line of a read tells, and what follows it. */
  lemma ReadStatus(answer: Option<string>, prompt: string) returns (line: string, rest: string)
    requires answer.Some? ==> |answer.value| <= READ_CHUNK
    ensures UntilNewline(ReadText(answer) + prompt, "", "") == Found(line + "\r", rest, "")
    ensures CleanLine(line + "\r") == line
    ensures HasPrefix(line, "o:") <==> answer.Some?
    ensures answer.Some? ==> StatusCount(line) == Some(|answer.value|) && rest == answer.value + prompt
    ensures answer.None? ==> rest == prompt
  {
    match answer
    case None =>
      line, rest := "error bad-read", prompt;
      RefusedTransfer(line);
      LineIsRead(line, rest);
      assert ReadText(answer) == line + "\r\n";
    case Some(data) =>
      line, rest := "o:" + Hex(|data|) + ":0:0", data + prompt;
      StatusLine(|data|, ":0:0");
      LineIsRead(line, rest);
      assert ReadText(answer) + prompt == line + "\r\n" + rest by {
        StatusThenData("o:" + Hex(|data|), data, prompt);
      }
  }

  lemma StatusThenData(head: string, data: string, prompt: string)
    ensures head + ":0:0\r\n" + data + prompt == (head + ":0:0") + "\r\n" + (data + prompt)
  {
    assert ":0:0\r\n" == ":0:0" + "\r\n";
  }

  lemma LineIsRead(line: string, rest: string)
    requires '\n' !in line && IAC !in line
    ensures UntilNewline(line + "\r\n" + rest, "", "") == Found(line + "\r", rest, "")
  {
    assert line + "\r\n" + rest == (line + "\r") + "\n" + rest;
    ReadLine(line + "\r", "", rest);
    assert "" + (line + "\r") == line + "\r";
  }

  /** The one-word answers are meaningful lines. */
  predicate MeaningfulWords() {
    Meaningful("OK") && Meaningful("o") && Meaningful("ok")
  }

  lemma EnteredLine(st: State, svc: Service) returns (line: string)
    ensures Meaningful(line) && Entered(st, svc).text == line + "\r\n"
    ensures HasPrefix(line, "OK") <==> svc != Sinfo
  {
    line := if svc == Sinfo then "error unknown-command" else "OK";
    NoiseShape();
    assert UNKNOWN == "error unknown-command" + "\r\n" && "OK\r\n" == "OK" + "\r\n";
    assert "error unknown-command"[0] == 'e' && MeaningfulWords();
  }

  /** The daemon's counters and file sizes stay within 64 bits. */
  predicate InRange(st: State) {
    st.nfd + 3 <= MAX_INT64 && Bounded(st.files)
  }

  /** A function value that reads open replies as the client does. */
  ghost predicate Decodes(decode: string -> Option<Handle>) {
    forall line: string {:trigger ParseOpenReply(line)} :: decode(line) == ParseOpenReply(line)
  }

  method DecodeOpen(line: string, ghost decode: string -> Option<Handle>) returns (h: Option<Handle>)
    requires Decodes(decode)
    ensures h == decode(line)
  {
    h := ParseOpenReply(line);
  }

  lemma NothingIsNoHandle(decode: string -> Option<Handle>)
    requires Decodes(decode)
    ensures decode("") == None
  {
    assert ParseOpenReply("") == None;
  }

  lemma SizeInRange(st: State, path: string)
    requires InRange(st)
    ensures SizeOf(FilesAfterOpen(st.files, path), path) <= MAX_INT64
  {
  }

  // ----- reading what was answered -----

  lemma GreetingIsRead()
    ensures UntilPrompt(GREETING, "", "") == Found("QCONN\r\n", NOISE + "\r\n", "")
    ensures BlankRun(NOISE + "\r\n") == 0
  {
    var text, rest := "QCONN\r\n", NOISE + "\r\n";
    NoiseShape();
    QuietWithoutPromptEnd(text);
    ReadQuiet(text, Broker, rest);
    assert GREETING == text + Prompt(Broker) + rest;
  }

  /** A quiet answer to an idle daemon is read whole, behind what was left of the greeting. */
  lemma AnswerIsRead(react: ReactFn, size: SizeFn, st: State, cmd: string, r: Reaction, unread: string)
    requires Answers(react, size, st, cmd, r) && Leftover(unread)
    ensures Serve(react, size, st, cmd + "\n") == Served(r.state, Output(r), "", true)
    ensures UntilPrompt(unread + Output(r), "", "") == Found(unread + r.text, "", "")
  {
    assert cmd + "\n" + "" == cmd + "\n";
    ServeOne(react, size, st, cmd, "");
    ResponseIsQuiet(unread, r.text, r.state.svc);
    ReadQuiet(unread + r.text, r.state.svc, "");
    assert unread + r.text + Prompt(r.state.svc) + "" == unread + Output(r);
  }

  // ----- staying in step -----

  /** What the client makes of an answer. */
  function ResponseText(out: string): string {
    match UntilPrompt(out, "", "")
    case Ended(all, _) => all
    case Found(before, _, _) => TrimLeft(before)
  }

  /** All that was written is served, and all that was answered is read and needs no reply. */
  predicate InStep(served: Served) {
    var r := UntilPrompt(served.out, "", "");
    served.alive && served.rest == "" && r.replies == "" && (r.Found? ==> r.rest == "")
  }

  /** Where the client is after a response, `left` unread and `outbox` unsent. */
  lemma StepAfter(input: string, served: Served, resp: string, ok: bool, left: string, outbox: string)
    requires input == "" && IsResponse(input + served.out, resp, ok, left)
    requires outbox == UntilPrompt(input + served.out, "", "").replies
    requires served.alive && served.rest == "" ==> served.out != "" && served.out[|served.out| - 1] == '>'
    ensures resp == ResponseText(served.out) && (!ok ==> resp == "")
    ensures InStep(served) <==> served.alive && served.rest == "" && outbox == "" && left == ""
  {
    assert input + served.out == served.out;
    var r := UntilPrompt(served.out, "", "");
    if r.Found? && served.alive && served.rest == "" {
      NothingIsLeftOnly(served.out, left);
    }
  }

  /** Dropping blanks does not make up for an answer that is still unread. */
  lemma NothingIsLeftOnly(out: string, left: string)
    requires UntilPrompt(out, "", "").Found? && IsDrained(UntilPrompt(out, "", "").rest, left)
    requires out != "" && out[|out| - 1] == '>'
    ensures left == "" <==> UntilPrompt(out, "", "").rest == ""
  {
    var rest := UntilPrompt(out, "", "").rest;
    RestIsSuffix(out, "", "");
    var drained :| 0 <= drained <= BlankRun(rest) && left == rest[drained..];
    if rest != "" {
      SomethingIsLeft(rest, drained);
    }
  }

  lemma {:induction false} RestIsSuffix(s: string, acc: string, replies: string)
    requires UntilPrompt(s, acc, replies).Found?
    ensures var rest := UntilPrompt(s, acc, replies).rest;
      |rest| <= |s| && rest == s[|s| - |rest|..]
    decreases |s|
  {
    var Got(b, rest, r) := ReadByte(s);
    ByteLeavesSuffix(Plain, s, "");
    if !AtPrompt(acc + [b]) {
      RestIsSuffix(rest, acc + [b], replies + r);
    }
  }

  lemma {:induction false} ByteLeavesSuffix(m: Mode, s: string, replies: string)
    requires ReadFrom(m, s, replies).Got?
    ensures var rest := ReadFrom(m, s, replies).rest;
      |rest| <= |s| && rest == s[|s| - |rest|..]
    decreases |s|
  {
    if !(m == Plain && s[0] != IAC) {
      ByteLeavesSuffix(Next(Streaming, m, s[0]), s[1..], replies + Refusal(m, s[0]));
    }
  }

  lemma HeardLeavesTrace(react: ReactFn, size: SizeFn, closed: bool, st: State, wire: string)
    requires wire != ""
    ensures var served := Hear(react, size, closed, st, wire);
      served.alive && served.rest == "" ==> served.out != "" && served.out[|served.out| - 1] == '>'
  {
    if !closed {
      ServeLeavesTrace(react, size, st, wire);
    }
  }

  /** A response read while one was still unread leaves something unread. */
  lemma StaysBehind(input: string, served: Served, resp: string, ok: bool, left: string)
    requires Prompt(File) <= input && IsResponse(input + served.out, resp, ok, left)
    requires served.alive && served.rest == "" ==> served.out != "" && served.out[|served.out| - 1] == '>'
    ensures served.alive && served.rest == "" ==> left != ""
  {
    var more := input[|Prompt(File)|..];
    assert input + served.out == "" + Prompt(File) + (more + served.out);
    QuietWithoutPromptEnd("");
    ReadQuiet("", File, more + served.out);
    if served.alive && served.rest == "" {
      StillBehind(more, served.out, left);
    }
  }

  lemma StillBehind(more: string, out: string, left: string)
    requires out != "" && out[|out| - 1] == '>'
    requires IsDrained(more + out, left)
    ensures left != ""
  {
    var drained :| 0 <= drained <= BlankRun(more + out) && left == (more + out)[drained..];
    SomethingIsLeft(more + out, drained);
  }

  /** What is left of a stream that ends in a prompt is not all blank. */
  lemma SomethingIsLeft(rest: string, drained: nat)
    requires rest != "" && rest[|rest| - 1] == '>' && drained <= BlankRun(rest)
    ensures rest[drained..] != ""
  {
  }
}

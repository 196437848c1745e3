/** Opening a file over the wire (internal/qconn/file.go:55-70, internal/mockqnx/server.go:169-192): what the
    daemon makes of a path, what the client hears of it, and which paths cost the two ends their step. */
module QconnOpening {
  import opened Sequences
  import opened Telnet
  import opened QconnText
  import opened QconnHex
  import opened QconnFraming
  import opened QconnDaemon
  import opened QconnReplies
  import opened QconnEcho
  import opened QconnCommands
  import opened QconnExchanges

  /** How an open ends that keeps the two ends in step: an accepted path gives a handle if something of its
      echo, and the quote after it, is left by the telnet filter. */
  ghost predicate IsOpening(was: State, now: State, path: string, mode: int, h: Option<Handle>) {
    if Openable(path, mode) then
      && now == OpenedState(was, path)
      && h == if Audible(path) then Some(Handle(was.nfd + 3, FILE_MODE, SizeOf(now.files, path), Heard(path))) else None
    else now == was && h == None
  }

  /** The first line of such a path is an open of its own, whose echo hides the prompt after it. */
  predicate Hides(path: string) {
    match CutAt(path, '\n')
    case NotFound => false
    case Cut(before, _) =>
      match ParseOpen(TrimRightCR("o:\"" + before))
      case None => false
      case Some(first) => Swallows(first) && NoPrompt(Heard(first))
  }

  /** What the daemon makes of an open as the client writes it, and what the client reads in the answer. The
      two ends stay in step exactly if the path can be spoken of. */
  lemma OpenIsServed(react: ReactFn, size: SizeFn, host: Host, st: State, path: string, flags: nat, mode: int)
    returns (served: Served, decode: string -> Option<Handle>)
    requires Implements(react, size, host) && st.svc == File && InRange(st) && !Hides(path)
    ensures served == Serve(react, size, st, OpenCommand(path, flags, mode) + "\n") && Decodes(decode)
    ensures InStep(served) <==> Speakable(path, mode)
    ensures var h := decode(FirstLine(ResponseText(served.out)));
      && (Speakable(path, mode) ==> served.state.svc == File && IsOpening(st, served.state, path, mode, h))
      && (Interrupts(path, mode) ==> h == None)
  {
    decode := x => ParseOpenReply(x);
    served := Serve(react, size, st, OpenCommand(path, flags, mode) + "\n");
    if '\n' in path {
      NewlineLosesStep(react, size, host, st, path, flags, mode);
    } else if Openable(path, mode) {
      var fd, bytes := st.nfd + 3, SizeOf(FilesAfterOpen(st.files, path), path);
      SizeInRange(st, path);
      OpenIsAccepted(react, size, host, st, path, flags, mode, fd, bytes);
      EchoIsDecoded(fd, bytes, path, decode);
    } else {
      OpenIsRefused(react, size, host, st, path, flags, mode, decode);
    }
  }

  lemma OpenIsRefused(react: ReactFn, size: SizeFn, host: Host, st: State, path: string, flags: nat, mode: int,
                      decode: string -> Option<Handle>)
    requires Implements(react, size, host) && st.svc == File && Decodes(decode)
    requires '\n' !in path && !Openable(path, mode)
    ensures var served := Serve(react, size, st, OpenCommand(path, flags, mode) + "\n");
      InStep(served) && served.state == st && decode(FirstLine(ResponseText(served.out))) == None
  {
    var cmd, line := OpenCommand(path, flags, mode), "error bad-open";
    OpenReaction(st, path, flags, mode);
    OpenIsDispatched(react, size, host, st, cmd);
    assert cmd + "\n" + "" == cmd + "\n";
    ServeOne(react, size, st, cmd, "");
    RefusalIsRead(decode);
  }

  lemma RefusalIsRead(decode: string -> Option<Handle>)
    requires Decodes(decode)
    ensures var out := "error bad-open\r\n" + Prompt(File);
      && UntilPrompt(out, "", "") == Found("error bad-open\r\n", "", "")
      && decode(FirstLine(ResponseText(out))) == None
  {
    var line, text := "error bad-open", "error bad-open\r\n";
    RefusalIsNoReply(decode);
    NoiseShape();
    assert line + "\r\n" == text;
    LineOfAnswer(line, text + Prompt(File));
  }

  lemma RefusalIsNoReply(decode: string -> Option<Handle>)
    requires Decodes(decode)
    ensures decode("error bad-open") == None
  {
    assert "error bad-open"[1] == 'r' && "o:"[1] == ':';
    assert ParseOpenReply("error bad-open") == None;
  }

  /** A meaningful line without a prompt is what the client makes of an answer. */
  lemma LineOfAnswer(line: string, out: string)
    requires Meaningful(line) && '>' !in line && IAC !in line && out == line + "\r\n" + Prompt(File)
    ensures UntilPrompt(out, "", "") == Found(line + "\r\n", "", "") && FirstLine(ResponseText(out)) == line
  {
    var text := line + "\r\n";
    QuietWithoutPromptEnd(text);
    ReadQuiet(text, File, "");
    assert text + Prompt(File) + "" == out && "" + line + "\r\n" == text;
    FirstLineOf("", line);
  }

  /** What the daemon writes for an open that it accepts. */
  lemma OpenIsAccepted(react: ReactFn, size: SizeFn, host: Host, st: State, path: string, flags: nat, mode: int,
                       fd: nat, bytes: nat)
    requires Implements(react, size, host) && st.svc == File && '\n' !in path && Openable(path, mode)
    requires fd == st.nfd + 3 && bytes == SizeOf(FilesAfterOpen(st.files, path), path)
    ensures Serve(react, size, st, OpenCommand(path, flags, mode) + "\n") ==
      Served(OpenedState(st, path), EchoAnswer(fd, bytes, path), "", true)
  {
    OpenIsEchoed(react, size, host, st, path, flags, mode, fd, bytes);
    EchoIsServed(react, size, st, OpenCommand(path, flags, mode), OpenedState(st, path), fd, bytes, path);
  }

  lemma OpenIsEchoed(react: ReactFn, size: SizeFn, host: Host, st: State, path: string, flags: nat, mode: int,
                     fd: nat, bytes: nat)
    requires Implements(react, size, host) && st.svc == File && '\n' !in path && Openable(path, mode)
    requires fd == st.nfd + 3 && bytes == SizeOf(FilesAfterOpen(st.files, path), path)
    ensures var cmd := OpenCommand(path, flags, mode);
      && OneLine(cmd) && size(st, cmd) == 0
      && react(st, cmd, "") == Reaction(OpenedState(st, path), OpenReply(fd, bytes, path), true)
  {
    OpenReaction(st, path, flags, mode);
    OpenIsDispatched(react, size, host, st, OpenCommand(path, flags, mode));
  }

  lemma EchoIsServed(
    react: ReactFn, size: SizeFn, st: State, cmd: string, now: State, fd: nat, bytes: nat, path: string)
    requires OneLine(cmd) && size(st, cmd) == 0 && now.svc == File
    requires react(st, cmd, "") == Reaction(now, OpenReply(fd, bytes, path), true)
    ensures Serve(react, size, st, cmd + "\n") == Served(now, EchoAnswer(fd, bytes, path), "", true)
  {
    assert cmd + "\n" + "" == cmd + "\n";
    ServeOne(react, size, st, cmd, "");
    EchoAnswerIs(fd, bytes, path);
  }

  function EchoAnswer(fd: nat, bytes: nat, path: string): string {
    OpenHead(fd, bytes) + path + "\"" + ("\r\n" + Prompt(File))
  }

  lemma EchoAnswerIs(fd: nat, bytes: nat, path: string)
    ensures OpenReply(fd, bytes, path) + Prompt(File) == EchoAnswer(fd, bytes, path)
  {
    Regroup(OpenLine(fd, bytes, path), "\r\n", Prompt(File));
  }

  /** What the client reads in the answer to an open. */
  lemma EchoIsDecoded(fd: nat, bytes: nat, path: string, decode: string -> Option<Handle>)
    requires fd <= MAX_INT64 && bytes <= MAX_INT64 && '\n' !in path && '"' !in path && Decodes(decode)
    ensures var out := EchoAnswer(fd, bytes, path);
      var r, h := UntilPrompt(out, "", ""), decode(FirstLine(ResponseText(out)));
      if NoPrompt(Heard(path)) then
        && r.replies == EchoReplies(path) && (r.Found? ==> r.rest == "")
        && h == if Audible(path) then Some(Handle(fd, FILE_MODE, bytes, Heard(path))) else None
      else r.Found? && r.rest != "" && h == None
  {
    var head := OpenHead(fd, bytes);
    OpenHeadIsPlain(fd, bytes);
    if !NoPrompt(Heard(path)) {
      CutEchoIsDecoded(head, path, decode);
    } else {
      EchoIsRead(head, path, File);
      if EchoMode(path) == Plain {
        QuotedEchoIsDecoded(fd, bytes, path, decode);
      } else {
        OpenEchoIsDecoded(head, path, decode);
      }
    }
  }

  lemma CutEchoIsDecoded(head: string, path: string, decode: string -> Option<Handle>)
    requires IsHead(head) && '"' !in head[..|head| - 1] && '"' !in path && !NoPrompt(Heard(path)) && Decodes(decode)
    ensures var out := head + path + "\"" + ("\r\n" + Prompt(File));
      var r := UntilPrompt(out, "", "");
      r.Found? && r.rest != "" && decode(FirstLine(ResponseText(out))) == None
  {
    var tail := "\"" + ("\r\n" + Prompt(File));
    Regroup(head + path, "\"", "\r\n" + Prompt(File));
    var text, rest, replies := EchoIsCut(head, path, tail);
    NoHandleIn(head, path, text, decode);
  }

  /** The quote after the path was taken for part of a telnet command. */
  lemma OpenEchoIsDecoded(head: string, path: string, decode: string -> Option<Handle>)
    requires IsHead(head) && '"' !in head[..|head| - 1] && '"' !in path && Decodes(decode)
    ensures var text := head + Heard(path);
      && decode(FirstLine(text)) == None
      && decode(FirstLine(TrimLeft(text + "" + "\r\n"))) == None && text + "" == text
  {
    var text := head + Heard(path);
    NoHandleIn(head, path, text, decode);
    assert TrimLeft(text) == text && TrimLeft(text + "\r\n") == text + "\r\n" && text + "" == text;
    HeardHasNoQuote(head, path);
    OneQuoteInFirstLine(text + "\r\n");
    OneQuoteIsNoReply(FirstLine(text + "\r\n"));
  }

  lemma HeardHasNoQuote(head: string, path: string)
    requires IsHead(head) && '"' !in head[..|head| - 1] && '"' !in path
    ensures OneQuote(head + Heard(path)) && OneQuote(head + Heard(path) + "\r\n")
  {
    var s, n := head + Heard(path) + "\r\n", |head| - 1;
    DataIsFromStream(Plain, path);
    forall i | 0 <= i < |s| && i != n
      ensures s[i] != '"'
    {
      if i < n {
        assert s[i] == head[..n][i];
      } else if i < |head + Heard(path)| {
        assert s[i] == Heard(path)[i - |head|];
      }
    }
    OneQuoteInPart("", head + Heard(path), "\r\n");
    assert "" + (head + Heard(path)) + "\r\n" == s;
  }

  lemma NoHandleIn(head: string, path: string, text: string, decode: string -> Option<Handle>)
    requires IsHead(head) && '"' !in head[..|head| - 1] && '"' !in path && Decodes(decode)
    requires text <= head + Heard(path)
    ensures decode(FirstLine(TrimLeft(text))) == None
  {
    HeardHasNoQuote(head, path);
    OneQuoteTrimmedLeft(text, head + Heard(path));
    OneQuoteInFirstLine(TrimLeft(text));
    OneQuoteIsNoReply(FirstLine(TrimLeft(text)));
  }

  lemma OneQuoteTrimmedLeft(text: string, all: string)
    requires text <= all && OneQuote(all)
    ensures OneQuote(TrimLeft(text))
  {
    TrimLeftIsSuffix(text);
    var t := TrimLeft(text);
    var before, after := text[..|text| - |t|], all[|text|..];
    assert all == text + after && before + t == text;
    OneQuoteInPart(before, t, after);
  }

  lemma {:induction false} TrimLeftIsSuffix(s: string)
    ensures |TrimLeft(s)| <= |s| && s[..|s| - |TrimLeft(s)|] + TrimLeft(s) == s
  {
    if s != "" && s[0] == ' ' {
      TrimLeftIsSuffix(s[1..]);
    }
  }

  lemma QuotedEchoIsDecoded(fd: nat, bytes: nat, path: string, decode: string -> Option<Handle>)
    requires fd <= MAX_INT64 && bytes <= MAX_INT64 && '\n' !in path && Decodes(decode)
    ensures var text := OpenHead(fd, bytes) + Heard(path) + "\"" + "\r\n";
      decode(FirstLine(TrimLeft(text))) ==
        if Heard(path) != "" then Some(Handle(fd, FILE_MODE, bytes, Heard(path))) else None
  {
    OpenHeadIsPlain(fd, bytes);
    DataIsFromStream(Plain, path);
    QuotedIsMeaningful(OpenHead(fd, bytes), Heard(path));
    LineIsFirst(OpenHead(fd, bytes) + Heard(path) + "\"");
    ReplyIsDecoded(fd, bytes, Heard(path), decode);
  }

  lemma LineIsFirst(line: string)
    requires Meaningful(line)
    ensures FirstLine(TrimLeft(line + "\r\n")) == line
  {
    assert "" + line + "\r\n" == line + "\r\n";
    FirstLineOf("", line);
  }

  lemma ReplyIsDecoded(fd: nat, bytes: nat, heard: string, decode: string -> Option<Handle>)
    requires fd <= MAX_INT64 && bytes <= MAX_INT64 && Decodes(decode)
    ensures decode(OpenHead(fd, bytes) + heard + "\"") ==
      if heard != "" then Some(Handle(fd, FILE_MODE, bytes, heard)) else None
  {
    OpenReplyIsParsed(fd, bytes, heard);
  }

  lemma QuotedIsMeaningful(head: string, heard: string)
    requires IsHead(head) && '\n' !in heard
    ensures Meaningful(head + heard + "\"")
  {
    var line := head + heard + "\"";
    NoiseShape();
    assert line[0] == 'o' && line[|line| - 1] == '"';
  }

  // ----- a newline in a command -----

  /** A path with a newline: the daemon takes it for two commands, and answers both. */
  lemma NewlineLosesStep(react: ReactFn, size: SizeFn, host: Host, st: State, path: string, flags: nat, mode: int)
    requires Implements(react, size, host) && st.svc == File
    requires '\n' in path && !Hides(path)
    ensures !InStep(Serve(react, size, st, OpenCommand(path, flags, mode) + "\n"))
  {
    var line, after := FirstLineOfTwo(path, flags, mode);
    var s, cmd := line + ['\n'] + after, TrimRightCR(line);
    TrimRightCRKeeps(line, 3);
    OpenIsDispatched(react, size, host, st, cmd);
    FirstAnswerIsRead(st, cmd);
    TwoAnswersLoseStep(react, size, st, line, after);
  }

  /** The command is cut at the newline, and something is left after it. */
  lemma FirstLineOfTwo(path: string, flags: nat, mode: int) returns (line: string, after: string)
    requires '\n' in path
    ensures OpenCommand(path, flags, mode) + "\n" == line + ['\n'] + after && '\n' !in line && after != ""
    ensures CutAt(path, '\n').Cut? && line == "o:\"" + CutAt(path, '\n').before
    ensures |line| >= 3 && line[0] == 'o' && line[1] == ':' && line[2] == '"'
  {
    assert path[..|path|] == path;
    var Cut(a, b) := CutAt(path, '\n');
    line, after := "o:\"" + a, b + CommandTail(flags, mode);
    CommandInTwo(path, a, b, flags, mode);
  }

  function CommandTail(flags: nat, mode: int): string {
    "\":" + Hex(flags) + ":" + HexInt(mode) + "\n"
  }

  lemma CommandInTwo(path: string, a: string, b: string, flags: nat, mode: int)
    requires path == a + ['\n'] + b
    ensures OpenCommand(path, flags, mode) + "\n" == "o:\"" + a + ['\n'] + (b + CommandTail(flags, mode))
  {
    CommandHasTail(path, flags, mode);
    CutInMiddle("o:\"", a, '\n', b, CommandTail(flags, mode));
  }

  lemma CommandHasTail(path: string, flags: nat, mode: int)
    ensures OpenCommand(path, flags, mode) + "\n" == "o:\"" + path + CommandTail(flags, mode)
  {
    var f, m, s := Hex(flags), HexInt(mode), "o:\"" + path;
    Regroup(s, "\":", f);
    Regroup(s, "\":" + f, ":");
    Regroup(s, "\":" + f + ":", m);
    Regroup(s, "\":" + f + ":" + m, "\n");
  }

  lemma {:induction false} TrimRightCRKeeps(s: string, n: nat)
    requires 0 < n <= |s| && s[n - 1] != '\r'
    ensures n <= |TrimRightCR(s)| && TrimRightCR(s) <= s && TrimRightCR(s)[|TrimRightCR(s)| - 1] != '\r'
    decreases |s|
  {
    if s[|s| - 1] == '\r' {
      TrimRightCRKeeps(s[..|s| - 1], n);
    }
  }

  /** The prompt after the first of the answers is found, or one before it. */
  lemma FirstAnswerIsRead(st: State, cmd: string)
    requires st.svc == File
    requires ParseOpen(cmd).Some? ==> !(Swallows(ParseOpen(cmd).value) && NoPrompt(Heard(ParseOpen(cmd).value)))
    ensures var r := OpenReact(st, cmd);
      r.alive && UntilPrompt(Output(r), "", "").Found?
  {
    match ParseOpen(cmd)
    case None => RefusalIsFound(st);
    case Some(path) => OpenedIsFound(st, path);
  }

  lemma RefusalIsFound(st: State)
    requires st.svc == File
    ensures UntilPrompt(Output(Reaction(st, "error bad-open\r\n", true)), "", "").Found?
  {
    RefusalIsRead(x => ParseOpenReply(x));
  }

  lemma OpenedIsFound(st: State, path: string)
    requires st.svc == File && !(Swallows(path) && NoPrompt(Heard(path)))
    ensures UntilPrompt(Output(Opened(st, path)), "", "").Found?
  {
    var fd, bytes := st.nfd + 3, SizeOf(FilesAfterOpen(st.files, path), path);
    AnswerIsFound(fd, bytes, path);
  }

  lemma AnswerIsFound(fd: nat, bytes: nat, path: string)
    requires !(Swallows(path) && NoPrompt(Heard(path)))
    ensures UntilPrompt(OpenReply(fd, bytes, path) + Prompt(File), "", "").Found?
  {
    EchoAnswerIs(fd, bytes, path);
    OpenHeadIsPlain(fd, bytes);
    EchoIsFound(OpenHead(fd, bytes), path);
  }

  lemma EchoIsFound(head: string, path: string)
    requires IsHead(head) && !(Swallows(path) && NoPrompt(Heard(path)))
    ensures UntilPrompt(head + path + "\"" + ("\r\n" + Prompt(File)), "", "").Found?
  {
    if NoPrompt(Heard(path)) {
      EchoIsRead(head, path, File);
    } else {
      Regroup(head + path, "\"", "\r\n" + Prompt(File));
      var text, rest, replies := EchoIsCut(head, path, "\"" + ("\r\n" + Prompt(File)));
    }
  }

  /** A delete is acknowledged; one with a newline in its path is followed by other answers. */
  lemma DeleteIsServed(react: ReactFn, size: SizeFn, host: Host, st: State, path: string) returns (served: Served)
    requires Implements(react, size, host) && st.svc == File
    ensures served == Serve(react, size, st, DeleteCommand(path) + "\n")
    ensures FirstLine(ResponseText(served.out)) == "o"
    ensures InStep(served) <==> '\n' !in path
    ensures '\n' !in path ==> served.state == st
  {
    var cmd := DeleteCommand(path);
    served := Serve(react, size, st, cmd + "\n");
    if '\n' !in path {
      AckAnswers(react, size, host, st, cmd, 'd');
      AckIsServed(react, size, st, cmd);
    } else {
      var line, after := DeleteInTwo(path);
      TrimRightCRKeeps(line, 3);
      AckAnswers(react, size, host, st, TrimRightCR(line), 'd');
      AckThenMore(react, size, st, line, after);
    }
  }

  lemma AckIsServed(react: ReactFn, size: SizeFn, st: State, cmd: string)
    requires st.svc == File && Answers(react, size, st, cmd, Reaction(st, "o\r\n", true))
    ensures var served := Serve(react, size, st, cmd + "\n");
      InStep(served) && served.state == st && FirstLine(ResponseText(served.out)) == "o"
  {
    AnswerIsRead(react, size, st, cmd, Reaction(st, "o\r\n", true), "");
    var out := "o\r\n" + Prompt(File);
    assert "" + out == out && out + "" == out;
    AckIsRead(out, "");
  }

  lemma AckThenMore(react: ReactFn, size: SizeFn, st: State, line: string, after: string)
    requires st.svc == File && '\n' !in line && after != ""
    requires Answers(react, size, st, TrimRightCR(line), Reaction(st, "o\r\n", true))
    ensures var served := Serve(react, size, st, line + ['\n'] + after);
      !InStep(served) && FirstLine(ResponseText(served.out)) == "o"
  {
    var out, later := "o\r\n" + Prompt(File), Serve(react, size, st, after).out;
    assert out + "" == out;
    AckIsRead(out, "");
    TwoAnswersLoseStep(react, size, st, line, after);
    TwoAnswers(react, size, st, line, after);
    AckIsRead(out + later, later);
  }

  lemma AckIsRead(out: string, more: string)
    requires out == "o\r\n" + Prompt(File) + more
    ensures UntilPrompt(out, "", "") == Found("o\r\n", more, "") && FirstLine(ResponseText(out)) == "o"
  {
    QuietWithoutPromptEnd("o\r\n");
    ReadQuiet("o\r\n", File, more);
    assert "" + "o" + "\r\n" == "o\r\n" && MeaningfulWords();
    FirstLineOf("", "o");
  }

  lemma DeleteInTwo(path: string) returns (line: string, after: string)
    requires '\n' in path
    ensures DeleteCommand(path) + "\n" == line + ['\n'] + after && '\n' !in line && after != ""
    ensures |line| >= 3 && line[0] == 'd' && line[1] == ':' && line[2] == '"'
  {
    assert path[..|path|] == path;
    var Cut(a, b) := CutAt(path, '\n');
    line, after := "d:\"" + a, b + ("\":1" + "\n");
    Regroup("d:\"" + path, "\":1", "\n");
    CutInMiddle("d:\"", a, '\n', b, "\":1" + "\n");
  }

  /** A line, and what comes after it, are answered one after the other. */
  lemma TwoAnswers(react: ReactFn, size: SizeFn, st: State, line: string, after: string)
    requires '\n' !in line && size(st, TrimRightCR(line)) == 0 && react(st, TrimRightCR(line), "").alive
    ensures var r := react(st, TrimRightCR(line), "");
      Serve(react, size, st, line + ['\n'] + after) == Resume(Output(r), Serve(react, size, r.state, after))
  {
    CutAtFirst(line, '\n', after);
    assert after[..0] == "" && after[0..] == after;
    assert NextCommand(size, st, line + ['\n'] + after) == QconnDaemon.Command.Command(TrimRightCR(line), "", after);
  }

  lemma TwoAnswersLoseStep(react: ReactFn, size: SizeFn, st: State, line: string, after: string)
    requires '\n' !in line && after != "" && size(st, TrimRightCR(line)) == 0
    requires var r := react(st, TrimRightCR(line), "");
      r.alive && UntilPrompt(Output(r), "", "").Found?
    ensures !InStep(Serve(react, size, st, line + ['\n'] + after))
  {
    var r := react(st, TrimRightCR(line), "");
    var later := Serve(react, size, r.state, after);
    TwoAnswers(react, size, st, line, after);
    ServeLeavesTrace(react, size, r.state, after);
    FoundWhateverFollows(Output(r), "", "", later.out);
  }

  // ----- a newline that does not show -----

  /** A path that ends a subnegotiation, and tells the client nothing else. */
  predicate ClosesSub(path: string) {
    ModeAfter(Streaming, Sub, path) == Plain && Delivered(Streaming, Sub, path) == "" && Replies(Sub, path) == ""
  }

  /** Two opens in one path. */
  function TwoOpens(first: string, second: string): string {
    first + "\":0:0\no:\"" + second
  }

  lemma TwoOpensAreTwoCommands(first: string, second: string, flags: nat, mode: int)
    requires '\n' !in first
    ensures var path := TwoOpens(first, second);
      && OpenCommand(path, flags, mode) + "\n" ==
           OpenCommand(first, 0, 0) + ['\n'] + (OpenCommand(second, flags, mode) + "\n")
      && CutAt(path, '\n') == Cut(first + "\":0:0", "o:\"" + second)
      && "o:\"" + (first + "\":0:0") == OpenCommand(first, 0, 0)
  {
    var path, before, after := TwoOpens(first, second), first + "\":0:0", "o:\"" + second;
    assert "\":0:0\no:\"" == "\":0:0" + ['\n'] + "o:\"";
    CutInMiddle(first, "\":0:0", '\n', "o:\"", second);
    CutAtFirst(before, '\n', after);
    CommandInTwo(path, before, after, flags, mode);
    CommandHasTail(second, flags, mode);
    FirstCommand(first);
  }

  lemma FirstCommand(first: string)
    ensures "o:\"" + (first + "\":0:0") == OpenCommand(first, 0, 0)
  {
    assert Hex(0) == "0" && HexInt(0) == "0";
    assert "\":0:0" == "\":" + ("0" + ":" + "0");
    Regroup("o:\"", first, "\":0:0");
  }

  /** The prompt between two echoes goes unseen if the first opens a subnegotiation that the second ends. */
  lemma TwoEchoesAreRead(a: string, first: string, b: string, second: string)
    requires IsHead(a) && IsHead(b) && Swallows(first) && NoPrompt(Heard(first)) && ClosesSub(second)
    ensures var tail := "\r\n" + Prompt(File);
      UntilPrompt(a + first + "\"" + (tail + b + second + ("\"" + tail)), "", "") ==
        Found(a + Heard(first) + "\"" + "\r\n", "", EchoReplies(first))
  {
    var tail, text, replies := "\r\n" + Prompt(File), a + Heard(first), EchoReplies(first);
    var hidden := tail + b + second;
    EchoIsReadOver(a, first, hidden + ("\"" + tail));
    assert text + "" == text && replies + "" == replies;
    PromptShape(File);
    EchoIsHidden(tail + b, second);
    ReadOver(Sub, hidden, "\"" + tail, text, replies);
    QuoteIsQuiet(text, "\"");
    PlainIsReadOver("\"", tail, text, replies);
    PromptIsReached(text + "\"", File, replies);
  }

  lemma EchoIsHidden(plain: string, path: string)
    requires IAC !in plain && ClosesSub(path)
    ensures ClosesSub(plain + path)
  {
    StaysInSub(plain);
    ModeConcat(Streaming, Sub, plain, path);
    RepliesConcat(Sub, plain, path);
  }

  /** Behind a path that hides a prompt, a newline does not cost the two ends their step if another path ends
      what the first began. */
  lemma HiddenNewlineKeepsStep(react: ReactFn, size: SizeFn, host: Host, st: State, first: string, second: string,
                               flags: nat, mode: nat)
    requires Implements(react, size, host) && st.svc == File
    requires Openable(first, 0) && Openable(second, mode) && '\n' !in first && '\n' !in second
    requires Swallows(first) && NoPrompt(Heard(first)) && EchoReplies(first) == "" && ClosesSub(second)
    ensures Hides(TwoOpens(first, second))
    ensures InStep(Serve(react, size, st, OpenCommand(TwoOpens(first, second), flags, mode) + "\n"))
  {
    TwoOpensAreTwoCommands(first, second, flags, mode);
    FirstHides(first, second);
    var now := OpenedState(st, first);
    var x, y := SizeOf(now.files, first), SizeOf(FilesAfterOpen(now.files, second), second);
    OpenIsEchoed(react, size, host, st, first, 0, 0, st.nfd + 3, x);
    OpenIsAccepted(react, size, host, now, second, flags, mode, now.nfd + 3, y);
    BothAnswersAreRead(st.nfd + 3, x, first, now.nfd + 3, y, second);
    TwoEchoesKeepStep(react, size, st, OpenCommand(first, 0, 0), OpenCommand(second, flags, mode) + "\n", now,
                      OpenReply(st.nfd + 3, x, first));
  }

  lemma FirstHides(first: string, second: string)
    requires '\n' !in first && Openable(first, 0) && Swallows(first) && NoPrompt(Heard(first))
    requires CutAt(TwoOpens(first, second), '\n') == Cut(first + "\":0:0", "o:\"" + second)
    requires "o:\"" + (first + "\":0:0") == OpenCommand(first, 0, 0)
    ensures Hides(TwoOpens(first, second))
  {
    OpenReaction(INITIAL, first, 0, 0);
    OpenIsParsed(first, 0, 0);
  }

  lemma TwoEchoesKeepStep(
    react: ReactFn, size: SizeFn, st: State, line: string, after: string, now: State, text: string)
    requires OneLine(line) && size(st, line) == 0 && react(st, line, "") == Reaction(now, text, true)
    requires var later := Serve(react, size, now, after);
      var r := UntilPrompt(text + Prompt(now.svc) + later.out, "", "");
      later.alive && later.rest == "" && r.replies == "" && (r.Found? ==> r.rest == "")
    ensures InStep(Serve(react, size, st, line + ['\n'] + after))
  {
    AnswerThenMore(react, size, st, line, after, now, text);
  }

  lemma AnswerThenMore(react: ReactFn, size: SizeFn, st: State, line: string, after: string, now: State, text: string)
    requires OneLine(line) && size(st, line) == 0 && react(st, line, "") == Reaction(now, text, true)
    ensures Serve(react, size, st, line + ['\n'] + after) ==
      Resume(text + Prompt(now.svc), Serve(react, size, now, after))
  {
    TwoAnswers(react, size, st, line, after);
  }

  lemma BothAnswersAreRead(fd: nat, x: nat, first: string, fd': nat, y: nat, second: string)
    requires Swallows(first) && NoPrompt(Heard(first)) && ClosesSub(second)
    ensures var out := OpenReply(fd, x, first) + Prompt(File) + EchoAnswer(fd', y, second);
      UntilPrompt(out, "", "") == Found(OpenHead(fd, x) + Heard(first) + "\"" + "\r\n", "", EchoReplies(first))
  {
    var a, b, tail := OpenHead(fd, x), OpenHead(fd', y), "\r\n" + Prompt(File);
    EchoAnswerIs(fd, x, first);
    OpenHeadIsPlain(fd, x);
    OpenHeadIsPlain(fd', y);
    Regroup(a + first + "\"", tail, b + second + "\"" + tail);
    TailsMeet(tail, b, second);
    TwoEchoesAreRead(a, first, b, second);
  }

  lemma TailsMeet(tail: string, b: string, second: string)
    ensures tail + (b + second + "\"" + tail) == tail + b + second + ("\"" + tail)
  {
    Regroup(b + second, "\"", tail);
    Regroup(tail, b, second);
    Regroup(tail, b + second, "\"" + tail);
  }

  /** Such paths exist. */
  lemma SomeNewlineIsHidden(react: ReactFn, size: SizeFn, host: Host, st: State, flags: nat, mode: nat)
    requires Implements(react, size, host) && st.svc == File
    ensures InStep(Serve(react, size, st, OpenCommand(TwoOpens([IAC, SB], [IAC, SE]), flags, mode) + "\n"))
  {
    var first, second := [IAC, SB], [IAC, SE];
    TwoSteps(Streaming, Plain, IAC, SB);
    TwoSteps(Streaming, Sub, IAC, SE);
    OneStep(Streaming, Sub, '"');
    RepliesConcat(Plain, first, "\"");
    NoPromptInShort("");
    HiddenNewlineKeepsStep(react, size, host, st, first, second, flags, mode);
  }
}

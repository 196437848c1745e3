/** The commands the client sends (internal/qconn/file.go, cntl.go, client.go), the daemon's reaction
    to each, and the client's reading of the replies. */
module QconnCommands {
  import opened Telnet
  import opened QconnText
  import opened QconnHex
  import opened DecimalText
  import opened QconnFraming
  import opened QconnLines
  import opened QconnDaemon
  import opened QconnReplies
  import opened QconnEcho

  const O_RDONLY: nat := 0
  const O_RDWR: nat := 2
  const O_CREATE_TRUNCATE: nat := 0x301
  const O_CREATE: nat := 0x101
  const S_IFDIR: nat := 0x4000
  const MODE_RW_ALL: nat := 0x1b6
  const MODE_DIR: nat := 0x1ff

  // ----- command texts -----

  function OpenCommand(path: string, flags: nat, mode: int): string {
    "o:\"" + path + "\":" + Hex(flags) + ":" + HexInt(mode)
  }

  function CloseCommand(fd: nat): string {
    "c:" + Hex(fd)
  }

  function ChmodCommand(fd: nat, mode: int): string {
    "a:" + Hex(fd) + ":" + HexInt(mode)
  }

  function DeleteCommand(path: string): string {
    "d:\"" + path + "\":1"
  }

  function TransferArgs(fd: nat, off: int, n: nat): string {
    Hex(fd) + ":" + HexInt(off) + ":" + Hex(n)
  }

  function ReadCommand(fd: nat, off: int, n: nat): string {
    ['r'] + ":" + TransferArgs(fd, off, n)
  }

  function WriteCommand(fd: nat, off: int, n: nat): string {
    ['w'] + ":" + TransferArgs(fd, off, n)
  }

  function DecimalInt(n: int): (s: string)
    ensures s != "" && forall i | 0 <= i < |s| :: '-' <= s[i] <= '9'
  {
    if n < 0 then "-" + Decimal(-n) else Decimal(n)
  }

  function KillCommand(pid: int, sig: int): string {
    "kill " + DecimalInt(pid) + " " + DecimalInt(sig)
  }

  /** `S_IFDIR | mode` */
  function DirectoryMode(mode: int): int {
    if mode / S_IFDIR % 2 == 1 then mode else mode + S_IFDIR
  }

  /** The opens the daemon accepts: a non-empty path without quotes and a mode that is not negative. */
  predicate Openable(path: string, mode: int) {
    path != "" && '"' !in path && mode >= 0
  }

  /** Opens that cannot be mistaken for anything else on the wire: no newline, which would end the command,
      and, in the echo of a path that the daemon accepts, nothing that the client answers and no prompt. */
  predicate Speakable(path: string, mode: int) {
    '\n' !in path && (Openable(path, mode) ==> EchoReplies(path) == "" && NoPrompt(Heard(path)))
  }

  /** An echo with a prompt in it. */
  predicate Interrupts(path: string, mode: int) {
    '\n' !in path && Openable(path, mode) && !NoPrompt(Heard(path))
  }

  /** Paths of which something is left in the echo, and the quote after it. */
  predicate Audible(path: string) {
    EchoMode(path) == Plain && Heard(path) != ""
  }

  /** A line of its own: no newline inside, no carriage return at the end. */
  predicate OneLine(cmd: string) {
    '\n' !in cmd && (cmd == "" || cmd[|cmd| - 1] != '\r')
  }

  lemma HexIsPlain(s: string, n: int)
    requires s == HexInt(n)
    ensures s != "" && '\n' !in s && '\r' !in s && ':' !in s && '"' !in s && '>' !in s && IAC !in s
    ensures IsHex(s) <==> n >= 0
  {
    if n < 0 {
      assert s[0] == '-';
    }
  }

  // ----- opening -----

  lemma NumericTail(flags: string, mode: string)
    requires ':' !in flags
    ensures IsNumericTail(":" + flags + ":" + mode) <==> IsHex(flags) && IsHex(mode)
  {
    var tail := ":" + flags + ":" + mode;
    assert tail[1..] == flags + [':'] + mode;
    CutAtFirst(flags, ':', mode);
  }

  lemma NumericTailHasNoQuote(tail: string)
    requires IsNumericTail(tail)
    ensures '"' !in tail
  {
    var Cut(flags, mode) := CutAt(tail[1..], ':');
    assert tail == ":" + (flags + [':'] + mode);
  }

  lemma QuotedIsParsed(path: string, tail: string)
    ensures ParseQuoted(path + ['"'] + tail) ==
      if path != "" && '"' !in path && IsNumericTail(tail) then Some(path) else None
  {
    if '"' !in path {
      CutAtFirst(path, '"', tail);
    } else {
      var before, after := FirstQuote(path);
      var rest := after + ['"'] + tail;
      assert path + ['"'] + tail == before + ['"'] + rest;
      CutAtFirst(before, '"', rest);
      assert rest[|after|] == '"';
      if IsNumericTail(rest) {
        NumericTailHasNoQuote(rest);
      }
    }
  }

  lemma FirstQuote(path: string) returns (before: string, after: string)
    requires '"' in path
    ensures path == before + ['"'] + after && '"' !in before
  {
    assert path[..|path|] == path;
    var cut := CutAt(path, '"');
    before, after := cut.before, cut.after;
  }

  lemma OpenIsParsed(path: string, flags: nat, mode: int)
    ensures ParseOpen(OpenCommand(path, flags, mode)) == if Openable(path, mode) then Some(path) else None
  {
    var f, m := Hex(flags), HexInt(mode);
    var tail := ":" + f + ":" + m;
    var cmd := OpenCommand(path, flags, mode);
    assert cmd == "o:\"" + (path + ['"'] + tail);
    assert cmd[3..] == path + ['"'] + tail;
    HexIsPlain(f, flags);
    HexIsPlain(m, mode);
    NumericTail(f, m);
    QuotedIsParsed(path, tail);
  }

  lemma OpenReaction(st: State, path: string, flags: nat, mode: int)
    requires '\n' !in path
    ensures var cmd := OpenCommand(path, flags, mode);
      && OneLine(cmd) && IsCommand(cmd, 'o')
      && OpenReact(st, cmd) ==
           if Openable(path, mode) then Opened(st, path) else Reaction(st, "error bad-open\r\n", true)
  {
    var cmd := OpenCommand(path, flags, mode);
    OpenIsParsed(path, flags, mode);
    HexIsPlain(Hex(flags), flags);
    HexIsPlain(HexInt(mode), mode);
    assert cmd[|cmd| - 1] == HexInt(mode)[|HexInt(mode)| - 1];
  }

  // ----- the client's reading of an open reply -----

  datatype Handle = Handle(fd: int, mode: int, size: int, path: string)

  predicate IsHexOrDash(s: string) {
    s != "" && forall i | 0 <= i < |s| :: IsHexChar(s[i]) || s[i] == '-'
  }

  /** `ParseInt` with its error ignored: out of range gives the nearest number, malformed zero. */
  function LenientHex(s: string): int {
    match ParseHex(s)
    case Some(v) => v
    case None =>
      if IsHex(s) then MAX_INT64
      else if s != "" && s[0] == '-' && IsHex(s[1..]) then -MAX_INT64 - 1
      else 0
  }

  function LastIndexOf(s: string, c: char): (k: nat)
    ensures k <= |s|
    ensures k < |s| ==> s[k] == c
  {
    if s == "" then 0
    else if s[|s| - 1] == c then |s| - 1
    else
      var k := LastIndexOf(s[..|s| - 1], c);
      if k == |s| - 1 then |s| else k
  }

  /** `o:fd:mode:size:"path"`, the path up to the last quote of the line. */
  function ParseOpenReply(line: string): Option<Handle> {
    if !HasPrefix(line, "o:") then None
    else match CutAt(line[2..], ':')
      case NotFound => None
      case Cut(fd, r1) =>
        match CutAt(r1, ':')
        case NotFound => None
        case Cut(mode, r2) =>
          match CutAt(r2, ':')
          case NotFound => None
          case Cut(size, r3) =>
            var k := LastIndexOf(r3, '"');
            if IsHexOrDash(fd) && IsHexOrDash(mode) && IsHexOrDash(size) && HasPrefix(r3, "\"") && 2 <= k < |r3|
            then Some(Handle(LenientHex(fd), LenientHex(mode), LenientHex(size), r3[1..k]))
            else None
  }

  lemma HexField(n: nat)
    requires n <= MAX_INT64
    ensures IsHexOrDash(Hex(n)) && LenientHex(Hex(n)) == n && ':' !in Hex(n)
  {
    ParseHexOfHex(n);
  }

  lemma OpenLineFields(fd: nat, size: nat, path: string)
    ensures OpenLine(fd, size, path) ==
      "o:" + (Hex(fd) + [':'] + (Hex(FILE_MODE) + [':'] + (Hex(size) + [':'] + ("\"" + path + "\""))))
  {
    var a, b, c := Hex(fd), Hex(FILE_MODE), Hex(size);
    assert OpenHead(fd, size) == "o:" + (a + [':'] + (b + [':'] + (c + [':'] + "\"")));
  }

  lemma OpenReplyIsParsed(fd: nat, size: nat, path: string)
    requires fd <= MAX_INT64 && size <= MAX_INT64
    ensures ParseOpenReply(OpenLine(fd, size, path)) ==
      if path != "" then Some(Handle(fd, FILE_MODE, size, path)) else None
  {
    var quoted := "\"" + path + "\"";
    var r2 := Hex(size) + [':'] + quoted;
    var r1 := Hex(FILE_MODE) + [':'] + r2;
    var line := OpenLine(fd, size, path);
    OpenLineFields(fd, size, path);
    assert line[2..] == Hex(fd) + [':'] + r1;
    HexField(fd);
    HexField(FILE_MODE);
    HexField(size);
    CutAtFirst(Hex(fd), ':', r1);
    CutAtFirst(Hex(FILE_MODE), ':', r2);
    CutAtFirst(Hex(size), ':', quoted);
    assert LastIndexOf(quoted, '"') == |quoted| - 1;
    assert quoted[1..|quoted| - 1] == path;
  }

  /** At most one quote. */
  predicate OneQuote(s: string) {
    forall i, j | 0 <= i < j < |s| :: s[i] != '"' || s[j] != '"'
  }

  lemma OneQuoteInPart(a: string, b: string, c: string)
    requires OneQuote(a + b + c)
    ensures OneQuote(b)
  {
    var s := a + b + c;
    forall i, j | 0 <= i < j < |b|
      ensures b[i] != '"' || b[j] != '"'
    {
      assert s[|a| + i] == b[i] && s[|a| + j] == b[j];
    }
  }

  lemma OneQuoteIsNotClosed(s: string)
    requires OneQuote(s)
    ensures !(HasPrefix(s, "\"") && 2 <= LastIndexOf(s, '"') < |s|)
  {
    if s != "" && s[0] == '"' && LastIndexOf(s, '"') < |s| {
      assert s[LastIndexOf(s, '"')] == '"';
    }
  }

  /** Without a closing quote there is no handle in a reply. */
  lemma OneQuoteIsNoReply(line: string)
    requires OneQuote(line)
    ensures ParseOpenReply(line) == None
  {
    if HasPrefix(line, "o:") && CutAt(line[2..], ':').Cut? {
      var r1 := CutAt(line[2..], ':').after;
      if CutAt(r1, ':').Cut? {
        var r2 := CutAt(r1, ':').after;
        if CutAt(r2, ':').Cut? {
          OneQuoteIsNotClosed(CutAt(r2, ':').after);
        }
      }
    }
  }

  lemma {:induction false} OneQuoteInFirstLine(s: string)
    requires OneQuote(s)
    ensures OneQuote(FirstLine(s))
    decreases |s|
  {
    match CutAt(s, '\n')
    case NotFound =>
      OneQuoteTrimmed(s);
    case Cut(line, rest) =>
      assert s == "" + line + (['\n'] + rest) && s == line + ['\n'] + rest + "";
      OneQuoteInPart("", line, ['\n'] + rest);
      OneQuoteInPart(line + ['\n'], rest, "");
      OneQuoteTrimmed(line);
      OneQuoteInFirstLine(rest);
  }

  lemma {:induction false} OneQuoteTrimmed(s: string)
    requires OneQuote(s)
    ensures OneQuote(TrimRightCR(s))
  {
    if s != "" && s[|s| - 1] == '\r' {
      OneQuoteTrimmed(s[..|s| - 1]);
    }
  }

  lemma OpenHeadIsPlain(fd: nat, size: nat)
    ensures var head := OpenHead(fd, size);
      IsHead(head) && '"' !in head[..|head| - 1]
  {
    HexIsPlain(Hex(fd), fd);
    HexIsPlain(Hex(FILE_MODE), FILE_MODE);
    HexIsPlain(Hex(size), size);
    var head := OpenHead(fd, size);
    assert head[..|head| - 1] == "o:" + Hex(fd) + ":" + Hex(FILE_MODE) + ":" + Hex(size) + ":";
  }

  // ----- transfers -----

  lemma TransferIsParsed(fd: nat, off: int, n: nat)
    requires fd <= MAX_INT64 && off <= MAX_INT64 && n <= MAX_INT64
    ensures ParseTransfer(TransferArgs(fd, off, n)) == if off >= 0 then Some(Transfer(fd, off, n)) else None
  {
    var tail := HexInt(off) + [':'] + Hex(n);
    assert TransferArgs(fd, off, n) == Hex(fd) + [':'] + tail;
    HexIsPlain(Hex(fd), fd);
    HexIsPlain(HexInt(off), off);
    CutAtFirst(Hex(fd), ':', tail);
    CutAtFirst(HexInt(off), ':', Hex(n));
    ParseDigitsOfHex(fd);
    ParseDigitsOfHex(n);
    if off >= 0 {
      ParseDigitsOfHex(off);
    }
  }

  /** What the daemon makes of a transfer command. */
  lemma TransferCommandIsParsed(letter: char, fd: nat, off: int, n: nat)
    requires letter != '\n' && fd <= MAX_INT64 && off <= MAX_INT64 && n <= MAX_INT64
    ensures var cmd := [letter] + ":" + TransferArgs(fd, off, n);
      && OneLine(cmd) && IsCommand(cmd, letter)
      && ParseTransfer(cmd[2..]) == if off < 0 then None else Some(Transfer(fd, off, n))
  {
    TransferIsParsed(fd, off, n);
  }

  /** The first field of a status line `o:count:...`, and the count in it. */
  function StatusField(line: string): string
    requires HasPrefix(line, "o:")
  {
    match CutAt(line[2..], ':')
    case NotFound => line[2..]
    case Cut(count, _) => count
  }

  function StatusCount(line: string): Option<int>
    requires HasPrefix(line, "o:")
  {
    ParseHex(StatusField(line))
  }

  /** A status line is read back, and the count in it with it. */
  lemma StatusLine(count: nat, tail: string)
    requires count <= MAX_INT64
    requires |tail| >= 2 && tail[0] == ':' && forall i | 0 <= i < |tail| :: tail[i] == ':' || tail[i] == '0'
    ensures var line := "o:" + Hex(count) + tail;
      && HasPrefix(line, "o:") && StatusCount(line) == Some(count)
      && CleanLine(line + "\r") == line && '\n' !in line && IAC !in line
  {
    var line := "o:" + Hex(count) + tail;
    assert line == "o:" + Hex(count) + ":" + tail[1..];
    StatusCountIs(line, count, tail[1..]);
    StatusIsPlain(line, Hex(count), tail);
    CleanStatus(line);
  }

  lemma StatusIsPlain(line: string, digits: string, tail: string)
    requires line == "o:" + digits + tail && IsHex(digits)
    requires |tail| >= 2 && forall i | 0 <= i < |tail| :: tail[i] == ':' || tail[i] == '0'
    ensures line[0] != ' ' && line[|line| - 1] != '\r' && '\n' !in line && IAC !in line
  {
    assert line[|line| - 1] == tail[|tail| - 1];
  }

  lemma StatusCountIs(line: string, count: nat, more: string)
    requires count <= MAX_INT64 && line == "o:" + Hex(count) + ":" + more
    ensures HasPrefix(line, "o:") && StatusCount(line) == Some(count)
  {
    assert line[2..] == Hex(count) + [':'] + more;
    HexIsPlain(Hex(count), count);
    CutAtFirst(Hex(count), ':', more);
    ParseHexOfHex(count);
  }

  lemma CleanStatus(line: string)
    requires line != "" && line[0] != ' ' && line[|line| - 1] != '\r'
    ensures CleanLine(line + "\r") == line
  {
    assert (line + "\r")[..|line|] == line;
    assert TrimRightCR(line + "\r") == line;
  }

  // ----- the reactions the client relies on, as the daemon's own function values -----

  /** A reaction that leaves the connection open, with a text that is read back as it is. */
  ghost predicate Answers(react: ReactFn, size: SizeFn, st: State, cmd: string, r: Reaction) {
    OneLine(cmd) && size(st, cmd) == 0 && react(st, cmd, "") == r && r.alive && Quiet(r.text)
  }

  lemma AnswersFrom(react: ReactFn, size: SizeFn, host: Host, st: State, cmd: string, r: Reaction)
    requires Implements(react, size, host)
    requires OneLine(cmd) && PayloadSize(st, cmd) == 0 && React(host, st, cmd, "") == r && r.alive && Quiet(r.text)
    ensures Answers(react, size, st, cmd, r)
  {
  }

  /** What the broker makes of a request for a service: the mock has no sinfo. */
  function Entered(st: State, svc: Service): Reaction {
    if svc == Sinfo then Reaction(st, UNKNOWN, true) else Reaction(st.(svc := svc), "OK\r\n", true)
  }

  lemma ServiceAnswers(react: ReactFn, size: SizeFn, host: Host, st: State, svc: Service)
    requires Implements(react, size, host) && st.svc == Broker && svc != Broker
    ensures Answers(react, size, st, "service " + Name(svc), Entered(st, svc))
  {
    QuietWithoutPromptEnd("OK\r\n");
    QuietWithoutPromptEnd(UNKNOWN);
    ServiceReaction(host.tables, st, svc);
    AnswersFrom(react, size, host, st, "service " + Name(svc), Entered(st, svc));
  }

  lemma ServiceReaction(tables: Tables, st: State, svc: Service)
    requires svc != Broker
    ensures OneLine("service " + Name(svc)) && BrokerReact(tables, st, "service " + Name(svc)) == Entered(st, svc)
  {
    var cmd := "service " + Name(svc);
    assert cmd[0] == 's' && "quit"[0] == 'q' && "versions "[0] == 'v' && "info"[0] == 'i';
    assert "service launcher"[8] == 'l' && "service file"[8] == 'f' && "service cntl"[8] == 'c';
  }

  function LeaveCommand(svc: Service): string {
    if svc == File then "q" else "done"
  }

  lemma LeaveAnswers(react: ReactFn, size: SizeFn, host: Host, st: State)
    requires Implements(react, size, host) && st.svc != Broker && st.svc != Sinfo
    ensures Answers(react, size, st, LeaveCommand(st.svc), Reaction(st.(svc := Broker), "", true))
  {
    QuietWithoutPromptEnd("");
    AnswersFrom(react, size, host, st, LeaveCommand(st.svc), Reaction(st.(svc := Broker), "", true));
  }

  lemma BrokerAnswers(react: ReactFn, size: SizeFn, host: Host, st: State)
    requires Implements(react, size, host) && st.svc == Broker && Reportable(host.tables)
    ensures Answers(react, size, st, "versions ?", Reaction(st, VersionLine(host.tables.versions) + "\r\n", true))
    ensures Answers(react, size, st, "info", Reaction(st, InfoLine(host.tables) + "\r\n", true))
  {
    VersionLineIsPlain(host.tables.versions);
    AttributeLineIsPlain(host.tables.attributes);
    PlainIsQuiet(VersionLine(host.tables.versions));
    PlainIsQuiet(InfoLine(host.tables));
    BrokerReactions(react, size, host, st);
  }

  lemma BrokerReactions(react: ReactFn, size: SizeFn, host: Host, st: State)
    requires Implements(react, size, host) && st.svc == Broker
    ensures OneLine("versions ?") && OneLine("info") && size(st, "versions ?") == size(st, "info") == 0
    ensures react(st, "versions ?", "") == Reaction(st, VersionLine(host.tables.versions) + "\r\n", true)
    ensures react(st, "info", "") == Reaction(st, InfoLine(host.tables) + "\r\n", true)
  {
    assert React(host, st, "versions ?", "") == BrokerReact(host.tables, st, "versions ?");
    assert React(host, st, "info", "") == BrokerReact(host.tables, st, "info");
    assert PayloadSize(st, "versions ?") == PayloadSize(st, "info") == 0;
  }

  lemma PlainIsQuiet(t: string)
    requires IsPlain(t)
    ensures Quiet(t + "\r\n")
  {
    QuietWithoutPromptEnd(t + "\r\n");
  }

  lemma KillAnswers(react: ReactFn, size: SizeFn, host: Host, st: State, pid: int, sig: int)
    requires Implements(react, size, host) && st.svc == Cntl
    ensures Answers(react, size, st, KillCommand(pid, sig), Reaction(st, "ok\r\n", true))
  {
    var cmd, a, b := KillCommand(pid, sig), DecimalInt(pid), DecimalInt(sig);
    assert cmd[|cmd| - 1] == b[|b| - 1];
    assert cmd == "kill " + (a + " " + b);
    assert cmd[0] == 'k';
    QuietWithoutPromptEnd("ok\r\n");
    AnswersFrom(react, size, host, st, cmd, Reaction(st, "ok\r\n", true));
  }

  /** Close, delete and chmod are acknowledged and have no effect on the mock. */
  lemma AckAnswers(react: ReactFn, size: SizeFn, host: Host, st: State, cmd: string, letter: char)
    requires Implements(react, size, host) && st.svc == File && OneLine(cmd)
    requires IsCommand(cmd, letter) && (letter == 'c' || letter == 'd' || letter == 'a')
    ensures Answers(react, size, st, cmd, Reaction(st, "o\r\n", true))
  {
    QuietWithoutPromptEnd("o\r\n");
    FileReacts(react, size, host, st, cmd, "");
  }

  lemma FileReacts(react: ReactFn, size: SizeFn, host: Host, st: State, cmd: string, payload: string)
    requires Implements(react, size, host) && st.svc == File
    ensures react(st, cmd, payload) == FileReact(st, cmd, payload) && size(st, cmd) == PayloadSize(st, cmd)
  {
    assert React(host, st, cmd, payload) == FileReact(st, cmd, payload);
  }

  lemma OpenIsDispatched(react: ReactFn, size: SizeFn, host: Host, st: State, cmd: string)
    requires Implements(react, size, host) && st.svc == File && IsCommand(cmd, 'o')
    ensures react(st, cmd, "") == OpenReact(st, cmd) && size(st, cmd) == 0
  {
    FileReacts(react, size, host, st, cmd, "");
  }

  /** The acknowledgement expression: an `o`, then white space. */
  predicate IsOk(line: string) {
    line != "" && line[0] == 'o' && forall i | 1 <= i < |line| :: IsSpace(line[i])
  }

  lemma ReadIsDispatched(react: ReactFn, size: SizeFn, host: Host, st: State, cmd: string)
    requires Implements(react, size, host) && st.svc == File && IsCommand(cmd, 'r')
    ensures react(st, cmd, "") == ReadReact(st, cmd) && size(st, cmd) == 0
  {
    FileReacts(react, size, host, st, cmd, "");
  }

  lemma WriteIsDispatched(react: ReactFn, size: SizeFn, host: Host, st: State, cmd: string, payload: string)
    requires Implements(react, size, host) && st.svc == File && IsCommand(cmd, 'w')
    ensures react(st, cmd, payload) == WriteReact(st, cmd, payload)
  {
    FileReacts(react, size, host, st, cmd, payload);
  }

  lemma WriteIsSized(react: ReactFn, size: SizeFn, host: Host, st: State, cmd: string, transfer: Option<Transfer>)
    requires Implements(react, size, host) && st.svc == File && IsCommand(cmd, 'w')
    requires transfer == ParseTransfer(cmd[2..])
    ensures size(st, cmd) == if transfer.Some? then transfer.value.n else 0
  {
    assert PayloadSize(st, cmd) >= 0;
  }

  lemma ReadAnswers(react: ReactFn, size: SizeFn, host: Host, st: State, fd: nat, off: nat, n: nat)
    requires Implements(react, size, host) && st.svc == File
    requires fd <= MAX_INT64 && off <= MAX_INT64 && n <= MAX_INT64
    ensures var cmd := ReadCommand(fd, off, n);
      var data := ReadVfile(st, Transfer(fd, off, n));
      && OneLine(cmd) && size(st, cmd) == 0
      && react(st, cmd, "") == Reaction(st, "o:" + Hex(|data|) + ":0:0\r\n" + data, true)
  {
    TransferCommandIsParsed('r', fd, off, n);
    ReadIsDispatched(react, size, host, st, ReadCommand(fd, off, n));
  }

  /** A negative offset is refused, and the daemon stays in step. */
  lemma NegativeReadAnswers(react: ReactFn, size: SizeFn, host: Host, st: State, fd: nat, off: int, n: nat)
    requires Implements(react, size, host) && st.svc == File && off < 0 && fd <= MAX_INT64 && n <= MAX_INT64
    ensures var cmd := ReadCommand(fd, off, n);
      && OneLine(cmd) && size(st, cmd) == 0
      && react(st, cmd, "") == Reaction(st, "error bad-read\r\n", true)
  {
    TransferCommandIsParsed('r', fd, off, n);
    ReadIsDispatched(react, size, host, st, ReadCommand(fd, off, n));
  }

  lemma WriteAnswers(react: ReactFn, size: SizeFn, host: Host, st: State, fd: nat, off: nat, payload: string)
    requires Implements(react, size, host) && st.svc == File
    requires fd <= MAX_INT64 && off <= MAX_INT64 && |payload| <= MAX_INT64
    ensures var cmd := WriteCommand(fd, off, |payload|);
      && OneLine(cmd) && size(st, cmd) == |payload|
      && react(st, cmd, payload) == Reaction(StoreVfile(st, fd, off, payload), "o:" + Hex(|payload|) + ":0\r\n", true)
  {
    TransferCommandIsParsed('w', fd, off, |payload|);
    WriteIsDispatched(react, size, host, st, WriteCommand(fd, off, |payload|), payload);
    WriteIsSized(react, size, host, st, WriteCommand(fd, off, |payload|), Some(Transfer(fd, off, |payload|)));
  }

  /** A write at a negative offset is refused, and its payload is not taken. */
  lemma NegativeWriteAnswers(react: ReactFn, size: SizeFn, host: Host, st: State, fd: nat, off: int, payload: string)
    requires Implements(react, size, host) && st.svc == File && off < 0 && fd <= MAX_INT64 && |payload| <= MAX_INT64
    ensures var cmd := WriteCommand(fd, off, |payload|);
      && OneLine(cmd) && size(st, cmd) == 0
      && react(st, cmd, "") == Reaction(st, "error bad-write\r\n", true)
  {
    TransferCommandIsParsed('w', fd, off, |payload|);
    WriteIsDispatched(react, size, host, st, WriteCommand(fd, off, |payload|), "");
    WriteIsSized(react, size, host, st, WriteCommand(fd, off, |payload|), None);
  }
}

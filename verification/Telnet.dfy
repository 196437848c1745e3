/** The telnet layer of the qconn stream (internal/qconn/framing.go): the streaming filter that
    refuses every option, and the batch filter `stripIAC`. An octet of this stream is a `char`, so
    that protocol texts can be written as strings; every statement is for all characters. */
module Telnet {
  import opened Sequences

  const IAC: char := '\U{ff}'
  const DONT: char := '\U{fe}'
  const DO: char := '\U{fd}'
  const WONT: char := '\U{fc}'
  const WILL: char := '\U{fb}'
  const SB: char := '\U{fa}'
  const SE: char := '\U{f0}'

  predicate IsNegotiation(c: char) {
    c == DO || c == DONT || c == WILL || c == WONT
  }

  // ----- one parser, two ways to end a subnegotiation -----

  /** Where the parser is: in data, after an IAC, before the option of a command, in a
      subnegotiation, after an IAC in a subnegotiation. */
  datatype Mode = Plain | Command | Option(cmd: char) | Sub | SubIac

  /** The streaming parser takes the octet after an IAC in a subnegotiation as part of a pair, the
      batch one looks at every IAC afresh. They differ on a doubled IAC only. */
  datatype Flavour = Streaming | Batch

  function Next(f: Flavour, m: Mode, c: char): Mode {
    match m
    case Plain => if c == IAC then Command else Plain
    case Command => if IsNegotiation(c) then Option(c) else if c == SB then Sub else Plain
    case Option(_) => Plain
    case Sub => if c == IAC then SubIac else Sub
    case SubIac => if c == SE then Plain else if c == IAC && f == Batch then SubIac else Sub
  }

  /** The data an octet contributes: itself, outside commands. */
  function Emit(m: Mode, c: char): string {
    if m == Plain && c != IAC then [c] else ""
  }

  /** The refusal an octet provokes: WONT for DO, DONT for WILL. */
  function Refusal(m: Mode, c: char): string {
    match m
    case Option(cmd) => if cmd == DO then [IAC, WONT, c] else if cmd == WILL then [IAC, DONT, c] else ""
    case _ => ""
  }

  function ModeAfter(f: Flavour, m: Mode, s: string): Mode
    decreases |s|
  {
    if s == "" then m else ModeAfter(f, Next(f, m, s[0]), s[1..])
  }

  function Delivered(f: Flavour, m: Mode, s: string): string
    decreases |s|
  {
    if s == "" then "" else Emit(m, s[0]) + Delivered(f, Next(f, m, s[0]), s[1..])
  }

  function Replies(m: Mode, s: string): string
    decreases |s|
  {
    if s == "" then "" else Refusal(m, s[0]) + Replies(Next(Streaming, m, s[0]), s[1..])
  }

  lemma {:induction false} ModeConcat(f: Flavour, m: Mode, a: string, b: string)
    ensures ModeAfter(f, m, a + b) == ModeAfter(f, ModeAfter(f, m, a), b)
    ensures Delivered(f, m, a + b) == Delivered(f, m, a) + Delivered(f, ModeAfter(f, m, a), b)
    decreases |a|
  {
    if a == "" {
      assert a + b == b;
    } else {
      var m' := Next(f, m, a[0]);
      assert (a + b)[0] == a[0] && (a + b)[1..] == a[1..] + b;
      ModeConcat(f, m', a[1..], b);
      Regroup(Emit(m, a[0]), Delivered(f, m', a[1..]), Delivered(f, ModeAfter(f, m', a[1..]), b));
    }
  }

  lemma {:induction false} RepliesConcat(m: Mode, a: string, b: string)
    ensures Replies(m, a + b) == Replies(m, a) + Replies(ModeAfter(Streaming, m, a), b)
    decreases |a|
  {
    if a == "" {
      assert a + b == b;
    } else {
      assert (a + b)[1..] == a[1..] + b;
      RepliesConcat(Next(Streaming, m, a[0]), a[1..], b);
    }
  }

  /** Octets that are no IAC are data. */
  lemma {:induction false} PlainIsDelivered(s: string)
    requires IAC !in s
    ensures ModeAfter(Streaming, Plain, s) == Plain && Delivered(Streaming, Plain, s) == s && Replies(Plain, s) == ""
    decreases |s|
  {
    if s != "" {
      assert s[0] in s && forall c | c in s[1..] :: c in s;
      PlainIsDelivered(s[1..]);
    }
  }

  // ----- the streaming filter, one octet at a time -----

  /** `readByte`: the next data octet, the stream after it and the refusals written meanwhile. */
  datatype ByteRead = EndOfStream(replies: string) | Got(b: char, rest: string, replies: string)

  function ReadFrom(m: Mode, s: string, replies: string): (r: ByteRead)
    ensures r.Got? ==> |r.rest| < |s|
    decreases |s|
  {
    if s == "" then EndOfStream(replies)
    else if m == Plain && s[0] != IAC then Got(s[0], s[1..], replies)
    else ReadFrom(Next(Streaming, m, s[0]), s[1..], replies + Refusal(m, s[0]))
  }

  function ReadByte(s: string): ByteRead {
    ReadFrom(Plain, s, "")
  }

  /** Everything repeated `readByte` calls deliver before the end of input. */
  function ReadAll(s: string): string
    decreases |s|
  {
    match ReadByte(s)
    case EndOfStream(_) => ""
    case Got(b, rest, _) => [b] + ReadAll(rest)
  }

  /** Every refusal they write. */
  function RepliesOfAll(s: string): string
    decreases |s|
  {
    match ReadByte(s)
    case EndOfStream(replies) => replies
    case Got(_, rest, replies) => replies + RepliesOfAll(rest)
  }

  lemma {:induction false} ReadFromDelivers(m: Mode, s: string, sofar: string)
    ensures match ReadFrom(m, s, sofar)
      case EndOfStream(replies) => Delivered(Streaming, m, s) == "" && replies == sofar + Replies(m, s)
      case Got(b, rest, replies) =>
        && Delivered(Streaming, m, s) == [b] + Delivered(Streaming, Plain, rest)
        && sofar + Replies(m, s) == replies + Replies(Plain, rest)
    decreases |s|
  {
    if s == "" {
      assert sofar + "" == sofar;
    } else if m == Plain && s[0] != IAC {
      assert sofar + ("" + Replies(Plain, s[1..])) == sofar + Replies(Plain, s[1..]);
    } else {
      var m', r := Next(Streaming, m, s[0]), Refusal(m, s[0]);
      ReadFromDelivers(m', s[1..], sofar + r);
      Regroup(sofar, r, Replies(m', s[1..]));
      assert "" + Delivered(Streaming, m', s[1..]) == Delivered(Streaming, m', s[1..]);
    }
  }

  /** Reading octet by octet is running the parser. */
  lemma {:induction false} ReadAllIsDelivered(s: string)
    ensures ReadAll(s) == Delivered(Streaming, Plain, s)
    ensures RepliesOfAll(s) == Replies(Plain, s)
    decreases |s|
  {
    ReadFromDelivers(Plain, s, "");
    match ReadByte(s)
    case EndOfStream(_) =>
    case Got(_, rest, _) => ReadAllIsDelivered(rest);
  }

  // ----- the grammar of the stream -----

  /** A complete unit of the stream. A subnegotiation body is a sequence of single octets other
      than IAC and of pairs of an IAC and an octet other than SE. */
  datatype Token =
    | Octet(c: char)
    | Negotiation(cmd: char, opt: char)
    | Subnegotiation(body: string)
    | Other(c: char)

  /** From this mode on the octets never end the subnegotiation. */
  predicate StaysInside(m: Mode, s: string)
    decreases |s|
  {
    (m == Sub || m == SubIac) && (s == "" || StaysInside(Next(Streaming, m, s[0]), s[1..]))
  }

  predicate WellFormedBody(body: string) {
    StaysInside(Sub, body) && ModeAfter(Streaming, Sub, body) == Sub
  }

  predicate WellFormed(t: Token) {
    match t
    case Octet(c) => c != IAC
    case Negotiation(cmd, _) => IsNegotiation(cmd)
    case Subnegotiation(body) => WellFormedBody(body)
    case Other(c) => !IsNegotiation(c) && c != SB
  }

  function Unparse(t: Token): string {
    match t
    case Octet(c) => [c]
    case Negotiation(cmd, opt) => [IAC, cmd, opt]
    case Subnegotiation(body) => [IAC, SB] + body + [IAC, SE]
    case Other(c) => [IAC, c]
  }

  function UnparseAll(ts: seq<Token>): string {
    if ts == [] then "" else Unparse(ts[0]) + UnparseAll(ts[1..])
  }

  /** The data of a token list: its plain octets. */
  function DataOf(ts: seq<Token>): string {
    if ts == [] then "" else (if ts[0].Octet? then [ts[0].c] else "") + DataOf(ts[1..])
  }

  /** The refusals of a token list: one WONT per DO, one DONT per WILL, same option, same order. */
  function RefusalsOf(ts: seq<Token>): string {
    if ts == [] then ""
    else (match ts[0]
          case Negotiation(cmd, opt) =>
            if cmd == DO then [IAC, WONT, opt] else if cmd == WILL then [IAC, DONT, opt] else ""
          case _ => "") + RefusalsOf(ts[1..])
  }

  lemma {:induction false} InsideSubnegotiation(m: Mode, s: string)
    requires StaysInside(m, s)
    ensures Delivered(Streaming, m, s) == "" && Replies(m, s) == ""
    decreases |s|
  {
    if s != "" {
      InsideSubnegotiation(Next(Streaming, m, s[0]), s[1..]);
    }
  }

  lemma OneStep(f: Flavour, m: Mode, c: char)
    ensures ModeAfter(f, m, [c]) == Next(f, m, c)
    ensures Delivered(f, m, [c]) == Emit(m, c)
    ensures Replies(m, [c]) == Refusal(m, c)
  {
    assert [c][1..] == "";
    assert Emit(m, c) + "" == Emit(m, c) && Refusal(m, c) + "" == Refusal(m, c);
  }

  lemma TwoSteps(f: Flavour, m: Mode, a: char, b: char)
    ensures ModeAfter(f, m, [a, b]) == Next(f, Next(f, m, a), b)
    ensures Delivered(f, m, [a, b]) == Emit(m, a) + Emit(Next(f, m, a), b)
    ensures Replies(m, [a, b]) == Refusal(m, a) + Refusal(Next(Streaming, m, a), b)
  {
    assert [a, b] == [a] + [b];
    OneStep(f, m, a);
    OneStep(f, Next(f, m, a), b);
    OneStep(Streaming, m, a);
    OneStep(Streaming, Next(Streaming, m, a), b);
    ModeConcat(f, m, [a], [b]);
    RepliesConcat(m, [a], [b]);
  }

  lemma NegotiationIsParsed(cmd: char, opt: char)
    requires IsNegotiation(cmd)
    ensures ModeAfter(Streaming, Plain, [IAC, cmd, opt]) == Plain
    ensures Delivered(Streaming, Plain, [IAC, cmd, opt]) == ""
    ensures Replies(Plain, [IAC, cmd, opt]) == Refusal(Option(cmd), opt)
  {
    var pair := [IAC, cmd];
    assert [IAC, cmd, opt] == pair + [opt];
    TwoSteps(Streaming, Plain, IAC, cmd);
    OneStep(Streaming, Option(cmd), opt);
    ModeConcat(Streaming, Plain, pair, [opt]);
    RepliesConcat(Plain, pair, [opt]);
  }

  lemma SubnegotiationIsParsed(body: string)
    requires WellFormedBody(body)
    ensures var s := [IAC, SB] + body + [IAC, SE];
      ModeAfter(Streaming, Plain, s) == Plain && Delivered(Streaming, Plain, s) == "" && Replies(Plain, s) == ""
  {
    var head, tail := [IAC, SB], [IAC, SE];
    assert [IAC, SB] + body + [IAC, SE] == head + (body + tail);
    TwoSteps(Streaming, Plain, IAC, SB);
    TwoSteps(Streaming, Sub, IAC, SE);
    ModeConcat(Streaming, Plain, head, body + tail);
    RepliesConcat(Plain, head, body + tail);
    ModeConcat(Streaming, Sub, body, tail);
    RepliesConcat(Sub, body, tail);
    InsideSubnegotiation(Sub, body);
  }

  lemma TokenIsParsed(t: Token)
    requires WellFormed(t)
    ensures ModeAfter(Streaming, Plain, Unparse(t)) == Plain
    ensures Delivered(Streaming, Plain, Unparse(t)) == DataOf([t])
    ensures Replies(Plain, Unparse(t)) == RefusalsOf([t])
  {
    var none: seq<Token> := [];
    assert [t][1..] == none;
    match t
    case Octet(c) => OneStep(Streaming, Plain, c);
    case Negotiation(cmd, opt) => NegotiationIsParsed(cmd, opt);
    case Other(c) => TwoSteps(Streaming, Plain, IAC, c);
    case Subnegotiation(body) => SubnegotiationIsParsed(body);
  }

  /** On every list of complete units, the filter delivers exactly the plain octets and writes
      exactly the refusals. */
  lemma {:induction false} TokensAreParsed(ts: seq<Token>)
    requires forall i | 0 <= i < |ts| :: WellFormed(ts[i])
    ensures ModeAfter(Streaming, Plain, UnparseAll(ts)) == Plain
    ensures Delivered(Streaming, Plain, UnparseAll(ts)) == DataOf(ts)
    ensures Replies(Plain, UnparseAll(ts)) == RefusalsOf(ts)
  {
    if ts != [] {
      var t, rest := ts[0], UnparseAll(ts[1..]);
      TokensAreParsed(ts[1..]);
      TokenIsParsed(t);
      ModeConcat(Streaming, Plain, Unparse(t), rest);
      RepliesConcat(Plain, Unparse(t), rest);
      var none: seq<Token> := [];
      assert [t][1..] == none;
      assert DataOf([t]) + DataOf(ts[1..]) == DataOf(ts);
      assert RefusalsOf([t]) + RefusalsOf(ts[1..]) == RefusalsOf(ts);
    }
  }

  lemma {:induction false} StaysInsideConcat(m: Mode, a: string, b: string)
    ensures StaysInside(m, a + b) <==> StaysInside(m, a) && StaysInside(ModeAfter(Streaming, m, a), b)
    decreases |a|
  {
    if a == "" {
      assert a + b == b;
    } else {
      assert (a + b)[1..] == a[1..] + b;
      StaysInsideConcat(Next(Streaming, m, a[0]), a[1..], b);
    }
  }

  /** The SE that ends the subnegotiation, if there is one. */
  lemma {:induction false} FindSE(m: Mode, t: string) returns (closed: bool, e: nat)
    requires m == Sub || m == SubIac
    ensures closed ==> e < |t| && t[e] == SE && StaysInside(m, t[..e]) && ModeAfter(Streaming, m, t[..e]) == SubIac
    ensures !closed ==> StaysInside(m, t)
    decreases |t|
  {
    if t == "" {
      return false, 0;
    }
    if m == SubIac && t[0] == SE {
      return true, 0;
    }
    closed, e := FindSE(Next(Streaming, m, t[0]), t[1..]);
    e := e + 1;
    if closed {
      assert t[..e][1..] == t[1..][..e - 1];
    }
  }

  /** Before that SE stands the IAC that goes with it, and before that a well-formed body. */
  lemma BeforeSE(t: string)
    requires StaysInside(Sub, t) && ModeAfter(Streaming, Sub, t) == SubIac
    ensures t != "" && t[|t| - 1] == IAC && WellFormedBody(t[..|t| - 1])
  {
    if t != "" {
      var body, last := t[..|t| - 1], t[|t| - 1];
      assert t == body + [last];
      StaysInsideConcat(Sub, body, [last]);
      ModeConcat(Streaming, Sub, body, [last]);
      OneStep(Streaming, ModeAfter(Streaming, Sub, body), last);
    }
  }

  /** The first unit of a stream, or the discovery that it is unfinished. */
  lemma FirstToken(s: string) returns (complete: bool, t: Token)
    requires s != ""
    ensures complete ==> WellFormed(t) && Unparse(t) <= s
    ensures !complete ==> Delivered(Streaming, Plain, s) == "" && Replies(Plain, s) == ""
  {
    t := Octet(s[0]);
    if s[0] != IAC {
      complete := true;
    } else if |s| == 1 {
      OneStep(Streaming, Plain, IAC);
      assert s == [IAC];
      complete := false;
    } else if IsNegotiation(s[1]) {
      complete := |s| > 2;
      if complete {
        t := Negotiation(s[1], s[2]);
      } else {
        TwoSteps(Streaming, Plain, IAC, s[1]);
        assert s == [IAC, s[1]];
      }
    } else if s[1] == SB {
      complete, t := FirstSubnegotiation(s);
    } else {
      complete, t := true, Other(s[1]);
    }
  }

  lemma FirstSubnegotiation(s: string) returns (complete: bool, t: Token)
    requires |s| >= 2 && s[0] == IAC && s[1] == SB
    ensures complete ==> WellFormed(t) && Unparse(t) <= s
    ensures !complete ==> Delivered(Streaming, Plain, s) == "" && Replies(Plain, s) == ""
  {
    var e;
    complete, e := FindSE(Sub, s[2..]);
    t := Octet(s[0]);
    if complete {
      BeforeSE(s[2..][..e]);
      var body := s[2..][..e][..e - 1];
      t := Subnegotiation(body);
      assert s[..e + 3] == [IAC, SB] + body + [IAC, SE];
    } else {
      assert s == [IAC, SB] + s[2..];
      UnfinishedSubnegotiation(s[2..]);
    }
  }

  /** The grammar covers every stream: complete units, then an unfinished one that neither
      delivers nor provokes anything. */
  lemma {:induction false} EveryStreamIsTokens(s: string) returns (ts: seq<Token>, tail: string)
    ensures s == UnparseAll(ts) + tail
    ensures forall i | 0 <= i < |ts| :: WellFormed(ts[i])
    ensures Delivered(Streaming, Plain, tail) == "" && Replies(Plain, tail) == ""
    decreases |s|
  {
    if s == "" {
      return [], "";
    }
    var complete, t := FirstToken(s);
    if !complete {
      return [], s;
    }
    var later;
    later, tail := EveryStreamIsTokens(s[|Unparse(t)|..]);
    ts := [t] + later;
    TokenInFront(s, t, later, tail);
  }

  lemma TokenInFront(s: string, t: Token, later: seq<Token>, tail: string)
    requires Unparse(t) <= s && s[|Unparse(t)|..] == UnparseAll(later) + tail
    ensures s == UnparseAll([t] + later) + tail
  {
    var first := Unparse(t);
    assert ([t] + later)[1..] == later;
    assert first + UnparseAll(later) + tail == first + (UnparseAll(later) + tail);
    assert s == first + s[|first|..];
  }

  lemma UnfinishedSubnegotiation(t: string)
    requires StaysInside(Sub, t)
    ensures Delivered(Streaming, Plain, [IAC, SB] + t) == "" && Replies(Plain, [IAC, SB] + t) == ""
  {
    TwoSteps(Streaming, Plain, IAC, SB);
    ModeConcat(Streaming, Plain, [IAC, SB], t);
    RepliesConcat(Plain, [IAC, SB], t);
    InsideSubnegotiation(Sub, t);
  }

  /** For every stream, cut off anywhere: what is delivered are its plain octets, and the refusals
      are one WONT per DO and one DONT per WILL, with the same option and in the same order. */
  lemma RefusalIsExact(s: string) returns (ts: seq<Token>, tail: string)
    ensures s == UnparseAll(ts) + tail && forall i | 0 <= i < |ts| :: WellFormed(ts[i])
    ensures ReadAll(s) == DataOf(ts)
    ensures RepliesOfAll(s) == RefusalsOf(ts)
  {
    ts, tail := EveryStreamIsTokens(s);
    TokensAreParsed(ts);
    ModeConcat(Streaming, Plain, UnparseAll(ts), tail);
    RepliesConcat(Plain, UnparseAll(ts), tail);
    ReadAllIsDelivered(s);
  }

  /** Refusals provoke nothing: two such parsers facing each other cannot loop. */
  lemma {:induction false} RefusalsAreSilent(m: Mode, s: string)
    ensures ModeAfter(Streaming, Plain, Replies(m, s)) == Plain
    ensures Delivered(Streaming, Plain, Replies(m, s)) == ""
    ensures Replies(Plain, Replies(m, s)) == ""
    decreases |s|
  {
    if s != "" {
      var r, later := Refusal(m, s[0]), Replies(Next(Streaming, m, s[0]), s[1..]);
      RefusalsAreSilent(Next(Streaming, m, s[0]), s[1..]);
      if r == "" {
        assert r + later == later;
      } else {
        NegotiationIsParsed(r[1], r[2]);
        assert r == [IAC, r[1], r[2]];
        ModeConcat(Streaming, Plain, r, later);
        RepliesConcat(Plain, r, later);
      }
    }
  }

  // ----- the batch filter -----

  /** What is left to deliver from index `i` on; the index may have run past the end. */
  function Left(b: string, i: nat): string {
    if i <= |b| then Delivered(Batch, Plain, b[i..]) else ""
  }

  /** The index loop of `stripIAC`. */
  method StripIAC(b: string) returns (out: string)
    ensures out == Delivered(Batch, Plain, b)
  {
    out := "";
    var i := 0;
    ghost var all := Delivered(Batch, Plain, b);
    LeftAtStart(b);
    while i < |b|
      invariant out + Left(b, i) == all
    {
      out, i := StripOne(b, i, out);
    }
    LeftAtEnd(b, i);
    assert out + "" == out;
  }

  /** One round: an octet is kept, or a command is skipped; a lone IAC at the end is dropped. */
  method StripOne(b: string, at: nat, sofar: string) returns (out: string, i: nat)
    requires at < |b|
    ensures at < i && out + Left(b, i) == sofar + Left(b, at)
  {
    out, i := sofar, at;
    if b[i] != IAC {
      BatchOctet(b, i, out);
      return out + [b[i]], i + 1;
    }
    if i + 1 >= |b| {
      BatchTruncated(b, i);
      LeftAtEnd(b, |b|);
      return out, |b|;
    }
    i := SkipCommand(b, i);
    i := i + 1;
  }

  lemma LeftAtStart(b: string)
    ensures "" + Left(b, 0) == Delivered(Batch, Plain, b)
  {
    assert b[0..] == b;
  }

  lemma LeftAtEnd(b: string, i: nat)
    requires i >= |b|
    ensures Left(b, i) == ""
  {
  }

  /** The switch on the octet after an IAC: the index of the last octet of the command. */
  method SkipCommand(b: string, start: nat) returns (i: nat)
    requires start + 1 < |b| && b[start] == IAC
    ensures start < i && Left(b, start) == Left(b, i + 1)
  {
    i := start;
    if IsNegotiation(b[i + 1]) {
      BatchNegotiation(b, i);
      i := i + 2;
    } else if b[i + 1] == SB {
      BatchSubnegotiation(b, i);
      i := SkipSubnegotiation(b, i + 2);
      i := i + 1;
    } else {
      BatchOther(b, i);
      i := i + 1;
    }
  }

  /** The inner loop: the index of the IAC before the SE, or the end. */
  method SkipSubnegotiation(b: string, start: nat) returns (i: nat)
    requires start <= |b|
    ensures Delivered(Batch, Sub, b[start..]) == Left(b, i + 2)
    ensures start <= i
  {
    i := start;
    while i < |b| && !(b[i] == IAC && i + 1 < |b| && b[i + 1] == SE)
      invariant start <= i <= |b|
      invariant Delivered(Batch, Sub, b[start..]) == Delivered(Batch, Sub, b[i..])
    {
      BatchInsideAt(b, i);
      i := i + 1;
    }
    if i < |b| {
      BatchCloseAt(b, i);
    } else {
      assert b[i..] == "";
    }
  }

  lemma BatchInsideAt(b: string, i: nat)
    requires i < |b| && !(b[i] == IAC && i + 1 < |b| && b[i + 1] == SE)
    ensures Delivered(Batch, Sub, b[i..]) == Delivered(Batch, Sub, b[i + 1..])
  {
    BatchInside(b[i..]);
    assert b[i..][1..] == b[i + 1..];
  }

  lemma BatchCloseAt(b: string, i: nat)
    requires i + 1 < |b| && b[i] == IAC && b[i + 1] == SE
    ensures Delivered(Batch, Sub, b[i..]) == Left(b, i + 2)
  {
    BatchClose(b[i..]);
    assert b[i..][2..] == b[i + 2..];
  }

  lemma BatchOctet(b: string, i: nat, out: string)
    requires i < |b| && b[i] != IAC
    ensures out + Left(b, i) == out + [b[i]] + Left(b, i + 1)
  {
    assert b[i..][1..] == b[i + 1..];
    assert Left(b, i) == [b[i]] + Left(b, i + 1);
  }

  lemma BatchTruncated(b: string, i: nat)
    requires i + 1 == |b| && b[i] == IAC
    ensures Left(b, i) == ""
  {
    assert b[i..] == [IAC];
    OneStep(Batch, Plain, IAC);
  }

  lemma BatchPair(b: string, i: nat)
    requires i + 1 < |b| && b[i] == IAC
    ensures Left(b, i) == Delivered(Batch, Next(Batch, Command, b[i + 1]), b[i + 2..])
  {
    var s := b[i..];
    assert s[1..][1..] == b[i + 2..];
    assert Delivered(Batch, Plain, s) == "" + Delivered(Batch, Command, s[1..]);
    assert Delivered(Batch, Command, s[1..]) == "" + Delivered(Batch, Next(Batch, Command, b[i + 1]), b[i + 2..]);
  }

  lemma BatchNegotiation(b: string, i: nat)
    requires i + 1 < |b| && b[i] == IAC && IsNegotiation(b[i + 1])
    ensures Left(b, i) == Left(b, i + 3)
  {
    BatchPair(b, i);
    if i + 2 < |b| {
      assert b[i + 2..][1..] == b[i + 3..];
      assert Delivered(Batch, Option(b[i + 1]), b[i + 2..]) == "" + Delivered(Batch, Plain, b[i + 3..]);
    } else {
      assert b[i + 2..] == "";
    }
  }

  lemma BatchSubnegotiation(b: string, i: nat)
    requires i + 1 < |b| && b[i] == IAC && b[i + 1] == SB
    ensures Left(b, i) == Delivered(Batch, Sub, b[i + 2..])
  {
    BatchPair(b, i);
  }

  lemma BatchOther(b: string, i: nat)
    requires i + 1 < |b| && b[i] == IAC && !IsNegotiation(b[i + 1]) && b[i + 1] != SB
    ensures Left(b, i) == Left(b, i + 2)
  {
    BatchPair(b, i);
  }

  /** In a subnegotiation that does not end here, one octet can be dropped. */
  lemma BatchInside(s: string)
    requires s != "" && !(s[0] == IAC && |s| > 1 && s[1] == SE)
    ensures Delivered(Batch, Sub, s) == Delivered(Batch, Sub, s[1..])
  {
    assert Delivered(Batch, Sub, s) == "" + Delivered(Batch, Next(Batch, Sub, s[0]), s[1..]);
    if s[0] == IAC && |s| > 1 {
      var t := s[1..];
      assert Delivered(Batch, SubIac, t) == "" + Delivered(Batch, Next(Batch, SubIac, t[0]), t[1..]);
      assert Delivered(Batch, Sub, t) == "" + Delivered(Batch, Next(Batch, Sub, t[0]), t[1..]);
    }
  }

  lemma BatchClose(s: string)
    requires |s| > 1 && s[0] == IAC && s[1] == SE
    ensures Delivered(Batch, Sub, s) == Delivered(Batch, Plain, s[2..])
  {
    assert Delivered(Batch, Sub, s) == "" + Delivered(Batch, SubIac, s[1..]);
    assert s[1..][1..] == s[2..];
    assert Delivered(Batch, SubIac, s[1..]) == "" + Delivered(Batch, Plain, s[2..]);
  }

  // ----- when the two filters agree -----

  /** Inside subnegotiations no doubled IAC is directly followed by SE; `doubled` tells that the
      second IAC of a pair has just been read. */
  predicate Clean(m: Mode, doubled: bool, s: string)
    decreases |s|
  {
    s == "" || (!(doubled && s[0] == SE) && Clean(Next(Streaming, m, s[0]), m == SubIac && s[0] == IAC, s[1..]))
  }

  /** The stronger condition that no IAC is doubled inside a subnegotiation at all. */
  predicate NoDoubled(m: Mode, s: string)
    decreases |s|
  {
    s == "" || (!(m == SubIac && s[0] == IAC) && NoDoubled(Next(Streaming, m, s[0]), s[1..]))
  }

  lemma {:induction false} NoDoubledIsClean(m: Mode, s: string)
    requires NoDoubled(m, s)
    ensures Clean(m, false, s)
    decreases |s|
  {
    if s != "" {
      NoDoubledIsClean(Next(Streaming, m, s[0]), s[1..]);
    }
  }

  /** The batch parser's mode that goes with the streaming parser's. */
  function Partner(m: Mode, doubled: bool): Mode {
    if doubled then SubIac else m
  }

  lemma {:induction false} CleanKeepsStep(m: Mode, doubled: bool, s: string)
    requires doubled ==> m == Sub
    requires Clean(m, doubled, s)
    ensures Delivered(Batch, Partner(m, doubled), s) == Delivered(Streaming, m, s)
    ensures ModeAfter(Batch, Partner(m, doubled), s) == Plain <==> ModeAfter(Streaming, m, s) == Plain
    decreases |s|
  {
    if s != "" {
      CleanKeepsStep(Next(Streaming, m, s[0]), m == SubIac && s[0] == IAC, s[1..]);
    }
  }

  /** On every stream, truncated ones included, without a doubled IAC before SE in a subnegotiation
      the batch filter returns exactly what repeated `readByte` calls deliver. */
  lemma FiltersAgree(s: string)
    requires Clean(Plain, false, s)
    ensures Delivered(Batch, Plain, s) == ReadAll(s)
  {
    CleanKeepsStep(Plain, false, s);
    ReadAllIsDelivered(s);
  }

  lemma {:induction false} CleanPrefix(m: Mode, doubled: bool, s: string, k: nat)
    requires k <= |s| && Clean(m, doubled, s)
    ensures Clean(m, doubled, s[..k])
    decreases k
  {
    if k > 0 {
      assert s[..k][1..] == s[1..][..k - 1];
      CleanPrefix(Next(Streaming, m, s[0]), m == SubIac && s[0] == IAC, s[1..], k - 1);
    }
  }

  /** Where a stream stops being clean, only the batch parser has returned to data. */
  lemma {:induction false} FirstDivergence(m: Mode, doubled: bool, s: string) returns (k: nat)
    requires doubled ==> m == Sub
    requires !Clean(m, doubled, s)
    ensures k <= |s|
    ensures Delivered(Batch, Partner(m, doubled), s[..k]) == Delivered(Streaming, m, s[..k])
    ensures ModeAfter(Batch, Partner(m, doubled), s[..k]) == Plain && ModeAfter(Streaming, m, s[..k]) != Plain
    decreases |s|
  {
    if doubled && s[0] == SE {
      assert s[..1] == [SE];
      OneStep(Batch, SubIac, SE);
      OneStep(Streaming, Sub, SE);
      return 1;
    }
    k := FirstDivergence(Next(Streaming, m, s[0]), m == SubIac && s[0] == IAC, s[1..]);
    k := k + 1;
    assert s[..k][1..] == s[1..][..k - 1];
  }

  /** The filters agree on one more octet after this prefix, whatever it is. */
  ghost predicate AgreeAfter(s: string) {
    forall x: char | x != IAC :: Delivered(Batch, Plain, s + [x]) == Delivered(Streaming, Plain, s + [x])
  }

  /** The condition is exact: the filters agree however the stream is cut and continued by one
      octet if and only if the stream is clean. */
  lemma AgreementIsExact(s: string)
    ensures (forall k | 0 <= k <= |s| :: AgreeAfter(s[..k])) <==> Clean(Plain, false, s)
  {
    if Clean(Plain, false, s) {
      forall k, x: char | 0 <= k <= |s| && x != IAC
        ensures Delivered(Batch, Plain, s[..k] + [x]) == Delivered(Streaming, Plain, s[..k] + [x])
      {
        CleanPrefix(Plain, false, s, k);
        CleanKeepsStep(Plain, false, s[..k]);
        OneMore(s[..k], x);
      }
    } else {
      var k := FirstDivergence(Plain, false, s);
      OneMore(s[..k], 'A');
      assert !AgreeAfter(s[..k]);
    }
  }

  lemma OneMore(s: string, x: char)
    requires x != IAC
    ensures Delivered(Batch, Plain, s + [x])
         == Delivered(Batch, Plain, s) + (if ModeAfter(Batch, Plain, s) == Plain then [x] else "")
    ensures Delivered(Streaming, Plain, s + [x])
         == Delivered(Streaming, Plain, s) + (if ModeAfter(Streaming, Plain, s) == Plain then [x] else "")
  {
    ModeConcat(Batch, Plain, s, [x]);
    ModeConcat(Streaming, Plain, s, [x]);
    OneStep(Batch, ModeAfter(Batch, Plain, s), x);
    OneStep(Streaming, ModeAfter(Streaming, Plain, s), x);
  }

  // ----- agreement on one stream -----

  /** The modes the two parsers can be in at the same place of a stream. */
  predicate Paired(b: Mode, m: Mode) {
    b == m || m == Sub || (m == SubIac && (b == Plain || b == Command || b == SubIac))
  }

  /** No octet other than IAC stands where the batch parser, in mode `b`, is back at data and the streaming
      parser, in mode `m`, is still inside a subnegotiation. */
  predicate NothingLeaks(b: Mode, m: Mode, s: string)
    decreases |s|
  {
    s == "" || (
      && (b == Plain && m != Plain ==> s[0] == IAC)
      && NothingLeaks(Next(Batch, b, s[0]), Next(Streaming, m, s[0]), s[1..]))
  }

  lemma PairedNext(b: Mode, m: Mode, c: char)
    requires Paired(b, m)
    ensures Paired(Next(Batch, b, c), Next(Streaming, m, c))
    ensures Emit(m, c) != "" ==> b == m
    ensures Emit(b, c) != Emit(m, c) <==> b == Plain && m != Plain && c != IAC
  {
  }

  /** What leaks makes the batch filter's output longer, and nothing makes up for it. */
  lemma {:induction false} LeaksAreExtra(b: Mode, m: Mode, s: string)
    requires Paired(b, m)
    ensures NothingLeaks(b, m, s) ==> Delivered(Batch, b, s) == Delivered(Streaming, m, s)
    ensures !NothingLeaks(b, m, s) ==> |Delivered(Batch, b, s)| > |Delivered(Streaming, m, s)|
    decreases |s|
  {
    if s != "" {
      PairedNext(b, m, s[0]);
      LeaksAreExtra(Next(Batch, b, s[0]), Next(Streaming, m, s[0]), s[1..]);
    }
  }

  /** On one stream, truncated or not, the batch filter returns what repeated `readByte` calls deliver if
      and only if nothing leaks. */
  lemma FiltersAgreeExactly(s: string)
    ensures Delivered(Batch, Plain, s) == ReadAll(s) <==> NothingLeaks(Plain, Plain, s)
  {
    LeaksAreExtra(Plain, Plain, s);
    ReadAllIsDelivered(s);
  }

  /** Outside the condition they can differ: after a doubled IAC and SE, only the batch filter
      takes the next octet for data. */
  lemma FiltersCanDisagree()
    ensures var s := [IAC, SB, IAC, IAC, SE, 'A'];
      Delivered(Batch, Plain, s) == "A" && ReadAll(s) == ""
  {
    var open, pair := [IAC, SB], [IAC, IAC];
    var s := open + pair + [SE];
    assert [IAC, SB, IAC, IAC, SE, 'A'] == s + ['A'];
    StepsOfExample(Batch);
    StepsOfExample(Streaming);
    OneMore(s, 'A');
    ReadAllIsDelivered(s + ['A']);
  }

  lemma StepsOfExample(f: Flavour)
    ensures var s := [IAC, SB] + [IAC, IAC] + [SE];
      ModeAfter(f, Plain, s) == (if f == Batch then Plain else Sub) && Delivered(f, Plain, s) == ""
  {
    var open, pair := [IAC, SB], [IAC, IAC];
    TwoSteps(f, Plain, IAC, SB);
    TwoSteps(f, Sub, IAC, IAC);
    OneStep(f, if f == Batch then SubIac else Sub, SE);
    ModeConcat(f, Plain, open, pair);
    ModeConcat(f, Plain, open + pair, [SE]);
  }
}

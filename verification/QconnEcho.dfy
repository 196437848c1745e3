/** What the client reads when the daemon echoes a path (internal/mockqnx/server.go:192,
    internal/qconn/framing.go:86-193): the telnet filter works on the echo like on everything else, so a path
    with telnet commands in it comes back changed. */
module QconnEcho {
  import opened Sequences
  import opened Telnet
  import opened QconnText
  import opened QconnFraming
  import opened QconnReplies

  // ----- reading on from inside a telnet command -----

  function UntilPromptFrom(m: Mode, s: string, acc: string, replies: string): PromptRead {
    Continue(ReadFrom(m, s, ""), acc, replies)
  }

  /** The search after its next octet was read. */
  function Continue(next: ByteRead, acc: string, replies: string): PromptRead {
    match next
    case EndOfStream(r) => Ended(acc, replies + r)
    case Got(b, rest, r) =>
      var text := acc + [b];
      if AtPrompt(text) then Found(text[..|text| - PromptLength(text)], rest, replies + r)
      else UntilPrompt(rest, text, replies + r)
  }

  lemma {:induction false} RefusalsAddUp(m: Mode, s: string, a: string, b: string)
    ensures ReadFrom(m, s, a + b) == ReadFrom(m, s, b).(replies := a + ReadFrom(m, s, b).replies)
    decreases |s|
  {
    if s != "" && !(m == Plain && s[0] != IAC) {
      var r := Refusal(m, s[0]);
      assert a + b + r == a + (b + r);
      RefusalsAddUp(Next(Streaming, m, s[0]), s[1..], a, b + r);
    }
  }

  lemma FromPlain(s: string, acc: string, replies: string)
    ensures UntilPrompt(s, acc, replies) == UntilPromptFrom(Plain, s, acc, replies)
  {
  }

  /** What one octet does: data that complete a prompt end the reading. */
  function AfterOctet(m: Mode, s: string, acc: string, replies: string): PromptRead
    requires s != ""
  {
    var text := acc + Emit(m, s[0]);
    if text != acc && AtPrompt(text) then Found(text[..|text| - PromptLength(text)], s[1..], replies)
    else UntilPromptFrom(Next(Streaming, m, s[0]), s[1..], text, replies + Refusal(m, s[0]))
  }

  lemma UntilPromptOctet(m: Mode, s: string, acc: string, replies: string)
    requires s != ""
    ensures UntilPromptFrom(m, s, acc, replies) == AfterOctet(m, s, acc, replies)
  {
    if m == Plain && s[0] != IAC {
      assert replies + "" == replies && acc + [s[0]] != acc;
      FromPlain(s[1..], acc + [s[0]], replies);
    } else {
      CommandOctet(m, s, acc, replies);
    }
  }

  lemma CommandOctet(m: Mode, s: string, acc: string, replies: string)
    requires s != "" && !(m == Plain && s[0] != IAC)
    ensures UntilPromptFrom(m, s, acc, replies) ==
      UntilPromptFrom(Next(Streaming, m, s[0]), s[1..], acc + Emit(m, s[0]), replies + Refusal(m, s[0]))
  {
    var m', r := Next(Streaming, m, s[0]), Refusal(m, s[0]);
    assert "" + r == r == r + "" && acc + "" == acc;
    RefusalsAddUp(m', s[1..], r, "");
    RefusalInFront(ReadFrom(m', s[1..], ""), r, acc, replies);
  }

  lemma RefusalInFront(next: ByteRead, r: string, acc: string, replies: string)
    ensures Continue(next.(replies := r + next.replies), acc, replies) == Continue(next, acc, replies + r)
  {
    Regroup(replies, r, next.replies);
  }

  /** Octets whose data complete no prompt are read over. */
  lemma {:induction false} ReadOver(m: Mode, a: string, rest: string, acc: string, replies: string)
    requires NoPrompt(acc + Delivered(Streaming, m, a))
    ensures UntilPromptFrom(m, a + rest, acc, replies) ==
      UntilPromptFrom(ModeAfter(Streaming, m, a), rest, acc + Delivered(Streaming, m, a), replies + Replies(m, a))
    decreases |a|
  {
    if a == "" {
      assert a + rest == rest && acc + "" == acc && replies + "" == replies;
    } else {
      var m', text, r := Next(Streaming, m, a[0]), acc + Emit(m, a[0]), replies + Refusal(m, a[0]);
      var later := Delivered(Streaming, m', a[1..]);
      assert (a + rest)[0] == a[0] && (a + rest)[1..] == a[1..] + rest;
      Regroup(acc, Emit(m, a[0]), later);
      Regroup(replies, Refusal(m, a[0]), Replies(m', a[1..]));
      assert (text + later)[..|text|] == text;
      UntilPromptOctet(m, a + rest, acc, replies);
      ReadOver(m', a[1..], rest, text, r);
    }
  }

  /** A prompt among their data stops the reading there. */
  lemma {:induction false} ReadInto(m: Mode, a: string, rest: string, acc: string, replies: string)
    returns (text: string, left: string, r: string)
    requires NoPrompt(acc) && !NoPrompt(acc + Delivered(Streaming, m, a))
    ensures UntilPromptFrom(m, a + rest, acc, replies) == Found(text, left + rest, r)
    ensures text <= acc + Delivered(Streaming, m, a)
    decreases |a|
  {
    assert acc + "" == acc;
    var m', t := Next(Streaming, m, a[0]), acc + Emit(m, a[0]);
    var later := Delivered(Streaming, m', a[1..]);
    assert (a + rest)[0] == a[0] && (a + rest)[1..] == a[1..] + rest;
    assert acc + (Emit(m, a[0]) + later) == t + later;
    UntilPromptOctet(m, a + rest, acc, replies);
    if t != acc && AtPrompt(t) {
      text, left, r := t[..|t| - PromptLength(t)], a[1..], replies;
    } else {
      if t != acc {
        NoPromptExtends(acc, a[0]);
      }
      text, left, r := ReadInto(m', a[1..], rest, t, replies + Refusal(m, a[0]));
    }
  }

  /** A prompt that was found is found whatever follows. */
  lemma {:induction false} FoundWhateverFollows(s: string, acc: string, replies: string, more: string)
    requires UntilPrompt(s, acc, replies).Found?
    ensures var r := UntilPrompt(s, acc, replies);
      UntilPrompt(s + more, acc, replies) == Found(r.text, r.rest + more, r.replies)
    decreases |s|
  {
    GotWhateverFollows(Plain, s, "", more);
    var Got(b, rest, r) := ReadByte(s);
    if !AtPrompt(acc + [b]) {
      FoundWhateverFollows(rest, acc + [b], replies + r, more);
    }
  }

  lemma {:induction false} GotWhateverFollows(m: Mode, s: string, replies: string, more: string)
    requires ReadFrom(m, s, replies).Got?
    ensures var r := ReadFrom(m, s, replies);
      ReadFrom(m, s + more, replies) == Got(r.b, r.rest + more, r.replies)
    decreases |s|
  {
    assert (s + more)[0] == s[0] && (s + more)[1..] == s[1..] + more;
    if !(m == Plain && s[0] != IAC) {
      GotWhateverFollows(Next(Streaming, m, s[0]), s[1..], replies + Refusal(m, s[0]), more);
    }
  }

  // ----- the echo -----

  /** The path as the client hears it, and where in a telnet command it ends. */
  function Heard(path: string): string {
    Delivered(Streaming, Plain, path)
  }

  function EchoMode(path: string): Mode {
    ModeAfter(Streaming, Plain, path)
  }

  /** What the client answers to the telnet commands in an echo. The quote after the path may complete one. */
  function EchoReplies(path: string): string {
    Replies(Plain, path + "\"")
  }

  /** A subnegotiation in the path is still open at its end, and takes the rest of the response with it. */
  predicate Swallows(path: string) {
    EchoMode(path) == Sub || EchoMode(path) == SubIac
  }

  /** The closing quote is heard unless it is part of a telnet command. */
  function HeardQuote(path: string): string {
    if EchoMode(path) == Plain then "\"" else ""
  }

  /** A path without the octet 255 is heard as it is. */
  lemma PlainPathIsHeard(path: string)
    requires IAC !in path
    ensures Heard(path) == path && EchoMode(path) == Plain && EchoReplies(path) == ""
  {
    PlainIsDelivered(path);
    PlainIsDelivered(path + "\"");
  }

  lemma {:induction false} DataIsFromStream(m: Mode, s: string)
    ensures IAC !in Delivered(Streaming, m, s)
    ensures forall c | c in Delivered(Streaming, m, s) :: c in s
    decreases |s|
  {
    if s != "" {
      DataIsFromStream(Next(Streaming, m, s[0]), s[1..]);
    }
  }

  /** The head of an answer: plain text that ends in a quote. */
  predicate IsHead(head: string) {
    && |head| > 2 && head[0] == 'o' && head[|head| - 1] == '"'
    && '\n' !in head && '>' !in head && IAC !in head
  }

  lemma HeadThenHeard(head: string, path: string)
    requires IsHead(head)
    ensures NoPrompt(head)
    ensures NoPrompt(head + Heard(path)) <==> NoPrompt(Heard(path))
  {
    var heard := Heard(path);
    DataIsFromStream(Plain, path);
    QuietWithoutPromptEnd(head);
    if NoPrompt(heard) {
      QuietConcat(head, heard);
    } else {
      var k :| 0 <= k <= |heard| && AtPrompt(heard[..k]);
      assert (head + heard)[..|head| + k] == head + heard[..k];
      PromptBehind(head, heard[..k]);
    }
  }

  lemma HeadIsReadOver(head: string, s: string)
    requires IsHead(head)
    ensures UntilPrompt(head + s, "", "") == UntilPromptFrom(Plain, s, head, "")
  {
    QuietWithoutPromptEnd(head);
    FromPlain(head + s, "", "");
    assert "" + head == head;
    PlainIsReadOver(head, s, "", "");
  }

  lemma PlainIsReadOver(a: string, rest: string, acc: string, replies: string)
    requires IAC !in a && NoPrompt(acc + a)
    ensures UntilPromptFrom(Plain, a + rest, acc, replies) == UntilPromptFrom(Plain, rest, acc + a, replies)
  {
    PlainIsDelivered(a);
    assert replies + "" == replies;
    ReadOver(Plain, a, rest, acc, replies);
  }

  /** An echo with a prompt in it is read up to that prompt. */
  lemma EchoIsCut(head: string, path: string, tail: string) returns (text: string, rest: string, replies: string)
    requires IsHead(head) && !NoPrompt(Heard(path)) && tail != ""
    ensures UntilPrompt(head + path + tail, "", "") == Found(text, rest, replies)
    ensures text <= head + Heard(path) && rest != ""
  {
    HeadThenHeard(head, path);
    Regroup(head, path, tail);
    HeadIsReadOver(head, path + tail);
    var left;
    text, left, replies := ReadInto(Plain, path, tail, head, "");
    rest := left + tail;
  }

  /** Any other echo is read over, and so is the quote after it. */
  lemma EchoIsReadOver(head: string, path: string, rest: string)
    requires IsHead(head) && NoPrompt(Heard(path))
    ensures Quiet(head + Heard(path) + HeardQuote(path))
    ensures UntilPrompt(head + path + "\"" + rest, "", "") ==
      UntilPromptFrom(if Swallows(path) then Sub else Plain, rest, head + Heard(path) + HeardQuote(path),
                      EchoReplies(path))
  {
    var heard := head + Heard(path);
    HeadThenHeard(head, path);
    DataIsFromStream(Plain, path);
    Regroup(head + path, "\"", rest);
    Regroup(head, path, "\"" + rest);
    HeadIsReadOver(head, path + ("\"" + rest));
    ReadOver(Plain, path, "\"" + rest, head, "");
    assert "" + Replies(Plain, path) == Replies(Plain, path);
    QuoteIsQuiet(heard, HeardQuote(path));
    QuoteIsReadOver(path, rest, heard);
  }

  lemma QuoteIsReadOver(path: string, rest: string, heard: string)
    requires NoPrompt(heard + HeardQuote(path))
    ensures UntilPromptFrom(EchoMode(path), "\"" + rest, heard, Replies(Plain, path)) ==
      UntilPromptFrom(if Swallows(path) then Sub else Plain, rest, heard + HeardQuote(path), EchoReplies(path))
  {
    var m := EchoMode(path);
    OneStep(Streaming, m, '"');
    ReadOver(m, "\"", rest, heard, Replies(Plain, path));
    RepliesConcat(Plain, path, "\"");
  }

  lemma QuoteIsQuiet(a: string, b: string)
    requires Quiet(a) && (b == "" || b == "\"")
    ensures Quiet(a + b)
  {
    if b == "" {
      assert a + b == a;
    } else {
      QuietThenPlain(a, b);
    }
  }

  lemma QuietThenPlain(a: string, b: string)
    requires Quiet(a) && '>' !in b && IAC !in b
    ensures Quiet(a + b)
  {
    var t := a + b;
    forall k | 0 <= k <= |t|
      ensures !AtPrompt(t[..k])
    {
      if k <= |a| {
        assert t[..k] == a[..k];
      } else {
        assert t[..k][k - 1] == b[k - 1 - |a|];
        NotAtPrompt(t[..k]);
      }
    }
  }

  /** The whole of an answer with an echo in it. */
  lemma EchoIsRead(head: string, path: string, svc: Service)
    requires IsHead(head) && NoPrompt(Heard(path))
    ensures UntilPrompt(head + path + "\"" + ("\r\n" + Prompt(svc)), "", "") ==
      var text := head + Heard(path) + HeardQuote(path);
      if Swallows(path) then Ended(text, EchoReplies(path)) else Found(text + "\r\n", "", EchoReplies(path))
  {
    var text, rest := head + Heard(path) + HeardQuote(path), "\r\n" + Prompt(svc);
    EchoIsReadOver(head, path, rest);
    PromptShape(svc);
    if Swallows(path) {
      RestIsSwallowed(rest, text, EchoReplies(path));
    } else {
      PromptIsReached(text, svc, EchoReplies(path));
    }
  }

  lemma RestIsSwallowed(rest: string, text: string, replies: string)
    requires IAC !in rest && NoPrompt(text)
    ensures UntilPromptFrom(Sub, rest, text, replies) == Ended(text, replies)
  {
    StaysInSub(rest);
    assert rest + "" == rest && text + "" == text && replies + "" == replies;
    ReadOver(Sub, rest, "", text, replies);
  }

  lemma {:induction false} StaysInSub(s: string)
    requires IAC !in s
    ensures ModeAfter(Streaming, Sub, s) == Sub && Delivered(Streaming, Sub, s) == "" && Replies(Sub, s) == ""
    decreases |s|
  {
    if s != "" {
      assert s[0] in s && forall c | c in s[1..] :: c in s;
      StaysInSub(s[1..]);
    }
  }

  lemma PromptIsReached(text: string, svc: Service, replies: string)
    requires Quiet(text)
    ensures UntilPromptFrom(Plain, "\r\n" + Prompt(svc), text, replies) == Found(text + "\r\n", "", replies)
  {
    var t := text + "\r\n";
    QuietThenPlain(text, "\r\n");
    PlainIsReadOver("\r\n", Prompt(svc), text, replies);
    PromptAfterText(t, svc, replies);
  }

  lemma PromptAfterText(t: string, svc: Service, replies: string)
    requires Quiet(t)
    ensures UntilPromptFrom(Plain, Prompt(svc), t, replies) == Found(t, "", replies)
  {
    var p := Prompt(svc);
    var q := p[..|p| - 1];
    PromptShape(svc);
    PromptIsRecognised(t, svc);
    assert p == q + ">";
    Regroup(t, q, ">");
    QuietThenPlain(t, q);
    PlainIsReadOver(q, ">", t, replies);
    PromptEnd(t, q, replies);
  }

  lemma PromptEnd(t: string, q: string, replies: string)
    requires AtPrompt(t + q + ">") && PromptLength(t + q + ">") == |q| + 1
    ensures UntilPromptFrom(Plain, ">", t + q, replies) == Found(t, "", replies)
  {
    UntilPromptOctet(Plain, ">", t + q, replies);
    assert (t + q + ">")[..|t|] == t && ">"[1..] == "";
  }
}

/** Whether buffering shows: after a prompt the client drops only the blanks that happen to be
    buffered already (internal/qconn/framing.go:174-186), and trims the rest from the next
    response. */
module QconnBuffering {
  import opened Telnet
  import opened QconnText
  import opened QconnFraming
  import opened QconnReplies

  predicate IsBlank(c: char) {
    c == ' ' || c == '\t'
  }

  predicate AllBlank(s: string) {
    forall i | 0 <= i < |s| :: IsBlank(s[i])
  }

  predicate AllSpaces(s: string) {
    forall i | 0 <= i < |s| :: s[i] == ' '
  }

  // ----- a blank in front of a response -----

  function Prepend(run: string, r: PromptRead): PromptRead {
    r.(text := run + r.text)
  }

  lemma {:induction false} BlankBeforePrompt(c: char, s: string, acc: string, replies: string)
    requires IsBlank(c)
    ensures UntilPrompt(s, [c] + acc, replies) == Prepend([c], UntilPrompt(s, acc, replies))
    decreases |s|
  {
    match ReadByte(s)
    case EndOfStream(_) =>
    case Got(b, rest, r) =>
      var text := acc + [b];
      assert [c] + acc + [b] == [c] + text;
      BlankIsInNoPrompt(c, text);
      if AtPrompt(text) {
        var n := PromptLength(text);
        assert ([c] + text)[..|text| + 1 - n] == [c] + text[..|text| - n];
      } else {
        BlankBeforePrompt(c, rest, text, replies + r);
      }
  }

  lemma BlankIsInNoPrompt(c: char, text: string)
    requires IsBlank(c) && text != ""
    ensures AtPrompt([c] + text) == AtPrompt(text)
    ensures PromptLength([c] + text) == PromptLength(text)
  {
    if AtPrompt(text) {
      PromptBehind([c], text);
    } else if AtPrompt([c] + text) {
      PromptStopsAt([c], text);
    }
  }

  lemma {:induction false} BlankBeforeNewline(c: char, s: string, acc: string, replies: string)
    ensures UntilNewline(s, [c] + acc, replies) == Prepend([c], UntilNewline(s, acc, replies))
    decreases |s|
  {
    match ReadByte(s)
    case EndOfStream(_) =>
    case Got(b, rest, r) =>
      assert [c] + acc + [b] == [c] + (acc + [b]);
      if b != '\n' {
        BlankBeforeNewline(c, rest, acc + [b], replies + r);
      }
  }

  /** Blanks in front of a response end up in front of its text, and nowhere else. */
  lemma {:induction false} BlanksBeforeResponse(run: string, s: string)
    requires AllBlank(run)
    ensures UntilPrompt(run + s, "", "") == Prepend(run, UntilPrompt(s, "", ""))
    ensures UntilNewline(run + s, "", "") == Prepend(run, UntilNewline(s, "", ""))
  {
    if run == "" {
      assert run + s == s;
      assert "" + UntilPrompt(s, "", "").text == UntilPrompt(s, "", "").text;
      assert "" + UntilNewline(s, "", "").text == UntilNewline(s, "", "").text;
    } else {
      var c, later := run[0], run[1..] + s;
      BlanksBeforeResponse(run[1..], s);
      assert (run + s)[0] == c && (run + s)[1..] == later;
      assert ReadByte(run + s) == Got(c, later, "");
      assert "" + "" == "" && "" + [c] == [c] + "";
      NoPromptInShort([c]);
      assert [c][..1] == [c];
      BlankBeforePrompt(c, later, "", "");
      BlankBeforeNewline(c, later, "", "");
      assert forall t: string :: [c] + (run[1..] + t) == run + t;
    }
  }

  // ----- reading a response -----

  /** What the client waits for: text up to a prompt, or a status line and as many raw octets. */
  datatype Wait = ForPrompt | ForLine(payload: nat)

  datatype Outcome = Failed | Response(text: string, payload: string)

  /** The response and the stream after it, before any blanks are dropped. */
  datatype Reading = Reading(outcome: Outcome, rest: string)

  /** The input ends before the response does. */
  predicate IsCut(s: string, w: Wait) {
    match w
    case ForPrompt => UntilPrompt(s, "", "").Ended?
    case ForLine(n) => UntilNewline(s, "", "").Ended? || |UntilNewline(s, "", "").rest| < n
  }

  /** A line or payload that is cut off is a failure. Text that is cut off before its prompt is a response,
      not trimmed, unless there is none. */
  function Read(s: string, w: Wait): Reading {
    match w
    case ForPrompt =>
      (match UntilPrompt(s, "", "")
       case Ended(text, _) => Reading(if text == "" then Failed else Response(text, ""), "")
       case Found(text, rest, _) => Reading(Response(TrimLeft(text), ""), rest))
    case ForLine(n) =>
      match UntilNewline(s, "", "")
      case Ended(_, _) => Reading(Failed, "")
      case Found(raw, rest, _) =>
        if n <= |rest| then Reading(Response(CleanLine(raw), rest[..n]), rest[n..]) else Reading(Failed, "")
  }

  /** The stream after a prompt of which `buffered` octets are buffered. */
  function Drained(rest: string, w: Wait, buffered: nat): string {
    if w == ForPrompt then rest[if buffered < BlankRun(rest) then buffered else BlankRun(rest)..] else rest
  }

  /** Whatever is buffered, some blanks are dropped, and any number of them may be. */
  lemma DrainsSomeBlanks(rest: string, left: string)
    ensures IsDrained(rest, left) <==> exists buffered: nat :: left == Drained(rest, ForPrompt, buffered)
  {
    if drained :| 0 <= drained <= BlankRun(rest) && left == rest[drained..] {
      assert left == Drained(rest, ForPrompt, drained);
    }
  }

  /** This is what the client's loop returns and leaves. */
  lemma ReadIsResponse(s: string, text: string, ok: bool, left: string)
    ensures IsResponse(s, text, ok, left) <==>
      && Read(s, ForPrompt).outcome == (if ok then Response(text, "") else Failed)
      && (ok || text == "")
      && IsDrained(Read(s, ForPrompt).rest, left)
  {
    NothingToDrain(left);
  }

  lemma NothingToDrain(left: string)
    ensures IsDrained("", left) <==> left == ""
  {
    assert ""[0..] == "";
  }

  /** A whole conversation: one outcome per wait, with some number of octets buffered each time. */
  function Conversation(s: string, waits: seq<Wait>, buffered: seq<nat>): (outcomes: seq<Outcome>)
    requires |buffered| == |waits|
    ensures |outcomes| == |waits|
    decreases |waits|
  {
    if waits == [] then []
    else
      var r := Read(s, waits[0]);
      [r.outcome] + Conversation(Drained(r.rest, waits[0], buffered[0]), waits[1..], buffered[1..])
  }

  lemma {:induction false} TrimLeftSpaces(run: string, t: string)
    requires AllSpaces(run)
    ensures TrimLeft(run + t) == TrimLeft(t)
  {
    if run == "" {
      assert run + t == t;
    } else {
      assert (run + t)[1..] == run[1..] + t;
      TrimLeftSpaces(run[1..], t);
    }
  }

  lemma {:induction false} TrimRightKeepsBlanks(run: string, t: string)
    requires AllBlank(run)
    ensures TrimRightCR(run + t) == run + TrimRightCR(t)
    decreases |t|
  {
    if t == "" {
      assert run + t == run;
    } else {
      assert (run + t)[..|run + t| - 1] == run + t[..|t| - 1];
      TrimRightKeepsBlanks(run, t[..|t| - 1]);
    }
  }

  // ----- one response -----

  /** The blanks in front of the next response are none that can show: no tab if it is complete, and none at
      all in front of text that is cut off. */
  predicate Harmless(rest: string, w: Wait) {
    var run := rest[..BlankRun(rest)];
    if !IsCut(rest, w) then AllSpaces(run) else w.ForLine? || run == ""
  }

  /** Blanks in front of a stream go to the text of the response: what follows it is the same. */
  lemma BlanksChangeTextOnly(run: string, s: string, w: Wait)
    requires AllBlank(run)
    ensures Read(run + s, w).rest == Read(s, w).rest && IsCut(run + s, w) == IsCut(s, w)
  {
    BlanksBeforeResponse(run, s);
  }

  /** Spaces in front make no difference to a complete response, blanks none to one that fails. */
  lemma SpacesAreTrimmed(run: string, s: string, w: Wait)
    requires AllBlank(run)
    requires if !IsCut(s, w) then AllSpaces(run) else w.ForLine?
    ensures Read(run + s, w) == Read(s, w)
  {
    BlanksBeforeResponse(run, s);
    match w
    case ForPrompt =>
      TrimLeftSpaces(run, UntilPrompt(s, "", "").text);
    case ForLine(_) =>
      if !IsCut(s, w) {
        var raw := UntilNewline(s, "", "").text;
        TrimRightKeepsBlanks(run, raw);
        TrimLeftSpaces(run, TrimRightCR(raw));
      }
  }

  lemma {:induction false} TrimLeftStopsAtTab(run: string, t: string)
    requires AllBlank(run) && !AllSpaces(run)
    ensures |TrimLeft(run + t)| > |t|
  {
    if run[0] == ' ' {
      assert (run + t)[1..] == run[1..] + t;
      assert !AllSpaces(run[1..]) by {
        var i :| 0 <= i < |run| && run[i] != ' ';
        assert run[1..][i - 1] == run[i];
      }
      TrimLeftStopsAtTab(run[1..], t);
    }
  }

  lemma {:induction false} TrimLeftShortens(t: string)
    ensures |TrimLeft(t)| <= |t|
  {
    if t != "" && t[0] == ' ' {
      TrimLeftShortens(t[1..]);
    }
  }

  /** A tab in front of a complete response, or any blank in front of text that is cut off, shows. */
  lemma OtherBlanksShow(run: string, s: string, w: Wait)
    requires AllBlank(run)
    requires if !IsCut(s, w) then !AllSpaces(run) else w.ForPrompt? && run != ""
    ensures Read(run + s, w).outcome != Read(s, w).outcome
  {
    BlanksBeforeResponse(run, s);
    match w
    case ForPrompt =>
      var t := UntilPrompt(s, "", "").text;
      if IsCut(s, w) {
        assert |run + t| > |t|;
      } else {
        TrimLeftStopsAtTab(run, t);
        TrimLeftShortens(t);
      }
    case ForLine(_) =>
      var t := TrimRightCR(UntilNewline(s, "", "").text);
      TrimRightKeepsBlanks(run, UntilNewline(s, "", "").text);
      TrimLeftStopsAtTab(run, t);
      TrimLeftShortens(t);
  }

  /** The stream in two: the blanks at its front, of which some are dropped, and the rest. */
  lemma DrainedInTwo(rest: string, buffered: nat) returns (run: string, left: string, core: string)
    ensures run == rest[..BlankRun(rest)] && rest == run + core && AllBlank(run)
    ensures Drained(rest, ForPrompt, buffered) == left + core && AllBlank(left)
    ensures AllSpaces(run) ==> AllSpaces(left)
    ensures run == "" ==> left == ""
    ensures buffered == BlankRun(rest) ==> left == ""
  {
    var n := BlankRun(rest);
    var d := if buffered < n then buffered else n;
    run, left, core := rest[..n], rest[d..n], rest[n..];
    assert rest[d..] == left + core;
  }

  /** For every stream after a prompt, complete or not: the next response is independent of buffering if
      and only if the blanks between the two are harmless. */
  lemma BlanksShowExactly(rest: string, w: Wait)
    ensures Harmless(rest, w) <==>
      forall buffered: nat :: Read(Drained(rest, ForPrompt, buffered), w) == Read(rest, w)
  {
    if Harmless(rest, w) {
      forall buffered: nat
        ensures Read(Drained(rest, ForPrompt, buffered), w) == Read(rest, w)
      {
        HarmlessIsInvisible(rest, w, buffered);
      }
    } else {
      HarmShows(rest, w);
    }
  }

  lemma HarmlessIsInvisible(rest: string, w: Wait, buffered: nat)
    requires Harmless(rest, w)
    ensures Read(Drained(rest, ForPrompt, buffered), w) == Read(rest, w)
  {
    var run, left, core := DrainedInTwo(rest, buffered);
    BlanksChangeTextOnly(run, core, w);
    if run == "" {
      assert rest == core == left + core;
    } else {
      SpacesAreTrimmed(run, core, w);
      SpacesAreTrimmed(left, core, w);
    }
  }

  lemma HarmShows(rest: string, w: Wait)
    requires !Harmless(rest, w)
    ensures Read(Drained(rest, ForPrompt, BlankRun(rest)), w).outcome != Read(rest, w).outcome
  {
    var run, left, core := DrainedInTwo(rest, BlankRun(rest));
    assert left + core == core;
    BlanksChangeTextOnly(run, core, w);
    OtherBlanksShow(run, core, w);
  }

  lemma DrainKeepsRest(rest: string, previous: Wait, buffered: nat, w: Wait)
    ensures Read(Drained(rest, previous, buffered), w).rest == Read(rest, w).rest
  {
    if previous == ForPrompt {
      var run, left, core := DrainedInTwo(rest, buffered);
      BlanksChangeTextOnly(run, core, w);
      BlanksChangeTextOnly(left, core, w);
    }
  }

  // ----- whole conversations -----

  /** Behind every prompt of the conversation the blanks are harmless to the response that follows. */
  predicate Settled(s: string, waits: seq<Wait>)
    decreases |waits|
  {
    |waits| >= 2 ==>
      var rest := Read(s, waits[0]).rest;
      (waits[0] == ForPrompt ==> Harmless(rest, waits[1])) && Settled(rest, waits[1..])
  }

  /** Every response of a conversation is the same however much was buffered at each prompt, if and only if
      all blanks behind its prompts are harmless. */
  lemma BufferingIsInvisible(s: string, waits: seq<Wait>)
    ensures Settled(s, waits) <==>
      forall b: seq<nat>, b': seq<nat> | |b| == |b'| == |waits| ::
        Conversation(s, waits, b) == Conversation(s, waits, b')
  {
    if Settled(s, waits) {
      forall b: seq<nat>, b': seq<nat> | |b| == |b'| == |waits|
        ensures Conversation(s, waits, b) == Conversation(s, waits, b')
      {
        SettledIsInvisible(s, ForLine(0), 0, waits, b, b');
      }
    } else {
      var b, b' := UnsettledShows(s, waits);
    }
  }

  lemma {:induction false} SettledIsInvisible(s: string, previous: Wait, buffered: nat, waits: seq<Wait>,
                                              b: seq<nat>, b': seq<nat>)
    requires |b| == |b'| == |waits| && Settled(s, waits)
    requires previous == ForPrompt && waits != [] ==> Harmless(s, waits[0])
    ensures Conversation(Drained(s, previous, buffered), waits, b) == Conversation(s, waits, b')
    decreases |waits|
  {
    if waits != [] {
      var w, rest := waits[0], Read(s, waits[0]).rest;
      DrainKeepsRest(s, previous, buffered, w);
      if previous == ForPrompt {
        HarmlessIsInvisible(s, w, buffered);
      }
      SettledIsInvisible(rest, w, b[0], waits[1..], b[1..], b'[1..]);
      SettledIsInvisible(rest, w, b'[0], waits[1..], b'[1..], b'[1..]);
    }
  }

  function NothingBuffered(n: nat): (b: seq<nat>)
    ensures |b| == n
  {
    seq<nat>(n, i => 0)
  }

  lemma {:induction false} UnsettledShows(s: string, waits: seq<Wait>) returns (b: seq<nat>, b': seq<nat>)
    requires !Settled(s, waits)
    ensures |b| == |b'| == |waits| && Conversation(s, waits, b) != Conversation(s, waits, b')
    decreases |waits|
  {
    var w, rest := waits[0], Read(s, waits[0]).rest;
    assert Drained(rest, w, 0) == rest;
    if w == ForPrompt && !Harmless(rest, waits[1]) {
      var none := NothingBuffered(|waits| - 1);
      b, b' := [BlankRun(rest)] + none, [0] + none;
      HarmShows(rest, waits[1]);
      assert b[1..] == none && b'[1..] == none;
      assert Conversation(s, waits, b)[1] == Read(Drained(rest, w, b[0]), waits[1]).outcome;
      assert Conversation(s, waits, b')[1] == Read(rest, waits[1]).outcome;
    } else {
      var c, c' := UnsettledShows(rest, waits[1..]);
      b, b' := [0] + c, [0] + c';
      assert b[1..] == c && b'[1..] == c';
      assert Conversation(s, waits, b)[1..] == Conversation(rest, waits[1..], c);
      assert Conversation(s, waits, b')[1..] == Conversation(rest, waits[1..], c');
    }
  }

  /** Without a tab in sight: a prompt, then a space and a text such as `x`, then the end of input. */
  lemma CutOffTextShowsBuffering(svc: Service, t: string, s: string)
    requires t != "" && IAC !in t && '>' !in t && BlankRun(t) == 0
    requires s == Prompt(svc) + (" " + t)
    ensures Conversation(s, [ForPrompt, ForPrompt], [0, 0])[1] == Response(" " + t, "")
    ensures Conversation(s, [ForPrompt, ForPrompt], [1, 0])[1] == Response(t, "")
  {
    var rest := " " + t;
    QuietWithoutPromptEnd("");
    ReadQuiet("", svc, rest);
    assert "" + Prompt(svc) + rest == s;
    assert rest[1..] == t && BlankRun(rest) == 1;
    CutOffText(rest);
    CutOffText(t);
    SecondResponse(s, rest, 0, rest);
    SecondResponse(s, rest, 1, t);
  }

  lemma SecondResponse(s: string, rest: string, buffered: nat, text: string)
    requires Read(s, ForPrompt).rest == rest && Drained(rest, ForPrompt, buffered) == text
    ensures Conversation(s, [ForPrompt, ForPrompt], [buffered, 0])[1] == Read(text, ForPrompt).outcome
  {
    assert [ForPrompt, ForPrompt][1..] == [ForPrompt] && [buffered, 0][1..] == [0];
    assert Conversation(text, [ForPrompt], [0])[0] == Read(text, ForPrompt).outcome;
  }

  lemma CutOffText(t: string)
    requires t != "" && IAC !in t && '>' !in t
    ensures Read(t, ForPrompt) == Reading(Response(t, ""), "")
  {
    QuietWithoutPromptEnd(t);
    var k := UntilPromptIsFirst(t, "", "");
    PlainIsDelivered(t);
    assert "" + t == t;
  }
}

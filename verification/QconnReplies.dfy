/** How the client takes responses apart (internal/qconn/framing.go:279-297, file.go), and which
    texts it reads back exactly as the daemon wrote them. */
module QconnReplies {
  import opened Telnet
  import opened QconnText
  import opened QconnHex
  import opened QconnFraming

  // ----- lines -----

  function TrimSpaceLeft(s: string): string {
    if s != "" && IsAsciiSpace(s[0]) then TrimSpaceLeft(s[1..]) else s
  }

  function TrimSpaceRight(s: string): string {
    if s != "" && IsAsciiSpace(s[|s| - 1]) then TrimSpaceRight(s[..|s| - 1]) else s
  }

  function TrimSpace(s: string): string {
    TrimSpaceRight(TrimSpaceLeft(s))
  }

  predicate IsNoise(line: string) {
    TrimSpace(line) == "" || TrimSpace(line) == NOISE
  }

  /** The first meaningful line of a response. */
  function FirstLine(s: string): string
    decreases |s|
  {
    match CutAt(s, '\n')
    case NotFound => if IsNoise(TrimRightCR(s)) then "" else TrimRightCR(s)
    case Cut(line, rest) => if IsNoise(TrimRightCR(line)) then FirstLine(rest) else TrimRightCR(line)
  }

  method ComputeFirstLine(s: string) returns (line: string)
    ensures line == FirstLine(s)
  {
    var rest := s;
    while true
      invariant FirstLine(rest) == FirstLine(s)
      decreases |rest|
    {
      var cut := CutAt(rest, '\n');
      line := TrimRightCR(if cut.Cut? then cut.before else rest);
      if !IsNoise(line) {
        return;
      }
      if cut.NotFound? {
        return "";
      }
      rest := cut.after;
    }
  }

  /** A line that means something and that trimming leaves alone. */
  predicate Meaningful(line: string) {
    && line != "" && line != NOISE && '\n' !in line
    && !IsAsciiSpace(line[0]) && !IsAsciiSpace(line[|line| - 1])
  }

  lemma MeaningfulIsNotNoise(line: string)
    requires Meaningful(line)
    ensures !IsNoise(line) && TrimRightCR(line + "\r") == line && TrimRightCR(line) == line
  {
    assert TrimSpaceLeft(line) == line && TrimSpaceRight(line) == line;
    assert (line + "\r")[..|line|] == line;
  }

  /** What may be unread before the first exchange, and nothing afterwards. */
  predicate Leftover(unread: string) {
    unread == "" || unread == NOISE + "\r\n"
  }

  lemma NoiseShape()
    ensures |NOISE| == 36 && NOISE[0] == 'e' && NOISE[35] == 'd'
    ensures forall i | 0 <= i < |NOISE| :: ('a' <= NOISE[i] <= 'z') || NOISE[i] == '-' || NOISE[i] == ' '
  {
  }

  lemma NoiseLineIsFiltered(noise: string, t: string)
    requires noise == NOISE && noise != "" && '\n' !in noise
    requires !IsAsciiSpace(noise[0]) && !IsAsciiSpace(noise[|noise| - 1])
    ensures FirstLine(noise + "\r\n" + t) == FirstLine(t)
  {
    var line := noise + "\r";
    assert noise + "\r\n" + t == line + ['\n'] + t;
    CutAtFirst(line, '\n', t);
    assert line[..|line| - 1] == noise;
    assert TrimRightCR(noise) == noise && TrimSpace(noise) == noise;
  }

  lemma NoiseIsFiltered(t: string)
    ensures FirstLine(NOISE + "\r\n" + t) == FirstLine(t)
  {
    NoiseShape();
    NoiseLineIsFiltered(NOISE, t);
  }

  /** Whether or not the greeting's noise line is still in front, the first line is the response. */
  lemma FirstLineOf(unread: string, line: string)
    requires Leftover(unread) && Meaningful(line)
    ensures FirstLine(TrimLeft(unread + line + "\r\n")) == line
  {
    var t := line + "\r\n";
    assert unread + line + "\r\n" == unread + t;
    assert TrimLeft(unread + t) == unread + t;
    assert FirstLine(t) == line by {
      assert t == (line + "\r") + ['\n'] + "";
      CutAtFirst(line + "\r", '\n', "");
      MeaningfulIsNotNoise(line);
    }
    if unread == "" {
      assert unread + t == t;
    } else {
      NoiseIsFiltered(t);
    }
  }

  // ----- texts that are read back unchanged -----

  /** No telnet command and no prompt inside. */
  ghost predicate Quiet(t: string) {
    IAC !in t && NoPrompt(t)
  }

  lemma QuietWithoutPromptEnd(t: string)
    requires IAC !in t && '>' !in t
    ensures Quiet(t)
  {
    forall k | 0 <= k <= |t|
      ensures !AtPrompt(t[..k])
    {
      if k == 0 {
        NoPromptInShort(t[..0]);
        assert t[..0][..0] == t[..0];
      } else {
        NotAtPrompt(t[..k]);
      }
    }
  }

  /** Texts stay quiet when joined at an octet that is in no prompt. */
  lemma QuietConcat(a: string, b: string)
    requires Quiet(a) && Quiet(b)
    requires a != "" ==> !InPrompts(a[|a| - 1])
    ensures Quiet(a + b)
  {
    var t := a + b;
    forall k | 0 <= k <= |t|
      ensures !AtPrompt(t[..k])
    {
      if k <= |a| {
        assert t[..k] == a[..k];
      } else if a == "" {
        assert t[..k] == b[..k];
      } else {
        var j := k - |a|;
        assert t[..k] == a + b[..j];
        if AtPrompt(a + b[..j]) {
          PromptStopsAt(a, b[..j]);
        }
      }
    }
  }

  lemma QuietAfterLeftover(unread: string, t: string)
    requires Leftover(unread) && Quiet(t)
    ensures Quiet(unread + t)
  {
    if unread == "" {
      assert unread + t == t;
    } else {
      NoiseShape();
      QuietWithoutPromptEnd(unread);
      QuietConcat(unread, t);
    }
  }

  /** The same search in a stream without telnet commands, for any stopping rule: `stop` is the
      length of what the text ends with, zero to go on. */
  function PlainUntil(stop: string -> nat, s: string, acc: string): PromptRead
    decreases |s|
  {
    if s == "" then Ended(acc, "")
    else
      var text := acc + [s[0]];
      var n := stop(text);
      if 0 < n <= |text| then Found(text[..|text| - n], s[1..], "") else PlainUntil(stop, s[1..], text)
  }

  /** Where that search stops in a stream, the client's does, whatever follows. */
  lemma {:induction false} UntilPromptIsPlain(s: string, rest: string, acc: string)
    requires IAC !in s && PlainUntil(PromptLength, s, acc).Found?
    ensures var r := PlainUntil(PromptLength, s, acc);
      UntilPrompt(s + rest, acc, "") == Found(r.text, r.rest + rest, "")
    decreases |s|
  {
    var text := acc + [s[0]];
    UntilPromptStep(s, rest, acc);
    if AtPrompt(text) {
      AtPromptEnd(text);
    } else {
      UntilPromptIsPlain(s[1..], rest, text);
    }
  }

  lemma UntilPromptStep(s: string, rest: string, acc: string)
    requires s != "" && s[0] != IAC
    ensures var text := acc + [s[0]];
      UntilPrompt(s + rest, acc, "") ==
        if AtPrompt(text) then Found(text[..|text| - PromptLength(text)], s[1..] + rest, "")
        else UntilPrompt(s[1..] + rest, text, "")
  {
    assert "" + "" == "";
    assert (s + rest)[0] == s[0] && (s + rest)[1..] == s[1..] + rest;
  }

  /** A stream is read up to the first place where the rule stops, whatever follows. */
  lemma {:induction false} ReadToStop(stop: string -> nat, s: string, n: nat, rest: string)
    requires n < |s| && 0 < stop(s) <= |s|
    requires forall k | 0 <= k < |s| :: stop(s[..k]) == 0
    ensures PlainUntil(stop, s[n..] + rest, s[..n]) == Found(s[..|s| - stop(s)], rest, "")
    decreases |s| - n
  {
    var text := s[..n + 1];
    assert s[..n] + [s[n]] == text;
    assert (s[n..] + rest)[0] == s[n] && (s[n..] + rest)[1..] == s[n + 1..] + rest;
    if n + 1 < |s| {
      ReadToStop(stop, s, n + 1, rest);
    } else {
      assert text == s && s[n + 1..] + rest == rest;
    }
  }

  lemma PromptEndsQuiet(t: string, svc: Service)
    requires Quiet(t)
    ensures var s := t + Prompt(svc);
      IAC !in s && IsFirstPrompt(s, |s|) && s[..|s| - PromptLength(s)] == t
  {
    var s, p := t + Prompt(svc), Prompt(svc);
    PromptShape(svc);
    PromptIsRecognised(t, svc);
    assert s[..|s|] == s && s[..|t|] == t;
    forall k | 0 <= k < |s|
      ensures !AtPrompt(s[..k])
    {
      NoPromptBefore(t, p, k);
    }
  }

  lemma NoPromptBefore(t: string, p: string, k: nat)
    requires NoPrompt(t) && k < |t + p| && forall i | 0 <= i < |p| - 1 :: p[i] != '>'
    ensures !AtPrompt((t + p)[..k])
  {
    var s := t + p;
    if k <= |t| {
      assert s[..k] == t[..k];
    } else {
      assert s[..k][k - 1] == p[k - 1 - |t|];
      NotAtPrompt(s[..k]);
    }
  }

  /** A quiet text followed by a prompt is read back as it is, and the stream after it is left. */
  lemma ReadQuiet(t: string, svc: Service, rest: string)
    requires Quiet(t)
    ensures UntilPrompt(t + Prompt(svc) + rest, "", "") == Found(t, rest, "")
  {
    PromptShape(svc);
    PromptEndsQuiet(t, svc);
    var s := t + Prompt(svc);
    assert s[..|s|] == s;
    ReadToStop(PromptLength, s, 0, "");
    assert s[0..] + "" == s && s[..0] == "";
    UntilPromptIsPlain(s, rest, "");
    assert "" + rest == rest;
  }

  /** The response to a command, with or without the greeting's last line in front of it. */
  lemma ResponseIsQuiet(unread: string, text: string, svc: Service)
    requires Leftover(unread) && Quiet(text)
    ensures Quiet(unread + text)
    ensures unread + (text + Prompt(svc)) == (unread + text) + Prompt(svc)
  {
    QuietAfterLeftover(unread, text);
  }

  /** A line without telnet commands is read back up to its newline, whatever octets follow. */
  lemma {:induction false} ReadLine(line: string, acc: string, rest: string)
    requires IAC !in line && '\n' !in line
    ensures UntilNewline(line + "\n" + rest, acc, "") == Found(acc + line, rest, "")
    decreases |line|
  {
    var s := line + "\n" + rest;
    assert "" + "" == "";
    if line == "" {
      assert s[0] == '\n' && s[1..] == rest;
      assert acc + line == acc;
    } else {
      assert s[0] == line[0] && s[1..] == line[1..] + "\n" + rest;
      ReadLine(line[1..], acc + [line[0]], rest);
      assert acc + [line[0]] + line[1..] == acc + line;
    }
  }
}

/** Reading qconn responses (internal/qconn/framing.go): text up to a prompt, single status lines
    and raw payloads, from one stream. */
module QconnFraming {
  import opened Telnet
  import opened QconnText

  // ----- the naive reference -----

  datatype PromptRead =
    | Found(text: string, rest: string, replies: string)
    | Ended(text: string, replies: string)

  /** Read octets until the text read so far ends with a prompt; test after every octet. */
  function UntilPrompt(s: string, acc: string, replies: string): PromptRead
    decreases |s|
  {
    match ReadByte(s)
    case EndOfStream(r) => Ended(acc, replies + r)
    case Got(b, rest, r) =>
      var text := acc + [b];
      if AtPrompt(text) then Found(text[..|text| - PromptLength(text)], rest, replies + r)
      else UntilPrompt(rest, text, replies + r)
  }

  /** Read octets up to a newline. */
  function UntilNewline(s: string, acc: string, replies: string): PromptRead
    decreases |s|
  {
    match ReadByte(s)
    case EndOfStream(r) => Ended(acc, replies + r)
    case Got(b, rest, r) =>
      if b == '\n' then Found(acc, rest, replies + r) else UntilNewline(rest, acc + [b], replies + r)
  }

  function CleanLine(raw: string): string {
    TrimLeft(TrimRightCR(raw))
  }

  /** What reading a response from `s` may return and leave: the text before the first prompt, without
      leading spaces, and the stream after the prompt without some of the blanks at its front. At end of
      input it is what was read, a failure if that is nothing. */
  ghost predicate IsResponse(s: string, text: string, ok: bool, left: string) {
    match UntilPrompt(s, "", "")
    case Ended(all, _) => text == all && ok == (all != "") && left == ""
    case Found(before, rest, _) =>
      text == TrimLeft(before) && ok && IsDrained(rest, left)
  }

  ghost predicate IsDrained(rest: string, left: string) {
    exists drained | 0 <= drained <= BlankRun(rest) :: left == rest[drained..]
  }

  /** The first prompt of `d` ends at `k`. */
  ghost predicate IsFirstPrompt(d: string, k: nat) {
    k <= |d| && AtPrompt(d[..k]) && forall j | 0 <= j < k :: !AtPrompt(d[..j])
  }

  /** The naive search finds the first complete prompt of the stream without its telnet commands,
      returns the text before it, and leaves the stream after it. */
  lemma {:induction false} UntilPromptIsFirst(s: string, acc: string, replies: string) returns (k: nat)
    requires NoPrompt(acc)
    ensures var d := acc + Delivered(Streaming, Plain, s);
      match UntilPrompt(s, acc, replies)
      case Ended(text, _) => text == d && NoPrompt(d)
      case Found(text, rest, _) =>
        IsFirstPrompt(d, k) && text == d[..k][..k - PromptLength(d[..k])] && Delivered(Streaming, Plain, rest) == d[k..]
    decreases |s|
  {
    var d := acc + Delivered(Streaming, Plain, s);
    ReadFromDelivers(Plain, s, "");
    k := 0;
    match ReadByte(s)
    case EndOfStream(_) => assert d == acc;
    case Got(b, rest, r) =>
      var text := acc + [b];
      assert d == text + Delivered(Streaming, Plain, rest);
      if AtPrompt(text) {
        k := |text|;
        FirstPromptAfter(acc, b, Delivered(Streaming, Plain, rest));
      } else {
        NoPromptExtends(acc, b);
        k := UntilPromptIsFirst(rest, text, replies + r);
      }
  }

  lemma NoPromptExtends(acc: string, b: char)
    requires NoPrompt(acc) && !AtPrompt(acc + [b])
    ensures NoPrompt(acc + [b])
  {
    var text := acc + [b];
    forall j | 0 <= j <= |text|
      ensures !AtPrompt(text[..j])
    {
      assert text[..j] == if j <= |acc| then acc[..j] else text;
    }
  }

  lemma FirstPromptAfter(acc: string, b: char, later: string)
    requires NoPrompt(acc) && AtPrompt(acc + [b])
    ensures var d, text := acc + [b] + later, acc + [b];
      IsFirstPrompt(d, |text|) && d[..|text|] == text && d[|text|..] == later
  {
    var d, text := acc + [b] + later, acc + [b];
    assert d[..|text|] == text;
    forall j | 0 <= j < |text|
      ensures !AtPrompt(d[..j])
    {
      assert d[..j] == acc[..j];
    }
  }

  // ----- the windowed search -----

  const WINDOW: nat := 64
  const LONG: nat := 256

  /** Testing the prompt expression on the text from `scan` on finds exactly a prompt that has just
      been completed, provided none was complete before and the window is wide enough. */
  lemma WindowHidesNothing(text: string, scan: nat)
    requires text != "" && NoPrompt(text[..|text| - 1])
    requires scan == 0 || scan + WINDOW < |text|
    ensures var m := MatchPrompt(text[scan..]);
      && m.Some? == AtPrompt(text)
      && (m.Some? ==> scan + m.value == |text| - PromptLength(text))
  {
    var t := text[scan..];
    var u := TrimRightSpace(t);
    assert text == text[..scan] + t;
    if AtPrompt(text) {
      AtPromptEnd(text);
      if scan > 0 {
        PromptIsNear(text[..scan], t);
      } else {
        assert t == text;
      }
      PromptBehind(text[..scan], t);
      assert t[|t| - 1] == '>';
      assert u == t;
    } else {
      NoEarlierPrompt(text, scan, u);
    }
  }

  /** A prompt followed by white space only would have been complete before. */
  lemma NoEarlierPrompt(text: string, scan: nat, u: string)
    requires text != "" && NoPrompt(text[..|text| - 1]) && !AtPrompt(text)
    requires scan <= |text| && u <= text[scan..]
    ensures !AtPrompt(u)
  {
    var j := scan + |u|;
    assert text[..j] == text[..scan] + u;
    assert !AtPrompt(text[..j]) by {
      if j < |text| {
        assert text[..|text| - 1][..j] == text[..j];
      } else {
        assert text[..j] == text;
      }
    }
    if AtPrompt(u) {
      PromptBehind(text[..scan], u);
    }
  }

  // ----- the connection -----

  class FrameConn {
    /** The octets that are still to be read, and those written and not yet taken by the peer. */
    var input: string
    var outbox: string

    constructor (input: string)
      ensures this.input == input && outbox == ""
    {
      this.input, outbox := input, "";
    }

    method WriteRaw(b: string)
      modifies this`outbox
      ensures outbox == old(outbox) + b
    {
      outbox := outbox + b;
    }

    method WriteLine(s: string)
      modifies this`outbox
      ensures outbox == old(outbox) + s + "\n"
    {
      WriteRaw(s + "\n");
    }

    /** Consumes the telnet command after an IAC. `sofar` are the refusals written before. */
    method HandleIAC(ghost sofar: string) returns (ok: bool, ghost replies: string)
      modifies this`input, this`outbox
      ensures outbox == old(outbox) + replies
      ensures ok ==> ReadFrom(Command, old(input), sofar) == ReadFrom(Plain, input, sofar + replies)
      ensures !ok ==> ReadFrom(Command, old(input), sofar) == EndOfStream(sofar + replies) && input == ""
      ensures |input| <= |old(input)|
    {
      replies := "";
      assert sofar + "" == sofar;
      if input == "" {
        return false, "";
      }
      var cmd := input[0];
      input := input[1..];
      if IsNegotiation(cmd) {
        if input == "" {
          return false, "";
        }
        var opt := input[0];
        input := input[1..];
        if cmd == DO {
          replies := [IAC, WONT, opt];
          outbox := outbox + [IAC, WONT, opt];
        } else if cmd == WILL {
          replies := [IAC, DONT, opt];
          outbox := outbox + [IAC, DONT, opt];
        }
        ok := true;
      } else if cmd == SB {
        ok := SkipSubnegotiation(sofar);
      } else {
        ok := true;
      }
    }

    /** Skips a subnegotiation up to and including IAC SE. */
    method SkipSubnegotiation(ghost sofar: string) returns (ok: bool)
      modifies this`input
      ensures ok ==> ReadFrom(Sub, old(input), sofar) == ReadFrom(Plain, input, sofar)
      ensures !ok ==> ReadFrom(Sub, old(input), sofar) == EndOfStream(sofar) && input == ""
      ensures |input| <= |old(input)|
    {
      assert sofar + "" == sofar;
      while true
        invariant ReadFrom(Sub, old(input), sofar) == ReadFrom(Sub, input, sofar)
        invariant |input| <= |old(input)|
        decreases |input|
      {
        if input == "" {
          return false;
        }
        var b := input[0];
        input := input[1..];
        if b == IAC {
          if input == "" {
            return false;
          }
          var n := input[0];
          input := input[1..];
          if n == SE {
            return true;
          }
        }
      }
    }

    method ReadByte() returns (r: Option<char>)
      modifies this`input, this`outbox
      ensures match Telnet.ReadByte(old(input))
        case EndOfStream(replies) => r == None && input == "" && outbox == old(outbox) + replies
        case Got(b, rest, replies) => r == Some(b) && input == rest && outbox == old(outbox) + replies
    {
      ghost var sofar := "";
      while true
        invariant outbox == old(outbox) + sofar
        invariant Telnet.ReadByte(old(input)) == ReadFrom(Plain, input, sofar)
        decreases |input|
      {
        if input == "" {
          return None;
        }
        var b := input[0];
        input := input[1..];
        if b == IAC {
          assert sofar + "" == sofar;
          ghost var replies;
          var ok;
          ok, replies := HandleIAC(sofar);
          sofar := sofar + replies;
          if !ok {
            return None;
          }
          continue;
        }
        return Some(b);
      }
    }

    /** Reads a response up to the prompt. At end of input the text so far is returned as it is,
        and counts as a response unless it is empty. */
    method ReadUntilPrompt() returns (text: string, ok: bool)
      modifies this`input, this`outbox
      ensures IsResponse(old(input), text, ok, input)
      ensures outbox == old(outbox) + UntilPrompt(old(input), "", "").replies
    {
      var sb := "";
      var scan: nat := 0;
      ghost var replies := "";
      assert NoPrompt(sb) by {
        NoPromptInShort(sb);
      }
      while true
        invariant UntilPrompt(old(input), "", "") == UntilPrompt(input, sb, replies)
        invariant outbox == old(outbox) + replies
        invariant NoPrompt(sb)
        invariant scan == 0 || scan + WINDOW <= |sb|
        decreases |input|
      {
        ghost var byteRead := Telnet.ReadByte(input);
        var r := ReadByte();
        replies := replies + byteRead.replies;
        if r.None? {
          return sb, sb != "";
        }
        var b := r.value;
        ghost var before := sb;
        sb := sb + [b];
        assert sb[..|sb| - 1] == before;
        var start;
        start, scan := TestPrompt(sb, scan);
        if start.Some? {
          text := TrimLeft(sb[..start.value]);
          Drain();
          return text, true;
        }
        NoPromptExtends(before, b);
      }
    }

    /** Tests the text read so far for a prompt, but only after an octet that can complete one, and only
        from `from` on; on a long text without a prompt the next test starts nearer to its end. */
    static method TestPrompt(sb: string, from: nat) returns (start: Option<nat>, scan: nat)
      requires sb != "" && NoPrompt(sb[..|sb| - 1])
      requires from == 0 || from + WINDOW < |sb|
      ensures start.Some? == AtPrompt(sb)
      ensures start.Some? ==> start.value == |sb| - PromptLength(sb)
      ensures scan == 0 || scan + WINDOW <= |sb|
    {
      start, scan := None, from;
      var b := sb[|sb| - 1];
      if b == '>' || b == ' ' || b == '\n' {
        WindowHidesNothing(sb, scan);
        var loc := MatchPrompt(sb[scan..]);
        if loc.Some? {
          return Some(scan + loc.value), scan;
        }
        if |sb| > LONG {
          scan := |sb| - WINDOW;
        }
      } else {
        NotAtPrompt(sb);
      }
    }

    /** Drops blanks and tabs that follow the prompt, but only those already buffered; how many octets
        are buffered is up to the network. */
    method Drain()
      modifies this`input
      ensures exists drained | 0 <= drained <= BlankRun(old(input)) :: input == old(input)[drained..]
    {
      var buffered: nat :| buffered <= |input|;
      ghost var drained := 0;
      while buffered > 0
        invariant buffered <= |input|
        invariant 0 <= drained <= BlankRun(old(input)) && input == old(input)[drained..]
        invariant BlankRun(old(input)) == drained + BlankRun(input)
        decreases buffered
      {
        if input[0] == ' ' || input[0] == '\t' {
          input := input[1..];
          buffered := buffered - 1;
          drained := drained + 1;
        } else {
          break;
        }
      }
    }

    /** Reads one status line. */
    method ReadResponseLine() returns (line: string, ok: bool)
      modifies this`input, this`outbox
      ensures match UntilNewline(old(input), "", "")
        case Ended(all, replies) => line == all && !ok && input == "" && outbox == old(outbox) + replies
        case Found(raw, rest, replies) =>
          line == CleanLine(raw) && ok && input == rest && outbox == old(outbox) + replies
    {
      var sb := "";
      ghost var replies := "";
      while true
        invariant UntilNewline(old(input), "", "") == UntilNewline(input, sb, replies)
        invariant outbox == old(outbox) + replies
        decreases |input|
      {
        ghost var byteRead := Telnet.ReadByte(input);
        var r := ReadByte();
        replies := replies + byteRead.replies;
        if r.None? {
          return sb, false;
        }
        if r.value == '\n' {
          return CleanLine(sb), true;
        }
        sb := sb + [r.value];
      }
    }

    /** Reads raw octets, telnet commands included. */
    method ReadN(n: nat) returns (data: string, ok: bool)
      modifies this`input
      ensures ok == (n <= |old(input)|)
      ensures ok ==> data == old(input)[..n] && input == old(input)[n..]
      ensures !ok ==> input == ""
    {
      if n <= |input| {
        data, ok := input[..n], true;
        input := input[n..];
      } else {
        data, ok := input, false;
        input := "";
      }
    }
  }

  lemma NoPromptInShort(s: string)
    requires |s| < 12
    ensures NoPrompt(s)
  {
    forall j | 0 <= j <= |s|
      ensures !AtPrompt(s[..j])
    {
      if AtPrompt(s[..j]) {
        AtPromptEnd(s[..j]);
      }
    }
  }

  lemma NotAtPrompt(s: string)
    requires s != "" && s[|s| - 1] != '>'
    ensures !AtPrompt(s)
  {
    if AtPrompt(s) {
      AtPromptEnd(s);
    }
  }
}

/** Services, their prompts, and the string trimming the qconn client does. */
module QconnText {

  datatype Option<T> = None | Some(value: T)

  datatype Service = Broker | Launcher | File | Cntl | Sinfo

  function Name(svc: Service): string {
    match svc
    case Broker => "broker"
    case Launcher => "launcher"
    case File => "file"
    case Cntl => "cntl"
    case Sinfo => "sinfo"
  }

  /** A prompt is not terminated by a newline; it is how the end of a response is recognised. */
  function Prompt(svc: Service): string {
    "<qconn-" + Name(svc) + ">"
  }

  /** The line the daemon emits once after connect; the client filters it everywhere. */
  const NOISE: string := "error linemode-or-echo-not-supported"

  predicate EndsWith(s: string, t: string) {
    |t| <= |s| && s[|s| - |t|..] == t
  }

  predicate AtPrompt(s: string) {
    exists svc: Service :: EndsWith(s, Prompt(svc))
  }

  /** The number of octets from the last '<' on. */
  function FromLastOpen(s: string): (n: nat)
    ensures n <= |s|
  {
    if s == "" then 0 else if s[|s| - 1] == '<' then 1 else 1 + FromLastOpen(s[..|s| - 1])
  }

  /** The length of the prompt that `s` ends with; zero if it ends with none. */
  function PromptLength(s: string): (n: nat)
    ensures n <= |s|
  {
    if AtPrompt(s) then FromLastOpen(s) else 0
  }

  /** No prefix of `s`, and not `s` itself, ends with a prompt. */
  predicate NoPrompt(s: string) {
    forall k | 0 <= k <= |s| :: !AtPrompt(s[..k])
  }

  lemma PromptShape(svc: Service)
    ensures var p := Prompt(svc);
      && 12 <= |p| <= 16 && p[0] == '<' && p[|p| - 1] == '>'
      && (forall i | 0 < i < |p| - 1 :: ('a' <= p[i] <= 'z') || p[i] == '-')
  {
    var p := Prompt(svc);
    match svc
    case Broker => assert p == "<qconn-broker>";
    case Launcher => assert p == "<qconn-launcher>";
    case File => assert p == "<qconn-file>";
    case Cntl => assert p == "<qconn-cntl>";
    case Sinfo => assert p == "<qconn-sinfo>";
  }

  lemma SuffixIndex(s: string, t: string)
    requires EndsWith(s, t)
    ensures forall i | |s| - |t| <= i < |s| :: s[i] == t[i - (|s| - |t|)]
  {
    var n := |s| - |t|;
    forall i | n <= i < |s|
      ensures s[i] == t[i - n]
    {
      assert s[i] == s[n..][i - n];
    }
  }

  lemma {:induction false} LastOpenAt(s: string, k: nat)
    requires k < |s| && s[k] == '<' && forall i | k < i < |s| :: s[i] != '<'
    ensures FromLastOpen(s) == |s| - k
  {
    if k < |s| - 1 {
      LastOpenAt(s[..|s| - 1], k);
    }
  }

  /** The start of a prompt is the last '<', so the prompt's length is determined. */
  lemma PromptLengthOf(s: string, svc: Service)
    requires EndsWith(s, Prompt(svc))
    ensures AtPrompt(s) && PromptLength(s) == |Prompt(svc)|
  {
    PromptShape(svc);
    SuffixIndex(s, Prompt(svc));
    LastOpenAt(s, |s| - |Prompt(svc)|);
  }

  predicate InPrompts(c: char) {
    c == '<' || c == '>' || c == '-' || 'a' <= c <= 'z'
  }

  lemma AtPromptEnd(s: string)
    requires AtPrompt(s)
    ensures 12 <= PromptLength(s) <= 16 && s[|s| - 1] == '>'
    ensures forall i | |s| - PromptLength(s) <= i < |s| :: InPrompts(s[i])
  {
    var svc :| EndsWith(s, Prompt(svc));
    PromptShape(svc);
    PromptLengthOf(s, svc);
    SuffixIndex(s, Prompt(svc));
  }

  lemma PromptIsRecognised(t: string, svc: Service)
    ensures AtPrompt(t + Prompt(svc)) && PromptLength(t + Prompt(svc)) == |Prompt(svc)|
  {
    assert EndsWith(t + Prompt(svc), Prompt(svc));
    PromptLengthOf(t + Prompt(svc), svc);
  }

  lemma SuffixIsLocal(a: string, s: string, t: string)
    requires |t| <= |s|
    ensures EndsWith(a + s, t) <==> EndsWith(s, t)
  {
    assert (a + s)[|a + s| - |t|..] == s[|s| - |t|..];
  }

  /** What stands before a prompt does not matter. */
  lemma PromptBehind(a: string, s: string)
    requires AtPrompt(s)
    ensures AtPrompt(a + s) && PromptLength(a + s) == PromptLength(s)
  {
    var svc :| EndsWith(s, Prompt(svc));
    SuffixIsLocal(a, s, Prompt(svc));
    PromptLengthOf(s, svc);
    PromptLengthOf(a + s, svc);
  }

  /** The last 16 octets decide whether a text ends with a prompt. */
  lemma PromptIsNear(a: string, s: string)
    requires |s| >= 16 && AtPrompt(a + s)
    ensures AtPrompt(s)
  {
    var svc :| EndsWith(a + s, Prompt(svc));
    PromptShape(svc);
    SuffixIsLocal(a, s, Prompt(svc));
  }

  /** A prompt does not reach across an octet that is in no prompt. */
  lemma PromptStopsAt(a: string, s: string)
    requires a != "" && !InPrompts(a[|a| - 1])
    requires s != "" && AtPrompt(a + s)
    ensures AtPrompt(s)
  {
    var t := a + s;
    assert t[|a| - 1] == a[|a| - 1];
    AtPromptEnd(t);
    var svc :| EndsWith(t, Prompt(svc));
    PromptLengthOf(t, svc);
    SuffixIsLocal(a, s, Prompt(svc));
  }

  // ----- trimming -----

  /** Regular-expression white space. */
  predicate IsSpace(c: char) {
    c == ' ' || c == '\t' || c == '\n' || c == '\r' || c == '\U{0c}'
  }

  /** The white space that `TrimSpace` and `Fields` know, in ASCII. */
  predicate IsAsciiSpace(c: char) {
    IsSpace(c) || c == '\U{0b}'
  }

  /** `strings.TrimLeft(s, " ")` */
  function TrimLeft(s: string): string {
    if s != "" && s[0] == ' ' then TrimLeft(s[1..]) else s
  }

  /** `strings.TrimRight(s, "\r")` */
  function TrimRightCR(s: string): string {
    if s != "" && s[|s| - 1] == '\r' then TrimRightCR(s[..|s| - 1]) else s
  }

  /** What is left of a text without its trailing white space. */
  function TrimRightSpace(s: string): (r: string)
    ensures r <= s
    ensures r != "" ==> !IsSpace(r[|r| - 1])
  {
    if s != "" && IsSpace(s[|s| - 1]) then TrimRightSpace(s[..|s| - 1]) else s
  }

  /** The prompt expression on a text: a prompt, then white space to the end. The prompt's start. */
  function MatchPrompt(t: string): Option<nat> {
    var u := TrimRightSpace(t);
    if AtPrompt(u) then Some(|u| - PromptLength(u)) else None
  }

  /** The number of blanks and tabs a text starts with. */
  function BlankRun(s: string): (n: nat)
    ensures n <= |s|
    ensures forall i | 0 <= i < n :: s[i] == ' ' || s[i] == '\t'
  {
    if s != "" && (s[0] == ' ' || s[0] == '\t') then 1 + BlankRun(s[1..]) else 0
  }
}

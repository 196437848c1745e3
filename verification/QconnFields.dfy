/** How the client reads the fields of the broker's responses (`Info` and `Versions`,
    internal/qconn/client.go): words into maps. */
module QconnFields {
  import opened QconnText
  import opened QconnHex
  import opened DecimalText
  import opened QconnLines
  import opened QconnReplies

  // ----- attributes -----

  /** `strings.Fields`: the words of a text; `word` is the one being read. */
  function Words(s: string, word: string): seq<string>
    decreases |s|
  {
    if s == "" then (if word == "" then [] else [word])
    else if IsAsciiSpace(s[0]) then (if word == "" then [] else [word]) + Words(s[1..], "")
    else Words(s[1..], word + [s[0]])
  }

  /** KEY=VALUE words collected into a map; others are ignored. */
  function Collect(words: seq<string>, m: map<string, string>): map<string, string>
    decreases |words|
  {
    if words == [] then m
    else
      match CutAt(words[0], '=')
      case NotFound => Collect(words[1..], m)
      case Cut(key, value) => Collect(words[1..], m[key := value])
  }

  function AttributesOf(text: string): map<string, string> {
    Collect(Words(text, ""), map[])
  }

  method CollectAttributes(text: string) returns (m: map<string, string>)
    ensures m == AttributesOf(text)
  {
    var words := Words(text, "");
    m := map[];
    for i := 0 to |words|
      invariant Collect(words[i..], m) == AttributesOf(text)
    {
      assert words[i..][1..] == words[i + 1..];
      var cut := CutAt(words[i], '=');
      if cut.Cut? {
        m := m[cut.before := cut.after];
      }
    }
  }

  lemma {:induction false} WordsConcat(a: string, b: string, word: string)
    requires a != "" && IsAsciiSpace(a[|a| - 1])
    ensures Words(a + b, word) == Words(a, word) + Words(b, "")
    decreases |a|
  {
    assert (a + b)[0] == a[0] && (a + b)[1..] == a[1..] + b;
    if |a| == 1 {
      assert a[1..] == "" && a[1..] + b == b;
    } else {
      WordsConcat(a[1..], b, if IsAsciiSpace(a[0]) then "" else word + [a[0]]);
    }
  }

  lemma {:induction false} WordsOfSpaces(s: string)
    requires forall i | 0 <= i < |s| :: IsAsciiSpace(s[i])
    ensures Words(s, "") == []
  {
    if s != "" {
      WordsOfSpaces(s[1..]);
    }
  }

  lemma {:induction false} CollectConcat(a: seq<string>, b: seq<string>, m: map<string, string>)
    ensures Collect(a + b, m) == Collect(b, Collect(a, m))
    decreases |a|
  {
    if a == [] {
      assert a + b == b;
    } else {
      assert (a + b)[1..] == a[1..] + b;
      var cut := CutAt(a[0], '=');
      CollectConcat(a[1..], b, if cut.Cut? then m[cut.before := cut.after] else m);
    }
  }

  lemma {:induction false} NoEqualsNoAttributes(s: string, word: string, m: map<string, string>)
    requires '=' !in s && '=' !in word
    ensures Collect(Words(s, word), m) == m
    decreases |s|
  {
    if s != "" {
      if IsAsciiSpace(s[0]) {
        NoEqualsNoAttributes(s[1..], "", m);
        CollectConcat(if word == "" then [] else [word], Words(s[1..], ""), m);
      } else {
        NoEqualsNoAttributes(s[1..], word + [s[0]], m);
      }
    }
  }

  /** The noise line holds no attribute, so it does not matter whether it is in front. */
  lemma AttributesIgnoreNoise(unread: string, t: string)
    requires Leftover(unread) && t != "" && t[0] != ' '
    ensures AttributesOf(TrimLeft(unread + t + "\r\n")) == AttributesOf(t)
  {
    NoiseShape();
    var s := t + "\r\n";
    assert unread + t + "\r\n" == unread + s;
    assert TrimLeft(unread + s) == unread + s;
    if unread == "" {
      assert unread + s == s;
    } else {
      WordsConcat(unread, s, "");
      NoEqualsNoAttributes(unread, "", map[]);
      CollectConcat(Words(unread, ""), Words(s, ""), map[]);
    }
    TrailingNewline(t, "");
  }

  lemma {:induction false} TrailingNewline(t: string, word: string)
    ensures Words(t + "\r\n", word) == Words(t, word)
    decreases |t|
  {
    if t == "" {
      var s := t + "\r\n";
      assert s == "\r\n" && s[1..] == "\n";
      WordsOfSpaces("\n");
      assert Words(s, word) == Words(t, word) + Words("\n", "");
    } else {
      assert (t + "\r\n")[1..] == t[1..] + "\r\n";
      TrailingNewline(t[1..], if IsAsciiSpace(t[0]) then "" else word + [t[0]]);
    }
  }

  // ----- versions -----

  function IndexOfSeparator(tok: string): (k: nat)
    ensures k <= |tok|
  {
    if tok == "" || IsSeparator(tok[0]) then 0 else 1 + IndexOfSeparator(tok[1..])
  }

  predicate IsPadding(c: char) {
    IsSeparator(c) || c == ' '
  }

  function TrimPadding(s: string): string
    decreases |s|
  {
    if s != "" && IsPadding(s[0]) then TrimPadding(s[1..])
    else if s != "" && IsPadding(s[|s| - 1]) then TrimPadding(s[..|s| - 1])
    else s
  }

  /** `name=version`, with `/` and `:` as other separators; a word without one has version zero. */
  function AddVersion(m: map<string, int>, tok: string): map<string, int> {
    if tok == "versions:" then m
    else
      var i := IndexOfSeparator(tok);
      if i == 0 then m
      else if i == |tok| then m[tok := 0]
      else m[tok[..i] := LenientAtoi(TrimPadding(tok[i + 1..]))]
  }

  function AddVersions(m: map<string, int>, words: seq<string>): map<string, int>
    decreases |words|
  {
    if words == [] then m else AddVersions(AddVersion(m, words[0]), words[1..])
  }

  function VersionsOf(line: string): map<string, int> {
    AddVersions(map[], Words(line, ""))
  }

  method CollectVersions(line: string) returns (m: map<string, int>)
    ensures m == VersionsOf(line)
  {
    var words := Words(line, "");
    m := map[];
    for i := 0 to |words|
      invariant AddVersions(m, words[i..]) == VersionsOf(line)
    {
      assert words[i..][1..] == words[i + 1..];
      var tok := words[i];
      if tok == "versions:" {
        continue;
      }
      var name, version := tok, 0;
      var k := IndexOfSeparator(tok);
      if k < |tok| {
        name := tok[..k];
        version := LenientAtoi(TrimPadding(tok[k + 1..]));
      }
      if name != "" {
        m := m[name := version];
      }
    }
  }

  // ----- what is read from a text that was written as a list of fields -----

  /** The map of a list of pairs; a later pair for a key replaces an earlier one. */
  function Table<T>(pairs: seq<(string, T)>): map<string, T> {
    if pairs == [] then map[]
    else
      var n := |pairs| - 1;
      Table(pairs[..n])[pairs[n].0 := pairs[n].1]
  }

  lemma {:induction false} TableHolds<T>(pairs: seq<(string, T)>, key: string)
    ensures key in Table(pairs) <==> exists i | 0 <= i < |pairs| :: pairs[i].0 == key
    ensures forall i | 0 <= i < |pairs| && pairs[i].0 == key && (forall j | i < j < |pairs| :: pairs[j].0 != key) ::
      Table(pairs)[key] == pairs[i].1
  {
    if pairs != [] {
      var n := |pairs| - 1;
      TableHolds(pairs[..n], key);
      assert forall i | 0 <= i < n :: pairs[..n][i] == pairs[i];
    }
  }

  lemma {:induction false} WordIsRead(w: string, s: string, word: string)
    requires HasNoSpace(w)
    ensures Words(w + s, word) == Words(s, word + w)
    decreases |w|
  {
    if w == "" {
      assert w + s == s && word + w == word;
    } else {
      assert (w + s)[1..] == w[1..] + s && word + [w[0]] + w[1..] == word + w;
      WordIsRead(w[1..], s, word + [w[0]]);
    }
  }

  lemma {:induction false} WordsAreRead(word: string, words: seq<string>)
    requires forall i | 0 <= i < |words| :: words[i] != "" && HasNoSpace(words[i])
    ensures Words(Spaced(words), word) == (if word == "" then [] else [word]) + words
    decreases |words|
  {
    if words != [] {
      var s, later := Spaced(words), Spaced(words[1..]);
      assert s[1..] == words[0] + later;
      WordIsRead(words[0], later, "");
      assert "" + words[0] == words[0];
      WordsAreRead(words[0], words[1..]);
    }
  }

  /** A first word and the others after spaces. */
  lemma LineIsRead(first: string, words: seq<string>)
    requires first != "" && HasNoSpace(first)
    requires forall i | 0 <= i < |words| :: words[i] != "" && HasNoSpace(words[i])
    ensures Words(first + Spaced(words), "") == [first] + words
  {
    WordIsRead(first, Spaced(words), "");
    assert "" + first == first;
    WordsAreRead(first, words);
  }

  function AttributePairs(attributes: seq<Attribute>): seq<(string, string)> {
    seq(|attributes|, i requires 0 <= i < |attributes| => (attributes[i].key, attributes[i].value))
  }

  lemma {:induction false} AttributesAreCollected(attributes: seq<Attribute>)
    requires forall i | 0 <= i < |attributes| :: IsAttribute(attributes[i])
    ensures Collect(AttributeTexts(attributes), map[]) == Table(AttributePairs(attributes))
    decreases |attributes|
  {
    if attributes != [] {
      var n := |attributes| - 1;
      var a, before := attributes[n], attributes[..n];
      AttributesAreCollected(before);
      assert AttributeTexts(attributes) == AttributeTexts(before) + [AttributeText(a)];
      CollectConcat(AttributeTexts(before), [AttributeText(a)], map[]);
      CutAtFirst(a.key, '=', a.value);
      assert AttributePairs(attributes)[..n] == AttributePairs(before);
    }
  }

  /** Any list of KEY=VALUE fields, written out with spaces between, is read back as the map of the list. */
  lemma AttributesAreRead(attributes: seq<Attribute>)
    requires attributes != [] && forall i | 0 <= i < |attributes| :: IsAttribute(attributes[i])
    ensures AttributesOf(AttributeLine(attributes)) == Table(AttributePairs(attributes))
  {
    var texts := AttributeTexts(attributes);
    forall i | 0 <= i < |texts|
      ensures texts[i] != "" && HasNoSpace(texts[i])
    {
      assert IsAttribute(attributes[i]);
    }
    LineIsRead(texts[0], texts[1..]);
    assert [texts[0]] + texts[1..] == texts;
    AttributesAreCollected(attributes);
  }

  function VersionPairs(versions: seq<Version>): seq<(string, int)> {
    seq(|versions|, i requires 0 <= i < |versions| => (versions[i].name, versions[i].number))
  }

  lemma {:induction false} SeparatorIsFound(name: string, separator: char, rest: string)
    requires IsSeparator(separator) && forall i | 0 <= i < |name| :: !IsSeparator(name[i])
    ensures IndexOfSeparator(name + [separator] + rest) == |name|
  {
    var s := name + [separator] + rest;
    if name != "" {
      assert s[1..] == name[1..] + [separator] + rest;
      SeparatorIsFound(name[1..], separator, rest);
    }
  }

  lemma NumberIsRead(n: nat)
    requires n <= MAX_INT64
    ensures LenientAtoi(TrimPadding(Decimal(n))) == n
  {
    assert TrimPadding(Decimal(n)) == Decimal(n);
    AtoiOfDecimal(n);
  }

  lemma VersionIsCut(v: Version)
    requires IsVersion(v)
    ensures var tok := VersionText(v);
      && tok != "versions:" && IndexOfSeparator(tok) == |v.name| < |tok|
      && tok[..|v.name|] == v.name && tok[|v.name| + 1..] == Decimal(v.number)
  {
    var tok, digits := VersionText(v), Decimal(v.number);
    SeparatorIsFound(v.name, v.separator, digits);
    assert tok[|tok| - 1] == digits[|digits| - 1] && "versions:"[8] == ':';
  }

  lemma VersionIsAdded(m: map<string, int>, v: Version)
    requires IsVersion(v)
    ensures AddVersion(m, VersionText(v)) == m[v.name := v.number]
  {
    VersionIsCut(v);
    NumberIsRead(v.number);
  }

  lemma {:induction false} AddVersionsConcat(m: map<string, int>, a: seq<string>, b: seq<string>)
    ensures AddVersions(m, a + b) == AddVersions(AddVersions(m, a), b)
    decreases |a|
  {
    if a == [] {
      assert a + b == b;
    } else {
      assert (a + b)[1..] == a[1..] + b;
      AddVersionsConcat(AddVersion(m, a[0]), a[1..], b);
    }
  }

  lemma {:induction false} VersionsAreAdded(versions: seq<Version>)
    requires forall i | 0 <= i < |versions| :: IsVersion(versions[i])
    ensures AddVersions(map[], VersionTexts(versions)) == Table(VersionPairs(versions))
    decreases |versions|
  {
    if versions != [] {
      var n := |versions| - 1;
      var v, before := versions[n], versions[..n];
      VersionsAreAdded(before);
      assert VersionTexts(versions) == VersionTexts(before) + [VersionText(v)];
      AddVersionsConcat(map[], VersionTexts(before), [VersionText(v)]);
      VersionIsAdded(Table(VersionPairs(before)), v);
      assert VersionPairs(versions)[..n] == VersionPairs(before);
    }
  }

  /** Any list of names and numbers, each written with one of the three separators, is read back as the
      map of the list. */
  lemma VersionsAreRead(versions: seq<Version>)
    requires forall i | 0 <= i < |versions| :: IsVersion(versions[i])
    ensures VersionsOf(VersionLine(versions)) == Table(VersionPairs(versions))
  {
    var texts := VersionTexts(versions);
    forall i | 0 <= i < |texts|
      ensures texts[i] != "" && HasNoSpace(texts[i])
    {
      assert IsVersion(versions[i]);
    }
    LineIsRead("versions:", texts);
    assert (["versions:"] + texts)[1..] == texts;
    VersionsAreAdded(versions);
  }
}

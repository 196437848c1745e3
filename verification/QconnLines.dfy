/** Lines of fields as the broker writes them: KEY=VALUE attributes, and names with version numbers. */
module QconnLines {
  import opened QconnText
  import opened QconnHex
  import opened DecimalText

  predicate HasNoSpace(w: string) {
    forall i | 0 <= i < |w| :: !IsAsciiSpace(w[i])
  }

  /** Words, each after a space. */
  function Spaced(words: seq<string>): string {
    if words == [] then "" else " " + words[0] + Spaced(words[1..])
  }

  datatype Attribute = Attribute(key: string, value: string)

  predicate IsAttribute(a: Attribute) {
    HasNoSpace(a.key) && '=' !in a.key && HasNoSpace(a.value)
  }

  function AttributeText(a: Attribute): string {
    a.key + ['='] + a.value
  }

  function AttributeTexts(attributes: seq<Attribute>): seq<string> {
    seq(|attributes|, i requires 0 <= i < |attributes| => AttributeText(attributes[i]))
  }

  function AttributeLine(attributes: seq<Attribute>): string
    requires attributes != []
  {
    var texts := AttributeTexts(attributes);
    texts[0] + Spaced(texts[1..])
  }

  datatype Version = Version(name: string, separator: char, number: nat)

  predicate IsSeparator(c: char) {
    c == '=' || c == '/' || c == ':'
  }

  predicate IsVersion(v: Version) {
    && v.name != "" && HasNoSpace(v.name) && IsSeparator(v.separator) && v.number <= MAX_INT64
    && forall i | 0 <= i < |v.name| :: !IsSeparator(v.name[i])
  }

  function VersionText(v: Version): string {
    v.name + [v.separator] + Decimal(v.number)
  }

  function VersionTexts(versions: seq<Version>): seq<string> {
    seq(|versions|, i requires 0 <= i < |versions| => VersionText(versions[i]))
  }

  function VersionLine(versions: seq<Version>): string {
    "versions:" + Spaced(VersionTexts(versions))
  }

  /** What a broker has to report. */
  datatype Tables = Tables(versions: seq<Version>, attributes: seq<Attribute>)

  predicate AreReportable(attributes: seq<Attribute>) {
    forall i | 0 <= i < |attributes| ::
      IsAttribute(attributes[i]) && IsPlain(attributes[i].key) && IsPlain(attributes[i].value)
  }

  /** Fields that can be told apart on a line, in plain text. */
  predicate Reportable(t: Tables) {
    && t.attributes != [] && AreReportable(t.attributes)
    && (forall i | 0 <= i < |t.versions| :: IsVersion(t.versions[i]) && IsPlain(t.versions[i].name))
  }

  /** Printable text without spaces, `=` and `>`. */
  predicate IsTidy(s: string) {
    forall i | 0 <= i < |s| :: '!' <= s[i] <= '<' || '?' <= s[i] <= 'z'
  }

  lemma TidyIsReportable(a: Attribute)
    requires IsTidy(a.key) && IsTidy(a.value)
    ensures AreReportable([a])
  {
  }

  predicate IsLower(s: string) {
    s != "" && forall i | 0 <= i < |s| :: 'a' <= s[i] <= 'z'
  }

  lemma LowerIsVersion(v: Version)
    requires IsLower(v.name) && IsSeparator(v.separator) && v.number <= MAX_INT64
    ensures IsVersion(v) && IsPlain(v.name)
  {
  }

  lemma AreReportableConcat(a: seq<Attribute>, b: seq<Attribute>)
    requires AreReportable(a) && AreReportable(b)
    ensures AreReportable(a + b)
  {
  }

  // ----- plain text -----

  /** Printable text without a prompt's last character. */
  predicate IsPlain(t: string) {
    forall i | 0 <= i < |t| :: ' ' <= t[i] < '>' || '>' < t[i] <= 'z'
  }

  lemma {:induction false} SpacedIsPlain(words: seq<string>)
    requires forall i | 0 <= i < |words| :: IsPlain(words[i])
    ensures IsPlain(Spaced(words))
  {
    if words != [] {
      SpacedIsPlain(words[1..]);
    }
  }

  lemma AttributeLineIsPlain(attributes: seq<Attribute>)
    requires attributes != []
    requires forall i | 0 <= i < |attributes| :: IsPlain(attributes[i].key) && IsPlain(attributes[i].value)
    ensures IsPlain(AttributeLine(attributes))
  {
    var texts := AttributeTexts(attributes);
    forall i | 0 <= i < |texts|
      ensures IsPlain(texts[i])
    {
      assert texts[i] == AttributeText(attributes[i]);
    }
    SpacedIsPlain(texts[1..]);
  }

  lemma VersionLineIsPlain(versions: seq<Version>)
    requires forall i | 0 <= i < |versions| :: IsPlain(versions[i].name) && IsSeparator(versions[i].separator)
    ensures IsPlain(VersionLine(versions))
  {
    var texts := VersionTexts(versions);
    forall i | 0 <= i < |texts|
      ensures IsPlain(texts[i])
    {
      assert texts[i] == VersionText(versions[i]);
    }
    SpacedIsPlain(texts);
  }

  lemma {:induction false} SpacedEnd(words: seq<string>)
    requires words != [] && words[|words| - 1] != ""
    ensures var s, last := Spaced(words), words[|words| - 1];
      s != "" && s[|s| - 1] == last[|last| - 1]
  {
    var s := Spaced(words);
    if |words| == 1 {
      assert s == " " + words[0];
    } else {
      SpacedEnd(words[1..]);
    }
  }

  /** A line of versions ends in a digit, or in the colon of an empty list. */
  lemma VersionLineEnd(versions: seq<Version>)
    ensures var s := VersionLine(versions);
      s[0] == 'v' && (s[|s| - 1] == ':' || '0' <= s[|s| - 1] <= '9')
  {
    var texts, s := VersionTexts(versions), VersionLine(versions);
    assert s[0] == "versions:"[0];
    if versions == [] {
      assert s == "versions:";
    } else {
      var n := |versions| - 1;
      var digits := Decimal(versions[n].number);
      assert texts[n] == VersionText(versions[n]) && texts[n][|texts[n]| - 1] == digits[|digits| - 1];
      SpacedEnd(texts);
    }
  }
}

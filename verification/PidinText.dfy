/** Cutting `pidin` output into rows of fields (splitLines, internal/qconn/framing.go, and the `Fields` of
    parsePidinThreads, internal/qconn/sysinfo.go). */
module PidinText {
  import opened Sequences
  import opened QconnText
  import opened QconnHex
  import opened QconnLines
  import opened QconnReplies
  import opened QconnFields
  import opened Pidin

  function Kept(line: string): seq<string> {
    if IsNoise(TrimRightCR(line)) then [] else [TrimRightCR(line)]
  }

  /** The lines of a text that mean something. */
  function Lines(s: string): seq<string>
    decreases |s|
  {
    match CutAt(s, '\n')
    case NotFound => Kept(s)
    case Cut(line, rest) => Kept(line) + Lines(rest)
  }

  method SplitLines(s: string) returns (out: seq<string>)
    ensures out == Lines(s)
  {
    out := [];
    var rest := s;
    assert [] + Lines(s) == Lines(s);
    while true
      invariant out + Lines(rest) == Lines(s)
      decreases |rest|
    {
      var cut := CutAt(rest, '\n');
      var line := TrimRightCR(if cut.Cut? then cut.before else rest);
      if cut.Cut? {
        Regroup(out, Kept(cut.before), Lines(cut.after));
      }
      assert out + [] == out;
      if !IsNoise(line) {
        out := out + [line];
      }
      if cut.NotFound? {
        return;
      }
      rest := cut.after;
    }
  }

  function Split(lines: seq<string>): seq<Row> {
    seq(|lines|, i requires 0 <= i < |lines| => Words(lines[i], ""))
  }

  function RowsOf(out: string): seq<Row> {
    Split(Lines(out))
  }

  /** The whole of it: cut, parsed and grouped line by line. */
  method ParseThreads(out: string) returns (result: seq<Process>)
    ensures result == Grouped(Entries(RowsOf(out)))
  {
    var lines := SplitLines(out);
    result := GroupLines(lines);
  }

  method GroupLines(lines: seq<string>) returns (result: seq<Process>)
    ensures result == Grouped(Entries(Split(lines)))
  {
    var table := new Pidin.Table();
    ghost var all, es: seq<Entry> := Entries(Split(lines)), [];
    for i := 0 to |lines|
      invariant es == all[..i]
      invariant fresh(table) && fresh(table.byPid.Values)
      invariant table.Holds(es)
    {
      var e := Parse(Words(lines[i], ""));
      assert e == all[i];
      table.AddRow(es, e);
      es := es + [e];
    }
    assert es == all;
    result := table.Result(es);
  }

  // ----- rows as they are printed -----

  predicate IsPadding(pad: string) {
    forall i | 0 <= i < |pad| :: pad[i] == ' ' || pad[i] == '\t'
  }

  /** A row in print: fields and the blanks in front of each, of which the first may have none. */
  datatype Printed = Printed(pads: seq<string>, fields: Row)

  predicate IsRow(p: Printed) {
    && |p.pads| == |p.fields| && p.fields != [] && !IsNoiseRow(p.fields)
    && (forall i | 0 <= i < |p.fields| :: IsPadding(p.pads[i]) && p.fields[i] != "" && HasNoSpace(p.fields[i]))
    && (forall i | 1 <= i < |p.pads| :: p.pads[i] != "")
  }

  /** The two words of the noise line. */
  predicate IsNoiseRow(fields: Row) {
    |fields| == 2 && fields[0] + " " + fields[1] == NOISE
  }

  function Padded(pads: seq<string>, fields: Row): string
    requires |pads| == |fields|
    decreases |pads|
  {
    if pads == [] then "" else pads[0] + (fields[0] + Padded(pads[1..], fields[1..]))
  }

  function Text(p: Printed): string
    requires IsRow(p)
  {
    Padded(p.pads, p.fields)
  }

  /** A listing: rows, each on a line of its own. */
  function Listing(rows: seq<Printed>, eol: string): string
    requires forall i | 0 <= i < |rows| :: IsRow(rows[i])
  {
    if rows == [] then "" else assert IsRow(rows[0]); Text(rows[0]) + eol + Listing(rows[1..], eol)
  }

  lemma {:induction false} PaddingEndsWord(pad: string, word: string)
    requires IsPadding(pad) && pad != ""
    ensures Words(pad, word) == if word == "" then [] else [word]
  {
    WordsOfSpaces(pad[1..]);
  }

  lemma {:induction false} PaddedIsRead(pads: seq<string>, fields: Row, word: string)
    requires |pads| == |fields|
    requires forall i | 0 <= i < |fields| :: IsPadding(pads[i]) && fields[i] != "" && HasNoSpace(fields[i])
    requires forall i | 0 <= i < |pads| :: pads[i] != "" || (i == 0 && word == "")
    ensures Words(Padded(pads, fields), word) == (if word == "" then [] else [word]) + fields
    decreases |pads|
  {
    if pads != [] {
      var later := Padded(pads[1..], fields[1..]);
      var s := fields[0] + later;
      if pads[0] == "" {
        assert pads[0] + s == s;
      } else {
        PaddingEndsWord(pads[0], word);
        WordsConcat(pads[0], s, word);
      }
      WordIsRead(fields[0], later, "");
      assert "" + fields[0] == fields[0];
      PaddedIsRead(pads[1..], fields[1..], fields[0]);
      assert fields == [fields[0]] + fields[1..];
    }
  }

  lemma {:induction false} PaddedIsALine(pads: seq<string>, fields: Row)
    requires |pads| == |fields| > 0
    requires forall i | 0 <= i < |fields| :: IsPadding(pads[i]) && fields[i] != "" && HasNoSpace(fields[i])
    ensures var s := Padded(pads, fields);
      '\n' !in s && s != "" && !IsAsciiSpace(s[|s| - 1])
    decreases |pads|
  {
    if |pads| > 1 {
      PaddedIsALine(pads[1..], fields[1..]);
    } else {
      assert Padded(pads[1..], fields[1..]) == "";
      assert fields[0] + "" == fields[0];
    }
  }

  // ----- noise -----

  lemma {:induction false} TrimLeftKeepsWords(s: string)
    ensures Words(TrimSpaceLeft(s), "") == Words(s, "")
  {
    if s != "" && IsAsciiSpace(s[0]) {
      TrimLeftKeepsWords(s[1..]);
    }
  }

  lemma {:induction false} LastSpace(t: string, c: char, word: string)
    requires IsAsciiSpace(c)
    ensures Words(t + [c], word) == Words(t, word)
    decreases |t|
  {
    if t == "" {
      assert (t + [c])[1..] == "";
    } else {
      assert (t + [c])[1..] == t[1..] + [c];
      LastSpace(t[1..], c, if IsAsciiSpace(t[0]) then "" else word + [t[0]]);
    }
  }

  lemma {:induction false} TrimRightKeepsWords(s: string)
    ensures Words(TrimSpaceRight(s), "") == Words(s, "")
  {
    if s != "" && IsAsciiSpace(s[|s| - 1]) {
      var t := s[..|s| - 1];
      assert s == t + [s[|s| - 1]];
      LastSpace(t, s[|s| - 1], "");
      TrimRightKeepsWords(t);
    }
  }

  lemma NoiseSpace()
    ensures |NOISE| == 36 && NOISE[5] == ' '
    ensures forall i | 0 <= i < 36 && i != 5 :: !IsAsciiSpace(NOISE[i])
  {
  }

  lemma TwoWords(a: string, b: string)
    requires a != "" && b != "" && HasNoSpace(a) && HasNoSpace(b)
    ensures Words(a + " " + b, "") == [a, b]
  {
    Regroup(a, " ", b);
    assert Spaced([b]) == " " + b;
    LineIsRead(a, [b]);
  }

  lemma OneSpaceIsTwoWords(s: string, k: nat)
    requires 0 < k < |s| - 1 && s[k] == ' ' && forall i | 0 <= i < |s| && i != k :: !IsAsciiSpace(s[i])
    ensures var row := Words(s, "");
      |row| == 2 && row[0] + " " + row[1] == s
  {
    var a, b := s[..k], s[k + 1..];
    assert a + " " + b == s;
    TwoWords(a, b);
  }

  lemma NoiseHasTwoWords(noise: string)
    requires noise == NOISE
    ensures IsNoiseRow(Words(noise, ""))
  {
    NoiseSpace();
    OneSpaceIsTwoWords(noise, 5);
  }

  /** The lines that are dropped are the blank ones and the noise line. */
  lemma NoiseHasNoRow(line: string)
    requires IsNoise(line)
    ensures Words(line, "") == [] || IsNoiseRow(Words(line, ""))
  {
    TrimLeftKeepsWords(line);
    TrimRightKeepsWords(TrimSpaceLeft(line));
    if TrimSpace(line) == NOISE {
      NoiseHasTwoWords(TrimSpace(line));
    }
  }

  // ----- a listing is read back -----

  lemma RowIsKept(p: Printed, eol: string)
    requires IsRow(p) && (eol == "\n" || eol == "\r\n")
    ensures var line := Text(p) + eol[..|eol| - 1];
      '\n' !in line && Kept(line) == [Text(p)] && Words(Text(p), "") == p.fields
  {
    PaddedIsALine(p.pads, p.fields);
    PaddedIsRead(p.pads, p.fields, "");
    assert [] + p.fields == p.fields;
    if IsNoise(Text(p)) {
      NoiseHasNoRow(Text(p));
    }
    TrimmedLine(Text(p), eol);
  }

  lemma TrimmedLine(s: string, eol: string)
    requires '\n' !in s && s != "" && !IsAsciiSpace(s[|s| - 1]) && (eol == "\n" || eol == "\r\n")
    ensures '\n' !in s + eol[..|eol| - 1] && TrimRightCR(s + eol[..|eol| - 1]) == s
  {
    if eol == "\n" {
      assert s + eol[..0] == s;
    } else {
      assert eol[..1] == "\r" && (s + "\r")[..|s|] == s;
    }
  }

  function FieldsOf(rows: seq<Printed>): seq<Row> {
    if rows == [] then [] else [rows[0].fields] + FieldsOf(rows[1..])
  }

  /** Rows of fields, printed with any padding and either kind of line end, are read back as they are. */
  lemma {:induction false} ListingIsRead(rows: seq<Printed>, eol: string)
    requires forall i | 0 <= i < |rows| :: IsRow(rows[i])
    requires eol == "\n" || eol == "\r\n"
    ensures RowsOf(Listing(rows, eol)) == FieldsOf(rows)
    decreases |rows|
  {
    if rows == [] {
      assert Lines("") == [];
    } else {
      assert IsRow(rows[0]);
      RowIsKept(rows[0], eol);
      ListingIsRead(rows[1..], eol);
      OneMoreLine(Text(rows[0]), eol, Listing(rows[1..], eol), rows[0].fields);
    }
  }

  lemma OneMoreLine(s: string, eol: string, rest: string, fields: Row)
    requires eol == "\n" || eol == "\r\n"
    requires var line := s + eol[..|eol| - 1];
      '\n' !in line && Kept(line) == [s] && Words(s, "") == fields
    ensures RowsOf(s + eol + rest) == [fields] + RowsOf(rest)
  {
    EndOfLine(s, eol, rest);
    FirstLineIsCut(s + eol[..|eol| - 1], rest);
    SplitNext(s, Lines(rest));
  }

  lemma EndOfLine(s: string, eol: string, rest: string)
    requires eol == "\n" || eol == "\r\n"
    ensures s + eol + rest == s + eol[..|eol| - 1] + ['\n'] + rest
  {
    assert eol == eol[..|eol| - 1] + ['\n'];
  }

  lemma FirstLineIsCut(line: string, rest: string)
    requires '\n' !in line
    ensures Lines(line + ['\n'] + rest) == Kept(line) + Lines(rest)
  {
    CutAtFirst(line, '\n', rest);
  }

  lemma SplitNext(s: string, lines: seq<string>)
    ensures Split([s] + lines) == [Words(s, "")] + Split(lines)
  {
  }
}

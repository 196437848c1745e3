/** Hexadecimal numbers in qconn commands and responses (`%x` and `ParseInt(s, 16, 64)`). */
module QconnHex {
  import opened Sequences
  import opened HexText
  import opened QconnText

  const MAX_INT64: int := 0x7fff_ffff_ffff_ffff

  predicate IsHexChar(c: char) {
    '0' <= c <= '9' || 'a' <= c <= 'f' || 'A' <= c <= 'F'
  }

  function CharOf(d: digit): (c: char)
    ensures IsHexChar(c)
  {
    if d < 10 then (d + '0' as int) as char else (d - 10 + 'a' as int) as char
  }

  function DigitOf(c: char): digit
    requires IsHexChar(c)
  {
    if '0' <= c <= '9' then c as int - '0' as int
    else if 'a' <= c <= 'f' then c as int - 'a' as int + 10
    else c as int - 'A' as int + 10
  }

  /** A non-empty text of hexadecimal digits. */
  predicate IsHex(s: string) {
    s != "" && forall i | 0 <= i < |s| :: IsHexChar(s[i])
  }

  function HexValue(s: string): nat
    requires IsHex(s)
  {
    Value(seq<digit>(|s|, i requires 0 <= i < |s| => DigitOf(s[i])))
  }

  /** `%x` of a number that is not negative. */
  function Hex(n: nat): (s: string)
    ensures IsHex(s)
  {
    var ds := Digits(n);
    seq<char>(|ds|, i requires 0 <= i < |ds| => CharOf(ds[i]))
  }

  /** `%x` of any number. */
  function HexInt(n: int): string {
    if n < 0 then "-" + Hex(-n) else Hex(n)
  }

  lemma HexRoundTrip(n: nat)
    ensures HexValue(Hex(n)) == n
  {
    var ds, s := Digits(n), Hex(n);
    assert seq<digit>(|s|, i requires 0 <= i < |s| => DigitOf(s[i])) == ds;
    ValueOfDigits(n);
  }

  /** `ParseInt(s, 16, 64)`: an optional sign, digits, and the range of a 64-bit integer. */
  function ParseHex(s: string): Option<int> {
    var neg := s != "" && s[0] == '-';
    var digits := if s != "" && (s[0] == '-' || s[0] == '+') then s[1..] else s;
    if !IsHex(digits) then None
    else
      var v: int := HexValue(digits);
      if neg then (if v <= MAX_INT64 + 1 then Some(-v) else None)
      else if v <= MAX_INT64 then Some(v) else None
  }

  lemma ParseHexOfHex(n: nat)
    requires n <= MAX_INT64
    ensures ParseHex(Hex(n)) == Some(n)
  {
    assert Hex(n)[0] != '-' && Hex(n)[0] != '+';
    HexRoundTrip(n);
  }

  /** The same for digits only and with the range error ignored: too large a numeral counts as the
      largest number. */
  function ParseDigits(s: string): nat
    requires IsHex(s)
  {
    if HexValue(s) <= MAX_INT64 then HexValue(s) else MAX_INT64
  }

  lemma ParseDigitsOfHex(n: nat)
    requires n <= MAX_INT64
    ensures ParseDigits(Hex(n)) == n
  {
    HexRoundTrip(n);
  }

  // ----- fields -----

  /** The text before and after the first occurrence of a character. */
  datatype Cut = NotFound | Cut(before: string, after: string)

  function CutAt(s: string, c: char): (r: Cut)
    ensures r.Cut? ==> s == r.before + [c] + r.after && c !in r.before
  {
    var k := IndexOf(s, c);
    if k == |s| then NotFound else Cut(s[..k], s[k + 1..])
  }

  lemma CutAtFirst(a: string, c: char, b: string)
    requires c !in a
    ensures CutAt(a + [c] + b, c) == Cut(a, b)
  {
    IndexOfAfter(a, c, b);
    assert (a + [c] + b)[..|a|] == a && (a + [c] + b)[|a| + 1..] == b;
  }

  predicate HasPrefix(s: string, prefix: string) {
    prefix <= s
  }
}

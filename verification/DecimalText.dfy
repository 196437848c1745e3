/** Decimal numbers in the text of responses (`strconv.Atoi`). */
module DecimalText {
  import opened QconnText
  import opened QconnHex

  predicate IsDecimal(s: string) {
    s != "" && forall i | 0 <= i < |s| :: '0' <= s[i] <= '9'
  }

  function DecimalValue(s: string): int
    requires forall i | 0 <= i < |s| :: '0' <= s[i] <= '9'
  {
    if s == "" then 0 else 10 * DecimalValue(s[..|s| - 1]) + (s[|s| - 1] as int - '0' as int)
  }

  function Unsigned(s: string): string {
    if s != "" && (s[0] == '-' || s[0] == '+') then s[1..] else s
  }

  predicate IsNegative(s: string) {
    s != "" && s[0] == '-'
  }

  /** `Atoi`: an optional sign, digits, the range of a 64-bit integer. */
  function Atoi(s: string): Option<int> {
    if !IsDecimal(Unsigned(s)) then None
    else
      var v := DecimalValue(Unsigned(s));
      if IsNegative(s) then (if v <= MAX_INT64 + 1 then Some(-v) else None)
      else if v <= MAX_INT64 then Some(v) else None
  }

  /** `Atoi` with its error ignored: out of range gives the nearest number, malformed zero. */
  function LenientAtoi(s: string): int {
    match Atoi(s)
    case Some(v) => v
    case None =>
      if !IsDecimal(Unsigned(s)) then 0 else if IsNegative(s) then -MAX_INT64 - 1 else MAX_INT64
  }

  function Decimal(n: nat): (s: string)
    ensures s != "" && forall i | 0 <= i < |s| :: '0' <= s[i] <= '9'
  {
    (if n < 10 then "" else Decimal(n / 10)) + [(n % 10 + '0' as int) as char]
  }

  lemma {:induction false} DecimalIsRead(n: nat)
    ensures DecimalValue(Decimal(n)) == n
  {
    var s := Decimal(n);
    assert s[|s| - 1] == (n % 10 + '0' as int) as char;
    if n < 10 {
      assert s[..|s| - 1] == "";
    } else {
      assert s[..|s| - 1] == Decimal(n / 10);
      DecimalIsRead(n / 10);
    }
  }

  lemma AtoiOfDecimal(n: nat)
    requires n <= MAX_INT64
    ensures Atoi(Decimal(n)) == Some(n)
  {
    DecimalIsRead(n);
    assert Decimal(n)[0] != '-' && Decimal(n)[0] != '+';
    assert Unsigned(Decimal(n)) == Decimal(n);
  }
}

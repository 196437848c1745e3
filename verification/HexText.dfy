/** Hexadecimal numerals as digit values; the protocols render them as characters or octets. */
module HexText {

  type digit = x: int | 0 <= x < 16

  /** The shortest numeral of `n` (`%x`). */
  function Digits(n: nat): (ds: seq<digit>)
    ensures ds != []
  {
    if n < 16 then [n] else Digits(n / 16) + [n % 16]
  }

  /** The number a numeral denotes. */
  function Value(ds: seq<digit>): nat {
    if ds == [] then 0 else 16 * Value(ds[..|ds| - 1]) + ds[|ds| - 1]
  }

  lemma {:induction false} ValueOfDigits(n: nat)
    ensures Value(Digits(n)) == n
  {
    if n >= 16 {
      ValueOfDigits(n / 16);
      assert Digits(n)[..|Digits(n)| - 1] == Digits(n / 16);
    } else {
      assert [n][..0] == [];
    }
  }
}

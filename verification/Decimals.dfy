/** Integers as they are printed. */
module Decimals {

  function Decimal(n: int): string
    decreases if n < 0 then -n + 1 else n
  {
    if n < 0 then "-" + Decimal(-n)
    else if n < 10 then [('0' as int + n) as char]
    else Decimal(n / 10) + Decimal(n % 10)
  }

  /** The number a row of digits stands for. */
  function FromDigits(s: string): int {
    if s == [] then 0 else FromDigits(s[..|s| - 1]) * 10 + (s[|s| - 1] as int - '0' as int)
  }

  /** What is printed is digits that stand for the number, after a minus sign if it is negative. */
  lemma {:induction false} DecimalReads(n: int)
    ensures n >= 0 ==> Decimal(n) != [] && FromDigits(Decimal(n)) == n && forall c <- Decimal(n) :: '0' <= c <= '9'
    ensures n < 0 ==> Decimal(n) == "-" + Decimal(-n)
    decreases if n < 0 then -n + 1 else n
  {
    if n >= 10 {
      DecimalReads(n / 10);
      var last := Decimal(n % 10);
      assert |last| == 1 && Decimal(n)[..|Decimal(n)| - 1] == Decimal(n / 10);
    } else if n >= 0 {
      assert Decimal(n)[..0] == [];
    }
  }
}

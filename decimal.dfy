/**
 * The decimal form JavaScript gives a non-negative integer when it is
 * concatenated with a string (`'0' + 5`, `str + value[k]`) or written as text
 * (`.text(59)`), and the digit reading that undoes it.
 */
module Decimal {

  predicate IsDigit(c: char) {
    '0' <= c <= '9'
  }

  predicate AllDigits(s: string) {
    forall i | 0 <= i < |s| :: IsDigit(s[i])
  }

  function DigitChar(d: nat): (c: char)
    requires d < 10
    ensures IsDigit(c) && c as int - '0' as int == d
  {
    ('0' as int + d) as char
  }

  /** The value of one character read as a digit (0 for anything else). */
  function DigitValue(c: char): (d: nat)
    ensures d < 10
  {
    if IsDigit(c) then c as int - '0' as int else 0
  }

  /** Number-to-String of a natural: its digits, most significant first, with no leading zero. */
  function Show(n: nat): (r: string)
    ensures 1 <= |r| && AllDigits(r)
    ensures (|r| == 1) == (n < 10)
    ensures n >= 10 ==> r[0] != '0'
    decreases n
  {
    if n < 10 then [DigitChar(n)] else Show(n / 10) + [DigitChar(n % 10)]
  }

  /** Reads a digit string as a natural, most significant digit first. */
  function Value(s: string): (n: nat)
    decreases |s|
  {
    if s == [] then 0 else Value(s[..|s| - 1]) * 10 + DigitValue(s[|s| - 1])
  }

  /** Reading back the decimal form of n gives n. */
  lemma {:induction false} ValueOfShow(n: nat)
    ensures Value(Show(n)) == n
    decreases n
  {
    var s := Show(n);
    if n >= 10 {
      ValueOfShow(n / 10);
      assert s[..|s| - 1] == Show(n / 10);
    } else {
      assert s[..0] == [];
    }
  }

  /** Different naturals have different decimal forms. */
  lemma ShowInjective(m: nat, n: nat)
    ensures (Show(m) == Show(n)) == (m == n)
  {
    ValueOfShow(m);
    ValueOfShow(n);
  }

  /** A natural below 100 has at most two digits. */
  lemma {:induction false} ShowBelowHundred(n: nat)
    requires n < 100
    ensures |Show(n)| <= 2
  {
  }
}

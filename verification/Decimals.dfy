/** Decimal notation: what `write_unsigned` prints, and its inverse. */
module Decimals {

  predicate IsDigit(c: char) {
    '0' <= c <= '9'
  }

  function Digit(d: nat): (c: char)
    requires d < 10
    ensures IsDigit(c)
  {
    '0' + d as char
  }

  function Value(c: char): nat
    requires IsDigit(c)
  {
    c as int - '0' as int
  }

  function Decimal(n: nat): (s: string)
    ensures |s| > 0 && forall i :: 0 <= i < |s| ==> IsDigit(s[i])
  {
    if n < 10 then [Digit(n)] else Decimal(n / 10) + [Digit(n % 10)]
  }

  function Parse(s: string): nat
    requires forall i :: 0 <= i < |s| ==> IsDigit(s[i])
  {
    if s == "" then 0 else Parse(s[..|s| - 1]) * 10 + Value(s[|s| - 1])
  }

  /** Digits without a leading zero, except for zero itself. */
  predicate Canonical(s: string) {
    && |s| > 0 && (forall i :: 0 <= i < |s| ==> IsDigit(s[i]))
    && (s[0] == '0' ==> s == "0")
  }

  lemma ParseAppend(s: string, d: nat)
    requires d < 10 && forall i :: 0 <= i < |s| ==> IsDigit(s[i])
    ensures Parse(s + [Digit(d)]) == Parse(s) * 10 + d
  {
    assert (s + [Digit(d)])[..|s|] == s;
  }

  lemma {:induction false} PrintThenParse(n: nat)
    ensures Parse(Decimal(n)) == n
  {
    if n < 10 {
      ParseAppend("", n);
      assert Decimal(n) == "" + [Digit(n)];
    } else {
      PrintThenParse(n / 10);
      ParseAppend(Decimal(n / 10), n % 10);
    }
  }

  /** Only zero is printed with a leading zero. */
  lemma {:induction false} PrintsCanonically(n: nat)
    ensures Canonical(Decimal(n))
    ensures Decimal(n)[0] == '0' ==> n == 0
  {
    if n >= 10 {
      PrintsCanonically(n / 10);
      assert Decimal(n)[0] == Decimal(n / 10)[0];
    }
  }

  lemma {:induction false} ParseThenPrint(s: string)
    requires Canonical(s)
    ensures Decimal(Parse(s)) == s
    ensures s[0] != '0' ==> Parse(s) > 0
  {
    var front, d := s[..|s| - 1], Value(s[|s| - 1]);
    assert s == front + [Digit(d)];
    if front != "" {
      assert front[0] == s[0];
      ParseThenPrint(front);
      DivideByTen(Parse(front), d);
    }
  }

  lemma DivideByTen(q: nat, d: nat)
    requires d < 10
    ensures (q * 10 + d) / 10 == q && (q * 10 + d) % 10 == d
  {
  }

  function Pow10(k: nat): nat {
    if k == 0 then 1 else 10 * Pow10(k - 1)
  }

  lemma {:induction false} DecimalLength(n: nat, k: nat)
    requires n < Pow10(k)
    ensures |Decimal(n)| <= k || k == 0
  {
    if n >= 10 {
      assert k > 1;
      DecimalLength(n / 10, k - 1);
    }
  }

  /** Twenty digits are enough for every 64-bit number. */
  lemma TwentyDigits(n: nat)
    requires n < 0x1_0000_0000_0000_0000
    ensures |Decimal(n)| <= 20
  {
    assert Pow10(5) == 100000;
    assert Pow10(10) == 100000 * Pow10(5);
    assert Pow10(15) == 100000 * Pow10(10);
    assert Pow10(20) == 100000 * Pow10(15);
    DecimalLength(n, 20);
  }
}

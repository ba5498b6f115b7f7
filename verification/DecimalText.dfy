/** Decimal numbers as text: how "%d" writes them, and what their digits mean. */
module DecimalText {
  function Digit(d: nat): char
    requires d < 10
  {
    '0' + d as char
  }

  function Digits(n: nat): string {
    if n < 10 then [Digit(n)] else Digits(n / 10) + [Digit(n % 10)]
  }

  function Decimal(n: int): string {
    if n < 0 then "-" + Digits(-n) else Digits(n)
  }

  predicate IsDigit(c: char) { '0' <= c <= '9' }

  function DigitValue(c: char): (d: nat)
    requires IsDigit(c)
    ensures d < 10
  {
    (c - '0') as nat
  }

  predicate AllDigits(s: string) {
    forall i :: 0 <= i < |s| ==> IsDigit(s[i])
  }

  /** The number that a string of digits stands for. */
  function Value(s: string): nat
    requires AllDigits(s)
  {
    if s == "" then 0 else 10 * Value(s[..|s| - 1]) + DigitValue(s[|s| - 1])
  }

  /** The digits a text starts with, at most n of them. */
  function Leading(s: string, n: nat): (r: string)
    ensures AllDigits(r) && r <= s && |r| <= n
    ensures |r| < n && |r| < |s| ==> !IsDigit(s[|r|])
    decreases n
  {
    if n == 0 || s == "" || !IsDigit(s[0]) then "" else [s[0]] + Leading(s[1..], n - 1)
  }

  lemma {:induction false} LeadingIs(s: string, n: nat, k: nat)
    requires k <= |s| && k <= n && AllDigits(s[..k])
    requires k == n || k == |s| || !IsDigit(s[k])
    ensures Leading(s, n) == s[..k]
    decreases k
  {
    if k > 0 {
      assert s[..k][0] == s[0] && s[1..][..k - 1] == s[..k][1..];
      LeadingIs(s[1..], n - 1, k - 1);
      assert s[..k] == [s[0]] + s[1..][..k - 1];
    }
  }

  function Pow10(n: nat): (r: nat)
    ensures r > 0
  {
    if n == 0 then 1 else 10 * Pow10(n - 1)
  }

  lemma {:induction false} ValueBound(s: string)
    requires AllDigits(s)
    ensures Value(s) < Pow10(|s|)
    decreases |s|
  {
    if s != "" {
      ValueBound(s[..|s| - 1]);
    }
  }

  lemma {:induction false} DigitsReadBack(n: nat)
    ensures AllDigits(Digits(n)) && Value(Digits(n)) == n
    decreases n
  {
    var s := Digits(n);
    assert DigitValue(Digit(n % 10)) == n % 10;
    if n < 10 {
      assert s[..0] == "" && s == [Digit(n)];
      assert Value(s) == 10 * Value("") + DigitValue(s[0]);
    } else {
      DigitsReadBack(n / 10);
      assert s[..|s| - 1] == Digits(n / 10);
    }
  }

  /** A number has at most k digits exactly when it is below 10^k. */
  lemma {:induction false} DigitsCount(n: nat, k: nat)
    requires k > 0
    ensures |Digits(n)| <= k <==> n < Pow10(k)
    decreases n
  {
    if n < 10 {
      TenToThe(k);
    } else if k == 1 {
      assert Pow10(1) == 10 * Pow10(0);
    } else {
      DigitsCount(n / 10, k - 1);
    }
  }

  lemma {:induction false} TenToThe(k: nat)
    requires k > 0
    ensures Pow10(k) >= 10
    decreases k
  {
    if k > 1 {
      TenToThe(k - 1);
    }
  }
}

// Numbers written out by std::to_string, as label names use them.

module Decimal {

  function Digits(n: nat): (s: string)
    ensures |s| > 0
  {
    var d := ['0' + (n % 10) as char];
    if n < 10 then d else Digits(n / 10) + d
  }

  // The number a decimal numeral stands for.
  function NumberOf(s: string): int {
    if s == "" then 0 else 10 * NumberOf(s[..|s| - 1]) + (s[|s| - 1] as int - '0' as int)
  }

  // Decimal digits, most significant first and without leading zeros, that stand for n.
  lemma {:induction false} DigitsExact(n: nat)
    ensures forall c :: c in Digits(n) ==> '0' <= c <= '9'
    ensures NumberOf(Digits(n)) == n && (n > 0 ==> Digits(n)[0] != '0')
  {
    var s := Digits(n);
    assert s[|s| - 1] == '0' + (n % 10) as char;
    assert s[|s| - 1] as int - '0' as int == n % 10;
    if n >= 10 {
      DigitsExact(n / 10);
      assert s[..|s| - 1] == Digits(n / 10);
    } else {
      assert s[..|s| - 1] == "";
    }
  }

  lemma {:induction false} DigitsInjective(a: nat, b: nat)
    requires Digits(a) == Digits(b)
    ensures a == b
  {
    var s, t := Digits(a), Digits(b);
    assert s[|s| - 1] == '0' + (a % 10) as char && t[|t| - 1] == '0' + (b % 10) as char;
    assert a % 10 == b % 10;
    if a >= 10 { assert s[..|s| - 1] == Digits(a / 10); }
    if b >= 10 { assert t[..|t| - 1] == Digits(b / 10); }
    if a >= 10 && b >= 10 {
      DigitsInjective(a / 10, b / 10);
    }
  }
}

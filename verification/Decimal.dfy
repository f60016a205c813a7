/** Unsigned decimal numbers: `Display` for u64 and `str::parse::<u64>`. */
module Decimal {
  import opened ByteText

  const U64_LIMIT: nat := 0x1_0000_0000_0000_0000

  predicate IsDigit(c: char) { '0' <= c <= '9' }

  predicate AllDigits(s: Text) { forall i :: 0 <= i < |s| ==> IsDigit(s[i]) }

  function Digit(d: nat): (c: char)
    requires d < 10
    ensures IsDigit(c) && DigitValue(c) == d
  {
    (d + '0' as int) as char
  }

  function DigitValue(c: char): (d: nat)
    requires IsDigit(c)
    ensures d < 10
  {
    c as int - '0' as int
  }

  function Show(n: nat): (s: Text)
    ensures s != "" && AllDigits(s)
    decreases n
  {
    if n < 10 then [Digit(n)] else Show(n / 10) + [Digit(n % 10)]
  }

  function Value(s: Text): nat
    requires AllDigits(s)
  {
    if s == "" then 0 else 10 * Value(s[..|s| - 1]) + DigitValue(s[|s| - 1])
  }

  /** One leading `+` is accepted, at least one digit is required, leading zeros are fine and
      a value of 2^64 or more overflows. */
  function ParseU64(s: Text): (r: Option<nat>)
    ensures r.Some? ==> r.value < U64_LIMIT
  {
    var digits := if |s| > 1 && s[0] == '+' then s[1..] else s;
    if digits == "" || !AllDigits(digits) || Value(digits) >= U64_LIMIT then None
    else Some(Value(digits))
  }

  lemma {:induction false} ValueShow(n: nat)
    ensures Value(Show(n)) == n
    decreases n
  {
    if n >= 10 {
      ValueShow(n / 10);
      var s := Show(n);
      assert s[..|s| - 1] == Show(n / 10);
    }
  }

  lemma ParseShow(n: nat)
    requires n < U64_LIMIT
    ensures ParseU64(Show(n)) == Some(n)
  {
    ValueShow(n);
    assert IsDigit(Show(n)[0]);
  }

  lemma ShowInjective(m: nat, n: nat)
    requires Show(m) == Show(n)
    ensures m == n
  {
    ValueShow(m);
    ValueShow(n);
  }

  // ----- what is accepted and what is written, digit by digit

  function Power10(k: nat): nat { if k == 0 then 1 else 10 * Power10(k - 1) }

  /** Decimal positional notation. */
  function Positional(s: Text): int {
    if s == "" then 0 else (s[0] as int - '0' as int) * Power10(|s| - 1) + Positional(s[1..])
  }

  predicate Decimals(s: Text) { s != "" && forall c :: c in s ==> '0' <= c <= '9' }

  lemma {:induction false} PositionalInit(s: Text)
    requires s != ""
    ensures Positional(s) == 10 * Positional(s[..|s| - 1]) + (s[|s| - 1] as int - '0' as int)
  {
    if |s| > 1 {
      var t := s[1..];
      var last, front := s[|s| - 1] as int - '0' as int, s[0] as int - '0' as int;
      PositionalInit(t);
      assert t[..|t| - 1] == s[..|s| - 1][1..] && t[|t| - 1] == s[|s| - 1];
      assert Positional(s[..|s| - 1]) == front * Power10(|s| - 2) + Positional(t[..|t| - 1]);
      assert Power10(|s| - 1) == 10 * Power10(|s| - 2);
      TenTimes(front, Power10(|s| - 2));
    }
  }

  lemma TenTimes(a: int, p: int)
    ensures a * (10 * p) == 10 * (a * p)
  {
  }

  lemma {:induction false} ValueIsPositional(s: Text)
    requires AllDigits(s)
    ensures Value(s) == Positional(s)
  {
    if s != "" {
      ValueIsPositional(s[..|s| - 1]);
      PositionalInit(s);
    }
  }

  lemma DigitsAreDecimals(s: Text)
    ensures Decimals(s) <==> s != "" && AllDigits(s)
  {
    assert forall i :: 0 <= i < |s| ==> s[i] in s;
    assert forall c :: c in s ==> exists i :: 0 <= i < |s| && s[i] == c;
    if Decimals(s) {
      forall i | 0 <= i < |s|
        ensures IsDigit(s[i])
      {
        assert s[i] in s;
      }
    }
  }

  /** Which texts are read as a number, and as which. */
  lemma ParseU64Exactly(s: Text, n: nat)
    ensures ParseU64(s) == Some(n) <==>
      exists digits: Text :: Decimals(digits) && (s == digits || s == "+" + digits)
        && n == Positional(digits) && n < 18446744073709551616
  {
    hide Value, Positional;
    var digits := if |s| > 1 && s[0] == '+' then s[1..] else s;
    DigitsAreDecimals(digits);
    if AllDigits(digits) { ValueIsPositional(digits); }
    assert s == digits || s == "+" + digits;
    forall d: Text | Decimals(d) && (s == d || s == "+" + d)
      ensures d == digits
    {
      assert d[0] in d;
      if s == "+" + d { assert s[1..] == d; }
    }
  }

  lemma {:induction false} PositionalShow(n: nat)
    ensures Positional(Show(n)) == n && (Show(n)[0] == '0' ==> n == 0 && Show(n) == "0")
    decreases n
  {
    hide Positional;
    ValueShow(n);
    ValueIsPositional(Show(n));
    if n >= 10 {
      PositionalShow(n / 10);
      assert Show(n)[0] == Show(n / 10)[0];
    }
  }

  lemma {:induction false} SameDigits(s: Text, t: Text)
    requires AllDigits(s) && AllDigits(t) && |s| == |t| && Value(s) == Value(t)
    ensures s == t
  {
    if s != "" {
      var n := |s| - 1;
      assert Value(s[..n]) == Value(t[..n]) && DigitValue(s[n]) == DigitValue(t[n]);
      SameDigits(s[..n], t[..n]);
      assert s == s[..n] + [s[n]] && t == t[..n] + [t[n]];
    }
  }

  lemma {:induction false} ValueRange(s: Text)
    requires AllDigits(s)
    ensures Value(s) < Power10(|s|)
    ensures s != "" && s[0] != '0' ==> Value(s) >= Power10(|s| - 1)
  {
    if s != "" {
      ValueRange(s[..|s| - 1]);
      if |s| > 1 { assert s[..|s| - 1][0] == s[0]; }
    }
  }

  lemma {:induction false} PowerGrows(a: nat, b: nat)
    requires a <= b
    ensures Power10(a) <= Power10(b)
  {
    if a < b { PowerGrows(a, b - 1); }
  }

  /** A number is written with its decimal digits and no superfluous zero in front. */
  lemma ShowExactly(n: nat, s: Text)
    ensures Show(n) == s <==> Decimals(s) && (s[0] == '0' ==> s == "0") && Positional(s) == n
  {
    hide Positional, Value, Show;
    PositionalShow(n);
    DigitsAreDecimals(Show(n));
    DigitsAreDecimals(s);
    if Decimals(s) && (s[0] == '0' ==> s == "0") && Positional(s) == n {
      var t := Show(n);
      ValueIsPositional(s);
      ValueIsPositional(t);
      ValueRange(s);
      ValueRange(t);
      PowerGrows(0, |s| - 1);
      PowerGrows(0, |t| - 1);
      ZeroValue();
      if s != "0" && t != "0" {
        if |s| < |t| {
          PowerGrows(|s|, |t| - 1);
        } else if |t| < |s| {
          PowerGrows(|t|, |s| - 1);
        }
        SameDigits(s, t);
      }
    }
  }

  lemma ZeroValue()
    ensures Positional("0") == 0
  {
  }
}

/** Decimal printing of natural numbers (str) and the integer parser (int) of Python. */
module Decimal {
  import opened Text

  function Digit(d: nat): (c: char)
    requires d < 10
    ensures IsDigit(c) && DigitValue(c) == d
  {
    ('0' as int + d) as char
  }

  predicate IsDigit(c: char) {
    '0' <= c <= '9'
  }

  function DigitValue(c: char): nat
    requires IsDigit(c)
  {
    c as int - '0' as int
  }

  predicate AllDigits(s: string) {
    forall i | 0 <= i < |s| :: IsDigit(s[i])
  }

  /** str(n) */
  function Str(n: nat): (s: string)
    ensures s != "" && AllDigits(s)
  {
    if n < 10 then [Digit(n)] else Str(n / 10) + [Digit(n % 10)]
  }

  function Value(s: string): nat
    requires AllDigits(s)
  {
    if s == "" then 0 else 10 * Value(s[..|s| - 1]) + DigitValue(s[|s| - 1])
  }

  /** The digits of a literal: underscores may stand between two digits. */
  predicate ValidDigits(s: string) {
    && s != "" && IsDigit(s[0]) && IsDigit(s[|s| - 1])
    && (forall i | 0 <= i < |s| :: IsDigit(s[i]) || s[i] == '_')
    && (forall i | 0 < i < |s| :: s[i - 1] != '_' || s[i] != '_')
  }

  function DropUnderscores(s: string): (r: string)
    requires forall i | 0 <= i < |s| :: IsDigit(s[i]) || s[i] == '_'
    ensures AllDigits(r)
    ensures AllDigits(s) ==> r == s
  {
    if s == "" then "" else (if s[0] == '_' then "" else [s[0]]) + DropUnderscores(s[1..])
  }

  function ParseDigits(s: string): Option<nat> {
    if ValidDigits(s) then Some(Value(DropUnderscores(s))) else None
  }

  /** int(s): surrounding white space and a sign are accepted; None stands for ValueError. */
  function ParseInt(s: string): Option<int> {
    var t := Strip(s);
    if t != "" && t[0] == '-' then Signed(-1, ParseDigits(t[1..]))
    else if t != "" && t[0] == '+' then Signed(1, ParseDigits(t[1..]))
    else Signed(1, ParseDigits(t))
  }

  function Signed(sign: int, magnitude: Option<nat>): Option<int> {
    match magnitude case None => None case Some(v) => Some(sign * v)
  }

  lemma {:induction false} ValueOfStr(n: nat)
    ensures Value(Str(n)) == n
  {
    if n < 10 {
      assert Str(n)[..0] == "";
    } else {
      ValueOfStr(n / 10);
      assert Str(n)[..|Str(n)| - 1] == Str(n / 10);
    }
  }

  /** Different numbers are printed differently. */
  lemma StrInjective(m: nat, n: nat)
    requires Str(m) == Str(n)
    ensures m == n
  {
    ValueOfStr(m);
    ValueOfStr(n);
  }

  /** int(str(n)) == n */
  lemma ParseOfStr(n: nat)
    ensures ParseInt(Str(n)) == Some(n)
  {
    var s := Str(n);
    assert IsDigit(s[0]) && IsDigit(s[|s| - 1]);
    StripOfTrimmed(s);
    ValueOfStr(n);
  }

  /** str(n) for any integer. */
  function StrInt(n: int): string {
    if n < 0 then "-" + Str(-n) else Str(n)
  }

  lemma StrIntSign(n: int)
    ensures StrInt(n) != "" && (StrInt(n)[0] == '-' <==> n < 0)
    ensures n < 0 ==> StrInt(n)[1..] == Str(-n)
  {
    assert n >= 0 ==> IsDigit(Str(n)[0]);
  }

  lemma StrIntInjective(m: int, n: int)
    requires StrInt(m) == StrInt(n)
    ensures m == n
  {
    StrIntSign(m);
    StrIntSign(n);
    if m < 0 {
      StrInjective(-m, -n);
    } else {
      StrInjective(m, n);
    }
  }

  lemma StrIntHasNoX(n: int)
    ensures 'x' !in StrInt(n)
  {
  }

  /** int(str(n)) == n for any integer. */
  lemma ParseOfStrInt(n: int)
    ensures ParseInt(StrInt(n)) == Some(n)
  {
    hide ParseDigits; hide Str;
    StrIntSign(n);
    if n < 0 {
      DigitsParse(-n);
      StripOfTrimmed(StrInt(n));
    } else {
      ParseOfStr(n);
    }
  }

  lemma DigitsParse(n: nat)
    ensures ParseDigits(Str(n)) == Some(n)
    ensures Trimmed("-" + Str(n))
  {
    var s := Str(n);
    assert IsDigit(s[0]) && IsDigit(s[|s| - 1]);
    assert ("-" + s)[|s|] == s[|s| - 1];
    ValueOfStr(n);
  }
}

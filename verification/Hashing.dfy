/** The base-36 text of a hash (hash_string in src/xpk/utils/objects.py). */
module Hashing {
  import opened Text
  import opened Arithmetic

  const CHARSET := "0123456789abcdefghijklmnopqrstuvwxyz"

  function Pow(b: nat, e: nat): nat {
    if e == 0 then 1 else b * Pow(b, e - 1)
  }

  function Digit36(d: nat): char
    requires d < 36
  {
    if d < 10 then ('0' as int + d) as char else ('a' as int + d - 10) as char
  }

  predicate IsDigit36(c: char) {
    '0' <= c <= '9' || 'a' <= c <= 'z'
  }

  function DigitValue36(c: char): nat
    requires IsDigit36(c)
  {
    if c <= '9' then c as int - '0' as int else c as int - 'a' as int + 10
  }

  lemma CharsetIsDigit36(d: nat)
    requires d < 36
    ensures CHARSET[d] == Digit36(d) && IsDigit36(Digit36(d)) && DigitValue36(Digit36(d)) == d
  {
  }

  /** The last "length" base-36 digits of a number, most significant first. */
  function Base36(value: nat, length: nat): (s: string)
    ensures |s| == length && forall i | 0 <= i < length :: IsDigit36(s[i])
  {
    if length == 0 then "" else Base36(value / 36, length - 1) + [Digit36(value % 36)]
  }

  function Decode36(s: string): nat
    requires forall i | 0 <= i < |s| :: IsDigit36(s[i])
  {
    if s == "" then 0 else 36 * Decode36(s[..|s| - 1]) + DigitValue36(s[|s| - 1])
  }

  function Zeros(n: nat): (s: string)
    ensures |s| == n
  {
    if n == 0 then "" else Zeros(n - 1) + "0"
  }

  /** str.zfill on a text without a sign. */
  function ZFill(s: string, width: int): string {
    if width <= |s| then s else Zeros(width - |s|) + s
  }

  lemma {:induction false} Base36OfZero(n: nat)
    ensures Base36(0, n) == Zeros(n)
  {
    if n > 0 {
      Base36OfZero(n - 1);
    }
  }

  lemma LowerKeepsDigits(s: string)
    requires forall i | 0 <= i < |s| :: IsDigit36(s[i])
    ensures Lower(s) == s
  {
    assert forall i | 0 <= i < |s| :: Lower(s)[i] == s[i];
  }

  /** hash_string; "digest" is the SHA-256 value, "length" the optional argument. */
  method HashString(digest: nat, length: Option<int>) returns (r: string)
    ensures var n := if length.None? || length.value < 0 then 64 else length.value;
      r == Base36(digest, n)
  {
    var n: nat := if length.None? || length.value < 0 then 64 else length.value;
    var hashValue := digest;
    var result := "";
    while hashValue > 0 && |result| < n
      invariant |result| <= n
      invariant Base36(digest, n) == Base36(hashValue, n - |result|) + result
      decreases hashValue
    {
      var index := hashValue % 36;
      CharsetIsDigit36(index);
      assert Base36(hashValue, n - |result|) + result
          == Base36(hashValue / 36, n - |result| - 1) + ([CHARSET[index]] + result);
      hashValue := hashValue / 36;
      result := [CHARSET[index]] + result;
    }
    Base36OfZero(n - |result|);
    assert ZFill(result, n) == Base36(digest, n);
    LowerKeepsDigits(Base36(digest, n));
    r := Lower(ZFill(result, n));
  }

  /** Quotient and remainder are unique. */
  lemma QuotientUnique(q: int, r: nat, q': int, r': nat, m: nat)
    requires q * m + r == q' * m + r' && r < m && r' < m
    ensures r == r'
  {
    if q > q' {
      MultiplyMonotone(q' + 1, q, m);
      Distribute(q' + 1, 1, m);
    } else if q' > q {
      MultiplyMonotone(q + 1, q', m);
      Distribute(q + 1, 1, m);
    }
  }

  lemma ModUnique(a: nat, q: nat, m: nat, r: nat)
    requires m > 0 && a == q * m + r && r < m
    ensures a % m == r
  {
    var q', r' := a / m, a % m;
    assert a == q' * m + r';
    QuotientUnique(q, r, q', r', m);
  }

  lemma PowPositive(b: nat, e: nat)
    requires b > 0
    ensures Pow(b, e) > 0
  {
    if e > 0 {
      PowPositive(b, e - 1);
    }
  }

  lemma Rescale(value: nat, p: nat)
    requires p > 0
    ensures 36 * p > 0 && value % (36 * p) == 36 * (value / 36 % p) + value % 36
  {
    var h := value / 36;
    var q, b := h / p, h % p;
    assert h == q * p + b;
    assert 36 * (q * p) == q * (36 * p);
    ModUnique(value, q, 36 * p, 36 * b + value % 36);
  }

  /** The text decodes to the hash modulo 36^length. */
  lemma {:induction false} DecodeOfBase36(value: nat, length: nat)
    ensures Pow(36, length) > 0 && Decode36(Base36(value, length)) == value % Pow(36, length)
  {
    PowPositive(36, length);
    if length > 0 {
      PowPositive(36, length - 1);
      DecodeOfBase36(value / 36, length - 1);
      DecodeLastDigit(value, length);
      hide Base36; hide Decode36;
      Rescale(value, Pow(36, length - 1));
    }
  }

  lemma DecodeLastDigit(value: nat, length: nat)
    requires length > 0
    ensures Decode36(Base36(value, length)) == 36 * Decode36(Base36(value / 36, length - 1)) + value % 36
  {
    CharsetIsDigit36(value % 36);
    var s := Base36(value, length);
    assert s[..|s| - 1] == Base36(value / 36, length - 1);
  }

  lemma {:induction false} PowersOf36Large(n: nat)
    ensures Pow(36, n) >= Pow(2, 5 * n)
  {
    if n > 0 {
      PowersOf36Large(n - 1);
      var p := Pow(2, 5 * (n - 1));
      assert Pow(2, 5 * n) == 2 * Pow(2, 5 * n - 1) == 4 * Pow(2, 5 * n - 2) == 8 * Pow(2, 5 * n - 3)
          == 16 * Pow(2, 5 * n - 4) == 32 * p;
    }
  }

  lemma {:induction false} PowGrows(m: nat, n: nat)
    requires m <= n
    ensures Pow(2, m) <= Pow(2, n)
    decreases n - m
  {
    if m < n {
      PowGrows(m, n - 1);
      PowPositive(2, n - 1);
    }
  }

  /** The default length loses nothing: different 256-bit hashes get different texts. */
  lemma FullLengthInjective(a: nat, b: nat)
    requires a < Pow(2, 256) && b < Pow(2, 256)
    ensures Base36(a, 64) == Base36(b, 64) <==> a == b
  {
    PowersOf36Large(64);
    PowGrows(256, 320);
    var p := Pow(36, 64);
    DecodeOfBase36(a, 64);
    DecodeOfBase36(b, 64);
    ModUnique(a, 0, p, a);
    ModUnique(b, 0, p, b);
  }
}

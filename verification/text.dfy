/**
 * Character-level helpers shared by the model: ASCII `str.lower()`, the regex
 * classes `\d` and `\s`, `str(n)` for naturals and its inverse, and Python's
 * lexicographic string order.
 */
module Text {

  predicate IsDigit(c: char) {
    '0' <= c <= '9'
  }

  /** The ASCII members of Python's `\s`: space, \t, \n, \v, \f, \r. */
  predicate IsSpace(c: char) {
    c == ' ' || c == '\t' || c == '\n' || c == '\U{000B}' || c == '\U{000C}' || c == '\r'
  }

  predicate AllDigits(s: string) {
    forall i :: 0 <= i < |s| ==> IsDigit(s[i])
  }

  function LowerChar(c: char): char {
    if 'A' <= c <= 'Z' then (c as int + 32) as char else c
  }

  /** `str.lower()`, restricted to ASCII letters. */
  function Lower(s: string): (r: string)
    ensures |r| == |s|
    ensures forall i :: 0 <= i < |s| ==> r[i] == LowerChar(s[i])
  {
    seq(|s|, i requires 0 <= i < |s| => LowerChar(s[i]))
  }

  function DigitChar(d: nat): char
    requires d < 10
  {
    ('0' as int + d) as char
  }

  function DigitValue(c: char): nat
    requires IsDigit(c)
  {
    c as int - '0' as int
  }

  /** `str(n)` for a natural number: decimal digits, no leading zero. */
  function NatToString(n: nat): (r: string)
    ensures |r| >= 1
    ensures AllDigits(r)
    ensures |r| > 1 ==> r[0] != '0'
  {
    if n < 10 then [DigitChar(n)] else NatToString(n / 10) + [DigitChar(n % 10)]
  }

  /** Decimal value of a digit string (the inverse of `NatToString`). */
  function ParseNat(s: string): nat
    requires AllDigits(s)
  {
    if |s| == 0 then 0 else ParseNat(s[..|s| - 1]) * 10 + DigitValue(s[|s| - 1])
  }

  lemma {:induction false} ParseNatToString(n: nat)
    ensures ParseNat(NatToString(n)) == n
  {
    if n >= 10 {
      var s := NatToString(n);
      assert s[..|s| - 1] == NatToString(n / 10);
      ParseNatToString(n / 10);
    }
  }

  /** Reading a digit string in two pieces: the left piece shifts by the right piece's length. */
  lemma {:induction false} ParseNatAppend(a: string, b: string)
    requires AllDigits(a) && AllDigits(b)
    ensures AllDigits(a + b)
    ensures ParseNat(a + b) == ParseNat(a) * Pow10(|b|) + ParseNat(b)
    decreases |b|
  {
    var ab := a + b;
    assert AllDigits(ab) by {
      forall i | 0 <= i < |ab| ensures IsDigit(ab[i]) {
        if i < |a| { assert ab[i] == a[i]; } else { assert ab[i] == b[i - |a|]; }
      }
    }
    if |b| == 0 {
      assert ab == a;
    } else {
      var b' := b[..|b| - 1];
      assert ab[..|ab| - 1] == a + b';
      assert AllDigits(b');
      ParseNatAppend(a, b');
      var x, p, y, d := ParseNat(a), Pow10(|b'|), ParseNat(b'), DigitValue(b[|b| - 1]);
      assert ParseNat(ab) == ParseNat(a + b') * 10 + d by {
        assert ab[|ab| - 1] == b[|b| - 1];
      }
      assert ParseNat(b) == y * 10 + d;
      assert Pow10(|b|) == 10 * p;
      ShiftDigit(x, p, y, d);
    }
  }

  /** Appending one digit to both sides of the shifted sum keeps it a shifted sum. */
  lemma ShiftDigit(x: int, p: int, y: int, d: int)
    ensures (x * p + y) * 10 + d == x * (10 * p) + (y * 10 + d)
  {
    calc {
      (x * p + y) * 10 + d;
      x * p * 10 + y * 10 + d;
      x * (10 * p) + (y * 10 + d);
    }
  }

  /** A run of `k` zero digits. */
  function Zeros(k: nat): (r: string)
    ensures |r| == k && AllDigits(r)
    ensures forall i :: 0 <= i < k ==> r[i] == '0'
  {
    seq(k, i => '0')
  }

  lemma {:induction false} ParseZeros(k: nat)
    ensures ParseNat(Zeros(k)) == 0
  {
    if k > 0 {
      assert Zeros(k)[..k - 1] == Zeros(k - 1);
      ParseZeros(k - 1);
    }
  }

  /** `n` in decimal, left-padded with zeros to at least `width` characters (`%0<width>d`). */
  function ZeroPad(n: nat, width: nat): (r: string)
    ensures AllDigits(r)
    ensures |r| == if |NatToString(n)| < width then width else |NatToString(n)|
  {
    var digits := NatToString(n);
    var r := Zeros(if |digits| < width then width - |digits| else 0) + digits;
    ParseNatAppend(Zeros(if |digits| < width then width - |digits| else 0), digits);
    r
  }

  /** Leading zeros do not change the value: padding is undone by `ParseNat`. */
  lemma ParseZeroPad(n: nat, width: nat)
    ensures ParseNat(ZeroPad(n, width)) == n
  {
    var digits := NatToString(n);
    var k: nat := if |digits| < width then width - |digits| else 0;
    ParseNatAppend(Zeros(k), digits);
    ParseZeros(k);
    ParseNatToString(n);
  }

  function Pow10(k: nat): nat {
    if k == 0 then 1 else 10 * Pow10(k - 1)
  }

  /** `str(n)` has at most `k` digits exactly when `n < 10^k`. */
  lemma {:induction false} NatToStringLength(n: nat, k: nat)
    requires k >= 1
    ensures |NatToString(n)| <= k <==> n < Pow10(k)
  {
    if n >= 10 {
      if k == 1 {
        assert Pow10(1) == 10;
      } else {
        NatToStringLength(n / 10, k - 1);
      }
    } else {
      assert Pow10(k) >= 10 by { PowAtLeastTen(k); }
    }
  }

  lemma {:induction false} PowAtLeastTen(k: nat)
    requires k >= 1
    ensures Pow10(k) >= 10
  {
    if k > 1 {
      PowAtLeastTen(k - 1);
    }
  }

  /** Python's `<` on `str`: lexicographic by code point, a proper prefix first. */
  predicate StrLess(a: string, b: string) {
    if |a| == 0 then |b| > 0
    else if |b| == 0 then false
    else if a[0] < b[0] then true
    else if a[0] == b[0] then StrLess(a[1..], b[1..])
    else false
  }

  lemma {:induction false} StrLessIrreflexive(a: string)
    ensures !StrLess(a, a)
  {
    if |a| > 0 {
      StrLessIrreflexive(a[1..]);
    }
  }

  lemma {:induction false} StrLessTransitive(a: string, b: string, c: string)
    requires StrLess(a, b) && StrLess(b, c)
    ensures StrLess(a, c)
  {
    if |a| > 0 && a[0] == b[0] && b[0] == c[0] {
      StrLessTransitive(a[1..], b[1..], c[1..]);
    }
  }

  lemma {:induction false} StrLessTotal(a: string, b: string)
    ensures a == b || StrLess(a, b) || StrLess(b, a)
  {
    if |a| > 0 && |b| > 0 && a[0] == b[0] {
      StrLessTotal(a[1..], b[1..]);
      if a[1..] == b[1..] {
        assert a == [a[0]] + a[1..] && b == [b[0]] + b[1..];
      }
    }
  }
}

/**
  Fixed-width decimal digit strings: the numeric fields of `YYYY-MM-DD` dates
  and `HH:MM` times. A field is read most-significant digit first, rendered
  back with leading zeros, and compared as text the way JavaScript compares
  strings (code unit by code unit).
 */
module Decimal {

  predicate IsDigit(c: char) {
    '0' <= c <= '9'
  }

  predicate AllDigits(s: string) {
    forall i :: 0 <= i < |s| ==> IsDigit(s[i])
  }

  function DigitValue(c: char): (d: nat)
    requires IsDigit(c)
    ensures d < 10
  {
    (c as int - '0' as int) as nat
  }

  function DigitChar(d: nat): (c: char)
    requires d < 10
    ensures IsDigit(c) && DigitValue(c) == d
  {
    ('0' as int + d) as char
  }

  function Pow10(k: nat): (p: nat)
    ensures p >= 1
  {
    if k == 0 then 1 else 10 * Pow10(k - 1)
  }

  /** The number a digit string denotes, leading zeros allowed. */
  function Value(s: string): (v: nat)
    requires AllDigits(s)
    ensures v < Pow10(|s|)
    decreases |s|
  {
    if |s| == 0 then 0
    else
      var rest := Value(s[1..]);
      MulLe(DigitValue(s[0]), 9, Pow10(|s| - 1));
      DigitValue(s[0]) * Pow10(|s| - 1) + rest
  }

  /** `n` written with exactly `width` digits, zero-padded on the left. */
  function Pad(n: nat, width: nat): (s: string)
    requires n < Pow10(width)
    ensures |s| == width && AllDigits(s)
    decreases width
  {
    if width == 0 then ""
    else
      var p := Pow10(width - 1);
      DivBelowTen(n, p);
      [DigitChar(n / p)] + Pad(n % p, width - 1)
  }

  /** Strict lexicographic order on code units, as JavaScript's `<` on strings. */
  predicate LexLess(s: string, t: string)
    decreases |s|
  {
    if |s| == 0 then |t| > 0
    else if |t| == 0 then false
    else if s[0] < t[0] then true
    else if s[0] == t[0] then LexLess(s[1..], t[1..])
    else false
  }

  /** Multiplication by a non-negative factor keeps order. */
  lemma {:induction false} MulLe(a: int, b: int, p: nat)
    requires a <= b
    ensures a * p <= b * p
    decreases p
  {
    if p > 0 {
      MulLe(a, b, p - 1);
      assert a * p == a * (p - 1) + a;
      assert b * p == b * (p - 1) + b;
    }
  }

  lemma DivBelowTen(n: nat, p: nat)
    requires p >= 1 && n < 10 * p
    ensures n / p < 10 && n == (n / p) * p + n % p
  {
    var q := n / p;
    assert n == q * p + n % p;
    if q >= 10 {
      MulLe(10, q, p);
    }
  }

  /** A two-digit string denotes ten times its first digit plus its second. */
  lemma ReadsTwoDigits(t: string)
    requires |t| == 2 && AllDigits(t)
    ensures Value(t) == DigitValue(t[0]) * 10 + DigitValue(t[1])
  {
    assert t[1..] == [t[1]] && t[1..][1..] == [];
  }

  /** The four digits of `n`, most significant first, read back as `n`. */
  lemma ReadsFourDigits(t: string, n: nat)
    requires n < 10000 && |t| == 4
    requires t[0] == DigitChar(n / 1000) && t[1] == DigitChar(n / 100 % 10)
    requires t[2] == DigitChar(n / 10 % 10) && t[3] == DigitChar(n % 10)
    ensures AllDigits(t) && Value(t) == n
  {
    assert t[1..][1..] == t[2..4];
    ReadsTwoDigits(t[2..4]);
    assert Value(t[1..]) == DigitValue(t[1]) * 100 + Value(t[2..4]);
    SplitThousands(n);
  }

  /** A four-digit number is the sum of its digits times their place values. */
  lemma SplitThousands(n: nat)
    requires n < 10000
    ensures n == (n / 1000) * 1000 + (n / 100 % 10) * 100 + (n / 10 % 10) * 10 + n % 10
  {
    var a := n / 10;
    var b := a / 10;
    assert n == a * 10 + n % 10;
    assert a == b * 10 + a % 10;
    assert b == (b / 10) * 10 + b % 10;
    assert n / 100 == b;
    assert n / 1000 == b / 10;
  }

  /** Quotient and remainder are determined by any decomposition `x == q * p + r` with `0 <= r < p`. */
  lemma DivModUnique(x: int, p: nat, q: int, r: int)
    requires p >= 1 && 0 <= r < p && x == q * p + r
    ensures x / p == q && x % p == r
  {
    var q', r' := x / p, x % p;
    assert x == q' * p + r';
    if q > q' {
      MulLe(q' + 1, q, p);
    } else if q < q' {
      MulLe(q + 1, q', p);
    }
  }

  /** Rendering then reading a number gives the number back. */
  lemma {:induction false} ValueOfPad(n: nat, width: nat)
    requires n < Pow10(width)
    ensures Value(Pad(n, width)) == n
    decreases width
  {
    if width > 0 {
      var p := Pow10(width - 1);
      var q, r := n / p, n % p;
      DivBelowTen(n, p);
      var s := Pad(n, width);
      assert s == [DigitChar(q)] + Pad(r, width - 1);
      assert s[0] == DigitChar(q) && s[1..] == Pad(r, width - 1);
      ValueOfPad(r, width - 1);
      assert Value(s) == DigitValue(s[0]) * p + Value(s[1..]);
    }
  }

  /** Reading then rendering a digit string at its own width gives the string back. */
  lemma {:induction false} PadOfValue(s: string)
    requires AllDigits(s)
    ensures Pad(Value(s), |s|) == s
    decreases |s|
  {
    if |s| > 0 {
      var p := Pow10(|s| - 1);
      var d := DigitValue(s[0]);
      var rest := Value(s[1..]);
      DivModUnique(Value(s), p, d, rest);
      PadOfValue(s[1..]);
      assert DigitChar(d) == s[0];
    }
  }

  /** Equal-width digit strings are equal exactly when their values are. */
  lemma ValueInjective(s: string, t: string)
    requires AllDigits(s) && AllDigits(t) && |s| == |t|
    ensures s == t <==> Value(s) == Value(t)
  {
    if Value(s) == Value(t) {
      PadOfValue(s);
      PadOfValue(t);
    }
  }

  /**
    On zero-padded numbers of one width, text order and numeric order agree,
    which is why comparing `HH:MM` strings compares the times they name.
   */
  lemma {:induction false} LexLessIsValueLess(s: string, t: string)
    requires AllDigits(s) && AllDigits(t) && |s| == |t|
    ensures LexLess(s, t) <==> Value(s) < Value(t)
    decreases |s|
  {
    if |s| > 0 {
      var p := Pow10(|s| - 1);
      var a, b := DigitValue(s[0]), DigitValue(t[0]);
      if a < b {
        LeadingDigitDecides(a, b, Value(s[1..]), Value(t[1..]), p);
      } else if a == b {
        LexLessIsValueLess(s[1..], t[1..]);
      } else {
        LeadingDigitDecides(b, a, Value(t[1..]), Value(s[1..]), p);
      }
    }
  }

  lemma LeadingDigitDecides(a: nat, b: nat, ra: nat, rb: nat, p: nat)
    requires a < b && ra < p
    ensures a * p + ra < b * p + rb
  {
    MulLe(a + 1, b, p);
  }

  /**
    Comparing two concatenations whose first parts have equal length compares
    the first parts, and the second parts only when the first parts agree.
   */
  lemma {:induction false} LexLessConcat(a: string, b: string, c: string, d: string)
    requires |a| == |c|
    ensures LexLess(a + b, c + d) <==> LexLess(a, c) || (a == c && LexLess(b, d))
    decreases |a|
  {
    if |a| == 0 {
      assert a + b == b && c + d == d;
    } else {
      assert (a + b)[0] == a[0] && (c + d)[0] == c[0];
      assert (a + b)[1..] == a[1..] + b;
      assert (c + d)[1..] == c[1..] + d;
      LexLessConcat(a[1..], b, c[1..], d);
      if a[0] == c[0] {
        assert a == c <==> a[1..] == c[1..] by {
          if a[1..] == c[1..] {
            assert a == [a[0]] + a[1..] && c == [c[0]] + c[1..];
          }
        }
      }
    }
  }
}

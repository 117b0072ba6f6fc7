/**
 * Decimal numerals as the script handles them: `int(s)` on a string of
 * ASCII digits, `str(n)` on a non-negative integer and `s.zfill(width)`.
 */
module Numerals {

  /** An ASCII decimal digit (the regular expression's `\d`, restricted to ASCII). */
  predicate IsDigit(c: char)
  {
    '0' <= c <= '9'
  }

  predicate AllDigits(s: string)
  {
    forall i | 0 <= i < |s| :: IsDigit(s[i])
  }

  function DigitValue(c: char): (d: nat)
    requires IsDigit(c)
    ensures d < 10
  {
    c as int - '0' as int
  }

  function DigitChar(d: nat): (c: char)
    requires d < 10
    ensures IsDigit(c) && DigitValue(c) == d
  {
    ('0' as int + d) as char
  }

  /** `int(s)` for a string of digits (leading zeros allowed). */
  function DecimalValue(s: string): nat
    requires AllDigits(s)
  {
    if s == [] then 0 else 10 * DecimalValue(s[..|s| - 1]) + DigitValue(s[|s| - 1])
  }

  /** `str(n)` for a non-negative integer: its digits, most significant first, without leading zeros. */
  function DecimalString(n: nat): (r: string)
    ensures AllDigits(r) && |r| >= 1
    ensures |r| == 1 || r[0] != '0'
  {
    if n < 10 then [DigitChar(n)] else DecimalString(n / 10) + [DigitChar(n % 10)]
  }

  /** `k` copies of the character `0`. */
  function Zeros(k: nat): (z: string)
    ensures |z| == k && AllDigits(z)
  {
    seq(k, _ => '0')
  }

  /**
   * `s.zfill(width)`: pad on the left with `0` up to `width` characters,
   * keeping a leading sign in front; never truncates.
   */
  function ZFill(s: string, width: nat): (r: string)
    ensures |r| == if |s| >= width then |s| else width
  {
    if |s| >= width then s
    else if |s| > 0 && (s[0] == '+' || s[0] == '-') then [s[0]] + Zeros(width - |s|) + s[1..]
    else Zeros(width - |s|) + s
  }

  lemma DecimalValueAppend(s: string, c: char)
    requires AllDigits(s) && IsDigit(c)
    ensures AllDigits(s + [c]) && DecimalValue(s + [c]) == 10 * DecimalValue(s) + DigitValue(c)
  {
    assert (s + [c])[..|s|] == s;
  }

  /** `int(str(n)) == n`. */
  lemma {:induction false} DecimalRoundTrip(n: nat)
    ensures DecimalValue(DecimalString(n)) == n
  {
    if n >= 10 {
      DecimalRoundTrip(n / 10);
      DecimalValueAppend(DecimalString(n / 10), DigitChar(n % 10));
    }
  }

  /** `str(n)` has at most three digits exactly when `n < 1000`. */
  lemma DecimalStringLength(n: nat)
    ensures |DecimalString(n)| <= 3 <==> n < 1000
  {
    if n >= 10 {
      var m := n / 10;
      assert 10 * m <= n < 10 * m + 10;
      assert |DecimalString(n)| == |DecimalString(m)| + 1;
      if m >= 10 {
        var q := m / 10;
        assert 10 * q <= m < 10 * q + 10;
        assert |DecimalString(m)| == |DecimalString(q)| + 1;
        if q >= 10 {
          assert |DecimalString(q)| == |DecimalString(q / 10)| + 1;
        }
      }
    }
  }

  /** Leading zeros do not change `int(s)`. */
  lemma {:induction false} LeadingZerosValue(k: nat, s: string)
    requires AllDigits(s)
    ensures AllDigits(Zeros(k) + s) && DecimalValue(Zeros(k) + s) == DecimalValue(s)
  {
    if s == [] {
      assert Zeros(k) + s == Zeros(k);
      if k > 0 {
        assert Zeros(k)[..k - 1] == Zeros(k - 1);
        LeadingZerosValue(k - 1, []);
        assert Zeros(k - 1) + [] == Zeros(k - 1);
      }
    } else {
      var init, last := s[..|s| - 1], s[|s| - 1];
      assert s == init + [last];
      assert Zeros(k) + s == (Zeros(k) + init) + [last];
      LeadingZerosValue(k, init);
      DecimalValueAppend(Zeros(k) + init, last);
      DecimalValueAppend(init, last);
    }
  }

  /** Zero-filling a string of digits keeps its value, pads it to `width` and never shortens it. */
  lemma ZFillDigits(s: string, width: nat)
    requires AllDigits(s)
    ensures AllDigits(ZFill(s, width))
    ensures DecimalValue(ZFill(s, width)) == DecimalValue(s)
    ensures |ZFill(s, width)| == if |s| >= width then |s| else width
  {
    if |s| < width {
      LeadingZerosValue(width - |s|, s);
    }
  }

  /** Two numerals of the same length and the same value are the same numeral. */
  lemma {:induction false} DecimalValueInjective(a: string, b: string)
    requires AllDigits(a) && AllDigits(b) && |a| == |b|
    requires DecimalValue(a) == DecimalValue(b)
    ensures a == b
  {
    if a != [] {
      var n := |a| - 1;
      LastDigitAndRest(DecimalValue(a[..n]), DigitValue(a[n]), DecimalValue(b[..n]), DigitValue(b[n]));
      DecimalValueInjective(a[..n], b[..n]);
      assert a[n] == b[n];
      assert a == a[..n] + [a[n]] && b == b[..n] + [b[n]];
    }
  }

  /** A value written as `10 * rest + digit` determines both parts. */
  lemma LastDigitAndRest(x: nat, d: nat, y: nat, e: nat)
    requires d < 10 && e < 10 && 10 * x + d == 10 * y + e
    ensures x == y && d == e
  {
    assert (10 * x + d) / 10 == x && (10 * x + d) % 10 == d;
    assert (10 * y + e) / 10 == y && (10 * y + e) % 10 == e;
  }

  lemma ThreeDigitValue(s: string)
    requires AllDigits(s) && |s| == 3
    ensures DecimalValue(s) == 100 * DigitValue(s[0]) + 10 * DigitValue(s[1]) + DigitValue(s[2])
  {
    assert s[..1][..0] == [];
    assert DecimalValue(s[..1]) == DigitValue(s[0]);
    assert s[..2][..1] == s[..1];
    assert DecimalValue(s[..2]) == 10 * DigitValue(s[0]) + DigitValue(s[1]);
  }

  /**
   * Of two three-digit numerals the smaller value is also the smaller
   * string: they agree up to some position `p` and the first has the
   * smaller digit there.
   */
  lemma ThreeDigitOrder(a: string, b: string) returns (p: nat)
    requires AllDigits(a) && AllDigits(b) && |a| == 3 && |b| == 3
    requires DecimalValue(a) < DecimalValue(b)
    ensures p < 3 && a[..p] == b[..p] && a[p] < b[p]
  {
    ThreeDigitValue(a);
    ThreeDigitValue(b);
    if a[0] != b[0] {
      p := 0;
    } else if a[1] != b[1] {
      p := 1;
    } else {
      p := 2;
    }
  }
}

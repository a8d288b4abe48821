/** The parts of the Java platform the appointment core leans on: fixed-width
    `int`/`long` arithmetic, integer division, `String.compareTo` and
    `Integer.toString`. Dafny integers are unbounded and its `/` is Euclidean,
    so each Java behaviour is written out here. */
module JavaLang {

  const TwoTo31: int := 0x8000_0000
  const TwoTo32: int := 0x1_0000_0000
  const TwoTo63: int := 0x8000_0000_0000_0000
  const TwoTo64: int := 0x1_0000_0000_0000_0000

  predicate IsInt(x: int) { -TwoTo31 <= x < TwoTo31 }
  predicate IsLong(x: int) { -TwoTo63 <= x < TwoTo63 }

  /** A Java `long`, such as the millisecond count of `Date.getTime()`. */
  type Long = x: int | IsLong(x)

  function Abs(x: int): nat { if x < 0 then -x else x }

  /** The (int) cast: keep the low 32 bits, read as two's complement. */
  function NarrowToInt(x: int): (r: int)
    ensures IsInt(r)
    ensures (x - r) % TwoTo32 == 0
    ensures IsInt(x) ==> r == x
  {
    var low := (x + TwoTo31) % TwoTo32;
    assert x - (low - TwoTo31) == TwoTo32 * ((x + TwoTo31) / TwoTo32);
    low - TwoTo31
  }

  /** Two `int`s that agree modulo 2^32 are equal: the cast has one result. */
  lemma NarrowToIntUnique(a: int, b: int)
    requires IsInt(a) && IsInt(b) && (a - b) % TwoTo32 == 0
    ensures a == b
  {
    var k := (a - b) / TwoTo32;
    assert a - b == TwoTo32 * k;
  }

  /** The cast commutes with negation, except where the result is -2^31,
      the one `int` whose negation is not an `int`. */
  lemma NarrowToIntNegate(x: int)
    requires NarrowToInt(x) != -TwoTo31
    ensures NarrowToInt(-x) == -NarrowToInt(x)
  {
    var r, s := NarrowToInt(x), NarrowToInt(-x);
    var k1, k2 := (x - r) / TwoTo32, (-x - s) / TwoTo32;
    assert x - r == TwoTo32 * k1;
    assert -x - s == TwoTo32 * k2;
    assert -r - s == TwoTo32 * (k1 + k2);
    NarrowToIntUnique(-r, s);
  }

  /** `long` subtraction `a - b`, which wraps around modulo 2^64. */
  function LongSub(a: Long, b: Long): (r: Long)
    ensures (a - b - r) % TwoTo64 == 0
    ensures IsLong(a - b) ==> r == a - b
  {
    var low := (a - b + TwoTo63) % TwoTo64;
    assert a - b - (low - TwoTo63) == TwoTo64 * ((a - b + TwoTo63) / TwoTo64);
    low - TwoTo63
  }

  /** Java's integer division `a / d` for a positive divisor: the quotient
      is rounded toward zero (section 15.17.2 of the Java Language
      Specification), so -7 / 2 is -3 where Dafny's Euclidean `/` gives -4. */
  function Quot(a: int, d: int): int
    requires d > 0
  {
    if a >= 0 then a / d else -((-a) / d)
  }

  /** The Java Language Specification's description of `/`: the remainder
      `a - d * q` is smaller than the divisor in magnitude and never has the
      opposite sign of the dividend. */
  predicate IsJavaQuotient(a: int, d: int, q: int)
    requires d > 0
  {
    var r := a - d * q;
    -d < r < d && (a >= 0 ==> r >= 0) && (a <= 0 ==> r <= 0)
  }

  lemma QuotIsJavaQuotient(a: int, d: int)
    requires d > 0
    ensures IsJavaQuotient(a, d, Quot(a, d))
  {
    if a < 0 {
      var q := (-a) / d;
      assert -a == d * q + (-a) % d;
    } else {
      assert a == d * (a / d) + a % d;
    }
  }

  /** At most one quotient meets the Java description, so `Quot` is it. */
  lemma JavaQuotientUnique(a: int, d: int, q: int)
    requires d > 0 && IsJavaQuotient(a, d, q)
    ensures q == Quot(a, d)
  {
    QuotIsJavaQuotient(a, d);
    var q0 := Quot(a, d);
    var diff := q - q0;
    assert d * q - d * q0 == d * diff;
    if diff >= 1 {
      MulAtLeast(d, diff);
    } else if diff <= -1 {
      MulAtLeast(d, -diff);
    }
  }

  lemma MulAtLeast(d: int, k: int)
    requires d > 0 && k >= 1
    ensures d * k >= d
  {
  }

  /** Truncation is symmetric about zero, unlike Dafny's `/`. */
  lemma QuotNegate(a: int, d: int)
    requires d > 0
    ensures Quot(-a, d) == -Quot(a, d)
  {
  }

  lemma QuotMonotone(a1: int, a2: int, d: int)
    requires d > 0 && a1 <= a2
    ensures Quot(a1, d) <= Quot(a2, d)
  {
    if a1 >= 0 || a2 <= 0 {
      QuotMonotoneSameSign(a1, a2, d);
    } else {
      QuotSign(a1, d);
      QuotSign(a2, d);
    }
  }

  /** The quotient has the sign of the dividend. */
  lemma QuotSign(a: int, d: int)
    requires d > 0
    ensures a >= 0 ==> Quot(a, d) >= 0
    ensures a <= 0 ==> Quot(a, d) <= 0
  {
  }

  lemma QuotMonotoneSameSign(a1: int, a2: int, d: int)
    requires d > 0 && a1 <= a2 && (a1 >= 0 || a2 <= 0)
    ensures Quot(a1, d) <= Quot(a2, d)
  {
    var q1, q2 := Quot(a1, d), Quot(a2, d);
    QuotIsJavaQuotient(a1, d);
    QuotIsJavaQuotient(a2, d);
    RemainderGap(a1, a2, d, d * q1, d * q2);
    MulGap(d, q1, q2);
  }

  /** Two dividends of the same sign, in order, are at most one divisor
      apart once their remainders are taken off. */
  lemma RemainderGap(a1: int, a2: int, d: int, p1: int, p2: int)
    requires d > 0 && a1 <= a2 && (a1 >= 0 || a2 <= 0)
    requires -d < a1 - p1 < d && (a1 >= 0 ==> a1 - p1 >= 0) && (a1 <= 0 ==> a1 - p1 <= 0)
    requires -d < a2 - p2 < d && (a2 >= 0 ==> a2 - p2 >= 0) && (a2 <= 0 ==> a2 - p2 <= 0)
    ensures p1 < p2 + d
  {
  }

  lemma MulGap(d: int, q1: int, q2: int)
    requires d > 0 && d * q1 < d * q2 + d
    ensures q1 <= q2
  {
    if q1 > q2 {
      assert d * q1 - d * q2 == d * (q1 - q2);
      MulAtLeast(d, q1 - q2);
    }
  }

  // ---------------------------------------------------------------------
  // String.compareTo

  /** `String.compareTo`: at the first index where the strings differ, the
      difference of the two characters; if one is a prefix of the other, the
      difference of the lengths. */
  function CompareStrings(s: string, t: string): int
  {
    if s == [] || t == [] then |s| - |t|
    else if s[0] != t[0] then (s[0] as int) - (t[0] as int)
    else CompareStrings(s[1..], t[1..])
  }

  /** Ordinal lexicographic order, stated without recursion: either the
      strings first differ at some index k with a smaller character in `s`,
      or `s` is a proper prefix of `t`. */
  ghost predicate LexLess(s: string, t: string)
  {
    (exists k :: 0 <= k < |s| && k < |t| && s[..k] == t[..k] && s[k] < t[k])
    || (|s| < |t| && s == t[..|s|])
  }

  lemma {:induction false} CompareStringsAntisymmetric(s: string, t: string)
    ensures CompareStrings(t, s) == -CompareStrings(s, t)
  {
    if s != [] && t != [] && s[0] == t[0] {
      CompareStringsAntisymmetric(s[1..], t[1..]);
    }
  }

  lemma {:induction false} CompareStringsZeroIff(s: string, t: string)
    ensures CompareStrings(s, t) == 0 <==> s == t
  {
    if s != [] && t != [] && s[0] == t[0] {
      CompareStringsZeroIff(s[1..], t[1..]);
      assert s == [s[0]] + s[1..] && t == [t[0]] + t[1..];
    }
  }

  lemma {:induction false} CompareStringsNegativeIsLexLess(s: string, t: string)
    ensures CompareStrings(s, t) < 0 <==> LexLess(s, t)
  {
    if s == [] {
      assert t != [] ==> s == t[..|s|];
    } else if t == [] {
    } else if s[0] != t[0] {
      LexLessFirstDifference(s, t);
    } else {
      CompareStringsNegativeIsLexLess(s[1..], t[1..]);
      LexLessTail(s, t);
    }
  }

  /** When the first characters differ, they alone decide the order. */
  lemma LexLessFirstDifference(s: string, t: string)
    requires s != [] && t != [] && s[0] != t[0]
    ensures LexLess(s, t) <==> s[0] < t[0]
  {
    if s[0] < t[0] {
      assert s[..0] == t[..0];
    } else {
      CommonPrefixHead(s, t);
    }
  }

  /** Strings that share a non-empty prefix share their first character. */
  lemma CommonPrefixHead(s: string, t: string)
    ensures forall k :: 0 < k <= |s| && k <= |t| && s[..k] == t[..k] ==> s[0] == t[0]
  {
    forall k | 0 < k <= |s| && k <= |t| && s[..k] == t[..k]
      ensures s[0] == t[0]
    {
      assert s[..k][0] == t[..k][0];
    }
  }

  /** Dropping a common first character keeps the lexicographic order. */
  lemma LexLessTail(s: string, t: string)
    requires s != [] && t != [] && s[0] == t[0]
    ensures LexLess(s, t) <==> LexLess(s[1..], t[1..])
  {
    if LexLess(s, t) {
      LexLessDropHead(s, t);
    }
    if LexLess(s[1..], t[1..]) {
      LexLessAddHead(s, t);
    }
  }

  lemma LexLessDropHead(s: string, t: string)
    requires s != [] && t != [] && s[0] == t[0] && LexLess(s, t)
    ensures LexLess(s[1..], t[1..])
  {
    var s', t' := s[1..], t[1..];
    if |s| < |t| && s == t[..|s|] {
      assert s' == t'[..|s'|];
    } else {
      var k :| 0 <= k < |s| && k < |t| && s[..k] == t[..k] && s[k] < t[k];
      assert k != 0;
      assert s'[..k - 1] == s[1..k] == t[1..k] == t'[..k - 1];
      assert s'[k - 1] < t'[k - 1];
    }
  }

  lemma LexLessAddHead(s: string, t: string)
    requires s != [] && t != [] && s[0] == t[0] && LexLess(s[1..], t[1..])
    ensures LexLess(s, t)
  {
    var s', t' := s[1..], t[1..];
    if |s'| < |t'| && s' == t'[..|s'|] {
      assert s == [s[0]] + s' && t[..|s|] == [t[0]] + t'[..|s'|];
    } else {
      var k :| 0 <= k < |s'| && k < |t'| && s'[..k] == t'[..k] && s'[k] < t'[k];
      PrefixCons(s, k);
      PrefixCons(t, k);
      assert s[k + 1] < t[k + 1];
    }
  }

  lemma PrefixCons(s: string, k: nat)
    requires k < |s|
    ensures s[..k + 1] == [s[0]] + s[1..][..k]
  {
  }

  lemma {:induction false} CompareStringsTransitive(s: string, t: string, u: string)
    requires CompareStrings(s, t) < 0 && CompareStrings(t, u) < 0
    ensures CompareStrings(s, u) < 0
  {
    if s != [] && t != [] && u != [] && s[0] == t[0] && t[0] == u[0] {
      CompareStringsTransitive(s[1..], t[1..], u[1..]);
    }
  }

  // ---------------------------------------------------------------------
  // Integer.toString

  predicate IsDigit(c: char) { '0' <= c <= '9' }

  predicate AllDigits(s: string) { forall i :: 0 <= i < |s| ==> IsDigit(s[i]) }

  function DigitChar(d: nat): (c: char)
    requires d < 10
    ensures IsDigit(c) && c as int - '0' as int == d
  {
    ('0' as int + d) as char
  }

  /** The number a string of decimal digits denotes, most significant first. */
  function DigitsValue(s: string): nat
    requires AllDigits(s)
  {
    if s == [] then 0
    else DigitsValue(s[..|s| - 1]) * 10 + (s[|s| - 1] as int - '0' as int)
  }

  /** `Integer.toString`, as string concatenation applies it to an `int`:
      a minus sign for a negative number, then the decimal digits of its
      magnitude with no leading zero. */
  function IntToString(i: int): string
    decreases Abs(i), if i < 0 then 1 else 0
  {
    if i < 0 then "-" + IntToString(-i)
    else if i < 10 then [DigitChar(i)]
    else IntToString(i / 10) + [DigitChar(i % 10)]
  }

  /** Decimal digits in the form `Integer.toString` writes them: at least
      one digit, and a leading zero only in "0" itself. */
  predicate CanonicalDigits(s: string)
  {
    |s| >= 1 && AllDigits(s) && (s[0] == '0' ==> s == "0")
  }

  lemma {:induction false} NatDigits(n: nat)
    ensures var s := IntToString(n);
      && |s| >= 1 && AllDigits(s) && DigitsValue(s) == n && (s[0] == '0' ==> n == 0)
      && (n == 0 ==> s == "0") && CanonicalDigits(s)
  {
    if n >= 10 {
      NatDigits(n / 10);
      var s := IntToString(n);
      assert s[..|s| - 1] == IntToString(n / 10);
    }
  }

  /** Reading the text back gives the number again. */
  lemma IntToStringRoundTrip(i: int)
    ensures var s := IntToString(i);
      if i < 0 then
        && |s| >= 2 && s[0] == '-' && AllDigits(s[1..]) && DigitsValue(s[1..]) == -i
        && s[1..] == IntToString(-i) && s[1] != '0'
      else AllDigits(s) && DigitsValue(s) == i && CanonicalDigits(s)
  {
    NatDigits(Abs(i));
    if i < 0 {
      assert IntToString(i)[1..] == IntToString(-i);
    }
  }

  /** A canonical digit string that does not start with '0' denotes a
      positive number. */
  lemma {:induction false} LeadingDigitPositive(s: string)
    requires |s| >= 1 && AllDigits(s) && s[0] != '0'
    ensures DigitsValue(s) >= 1
  {
    if |s| > 1 {
      LeadingDigitPositive(s[..|s| - 1]);
    }
  }

  /** `Integer.toString` writes the only canonical digit string of a number:
      any such string with value `n` is `IntToString(n)`. */
  lemma {:induction false} CanonicalDigitsUnique(s: string, n: nat)
    requires CanonicalDigits(s) && DigitsValue(s) == n
    ensures s == IntToString(n)
  {
    if |s| > 1 {
      var init, last := s[..|s| - 1], s[|s| - 1];
      assert s[0] != '0';
      LeadingDigitPositive(init);
      var d := last as int - '0' as int;
      assert 0 <= d < 10 by { assert IsDigit(s[|s| - 1]); }
      assert n == DigitsValue(init) * 10 + d;
      assert n >= 10;
      assert n / 10 == DigitsValue(init) && n % 10 == d;
      CanonicalDigitsUnique(init, DigitsValue(init));
      assert s == init + [DigitChar(d)];
    } else {
      assert s == [DigitChar(n)];
    }
  }
}

/** Decimal numbers as runs of ASCII digits. */
module Decimal {
  import opened Prelude

  const ZERO: CodeUnit := 0x30
  const INT_MAX := 0x7FFF_FFFF

  predicate IsAsciiDigit(c: CodeUnit) {
    ZERO <= c <= ZERO + 9
  }

  ghost predicate AllDigits(s: Text) {
    forall i :: 0 <= i < |s| ==> IsAsciiDigit(s[i])
  }

  function DigitValue(c: CodeUnit): nat {
    if IsAsciiDigit(c) then c - ZERO else 0
  }

  /** The number a text spells out; a unit that is no digit counts as 0. */
  function Value(s: Text): nat {
    if s == [] then 0 else Value(s[..|s| - 1]) * 10 + DigitValue(s[|s| - 1])
  }

  /** `QString::number` */
  function Digits(n: nat): (s: Text)
    ensures s != []
  {
    if n < 10 then [ZERO + n] else Digits(n / 10) + [ZERO + n % 10]
  }

  /** `QString::toInt` on digits: 0 when the number does not fit. */
  function ToInt(s: Text): (n: int)
    ensures 0 <= n <= INT_MAX
  {
    if Value(s) <= INT_MAX then Value(s) else 0
  }

  /** `x` with `n` zeros behind it. */
  function Shifted(x: nat, n: nat): (r: nat)
    ensures x <= r
  {
    if n == 0 then x else 10 * Shifted(x, n - 1)
  }

  lemma ValueSnoc(s: Text, c: CodeUnit)
    ensures Value(s + [c]) == Value(s) * 10 + DigitValue(c)
  {
  }

  /** A longer text has at least the value of its beginning. */
  lemma {:induction false} ValueGrows(s: Text, t: Text)
    requires s <= t
    ensures Value(s) <= Value(t)
    decreases |t|
  {
    if s != t {
      ValueGrows(s, t[..|t| - 1]);
    }
  }

  lemma {:induction false} DigitsAreDigits(n: nat)
    ensures AllDigits(Digits(n)) && (n > 0 ==> Digits(n)[0] != ZERO)
  {
    if n >= 10 {
      DigitsAreDigits(n / 10);
    }
  }

  /** Printing and reading back. */
  lemma {:induction false} ValueOfDigits(n: nat)
    ensures Value(Digits(n)) == n
  {
    if n >= 10 {
      ValueOfDigits(n / 10);
      ValueSnoc(Digits(n / 10), ZERO + n % 10);
    }
  }

  /** Reading and printing back, for digits without a leading zero. */
  lemma {:induction false} DigitsOfValue(s: Text)
    requires AllDigits(s) && s != [] && s[0] != ZERO
    ensures Digits(Value(s)) == s && Value(s) > 0
    decreases |s|
  {
    var front, last := s[..|s| - 1], s[|s| - 1];
    if front != [] {
      assert AllDigits(front) && front[0] == s[0];
      DigitsOfValue(front);
      DivModUnique(Value(s), Value(front), DigitValue(last), 10);
      assert s == front + [last];
    }
  }

  lemma {:induction false} ValueConcat(a: Text, b: Text)
    ensures Value(a + b) == Shifted(Value(a), |b|) + Value(b)
    decreases |b|
  {
    if b == [] {
      assert a + b == a;
    } else {
      var front := b[..|b| - 1];
      assert (a + b)[..|a + b| - 1] == a + front;
      ValueConcat(a, front);
    }
  }

  lemma {:induction false} ShiftedMonotone(x: nat, m: nat, n: nat)
    requires m <= n
    ensures Shifted(x, m) <= Shifted(x, n)
    decreases n
  {
    if m < n {
      ShiftedMonotone(x, m, n - 1);
    }
  }

  lemma {:induction false} FewerDigits(m: nat, n: nat)
    requires m <= n
    ensures |Digits(m)| <= |Digits(n)|
    decreases n
  {
    if m >= 10 {
      FewerDigits(m / 10, n / 10);
    }
  }

  lemma {:induction false} DigitsAreFew(n: nat, k: nat)
    requires 0 < k && n < Shifted(1, k)
    ensures |Digits(n)| <= k
  {
    if n >= 10 {
      assert Shifted(1, 1) == 10 * Shifted(1, 0) == 10;
      DigitsAreFew(n / 10, k - 1);
    }
  }

  lemma IntDigits(n: nat)
    requires n <= INT_MAX
    ensures |Digits(n)| <= 10
  {
    assert Shifted(1, 10) == 10_000_000_000;
    DigitsAreFew(n, 10);
  }

  /** Without a leading zero, every unit counts. */
  lemma {:induction false} ValueAtLeast(s: Text)
    requires AllDigits(s) && s != [] && s[0] != ZERO
    ensures Shifted(1, |s| - 1) <= Value(s)
    decreases |s|
  {
    var front := s[..|s| - 1];
    if front != [] {
      assert AllDigits(front) && front[0] == s[0];
      ValueAtLeast(front);
    }
  }

  /** More than ten digits without a leading zero do not fit into an int. */
  lemma TooManyDigits(s: Text)
    requires AllDigits(s) && |s| > 10 && s[0] != ZERO
    ensures Value(s) > INT_MAX
  {
    ValueAtLeast(s);
    hide Value;
    assert Shifted(1, 10) == 10_000_000_000;
    ShiftedMonotone(1, 10, |s| - 1);
  }

  /** A text of `n` units is worth less than a 1 with `n` zeros. */
  lemma {:induction false} ValueBelow(s: Text)
    ensures Value(s) < Shifted(1, |s|)
    decreases |s|
  {
    if s != [] {
      ValueBelow(s[..|s| - 1]);
    }
  }

  /** Replacing a number at the end of a text by a smaller one makes the whole text worth less. */
  lemma SmallerEnding(prefix: Text, m: nat, n: nat)
    requires m < n
    ensures Value(prefix + Digits(m)) < Value(prefix + Digits(n))
  {
    hide *;
    ValueConcat(prefix, Digits(m));
    ValueConcat(prefix, Digits(n));
    ValueOfDigits(m);
    ValueOfDigits(n);
    FewerDigits(m, n);
    ShiftedMonotone(Value(prefix), |Digits(m)|, |Digits(n)|);
  }
}

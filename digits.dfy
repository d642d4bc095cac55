/**
 * Little-endian digit sequences in radix BASE: the number a sequence denotes
 * (Value), the canonical form every bigint keeps, the canonical sequence of a
 * number (DigitsOf), removal of most-significant zeros (Trimmed) and the
 * length-first comparison the class uses (LexLess), with the facts about them
 * that the operations in module Bigint rely on.
 */
module Digits {

  /** The digit radix. The class takes it from a constant defined elsewhere;
      any value in [2, 10] keeps '0' + digit a decimal character. */
  const BASE: int := 10

  predicate IsDigit(x: int) {
    0 <= x < BASE
  }

  predicate AllDigits(d: seq<int>) {
    forall i :: 0 <= i < |d| ==> IsDigit(d[i])
  }

  /** The invariant of every bigint: non-empty, every digit in range, and no
      most-significant zero unless the sequence is [0]. */
  predicate Canonical(d: seq<int>) {
    |d| >= 1 && AllDigits(d) && (|d| == 1 || d[|d| - 1] != 0)
  }

  function Pow(n: nat): (p: int)
    ensures p >= 1
  {
    if n == 0 then 1 else BASE * Pow(n - 1)
  }

  function Max(x: int, y: int): int {
    if x < y then y else x
  }

  /** The number a little-endian digit sequence denotes: d[0] + BASE * d[1] + BASE^2 * d[2] + ... */
  function Value(d: seq<int>): int {
    if |d| == 0 then 0 else d[0] + BASE * Value(d[1..])
  }

  /** Digit i of d, or 0 past its most-significant end. */
  function DigitAt(d: seq<int>, i: nat): int {
    if i < |d| then d[i] else 0
  }

  /** The number denoted by the lowest n positions of d. */
  function PrefixValue(d: seq<int>, n: nat): int {
    Value(d[..if n < |d| then n else |d|])
  }

  /** The digits of n, least significant first, with no most-significant zero; [] for 0. */
  function Expand(n: int): (d: seq<int>)
    ensures AllDigits(d)
    ensures n >= 0 ==> Value(d) == n
    ensures |d| == 0 <==> n <= 0
    ensures n > 0 ==> d[|d| - 1] != 0
  {
    if n <= 0 then []
    else
      var d := [n % BASE] + Expand(n / BASE);
      assert d[1..] == Expand(n / BASE);
      d
  }

  /** The canonical digit sequence of a number: [0] for zero (and for a
      negative argument, which no operation produces). */
  function DigitsOf(n: int): (d: seq<int>)
    ensures Canonical(d)
    ensures n >= 0 ==> Value(d) == n
  {
    if n <= 0 then [0] else Expand(n)
  }

  /** d without its most-significant zero digits, keeping at least one digit. */
  function Trimmed(d: seq<int>): (t: seq<int>)
    ensures |t| <= |d| && t == d[..|t|]
    ensures |d| >= 1 ==> |t| >= 1
    ensures |t| <= 1 || t[|t| - 1] != 0
    ensures forall i :: |t| <= i < |d| ==> d[i] == 0
    decreases |d|
  {
    if |d| > 1 && d[|d| - 1] == 0 then Trimmed(d[..|d| - 1]) else d
  }

  /** Position-by-position comparison of the lowest n digits, from position
      n - 1 down: the first position where they differ decides. */
  predicate LexLessBelow(a: seq<int>, b: seq<int>, n: nat)
    requires n <= |a| && n <= |b|
  {
    n > 0 && if a[n - 1] != b[n - 1] then a[n - 1] < b[n - 1] else LexLessBelow(a, b, n - 1)
  }

  /** The order operator< computes: the shorter sequence is smaller; at equal
      lengths the most-significant differing digit decides. */
  predicate LexLess(a: seq<int>, b: seq<int>) {
    if |a| != |b| then |a| < |b| else LexLessBelow(a, b, |a|)
  }

  function Reverse(s: seq<int>): seq<int> {
    seq(|s|, i requires 0 <= i < |s| => s[|s| - 1 - i])
  }

  // ---------------------------------------------------------------------
  // Facts about Value

  lemma {:induction false} PowMonotone(m: nat, n: nat)
    requires m <= n
    ensures Pow(m) <= Pow(n)
  {
    if m < n {
      PowMonotone(m, n - 1);
    }
  }

  /** A sequence of digits denotes a number in [0, BASE^|d|). */
  lemma {:induction false} ValueRange(d: seq<int>)
    requires AllDigits(d)
    ensures 0 <= Value(d) < Pow(|d|)
  {
    if |d| > 0 {
      assert AllDigits(d[1..]);
      ValueRange(d[1..]);
    }
  }

  /** A smaller top digit outweighs anything below it. */
  lemma TopDigitDecides(va: int, vb: int, x: int, y: int, p: int)
    requires 0 <= va < p && 0 <= vb < p && x < y
    ensures va + x * p < vb + y * p
  {
    var k := y - x - 1;
    assert k >= 0 && p >= 0;
    assert k * p >= 0;
    assert y * p == x * p + k * p + p;
  }

  /** Appending a most-significant digit x adds x * BASE^|s|. */
  lemma {:induction false} ValueAppend(s: seq<int>, x: int)
    ensures Value(s + [x]) == Value(s) + x * Pow(|s|)
  {
    if |s| == 0 {
      assert s + [x] == [x];
      assert [x][1..] == [];
    } else {
      assert (s + [x])[1..] == s[1..] + [x];
      ValueAppend(s[1..], x);
      assert BASE * (x * Pow(|s| - 1)) == x * (BASE * Pow(|s| - 1));
    }
  }

  /** A most-significant digit of at least 1 makes the value at least BASE^(|d|-1). */
  lemma {:induction false} ValueLowerBound(d: seq<int>)
    requires AllDigits(d) && |d| >= 1 && d[|d| - 1] != 0
    ensures Value(d) >= Pow(|d| - 1)
  {
    if |d| > 1 {
      assert AllDigits(d[1..]);
      ValueLowerBound(d[1..]);
    }
  }

  /** Taking one more position into a prefix adds that position's digit times its weight. */
  lemma PrefixValueStep(d: seq<int>, n: nat)
    ensures PrefixValue(d, n + 1) == PrefixValue(d, n) + DigitAt(d, n) * Pow(n)
  {
    if n < |d| {
      assert d[..n + 1] == d[..n] + [d[n]];
      ValueAppend(d[..n], d[n]);
    }
  }

  lemma ScaleColumn(m: int, q: int, t: int, p: int)
    requires m + BASE * q == t
    ensures m * p + q * (BASE * p) == t * p
  {
    assert q * (BASE * p) == (BASE * q) * p;
    assert (m + BASE * q) * p == m * p + (BASE * q) * p;
  }

  lemma Distribute3(a: int, b: int, c: int, p: int)
    ensures (a + b + c) * p == a * p + b * p + c * p
  {
  }

  /** The weights of one addition column: p for the column, p1 == BASE * p for the carry. */
  lemma AddColumnWeights(x: int, y: int, c: int, p: int, p1: int)
    requires p1 == BASE * p
    ensures ((x + y + c) % BASE) * p + ((x + y + c) / BASE) * p1 == c * p + x * p + y * p
  {
    var sum := x + y + c;
    ScaleColumn(sum % BASE, sum / BASE, sum, p);
    Distribute3(c, x, y, p);
  }

  /** The weights of one subtraction column. */
  lemma SubtractColumnWeights(m: int, x: int, y: int, b: int, b': int, p: int, p1: int)
    requires m == x - b - y + BASE * b' && p1 == BASE * p
    ensures m * p - b' * p1 == x * p - b * p - y * p
  {
    ScaleColumn(m, -b', x - b - y, p);
    Distribute3(x, -b, -y, p);
  }

  /** One column of schoolbook addition: storing digit (x + y + c) % BASE
      and carrying (x + y + c) / BASE keeps the running total, where ta and
      tb are the values of the operand positions added so far. */
  lemma AddColumn(r: seq<int>, x: int, y: int, c: int, ta: int, tb: int)
    requires Value(r) + c * Pow(|r|) == ta + tb
    ensures Value(r + [(x + y + c) % BASE]) + ((x + y + c) / BASE) * Pow(|r| + 1)
         == (ta + x * Pow(|r|)) + (tb + y * Pow(|r|))
  {
    ValueAppend(r, (x + y + c) % BASE);
    AddColumnWeights(x, y, c, Pow(|r|), Pow(|r| + 1));
  }

  /** One column of schoolbook subtraction: storing digit m == x - b - y + BASE * b'
      and borrowing b' keeps the running difference ta - tb. */
  lemma SubtractColumn(r: seq<int>, m: int, x: int, y: int, b: int, b': int, ta: int, tb: int)
    requires m == x - b - y + BASE * b'
    requires Value(r) - b * Pow(|r|) == ta - tb
    ensures Value(r + [m]) - b' * Pow(|r| + 1) == (ta + x * Pow(|r|)) - (tb + y * Pow(|r|))
  {
    var p, p1 := Pow(|r|), Pow(|r| + 1);
    ValueAppend(r, m);
    SubtractColumnWeights(m, x, y, b, b', p, p1);
  }

  /** The addition loop's invariant carries over one column: the running
      result r followed by the carry c as its next digit stands for the sum
      of the lowest i positions of a and b. */
  lemma AddStep(a: seq<int>, b: seq<int>, r: seq<int>, c: int, s: int, i: nat)
    requires |r| == i
    requires s == DigitAt(a, i) + DigitAt(b, i) + c
    requires Value(r + [c]) == PrefixValue(a, i) + PrefixValue(b, i)
    ensures Value(r + [s % BASE] + [s / BASE]) == PrefixValue(a, i + 1) + PrefixValue(b, i + 1)
  {
    ValueAppend(r, c);
    ValueAppend(r + [s % BASE], s / BASE);
    AddColumn(r, DigitAt(a, i), DigitAt(b, i), c, PrefixValue(a, i), PrefixValue(b, i));
    PrefixValueStep(a, i);
    PrefixValueStep(b, i);
  }

  /** The subtraction loop's invariant carries over one column: the running
      result r followed by the borrow b as a digit -b stands for the
      difference of the lowest i positions of x and y. */
  lemma SubtractStep(x: seq<int>, y: seq<int>, r: seq<int>, m: int, b: int, b': int, i: nat)
    requires |r| == i && i < |x|
    requires m == x[i] - b - DigitAt(y, i) + BASE * b'
    requires Value(r + [-b]) == PrefixValue(x, i) - PrefixValue(y, i)
    ensures Value(r + [m] + [-b']) == PrefixValue(x, i + 1) - PrefixValue(y, i + 1)
  {
    ValueAppend(r, -b);
    ValueAppend(r + [m], -b');
    assert (-b) * Pow(i) == -(b * Pow(i));
    assert (-b') * Pow(i + 1) == -(b' * Pow(i + 1));
    SubtractColumn(r, m, x[i], DigitAt(y, i), b, b', PrefixValue(x, i), PrefixValue(y, i));
    PrefixValueStep(x, i);
    PrefixValueStep(y, i);
  }

  /** A difference that is not negative leaves no borrow out of the top position. */
  lemma NoFinalBorrow(r: seq<int>, b: int)
    requires AllDigits(r) && 0 <= b <= 1
    requires Value(r + [-b]) >= 0
    ensures b == 0
  {
    ValueRange(r);
    ValueAppend(r, -b);
  }

  /** Once the carry or borrow is zero it adds nothing. */
  lemma ValueAppendZero(r: seq<int>)
    ensures Value(r + [0]) == Value(r)
  {
    ValueAppend(r, 0);
  }

  /** A prefix reaching past the end is the whole sequence. */
  lemma PrefixValueWhole(d: seq<int>, n: nat)
    requires |d| <= n
    ensures PrefixValue(d, n) == Value(d)
  {
    assert d[..|d|] == d;
  }

  // ---------------------------------------------------------------------
  // Canonical form

  /** A sequence with no most-significant zero is the expansion of its value. */
  lemma {:induction false} ExpandValue(d: seq<int>)
    requires AllDigits(d) && |d| >= 1 && d[|d| - 1] != 0
    ensures Expand(Value(d)) == d
  {
    ValueLowerBound(d);
    var rest := d[1..];
    assert AllDigits(rest);
    var v := Value(d);
    assert v == d[0] + BASE * Value(rest);
    assert v % BASE == d[0] && v / BASE == Value(rest);
    if |d| == 1 {
      assert rest == [];
    } else {
      ExpandValue(rest);
    }
    assert d == [d[0]] + rest;
  }

  /** Canonical form is unique: a canonical sequence is the DigitsOf its value. */
  lemma CanonicalUnique(d: seq<int>)
    requires Canonical(d)
    ensures DigitsOf(Value(d)) == d
  {
    if d[|d| - 1] == 0 {
      assert d == [0];
    } else {
      ValueLowerBound(d);
      ExpandValue(d);
    }
  }

  /** On canonical sequences, equality of the sequences (operator==) is
      equality of the numbers. */
  lemma SameDigitsIffSameValue(a: seq<int>, b: seq<int>)
    requires Canonical(a) && Canonical(b)
    ensures a == b <==> Value(a) == Value(b)
  {
    if Value(a) == Value(b) {
      CanonicalUnique(a);
      CanonicalUnique(b);
    }
  }

  /** Without the invariant, operator== is not numeric equality. */
  lemma EqualityNeedsCanonical()
    ensures [0, 0] != [0] && Value([0, 0]) == Value([0])
  {
  }

  /** Removing most-significant zeros keeps the value. */
  lemma {:induction false} TrimmedValue(d: seq<int>)
    ensures Value(Trimmed(d)) == Value(d)
    decreases |d|
  {
    if |d| > 1 && d[|d| - 1] == 0 {
      var p := d[..|d| - 1];
      assert d == p + [0];
      ValueAppend(p, 0);
      TrimmedValue(p);
    }
  }

  /** Trimming a non-empty sequence of digits yields its canonical form. */
  lemma TrimmedIsDigitsOf(d: seq<int>)
    requires |d| >= 1 && AllDigits(d)
    ensures Value(d) >= 0 && Trimmed(d) == DigitsOf(Value(d))
  {
    var t := Trimmed(d);
    assert AllDigits(t) by {
      forall i | 0 <= i < |t| ensures IsDigit(t[i]) {
        assert t[i] == d[i];
      }
    }
    TrimmedValue(d);
    CanonicalUnique(t);
  }

  // ---------------------------------------------------------------------
  // Comparison

  /** Comparing the lowest n positions from the top compares their values. */
  lemma {:induction false} LexLessBelowIsValueLess(a: seq<int>, b: seq<int>, n: nat)
    requires n <= |a| && n <= |b| && AllDigits(a) && AllDigits(b)
    ensures LexLessBelow(a, b, n) <==> Value(a[..n]) < Value(b[..n])
  {
    if n > 0 {
      var p := Pow(n - 1);
      var a', b' := a[..n - 1], b[..n - 1];
      var x, y := a[n - 1], b[n - 1];
      assert a[..n] == a' + [x] && b[..n] == b' + [y];
      ValueAppend(a', x);
      ValueAppend(b', y);
      assert AllDigits(a') && AllDigits(b');
      ValueRange(a');
      ValueRange(b');
      if x < y {
        TopDigitDecides(Value(a'), Value(b'), x, y, p);
      } else if y < x {
        TopDigitDecides(Value(b'), Value(a'), y, x, p);
      } else {
        LexLessBelowIsValueLess(a, b, n - 1);
      }
    }
  }

  /** On canonical sequences, operator<'s length-first order is the order of the numbers. */
  lemma LexLessIsValueLess(a: seq<int>, b: seq<int>)
    requires Canonical(a) && Canonical(b)
    ensures LexLess(a, b) <==> Value(a) < Value(b)
  {
    ValueRange(a);
    ValueRange(b);
    if |a| < |b| {
      ValueLowerBound(b);
      PowMonotone(|a|, |b| - 1);
    } else if |b| < |a| {
      ValueLowerBound(a);
      PowMonotone(|b|, |a| - 1);
    } else {
      assert a[..|a|] == a && b[..|b|] == b;
      LexLessBelowIsValueLess(a, b, |a|);
    }
  }

  /** Without the invariant, operator< is not the numeric order: [5] is shorter than [0, 0]. */
  lemma LexLessNeedsCanonical()
    ensures LexLess([5], [0, 0]) && Value([5]) > Value([0, 0])
  {
  }
}

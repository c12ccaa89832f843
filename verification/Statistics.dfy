/** Sums, squares and the variance formula over a table of counters. */
module Statistics {
  import opened Common
  import opened Counting

  function SumSquares(s: seq<nat>): nat {
    if s == [] then 0 else SumSquares(s[..|s| - 1]) + Square(s[|s| - 1])
  }

  function Square(n: nat): nat {
    n * n
  }

  /** The sum the program forms: each square is an unsigned product, reduced before it is added. */
  function WrappedSquares(s: seq<nat>): nat {
    if s == [] then 0 else WrappedSquares(s[..|s| - 1]) + Square(s[|s| - 1]) % UINT_MOD
  }

  ghost predicate AllEqual(s: seq<nat>) {
    forall i, j :: 0 <= i < j < |s| ==> s[i] == s[j]
  }

  lemma {:induction false} SumBounds(s: seq<nat>, lo: nat, hi: nat)
    requires forall i :: 0 <= i < |s| ==> lo <= s[i] <= hi
    ensures |s| * lo <= Sum(s) <= |s| * hi
    decreases |s|
  {
    if s != [] {
      SumBounds(s[..|s| - 1], lo, hi);
      assert |s| * lo == (|s| - 1) * lo + lo && |s| * hi == (|s| - 1) * hi + hi;
    }
  }

  lemma {:induction false} ConstantSums(s: seq<nat>, c: nat)
    requires forall i :: 0 <= i < |s| ==> s[i] == c
    ensures Sum(s) == |s| * c && SumSquares(s) == |s| * Square(c)
    decreases |s|
  {
    if s != [] {
      ConstantSums(s[..|s| - 1], c);
    }
  }

  // ----- wrapping counters

  /** The counters after visiting every cell before (t, j). */
  ghost predicate Counted(f: (int, int) -> int, table: seq<UInt>, t: nat, j: int, m: int) {
    forall h :: 0 <= h < |table| ==> table[h] == |Visited(f, t, j, m, h)| % UINT_MOD
  }

  lemma NothingCounted(f: (int, int) -> int, table: seq<UInt>, m: int)
    requires forall h :: 0 <= h < |table| ==> table[h] == 0
    ensures Counted(f, table, 0, 1, m)
  {
    assert forall h :: Visited(f, 0, 1, m, h) == {};
  }

  lemma CountCell(f: (int, int) -> int, table: seq<UInt>, t: nat, j: int, m: int)
    requires Counted(f, table, t, j, m) && 1 <= j <= m
    requires 0 <= f(t, j) < |table|
    ensures var h := f(t, j); Counted(f, table[h := (table[h] + 1) % UINT_MOD], t, j + 1, m)
  {
    forall h | 0 <= h < |table|
      ensures |Visited(f, t, j + 1, m, h)|
           == |Visited(f, t, j, m, h)| + if f(t, j) == h then 1 else 0
    {
      VisitCell(f, t, j, m, h);
    }
  }

  lemma NextRow(f: (int, int) -> int, table: seq<UInt>, t: nat, j: int, m: int)
    requires Counted(f, table, t, j, m) && j > m
    ensures Counted(f, table, t + 1, 1, m)
  {
    forall h | 0 <= h < |table|
      ensures Visited(f, t, j, m, h) == Visited(f, t + 1, 1, m, h)
    {
      VisitedWholeRows(f, t, m, h);
      VisitedWholeRows(f, t + 1, m, h);
    }
  }

  lemma CountedAll(f: (int, int) -> int, table: seq<UInt>, t: nat, m: int)
    requires Counted(f, table, t, 1, m)
    ensures forall h :: 0 <= h < |table| ==> table[h] == |Cells(f, t, m, h)| % UINT_MOD
  {
    forall h | 0 <= h < |table|
      ensures Visited(f, t, 1, m, h) == Cells(f, t, m, h)
    {
      VisitedWholeRows(f, t, m, h);
    }
  }

  // ----- Cauchy-Schwarz

  lemma SumSquared(s: int, x: int)
    ensures (s + x) * (s + x) == s * s + 2 * (x * s) + x * x
  {
  }

  lemma OneMoreTimes(n: int, q: int, xx: int)
    ensures (n + 1) * (q + xx) == n * q + q + n * xx + xx
  {
  }

  lemma ScaledDifference(n: int, x: int, s: int)
    ensures (n * x - s) * (n * x - s) == n * (n * (x * x)) - 2 * (n * (x * s)) + s * s
  {
    var y := n * x;
    assert (y - s) * (y - s) == y * y - 2 * (y * s) + s * s;
    assert y * y == n * (n * (x * x));
    assert y * s == n * (x * s);
  }

  lemma DistributeThree(n: int, q: int, a: int, b: int)
    ensures n * (q + n * a - 2 * b) == n * q + n * (n * a) - 2 * (n * b)
  {
  }

  /** What one more entry x adds to n * Q - S * S is a square, up to a factor n. */
  lemma SpreadStep(n: nat, q: nat, s: nat, x: nat)
    requires n * q >= s * s
    ensures (n + 1) * (q + Square(x)) - (s + x) * (s + x)
         == (n * q - s * s) + (q + n * Square(x) - 2 * (x * s))
    ensures n * (q + n * Square(x) - 2 * (x * s)) == (n * q - s * s) + (n * x - s) * (n * x - s)
  {
    SumSquared(s, x);
    OneMoreTimes(n, q, Square(x));
    ScaledDifference(n, x, s);
    DistributeThree(n, q, Square(x), x * s);
  }

  /** The spread n * Q - S * S of n entries stays non-negative, and zero only while each new entry equals the mean. */
  lemma SpreadGrows(n: nat, q: nat, s: nat, x: nat)
    requires n > 0 && n * q >= s * s
    ensures (n + 1) * (q + Square(x)) >= (s + x) * (s + x)
    ensures (n + 1) * (q + Square(x)) == (s + x) * (s + x) <==> n * q == s * s && n * x == s
  {
    SpreadStep(n, q, s, x);
    var d, y, extra := n * q - s * s, n * x - s, q + n * Square(x) - 2 * (x * s);
    SquareSign(y);
    FactorSign(n, extra);
  }

  lemma SquareSign(y: int)
    ensures y * y >= 0
    ensures y * y == 0 <==> y == 0
  {
  }

  lemma FactorSign(n: nat, e: int)
    requires n > 0
    ensures n * e >= 0 <==> e >= 0
    ensures n * e == 0 <==> e == 0
  {
  }

  lemma CancelFactor(n: nat, x: int, y: int)
    requires n > 0
    ensures n * x == n * y <==> x == y
  {
    FactorSign(n, x - y);
  }

  /** n times the sum of squares is at least the square of the sum, with equality only for equal entries. */
  lemma {:induction false} CauchySchwarz(s: seq<nat>)
    ensures |s| * SumSquares(s) >= Sum(s) * Sum(s)
    ensures |s| * SumSquares(s) == Sum(s) * Sum(s) <==> AllEqual(s)
    decreases |s|
  {
    if |s| == 1 {
      assert s[..0] == [];
    } else if |s| > 1 {
      var init, x := s[..|s| - 1], s[|s| - 1];
      CauchySchwarz(init);
      SpreadGrows(|init|, SumSquares(init), Sum(init), x);
      if AllEqual(init) {
        var c := init[0];
        ConstantSums(init, c);
        CancelFactor(|init|, x, c);
        AllEqualExtend(s, c);
      } else {
        assert AllEqual(s) ==> AllEqual(init);
      }
    }
  }

  lemma AllEqualExtend(s: seq<nat>, c: nat)
    requires |s| > 1
    requires forall i :: 0 <= i < |s| - 1 ==> s[i] == c
    ensures AllEqual(s) <==> s[|s| - 1] == c
  {
    assert s[0] == c;
  }

  // ----- the program's formula

  function Mean(s: seq<nat>): real
    requires s != []
  {
    Sum(s) as real / |s| as real
  }

  /** The formula: mean of the squares minus square of the mean. */
  function Spread(squares: nat, sum: nat, n: nat): real
    requires n > 0
  {
    squares as real / n as real - (sum as real / n as real) * (sum as real / n as real)
  }

  function Variance(s: seq<nat>): real
    requires s != []
  {
    Spread(SumSquares(s), Sum(s), |s|)
  }

  /** The variance as the program computes it, from wrapped squares. */
  function ReportedVariance(s: seq<nat>): real
    requires s != []
  {
    Spread(WrappedSquares(s), Sum(s), |s|)
  }

  lemma RealAssoc(a: real, b: real, c: real)
    ensures (a * b) * c == a * (b * c)
  {
  }

  lemma QuotientTimesSquare(q: real, n: real)
    requires n > 0.0
    ensures (q / n) * (n * n) == n * q
  {
    var x := q / n;
    assert x * n == q;
    RealAssoc(x, n, n);
  }

  lemma SquareTimesSquare(m: real, n: real)
    ensures (m * m) * (n * n) == (m * n) * (m * n)
  {
    RealAssoc(m, m, n * n);
    RealAssoc(m, n, n);
    RealAssoc(m * n, m, n);
  }

  lemma ScaledFormula(q: real, t: real, n: real)
    requires n > 0.0
    ensures (q / n - (t / n) * (t / n)) * (n * n) == n * q - t * t
  {
    var m, x := t / n, q / n;
    assert m * n == t;
    QuotientTimesSquare(q, n);
    SquareTimesSquare(m, n);
    assert (x - m * m) * (n * n) == x * (n * n) - (m * m) * (n * n);
  }

  lemma ScaledIntegers(q: nat, t: nat, n: nat)
    requires n > 0
    ensures Spread(q, t, n) * (n * n) as real == (n * q - t * t) as real
  {
    ProductAsReal(n, n);
    ProductAsReal(n, q);
    ProductAsReal(t, t);
    ScaledFormula(q as real, t as real, n as real);
  }

  /** The sign of the formula is that of n times the squares minus the squared sum. */
  lemma SpreadSign(q: nat, t: nat, n: nat)
    requires n > 0
    ensures Spread(q, t, n) >= 0.0 <==> n * q >= t * t
    ensures Spread(q, t, n) == 0.0 <==> n * q == t * t
  {
    ScaledIntegers(q, t, n);
    SquareSign(n);
    RealSign(Spread(q, t, n), (n * n) as real);
  }

  // ----- the mean squared deviation

  /** The squared deviations from t / n, scaled by n each. */
  function Deviations(s: seq<nat>, n: int, t: int): int {
    if s == [] then 0
    else
      var d := n * s[|s| - 1] - t;
      Deviations(s[..|s| - 1], n, t) + d * d
  }

  lemma SquareOfDifference(a: int, t: int)
    ensures (a - t) * (a - t) == a * a - 2 * (t * a) + t * t
  {
  }

  lemma ScaledSquare(n: int, x: nat)
    ensures (n * x) * (n * x) == (n * n) * Square(x)
  {
  }

  lemma Gather(p: int, q: int, x2: int, r: int, sum: int, x: int, k: int, c: int)
    ensures (p * q - 2 * (r * sum) + k * c) + (p * x2 - 2 * (r * x) + c)
         == p * (q + x2) - 2 * (r * (sum + x)) + (k + 1) * c
  {
    assert p * (q + x2) == p * q + p * x2;
    assert r * (sum + x) == r * sum + r * x;
    assert (k + 1) * c == k * c + c;
  }

  lemma OneDeviation(n: int, x: nat, t: int)
    ensures (n * x - t) * (n * x - t) == (n * n) * Square(x) - 2 * ((t * n) * x) + t * t
  {
    SquareOfDifference(n * x, t);
    ScaledSquare(n, x);
    assert t * (n * x) == (t * n) * x;
  }

  lemma {:induction false} DeviationsExpand(s: seq<nat>, n: int, t: int)
    ensures Deviations(s, n, t) == (n * n) * SumSquares(s) - 2 * ((t * n) * Sum(s)) + |s| * (t * t)
    decreases |s|
  {
    if s != [] {
      var init, x := s[..|s| - 1], s[|s| - 1];
      DeviationsExpand(init, n, t);
      OneDeviation(n, x, t);
      Gather(n * n, SumSquares(init), Square(x), t * n, Sum(init), x, |init|, t * t);
    }
  }

  lemma AtTheMean(n: int, q: int, t: int)
    ensures (n * n) * q - 2 * ((t * n) * t) + n * (t * t) == n * (n * q - t * t)
  {
    assert (n * n) * q == n * (n * q);
    assert (t * n) * t == n * (t * t);
    assert n * (n * q - t * t) == n * (n * q) - n * (t * t);
  }

  /**
   The formula is the mean squared deviation: n cubed times the variance is
   the sum of the squares of n * x - sum.
   */
  lemma VarianceIsMeanDeviation(s: seq<nat>) returns (scaled: int)
    requires s != []
    ensures Deviations(s, |s|, Sum(s)) == |s| * scaled
    ensures Variance(s) * (|s| * |s|) as real == scaled as real
  {
    var n, q, t := |s|, SumSquares(s), Sum(s);
    scaled := n * q - t * t;
    DeviationsExpand(s, n, t);
    AtTheMean(n, q, t);
    ScaledIntegers(q, t, n);
  }

  /** In exact arithmetic the variance is never negative, and zero only for equal counts. */
  lemma VarianceNonNegative(s: seq<nat>)
    requires s != []
    ensures Variance(s) >= 0.0
    ensures Variance(s) == 0.0 <==> AllEqual(s)
  {
    CauchySchwarz(s);
    SpreadSign(SumSquares(s), Sum(s), |s|);
  }

  lemma RealSign(v: real, w: real)
    requires w > 0.0
    ensures v * w >= 0.0 <==> v >= 0.0
    ensures v * w == 0.0 <==> v == 0.0
  {
  }

  lemma QuotientBetween(t: real, n: real, lo: real, hi: real)
    requires n > 0.0 && n * lo <= t <= n * hi
    ensures lo <= t / n <= hi
  {
    var m := t / n;
    assert m * n == t;
    RealSign(m - lo, n);
    RealSign(hi - m, n);
  }

  lemma ProductAsReal(a: int, b: int)
    ensures (a * b) as real == a as real * b as real
  {
  }

  lemma QuotientBounds(t: nat, n: nat, lo: nat, hi: nat)
    requires n > 0 && n * lo <= t <= n * hi
    ensures lo as real <= t as real / n as real <= hi as real
  {
    ProductAsReal(n, lo);
    ProductAsReal(n, hi);
    QuotientBetween(t as real, n as real, lo as real, hi as real);
  }

  lemma MeanBetween(s: seq<nat>, lo: nat, hi: nat)
    requires s != []
    requires forall i :: 0 <= i < |s| ==> lo <= s[i] <= hi
    ensures lo as real <= Mean(s) <= hi as real
  {
    SumBounds(s, lo, hi);
    QuotientBounds(Sum(s), |s|, lo, hi);
  }

  lemma SquareMonotone(m: nat, n: nat)
    requires m <= n
    ensures Square(m) <= Square(n)
  {
    assert m * m <= m * n <= n * n;
  }

  lemma SquareWraps(n: UInt)
    ensures Square(n) % UINT_MOD <= Square(n)
    ensures Square(n) % UINT_MOD == Square(n) <==> n < 0x1_0000
  {
    if n < 0x1_0000 {
      SquareMonotone(n, 0xffff);
    } else {
      SquareMonotone(0x1_0000, n);
    }
  }

  lemma {:induction false} WrappedSquaresExact(s: seq<UInt>)
    ensures WrappedSquares(s) <= SumSquares(s)
    ensures WrappedSquares(s) == SumSquares(s) <==> forall i :: 0 <= i < |s| ==> s[i] < 0x1_0000
    decreases |s|
  {
    if s != [] {
      var init: seq<UInt>, x: UInt := s[..|s| - 1], s[|s| - 1];
      WrappedSquaresExact(init);
      SquareWraps(x);
      assert forall i :: 0 <= i < |init| ==> s[i] == init[i];
      if WrappedSquares(s) == SumSquares(s) {
        assert WrappedSquares(init) == SumSquares(init);
      }
    }
  }

  lemma QuotientOrder(w: real, q: real, n: real)
    requires n > 0.0 && w < q
    ensures w / n < q / n
  {
    assert (w / n) * n == w && (q / n) * n == q;
  }

  /** The formula follows the squares. */
  lemma SpreadOrder(w: nat, q: nat, t: nat, n: nat)
    requires n > 0 && w <= q
    ensures Spread(w, t, n) <= Spread(q, t, n)
    ensures Spread(w, t, n) == Spread(q, t, n) <==> w == q
  {
    if w < q {
      QuotientOrder(w as real, q as real, n as real);
    }
  }

  /**
   The reported variance is the true one exactly when every counter is below 2^16.
   Above that the unsigned square wraps and the report is too small, even negative.
   */
  lemma ReportedVarianceExact(s: seq<UInt>)
    requires s != []
    ensures ReportedVariance(s) == Variance(s) <==> forall i :: 0 <= i < |s| ==> s[i] < 0x1_0000
    ensures ReportedVariance(s) <= Variance(s)
  {
    WrappedSquaresExact(s);
    SpreadOrder(WrappedSquares(s), SumSquares(s), Sum(s), |s|);
  }

  /** A single bucket holding 2^16 entries is reported with a negative variance. */
  lemma NegativeVarianceReported()
    ensures ReportedVariance([0x1_0000]) < 0.0
  {
    var s: seq<nat> := [0x1_0000];
    assert s[..0] == [];
    assert Sum(s) == 0x1_0000;
    assert WrappedSquares(s) == 0;
    assert Mean(s) == 65536.0;
  }
}

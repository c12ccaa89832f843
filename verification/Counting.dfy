/** Counting the cells of a two-dimensional loop that a function sends to one value. */
module Counting {
  import opened Common

  /** The function `f` takes distinct values at distinct turns of one row. */
  ghost predicate RowInjective(f: (int, int) -> int, rows: nat, v: int) {
    forall t, t' :: 0 <= t < t' < rows ==> f(t, v) != f(t', v)
  }

  ghost predicate RowWithin(f: (int, int) -> int, rows: nat, v: int, n: nat) {
    forall t :: 0 <= t < rows ==> 0 <= f(t, v) < n
  }

  /** The turns of row v that `f` sends to h. */
  ghost function RowHits(f: (int, int) -> int, rows: nat, v: int, h: int): set<int> {
    set t | 0 <= t < rows && f(t, v) == h
  }

  /** The cells (t, v), with t below `rows` and v from 1 to m, that `f` sends to h. */
  ghost function Cells(f: (int, int) -> int, rows: nat, m: int, h: int): set<(int, int)> {
    set t, v | 0 <= t < rows && 1 <= v <= m && f(t, v) == h :: (t, v)
  }

  // ----- pigeonhole on one row

  lemma RowHitsAtMostOne(f: (int, int) -> int, rows: nat, v: int, h: int)
    requires RowInjective(f, rows, v)
    ensures |RowHits(f, rows, v, h)| <= 1
  {
    var hits := RowHits(f, rows, v, h);
    if hits != {} {
      var t :| t in hits;
      assert hits == {t};
    }
  }

  /** The values an injective row takes: as many as it has turns. */
  lemma {:induction false} RowImage(f: (int, int) -> int, rows: nat, v: int, n: nat) returns (image: set<int>)
    requires RowInjective(f, rows, v) && RowWithin(f, rows, v, n)
    ensures |image| == rows
    ensures forall h :: h in image ==> 0 <= h < n && exists t :: 0 <= t < rows && f(t, v) == h
    ensures forall t :: 0 <= t < rows ==> f(t, v) in image
    decreases rows
  {
    if rows == 0 {
      image := {};
    } else {
      var rest := RowImage(f, rows - 1, v, n);
      image := rest + {f(rows - 1, v)};
    }
  }

  lemma SubsetOfSameSize(a: set<int>, b: set<int>)
    requires a <= b && |a| == |b|
    ensures a == b
  {
    assert b == a + (b - a);
  }

  /** An injective row with as many turns as values takes each value exactly once. */
  lemma RowHitsOne(f: (int, int) -> int, n: nat, v: int, h: int)
    requires RowInjective(f, n, v) && RowWithin(f, n, v, n)
    requires 0 <= h < n
    ensures |RowHits(f, n, v, h)| == 1
  {
    var image := RowImage(f, n, v, n);
    var range := Interval(0, n);
    assert forall x :: x in image ==> x in range;
    SubsetOfSameSize(image, range);
    assert h in image;
    var t :| 0 <= t < n && f(t, v) == h;
    assert t in RowHits(f, n, v, h);
    RowHitsAtMostOne(f, n, v, h);
  }

  // ----- summing rows

  ghost function Tagged(ts: set<int>, v: int): set<(int, int)> {
    set t | t in ts :: (t, v)
  }

  lemma Member<T>(ts: set<T>) returns (t: T)
    requires ts != {}
    ensures t in ts
  {
    t :| t in ts;
  }

  lemma {:induction false} TaggedSize(ts: set<int>, v: int)
    ensures |Tagged(ts, v)| == |ts|
    decreases |ts|
  {
    if ts != {} {
      var t0 := Member(ts);
      TaggedSize(ts - {t0}, v);
      assert Tagged(ts, v) == Tagged(ts - {t0}, v) + {(t0, v)};
    }
  }

  lemma CellsAddRow(f: (int, int) -> int, rows: nat, m: nat, h: int)
    ensures |Cells(f, rows, m + 1, h)| == |Cells(f, rows, m, h)| + |RowHits(f, rows, m + 1, h)|
  {
    var row := Tagged(RowHits(f, rows, m + 1, h), m + 1);
    TaggedSize(RowHits(f, rows, m + 1, h), m + 1);
    assert Cells(f, rows, m + 1, h) == Cells(f, rows, m, h) + row;
  }

  /** Injective rows: every value is taken at most once per row. */
  lemma {:induction false} CellsAtMost(f: (int, int) -> int, rows: nat, m: nat, h: int)
    requires forall v :: 1 <= v <= m ==> RowInjective(f, rows, v)
    ensures |Cells(f, rows, m, h)| <= m
    decreases m
  {
    if m == 0 {
      assert Cells(f, rows, m, h) == {};
    } else {
      CellsAtMost(f, rows, m - 1, h);
      CellsAddRow(f, rows, m - 1, h);
      RowHitsAtMostOne(f, rows, m, h);
    }
  }

  /** Injective rows with as many turns as values: every value is taken exactly once per row. */
  lemma {:induction false} CellsExactly(f: (int, int) -> int, n: nat, m: nat, h: int)
    requires forall v :: 1 <= v <= m ==> RowInjective(f, n, v) && RowWithin(f, n, v, n)
    requires 0 <= h < n
    ensures |Cells(f, n, m, h)| == m
    decreases m
  {
    if m == 0 {
      assert Cells(f, n, m, h) == {};
    } else {
      CellsExactly(f, n, m - 1, h);
      CellsAddRow(f, n, m - 1, h);
      RowHitsOne(f, n, m, h);
    }
  }

  // ----- visiting the cells row by row

  /** The cells sent to h among those visited before cell (t, v), row by row. */
  ghost function Visited(f: (int, int) -> int, t: nat, v: int, m: int, h: int): set<(int, int)> {
    set t', v' | 0 <= t' <= t && 1 <= v' <= m && (t' < t || v' < v) && f(t', v') == h :: (t', v')
  }

  lemma VisitCell(f: (int, int) -> int, t: nat, v: int, m: int, h: int)
    requires 1 <= v <= m
    ensures |Visited(f, t, v + 1, m, h)| == |Visited(f, t, v, m, h)| + if f(t, v) == h then 1 else 0
  {
    if f(t, v) == h {
      assert Visited(f, t, v + 1, m, h) == Visited(f, t, v, m, h) + {(t, v)};
    } else {
      assert Visited(f, t, v + 1, m, h) == Visited(f, t, v, m, h);
    }
  }

  lemma VisitedWholeRows(f: (int, int) -> int, t: nat, m: int, h: int)
    ensures Visited(f, t, 1, m, h) == Cells(f, t, m, h)
    ensures forall v :: v > m ==> Visited(f, t, v, m, h) == Cells(f, t + 1, m, h)
  {
  }

  // ----- conservation

  /** The cells whose value is below `bound`. */
  ghost function CellsBelow(f: (int, int) -> int, rows: nat, m: int, bound: int): set<(int, int)> {
    set t, v | 0 <= t < rows && 1 <= v <= m && f(t, v) < bound :: (t, v)
  }

  ghost function CellCounts(f: (int, int) -> int, rows: nat, m: int, n: nat): seq<nat> {
    seq(n, h => |Cells(f, rows, m, h)|)
  }

  function Sum(s: seq<nat>): nat {
    if s == [] then 0 else Sum(s[..|s| - 1]) + s[|s| - 1]
  }

  lemma {:induction false} SumOfCounts(f: (int, int) -> int, rows: nat, m: int, n: nat)
    requires forall t, v :: 0 <= t < rows && 1 <= v <= m ==> 0 <= f(t, v)
    ensures Sum(CellCounts(f, rows, m, n)) == |CellsBelow(f, rows, m, n)|
    decreases n
  {
    if n == 0 {
      assert CellsBelow(f, rows, m, n) == {};
    } else {
      SumOfCounts(f, rows, m, n - 1);
      assert CellCounts(f, rows, m, n)[..n - 1] == CellCounts(f, rows, m, n - 1);
      assert CellsBelow(f, rows, m, n) == CellsBelow(f, rows, m, n - 1) + Cells(f, rows, m, n - 1);
    }
  }

  lemma WholeRow(f: (int, int) -> int, rows: nat, m: nat, n: nat, turns: set<int>)
    requires m > 0 && RowWithin(f, rows, m, n)
    requires forall t :: t in turns <==> 0 <= t < rows
    ensures CellsBelow(f, rows, m, n) == CellsBelow(f, rows, m - 1, n) + Tagged(turns, m)
  {
    forall t, v
      ensures (t, v) in CellsBelow(f, rows, m, n) <==> (t, v) in CellsBelow(f, rows, m - 1, n) || (t, v) in Tagged(turns, m)
    {
    }
  }

  lemma GridRow(f: (int, int) -> int, rows: nat, m: nat, n: nat)
    requires m > 0 && RowWithin(f, rows, m, n)
    ensures |CellsBelow(f, rows, m, n)| == |CellsBelow(f, rows, m - 1, n)| + rows
  {
    var turns := Interval(0, rows);
    TaggedSize(turns, m);
    WholeRow(f, rows, m, n, turns);
    assert CellsBelow(f, rows, m - 1, n) !! Tagged(turns, m);
  }

  lemma OneMore(a: nat, m: nat)
    requires m > 0
    ensures a * (m - 1) + a == a * m
  {
  }

  lemma {:induction false} GridSize(f: (int, int) -> int, rows: nat, m: nat, n: nat)
    requires forall v :: 1 <= v <= m ==> RowWithin(f, rows, v, n)
    ensures |CellsBelow(f, rows, m, n)| == rows * m
    decreases m
  {
    if m == 0 {
      assert CellsBelow(f, rows, m, n) == {};
    } else {
      GridSize(f, rows, m - 1, n);
      GridRow(f, rows, m, n);
      OneMore(rows, m);
    }
  }

  /** Every cell is counted once: the counts of all values add up to the number of cells. */
  lemma CountsConserved(f: (int, int) -> int, rows: nat, m: nat, n: nat)
    requires forall v :: 1 <= v <= m ==> RowWithin(f, rows, v, n)
    ensures Sum(CellCounts(f, rows, m, n)) == rows * m
  {
    forall t, v | 0 <= t < rows && 1 <= v <= m
      ensures 0 <= f(t, v)
    {
      assert RowWithin(f, rows, v, n);
    }
    SumOfCounts(f, rows, m, n);
    GridSize(f, rows, m, n);
  }
}

/**
 What the monitor's reports mean. Each CPU numbers its messages with a
 wrapping 32-bit counter, and a lossy in-order channel delivers some of them.
 */
module LossAccounting {
  import opened Common
  import opened SequenceMonitor

  /** What truly happened: an ENOBUFS error, or the delivery of a CPU's index-th message. */
  datatype Fact = Overflow | Delivered(cpu: nat, index: nat)

  /** The number on the wire: each CPU's counter starts somewhere and wraps. */
  function Number(base: nat, index: nat): UInt {
    (base + index) % UINT_MOD
  }

  function Wire(bases: seq<nat>, f: Fact): Event
    requires f.Delivered? ==> f.cpu < |bases|
  {
    match f
    case Overflow => NoBufs
    case Delivered(cpu, index) => Message(cpu, Number(bases[cpu], index))
  }

  ghost predicate OfCpu(f: Fact, c: nat) {
    f.Delivered? && f.cpu == c
  }

  ghost predicate CpusBelow(n: nat, facts: seq<Fact>) {
    forall i :: 0 <= i < |facts| ==> facts[i].Delivered? ==> facts[i].cpu < n
  }

  ghost function Events(bases: seq<nat>, facts: seq<Fact>): (events: seq<Event>)
    requires CpusBelow(|bases|, facts)
    ensures |events| == |facts| && AllInRange(|bases|, events)
  {
    seq(|facts|, i requires 0 <= i < |facts| => Wire(bases, facts[i]))
  }

  /** The last delivery from CPU c, if position j is it. */
  ghost predicate IsLast(facts: seq<Fact>, c: nat, j: int) {
    && 0 <= j < |facts| && OfCpu(facts[j], c)
    && forall k :: j < k < |facts| ==> !OfCpu(facts[k], c)
  }

  ghost predicate OverflowAfter(facts: seq<Fact>, j: int) {
    exists k :: 0 <= k < |facts| && j < k && facts[k] == Overflow
  }

  /** A fresh table: nothing is initialised, the other fields hold whatever was in memory. */
  ghost predicate Fresh(table: seq<CpuSeq>) {
    forall c :: 0 <= c < |table| ==> !table[c].initialised
  }

  // ----- what the table knows

  ghost predicate Tracks(entry: CpuSeq, base: nat, facts: seq<Fact>, c: nat) {
    && (entry.initialised <==> exists j :: IsLast(facts, c, j))
    && forall j :: IsLast(facts, c, j) ==>
         && entry.last == Number(base, facts[j].index)
         && (entry.noBufs <==> OverflowAfter(facts, j))
  }

  lemma LastUnchanged(facts: seq<Fact>, f: Fact, c: nat, j: int)
    requires !OfCpu(f, c)
    ensures IsLast(facts + [f], c, j) <==> IsLast(facts, c, j)
  {
    var more := facts + [f];
    assert forall k :: 0 <= k < |facts| ==> more[k] == facts[k];
    if IsLast(more, c, j) {
      assert j < |facts|;
    }
  }

  lemma TracksStep(entry: CpuSeq, base: nat, facts: seq<Fact>, c: nat, f: Fact)
    requires Tracks(entry, base, facts, c)
    ensures f == Overflow ==> Tracks(entry.(noBufs := true), base, facts + [f], c)
    ensures OfCpu(f, c) ==> Tracks(CpuSeq(true, false, Number(base, f.index)), base, facts + [f], c)
    ensures f.Delivered? && f.cpu != c ==> Tracks(entry, base, facts + [f], c)
  {
    var more := facts + [f];
    if OfCpu(f, c) {
      assert IsLast(more, c, |facts|);
      assert forall j :: IsLast(more, c, j) ==> j == |facts|;
    } else {
      forall j
        ensures IsLast(more, c, j) <==> IsLast(facts, c, j)
      {
        LastUnchanged(facts, f, c, j);
      }
      if f == Overflow {
        assert more[|facts|] == Overflow;
      } else {
        assert forall j :: OverflowAfter(more, j) <==> OverflowAfter(facts, j) by {
          assert forall k :: 0 <= k < |facts| ==> more[k] == facts[k];
        }
      }
    }
  }

  lemma {:induction false} TableTracks(table: seq<CpuSeq>, bases: seq<nat>, facts: seq<Fact>, c: nat)
    requires Fresh(table) && |table| == |bases| && c < |table| && CpusBelow(|bases|, facts)
    ensures Tracks(TableAfter(table, Events(bases, facts))[c], bases[c], facts, c)
    decreases |facts|
  {
    if facts != [] {
      var n := |facts| - 1;
      var init, f := facts[..n], facts[n];
      TableTracks(table, bases, init, c);
      assert init + [f] == facts;
      assert Events(bases, facts)[..n] == Events(bases, init);
      TracksStep(TableAfter(table, Events(bases, init))[c], bases[c], init, c, f);
    }
  }

  // ----- each report

  /** Positions j and i hold two deliveries from CPU c with none between. */
  ghost predicate Consecutive(facts: seq<Fact>, c: nat, j: int, i: int) {
    0 <= i < |facts| && OfCpu(facts[i], c) && IsLast(facts[..i], c, j)
  }

  function Gap(facts: seq<Fact>, j: int, i: int): int
    requires 0 <= j < |facts| && 0 <= i < |facts| && facts[j].Delivered? && facts[i].Delivered?
  {
    facts[i].index - facts[j].index - 1
  }

  lemma NumberGap(base: nat, x: nat, y: nat)
    ensures (Number(base, y) - Number(base, x) - 1) % UINT_MOD == (y - x - 1) % UINT_MOD
  {
  }

  /** The table entry a delivery from CPU c finds. */
  lemma EntryBefore(table: seq<CpuSeq>, bases: seq<nat>, facts: seq<Fact>, c: nat, i: nat) returns (entry: CpuSeq)
    requires Fresh(table) && |table| == |bases| && CpusBelow(|bases|, facts)
    requires i < |facts| && OfCpu(facts[i], c)
    ensures c < |bases| && CpusBelow(|bases|, facts[..i]) && Tracks(entry, bases[c], facts[..i], c)
    ensures var missed := (Number(bases[c], facts[i].index) - entry.last - 1) % UINT_MOD;
            ReportAt(table, Events(bases, facts), i)
            == if entry.initialised && missed != 0 then Some(Report(entry.noBufs, missed, c)) else None
  {
    var before := facts[..i];
    assert Events(bases, facts)[..i] == Events(bases, before);
    TableTracks(table, bases, before, c);
    entry := TableAfter(table, Events(bases, before))[c];
  }

  /** What is printed for a delivery that follows another of the same CPU. */
  lemma ReportOfGap(table: seq<CpuSeq>, bases: seq<nat>, facts: seq<Fact>, c: nat, i: nat, j: int)
    requires Fresh(table) && |table| == |bases| && CpusBelow(|bases|, facts)
    requires i < |facts| && OfCpu(facts[i], c) && Consecutive(facts, c, j, i)
    ensures var missed := Gap(facts, j, i) % UINT_MOD;
            ReportAt(table, Events(bases, facts), i)
            == if missed == 0 then None else Some(Report(OverflowAfter(facts[..i], j), missed, c))
  {
    var entry := EntryBefore(table, bases, facts, c, i);
    assert IsLast(facts[..i], c, j) && facts[..i][j] == facts[j];
    NumberGap(bases[c], facts[j].index, facts[i].index);
  }

  lemma ReportOfFirst(table: seq<CpuSeq>, bases: seq<nat>, facts: seq<Fact>, c: nat, i: nat)
    requires Fresh(table) && |table| == |bases| && CpusBelow(|bases|, facts)
    requires i < |facts| && OfCpu(facts[i], c) && forall j :: 0 <= j < i ==> !OfCpu(facts[j], c)
    ensures ReportAt(table, Events(bases, facts), i) == None
  {
    var entry := EntryBefore(table, bases, facts, c, i);
    assert forall j :: 0 <= j < i ==> facts[..i][j] == facts[j];
  }

  /**
   Exactly what is printed for each delivery: nothing for a CPU's first one;
   otherwise the number of messages skipped since the previous one, modulo
   2^32, if that is not zero, tagged when an ENOBUFS came in between.
   */
  lemma ReportMeaning(table: seq<CpuSeq>, bases: seq<nat>, facts: seq<Fact>, c: nat, i: nat)
    requires Fresh(table) && |table| == |bases| && CpusBelow(|bases|, facts)
    requires i < |facts| && OfCpu(facts[i], c)
    ensures (forall j :: 0 <= j < i ==> !OfCpu(facts[j], c)) ==> ReportAt(table, Events(bases, facts), i) == None
    ensures forall j :: Consecutive(facts, c, j, i) ==>
              var missed := Gap(facts, j, i) % UINT_MOD;
              ReportAt(table, Events(bases, facts), i)
              == if missed == 0 then None else Some(Report(OverflowAfter(facts[..i], j), missed, c))
  {
    if forall j :: 0 <= j < i ==> !OfCpu(facts[j], c) {
      ReportOfFirst(table, bases, facts, c, i);
    }
    forall j | Consecutive(facts, c, j, i)
      ensures var missed := Gap(facts, j, i) % UINT_MOD;
              ReportAt(table, Events(bases, facts), i)
              == if missed == 0 then None else Some(Report(OverflowAfter(facts[..i], j), missed, c))
    {
      ReportOfGap(table, bases, facts, c, i, j);
    }
  }

  /** What is printed does not depend on the memory the table was allocated in. */
  lemma MemoryIrrelevant(table: seq<CpuSeq>, table': seq<CpuSeq>, bases: seq<nat>, facts: seq<Fact>, i: nat)
    requires Fresh(table) && Fresh(table') && |table| == |table'| == |bases| && CpusBelow(|bases|, facts)
    requires i < |facts|
    ensures ReportAt(table, Events(bases, facts), i) == ReportAt(table', Events(bases, facts), i)
  {
    if facts[i].Delivered? {
      var c := facts[i].cpu;
      ReportMeaning(table, bases, facts, c, i);
      ReportMeaning(table', bases, facts, c, i);
      if j :| 0 <= j < i && OfCpu(facts[j], c) {
        var k := LastBefore(facts, c, i, j);
      }
    }
  }

  lemma {:induction false} LastBefore(facts: seq<Fact>, c: nat, i: nat, j: nat) returns (k: nat)
    requires j < i < |facts| && OfCpu(facts[j], c) && OfCpu(facts[i], c)
    ensures Consecutive(facts, c, k, i)
    decreases i - j
  {
    if k' :| j < k' < i && OfCpu(facts[k'], c) {
      k := LastBefore(facts, c, i, k');
    } else {
      k := j;
      assert forall m :: 0 <= m < i ==> facts[..i][m] == facts[m];
    }
  }

  // ----- the sum of all reports

  function SumFor(reports: seq<Report>, c: nat): nat
    decreases |reports|
  {
    if reports == [] then 0
    else
      var r := reports[|reports| - 1];
      SumFor(reports[..|reports| - 1], c) + if r.cpu == c then r.missed else 0
  }

  function FirstIndex(facts: seq<Fact>, c: nat): Option<nat>
    decreases |facts|
  {
    if facts == [] then None
    else
      var n := |facts| - 1;
      match FirstIndex(facts[..n], c)
      case Some(x) => Some(x)
      case None => if facts[n].Delivered? && facts[n].cpu == c then Some(facts[n].index) else None
  }

  function LastIndex(facts: seq<Fact>, c: nat): Option<nat>
    decreases |facts|
  {
    if facts == [] then None
    else
      var n := |facts| - 1;
      if facts[n].Delivered? && facts[n].cpu == c then Some(facts[n].index) else LastIndex(facts[..n], c)
  }

  /** The messages of CPU c between its first and its last delivered one that were not delivered. */
  ghost function Lost(facts: seq<Fact>, c: nat): set<int> {
    match (FirstIndex(facts, c), LastIndex(facts, c))
    case (Some(first), Some(last)) => set x | first < x < last && Delivered(c, x) !in facts
    case _ => {}
  }

  /** The channel keeps each CPU's order. */
  ghost predicate InOrder(facts: seq<Fact>, c: nat) {
    forall i, j :: 0 <= i < j < |facts| && OfCpu(facts[i], c) && OfCpu(facts[j], c) ==> facts[i].index < facts[j].index
  }

  /** Fewer than 2^32 messages are lost in a row. */
  ghost predicate SmallGaps(facts: seq<Fact>, c: nat) {
    forall j, i :: Consecutive(facts, c, j, i) ==> Gap(facts, j, i) < UINT_MOD
  }

  lemma {:induction false} EndsExist(facts: seq<Fact>, c: nat)
    ensures FirstIndex(facts, c).Some? <==> LastIndex(facts, c).Some?
    ensures LastIndex(facts, c) == None ==> forall j :: 0 <= j < |facts| ==> !OfCpu(facts[j], c)
    ensures LastIndex(facts, c).Some? ==>
              exists j :: IsLast(facts, c, j) && facts[j].index == LastIndex(facts, c).value
    decreases |facts|
  {
    if facts != [] {
      var n := |facts| - 1;
      EndsExist(facts[..n], c);
      assert facts[..n] + [facts[n]] == facts;
      if OfCpu(facts[n], c) {
        assert IsLast(facts, c, n);
      } else if LastIndex(facts, c).Some? {
        var j :| IsLast(facts[..n], c, j) && facts[j].index == LastIndex(facts[..n], c).value;
        LastUnchanged(facts[..n], facts[n], c, j);
      }
    }
  }

  lemma {:induction false} FirstBelowLast(facts: seq<Fact>, c: nat)
    requires InOrder(facts, c) && FirstIndex(facts, c).Some? && LastIndex(facts, c).Some?
    ensures FirstIndex(facts, c).value <= LastIndex(facts, c).value
    ensures forall x: nat :: Delivered(c, x) in facts ==> x <= LastIndex(facts, c).value
    decreases |facts|
  {
    var n := |facts| - 1;
    var init := facts[..n];
    assert forall k :: 0 <= k < n ==> init[k] == facts[k];
    EndsExist(init, c);
    EndsExist(facts, c);
    if LastIndex(init, c).Some? {
      FirstBelowLast(init, c);
      assert forall x: nat :: Delivered(c, x) in facts ==> Delivered(c, x) in init || Delivered(c, x) == facts[n];
      if OfCpu(facts[n], c) {
        var j :| IsLast(init, c, j) && init[j].index == LastIndex(init, c).value;
        assert facts[j].index < facts[n].index;
      }
    } else {
      assert OfCpu(facts[n], c);
      assert forall x: nat :: Delivered(c, x) in facts ==> Delivered(c, x) == facts[n];
    }
  }

  lemma InOrderPrefix(facts: seq<Fact>, c: nat, f: Fact)
    requires InOrder(facts + [f], c)
    ensures InOrder(facts, c)
    ensures OfCpu(f, c) ==> forall j :: IsLast(facts, c, j) ==> facts[j].index < f.index
  {
    var more := facts + [f];
    assert forall k :: 0 <= k < |facts| ==> more[k] == facts[k];
    assert more[|facts|] == f;
  }

  lemma IndicesExtend(facts: seq<Fact>, c: nat, x: nat)
    ensures LastIndex(facts + [Delivered(c, x)], c) == Some(x)
    ensures FirstIndex(facts + [Delivered(c, x)], c)
         == if FirstIndex(facts, c).Some? then FirstIndex(facts, c) else Some(x)
  {
    var more := facts + [Delivered(c, x)];
    assert more[..|facts|] == facts && more[|facts|] == Delivered(c, x);
  }

  /** One more delivery from CPU c adds the skipped messages to the losses. */
  lemma LostGrows(facts: seq<Fact>, c: nat, x: nat)
    requires InOrder(facts + [Delivered(c, x)], c) && LastIndex(facts, c).Some?
    ensures LastIndex(facts, c).value < x
    ensures |Lost(facts + [Delivered(c, x)], c)| == |Lost(facts, c)| + (x - LastIndex(facts, c).value - 1)
  {
    var more := facts + [Delivered(c, x)];
    EndsExist(facts, c);
    InOrderPrefix(facts, c, Delivered(c, x));
    FirstBelowLast(facts, c);
    IndicesExtend(facts, c, x);
    var first, last := FirstIndex(facts, c).value, LastIndex(facts, c).value;
    var skipped := Interval(last + 1, x);
    forall y: int
      ensures y in Lost(more, c) <==> y in Lost(facts, c) || y in skipped
    {
      assert y >= 0 ==> (Delivered(c, y) in more <==> Delivered(c, y) in facts || y == x);
    }
    assert Lost(more, c) == Lost(facts, c) + skipped;
  }

  lemma LostUnchanged(facts: seq<Fact>, c: nat, f: Fact)
    requires !OfCpu(f, c)
    ensures Lost(facts + [f], c) == Lost(facts, c)
  {
    assert (facts + [f])[..|facts|] == facts;
  }

  lemma ConsecutivePrefix(facts: seq<Fact>, f: Fact, c: nat, j: int, i: int)
    requires 0 <= i < |facts|
    ensures Consecutive(facts + [f], c, j, i) <==> Consecutive(facts, c, j, i)
  {
    assert (facts + [f])[..i] == facts[..i];
  }

  /** Message x comes fewer than 2^32 losses after the CPU's last one. */
  ghost predicate SmallGapTo(facts: seq<Fact>, c: nat, x: nat) {
    forall j :: IsLast(facts, c, j) ==> x - facts[j].index - 1 < UINT_MOD
  }

  lemma SmallGapsStep(facts: seq<Fact>, c: nat, f: Fact)
    ensures SmallGaps(facts + [f], c) <==> SmallGaps(facts, c) && (OfCpu(f, c) ==> SmallGapTo(facts, c, f.index))
  {
    var more := facts + [f];
    assert more[..|facts|] == facts;
    forall j, i | 0 <= i < |facts|
      ensures Consecutive(more, c, j, i) <==> Consecutive(facts, c, j, i)
    {
      ConsecutivePrefix(facts, f, c, j, i);
    }
    if SmallGaps(more, c) {
      forall j, i | Consecutive(facts, c, j, i)
        ensures Gap(facts, j, i) < UINT_MOD
      {
        assert Consecutive(more, c, j, i);
      }
      forall j | OfCpu(f, c) && IsLast(facts, c, j)
        ensures f.index - facts[j].index - 1 < UINT_MOD
      {
        assert Consecutive(more, c, j, |facts|);
      }
    }
  }

  /** What one printed line, if any, contributes to a CPU's total. */
  function Added(o: Option<Report>, c: nat): nat {
    match o
    case None => 0
    case Some(r) => if r.cpu == c then r.missed else 0
  }

  lemma SumForExtend(reports: seq<Report>, o: Option<Report>, c: nat)
    ensures SumFor(reports + match o { case None => [] case Some(r) => [r] }, c) == SumFor(reports, c) + Added(o, c)
  {
    match o
    case None =>
      assert reports + [] == reports;
    case Some(r) =>
      assert (reports + [r])[..|reports|] == reports;
  }

  ghost function Total(table: seq<CpuSeq>, bases: seq<nat>, facts: seq<Fact>, c: nat): nat
    requires |table| == |bases| && CpusBelow(|bases|, facts)
  {
    SumFor(Reports(table, Events(bases, facts)), c)
  }

  lemma TotalStep(table: seq<CpuSeq>, bases: seq<nat>, facts: seq<Fact>, f: Fact, c: nat)
    requires |table| == |bases| && CpusBelow(|bases|, facts + [f]) && CpusBelow(|bases|, facts)
    ensures Total(table, bases, facts + [f], c)
         == Total(table, bases, facts, c) + Added(ReportAt(table, Events(bases, facts + [f]), |facts|), c)
  {
    var more, n := facts + [f], |facts|;
    assert Events(bases, more)[..n] == Events(bases, facts);
    SumForExtend(Reports(table, Events(bases, facts)), ReportAt(table, Events(bases, more), n), c);
  }

  /** A delivery from CPU c prints the growth of its losses, modulo 2^32. */
  lemma AddDelivery(table: seq<CpuSeq>, bases: seq<nat>, facts: seq<Fact>, c: nat, x: nat) returns (gap: nat)
    requires Fresh(table) && |table| == |bases| && CpusBelow(|bases|, facts + [Delivered(c, x)])
    requires InOrder(facts + [Delivered(c, x)], c)
    ensures |Lost(facts + [Delivered(c, x)], c)| == |Lost(facts, c)| + gap
    ensures Added(ReportAt(table, Events(bases, facts + [Delivered(c, x)]), |facts|), c) == gap % UINT_MOD
    ensures gap < UINT_MOD <==> SmallGapTo(facts, c, x)
  {
    var more := facts + [Delivered(c, x)];
    assert more[|facts|] == Delivered(c, x) && more[..|facts|] == facts;
    assert forall k :: 0 <= k < |facts| ==> more[k] == facts[k];
    EndsExist(facts, c);
    ReportMeaning(table, bases, more, c, |facts|);
    if LastIndex(facts, c).Some? {
      LostGrows(facts, c, x);
      var j :| IsLast(facts, c, j) && facts[j].index == LastIndex(facts, c).value;
      assert Consecutive(more, c, j, |facts|);
      gap := x - LastIndex(facts, c).value - 1;
    } else {
      IndicesExtend(facts, c, x);
      assert Lost(more, c) == {} && Lost(facts, c) == {};
      gap := 0;
    }
  }

  lemma OtherDelivery(table: seq<CpuSeq>, bases: seq<nat>, facts: seq<Fact>, c: nat, f: Fact)
    requires |table| == |bases| && CpusBelow(|bases|, facts + [f]) && !OfCpu(f, c)
    ensures Added(ReportAt(table, Events(bases, facts + [f]), |facts|), c) == 0
    ensures Lost(facts + [f], c) == Lost(facts, c)
  {
    assert (facts + [f])[|facts|] == f;
    LostUnchanged(facts, c, f);
  }

  /**
   Main result: the counts reported for a CPU add up to at most the messages
   lost between its first and last delivery, and to exactly that number if and
   only if no 2^32 of them were lost in a row.
   */
  lemma {:induction false} ReportsSumToLosses(table: seq<CpuSeq>, bases: seq<nat>, facts: seq<Fact>, c: nat)
    requires Fresh(table) && |table| == |bases| && CpusBelow(|bases|, facts)
    requires InOrder(facts, c)
    ensures Total(table, bases, facts, c) <= |Lost(facts, c)|
    ensures Total(table, bases, facts, c) == |Lost(facts, c)| <==> SmallGaps(facts, c)
    decreases |facts|
  {
    if facts == [] {
      assert SmallGaps(facts, c);
    } else {
      var init, f := facts[..|facts| - 1], facts[|facts| - 1];
      assert init + [f] == facts;
      InOrderPrefix(init, c, f);
      ReportsSumToLosses(table, bases, init, c);
      var grown := Growth(table, bases, init, c, f);
      WrappedGap(grown);
    }
  }

  lemma WrappedGap(gap: nat)
    ensures gap % UINT_MOD <= gap
    ensures gap % UINT_MOD == gap <==> gap < UINT_MOD
  {
  }

  lemma GrowthOfDelivery(table: seq<CpuSeq>, bases: seq<nat>, facts: seq<Fact>, c: nat, x: nat) returns (grown: nat)
    requires Fresh(table) && |table| == |bases| && CpusBelow(|bases|, facts)
    requires CpusBelow(|bases|, facts + [Delivered(c, x)]) && InOrder(facts + [Delivered(c, x)], c)
    ensures |Lost(facts + [Delivered(c, x)], c)| == |Lost(facts, c)| + grown
    ensures Total(table, bases, facts + [Delivered(c, x)], c) == Total(table, bases, facts, c) + grown % UINT_MOD
    ensures grown < UINT_MOD <==> SmallGapTo(facts, c, x)
  {
    TotalStep(table, bases, facts, Delivered(c, x), c);
    grown := AddDelivery(table, bases, facts, c, x);
  }

  /** How one more fact moves the total, the losses and the gap condition. */
  lemma Growth(table: seq<CpuSeq>, bases: seq<nat>, facts: seq<Fact>, c: nat, f: Fact) returns (grown: nat)
    requires Fresh(table) && |table| == |bases| && CpusBelow(|bases|, facts + [f]) && CpusBelow(|bases|, facts)
    requires InOrder(facts + [f], c)
    ensures |Lost(facts + [f], c)| == |Lost(facts, c)| + grown
    ensures Total(table, bases, facts + [f], c) == Total(table, bases, facts, c) + grown % UINT_MOD
    ensures SmallGaps(facts + [f], c) <==> SmallGaps(facts, c) && grown < UINT_MOD
  {
    SmallGapsStep(facts, c, f);
    if OfCpu(f, c) {
      grown := GrowthOfDelivery(table, bases, facts, c, f.index);
    } else {
      TotalStep(table, bases, facts, f, c);
      OtherDelivery(table, bases, facts, c, f);
      grown := 0;
    }
  }

  lemma FirstDelivery(table: seq<CpuSeq>, base: nat, f: Fact)
    requires Fresh(table) && |table| == 1 && f == Delivered(0, 0)
    ensures CpusBelow(1, [f]) && Total(table, [base], [f], 0) == 0
    ensures LastIndex([f], 0) == Some(0) && Lost([f], 0) == {}
  {
    var none: seq<Fact> := [];
    assert none + [f] == [f];
    IndicesExtend(none, 0, 0);
    assert Lost(none, 0) == {} && Lost([f], 0) == {};
    TotalStep(table, [base], none, f, 0);
    var gap := AddDelivery(table, [base], none, 0, 0);
  }

  lemma SecondDelivery(table: seq<CpuSeq>, base: nat, f: Fact, x: nat)
    requires Fresh(table) && |table| == 1 && f == Delivered(0, 0) && x > 0
    ensures var facts := [f] + [Delivered(0, x)];
            && InOrder(facts, 0) && CpusBelow(1, facts)
            && |Lost(facts, 0)| == x - 1
            && Total(table, [base], facts, 0) == (x - 1) % UINT_MOD
  {
    FirstDelivery(table, base, f);
    LostGrows([f], 0, x);
    TotalStep(table, [base], [f], Delivered(0, x), 0);
    var gap := AddDelivery(table, [base], [f], 0, x);
  }

  /** Two deliveries with 2^32 losses between them: the wire numbers are consecutive and nothing is reported. */
  lemma WrapHidesLosses(table: seq<CpuSeq>, base: nat)
    requires Fresh(table) && |table| == 1
    ensures var facts := [Delivered(0, 0)] + [Delivered(0, UINT_MOD + 1)];
            && InOrder(facts, 0) && CpusBelow(1, facts)
            && |Lost(facts, 0)| == UINT_MOD
            && Total(table, [base], facts, 0) == 0
  {
    SecondDelivery(table, base, Delivered(0, 0), UINT_MOD + 1);
  }
}

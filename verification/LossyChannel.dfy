/**
 The system the monitor watches: per-CPU producers, a lossy queue in front of
 the monitor, and ENOBUFS errors at any moment.
 */
module LossyChannel {
  import opened Common
  import opened SequenceMonitor
  import opened LossAccounting

  datatype World = World(
    next: seq<nat>,                 // the index of each CPU's next message
    queue: seq<Fact>,               // accepted but not yet read
    facts: seq<Fact>,               // what the monitor has read
    dropped: set<(nat, nat)>        // the messages (cpu, index) the channel lost
  )

  datatype Action = Emit(cpu: nat, lose: bool) | Read | Exhaust

  ghost predicate Enabled(w: World, a: Action) {
    match a
    case Emit(cpu, _) => cpu < |w.next|
    case Read => w.queue != []
    case Exhaust => true
  }

  ghost function Act(w: World, a: Action): World
    requires Enabled(w, a)
  {
    match a
    case Emit(cpu, lose) =>
      var x := w.next[cpu];
      if lose then w.(next := w.next[cpu := x + 1], dropped := w.dropped + {(cpu, x)})
      else w.(next := w.next[cpu := x + 1], queue := w.queue + [Delivered(cpu, x)])
    case Read => w.(queue := w.queue[1..], facts := w.facts + [w.queue[0]])
    case Exhaust => w.(facts := w.facts + [Overflow])
  }

  /** The worlds a run passes through. */
  ghost predicate IsRun(run: seq<World>, numCpus: nat) {
    && run != []
    && run[0] == World(seq(numCpus, _ => 0), [], [], {})
    && forall i :: 0 <= i < |run| - 1 ==> CanStep(run[i], run[i + 1])
  }

  ghost predicate CanStep(w: World, w': World) {
    exists a :: Enabled(w, a) && w' == Act(w, a)
  }

  // ----- what every step keeps

  /** Everything accepted so far, in order. */
  ghost function Accepted(w: World): seq<Fact> {
    w.facts + w.queue
  }

  ghost predicate Inv(w: World) {
    && (forall i :: 0 <= i < |w.queue| ==> w.queue[i].Delivered?)
    && CpusBelow(|w.next|, Accepted(w))
    && (forall c :: 0 <= c < |w.next| ==> CpuInv(w.next[c], Accepted(w), w.dropped, c))
  }

  /** CPU c's messages: accepted ones are in order, and each one sent was accepted or dropped, not both. */
  ghost predicate CpuInv(next: nat, accepted: seq<Fact>, dropped: set<(nat, nat)>, c: nat) {
    && InOrder(accepted, c)
    && (forall x: nat :: Delivered(c, x) in accepted ==> x < next)
    && (forall x: nat :: (c, x) in dropped ==> x < next)
    && (forall x: nat :: x < next ==> ((c, x) in dropped <==> Delivered(c, x) !in accepted))
  }

  lemma CpuInvAccept(next: nat, accepted: seq<Fact>, dropped: set<(nat, nat)>, c: nat, f: Fact)
    requires CpuInv(next, accepted, dropped, c)
    requires f.Delivered? && (f.cpu == c ==> f.index == next)
    ensures CpuInv(if f.cpu == c then next + 1 else next, accepted + [f], dropped, c)
  {
    AppendKeepsOrder(accepted, c, f);
    assert forall y: nat :: Delivered(c, y) in accepted + [f] <==> Delivered(c, y) in accepted || Delivered(c, y) == f;
  }

  lemma CpuInvDrop(next: nat, accepted: seq<Fact>, dropped: set<(nat, nat)>, c: nat, cpu: nat, x: nat)
    requires CpuInv(next, accepted, dropped, c)
    requires cpu == c ==> x == next
    ensures CpuInv(if cpu == c then next + 1 else next, accepted, dropped + {(cpu, x)}, c)
  {
  }

  lemma EmitKeeps(w: World, cpu: nat, lose: bool)
    requires Inv(w) && cpu < |w.next|
    ensures Inv(Act(w, Emit(cpu, lose)))
  {
    var w' := Act(w, Emit(cpu, lose));
    var x := w.next[cpu];
    var f := Delivered(cpu, x);
    assert Accepted(w') == if lose then Accepted(w) else Accepted(w) + [f];
    forall c | 0 <= c < |w.next|
      ensures CpuInv(w'.next[c], Accepted(w'), w'.dropped, c)
    {
      if lose {
        CpuInvDrop(w.next[c], Accepted(w), w.dropped, c, cpu, x);
      } else {
        CpuInvAccept(w.next[c], Accepted(w), w.dropped, c, f);
      }
    }
  }

  lemma AppendKeepsOrder(accepted: seq<Fact>, c: nat, f: Fact)
    requires InOrder(accepted, c)
    requires OfCpu(f, c) ==> forall x: nat :: Delivered(c, x) in accepted ==> x < f.index
    ensures InOrder(accepted + [f], c)
  {
    var more := accepted + [f];
    forall i, j | 0 <= i < j < |more| && OfCpu(more[i], c) && OfCpu(more[j], c)
      ensures more[i].index < more[j].index
    {
      assert more[i] == accepted[i] && more[i] == Delivered(c, more[i].index);
      if j < |accepted| {
        assert more[j] == accepted[j];
      }
    }
  }

  lemma ReadKeeps(w: World)
    requires Inv(w) && w.queue != []
    ensures Inv(Act(w, Read))
  {
    assert Accepted(Act(w, Read)) == Accepted(w);
  }

  /** An ENOBUFS error adds a fact that concerns no message. */
  lemma ExhaustKeeps(w: World)
    requires Inv(w)
    ensures Inv(Act(w, Exhaust))
  {
    var w' := Act(w, Exhaust);
    var was, now := Accepted(w), Accepted(w');
    var n := |w.facts|;
    assert forall k :: 0 <= k < |now| ==> now[k] == if k < n then was[k] else if k == n then Overflow else was[k - 1];
    forall c | 0 <= c < |w.next|
      ensures CpuInv(w'.next[c], now, w'.dropped, c)
    {
      assert CpuInv(w.next[c], was, w.dropped, c);
      InsertKeepsCpu(was, n, now, c);
    }
    assert forall k :: 0 <= k < |now| && k != n ==> now[k] == was[if k < n then k else k - 1];
  }

  lemma InsertKeepsCpu(before: seq<Fact>, n: nat, after: seq<Fact>, c: nat)
    requires n <= |before| && after == before[..n] + [Overflow] + before[n..]
    ensures InOrder(before, c) ==> InOrder(after, c)
    ensures forall x: nat :: Delivered(c, x) in after <==> Delivered(c, x) in before
  {
    assert forall k :: 0 <= k < |after| && k != n ==> after[k] == before[if k < n then k else k - 1];
    assert before == before[..n] + before[n..];
  }

  lemma {:induction false} RunKeeps(run: seq<World>, numCpus: nat)
    requires IsRun(run, numCpus)
    ensures Inv(run[|run| - 1]) && |run[|run| - 1].next| == numCpus
    decreases |run|
  {
    var last := |run| - 1;
    if last > 0 {
      RunKeeps(run[..last], numCpus);
      var w := run[last - 1];
      assert CanStep(w, run[last]);
      var a :| Enabled(w, a) && run[last] == Act(w, a);
      match a
      case Emit(cpu, lose) => EmitKeeps(w, cpu, lose);
      case Read => ReadKeeps(w);
      case Exhaust => ExhaustKeeps(w);
    }
  }

  // ----- the reports of a run

  /** The messages of CPU c that the channel dropped between its first and its last delivery. */
  ghost function DroppedBetween(w: World, c: nat): set<int> {
    match (FirstIndex(w.facts, c), LastIndex(w.facts, c))
    case (Some(first), Some(last)) => set x | first < x < last && (c, x) in w.dropped
    case _ => {}
  }

  lemma FactsInOrder(w: World, c: nat)
    requires Inv(w) && c < |w.next|
    ensures InOrder(w.facts, c) && CpusBelow(|w.next|, w.facts)
  {
    var all := Accepted(w);
    assert CpuInv(w.next[c], all, w.dropped, c);
    assert forall k :: 0 <= k < |w.facts| ==> all[k] == w.facts[k];
  }

  lemma DroppedIsLost(w: World, c: nat)
    requires Inv(w) && c < |w.next|
    ensures DroppedBetween(w, c) == Lost(w.facts, c)
  {
    var all := Accepted(w);
    assert CpuInv(w.next[c], all, w.dropped, c);
    FactsInOrder(w, c);
    EndsExist(w.facts, c);
    if LastIndex(w.facts, c).Some? {
      var first, last := FirstIndex(w.facts, c).value, LastIndex(w.facts, c).value;
      var j :| IsLast(w.facts, c, j) && w.facts[j].index == last;
      assert all[j] == Delivered(c, last);
      assert Delivered(c, last) in all;
      forall x: nat | first < x < last
        ensures (c, x) in w.dropped <==> Delivered(c, x) !in w.facts
      {
        NotQueued(w, c, j, x);
      }
    }
  }

  /** A message older than a delivered one is no longer queued. */
  lemma NotQueued(w: World, c: nat, j: int, x: nat)
    requires InOrder(Accepted(w), c)
    requires 0 <= j < |w.facts| && OfCpu(w.facts[j], c) && x < w.facts[j].index
    ensures Delivered(c, x) in Accepted(w) <==> Delivered(c, x) in w.facts
  {
    var all := Accepted(w);
    if Delivered(c, x) in all {
      var k :| 0 <= k < |all| && all[k] == Delivered(c, x);
      assert all[j] == w.facts[j];
      assert k < j;
      assert w.facts[k] == all[k];
    }
  }

  /**
   In every run the counts reported for a CPU sum to the messages the channel
   dropped between that CPU's first and last delivery, exactly when it never
   dropped 2^32 of them in a row.
   */
  lemma RunReportsLosses(run: seq<World>, table: seq<CpuSeq>, bases: seq<nat>, c: nat)
    requires IsRun(run, |bases|) && Fresh(table) && |table| == |bases| && c < |bases|
    ensures var w := run[|run| - 1];
            && CpusBelow(|bases|, w.facts)
            && (Total(table, bases, w.facts, c) == |DroppedBetween(w, c)| <==> SmallGaps(w.facts, c))
  {
    var w := run[|run| - 1];
    RunKeeps(run, |bases|);
    FactsInOrder(w, c);
    DroppedIsLost(w, c);
    ReportsSumToLosses(table, bases, w.facts, c);
  }

  /** The first n recv results carry exactly what the monitor read in the run, and end the loop only after that. */
  ghost predicate Carries(recvs: seq<Recv>, n: nat, bases: seq<nat>, facts: seq<Fact>) {
    && StopsAt(recvs, n)
    && CpusBelow(|bases|, facts)
    && Observed(recvs, n) == Events(bases, facts)
  }

  /**
   The monitor itself on a run of the channel, with messages batched into recv
   buffers in any way and any memory under its table: for every CPU the counts
   on the lines it printed sum to the messages dropped, exactly when no 2^32
   were dropped in a row.
   */
  method MonitorRun(ghost run: seq<World>, ghost bases: seq<nat>, numCpus: nat, memory: seq<CpuSeq>,
                    recvs: seq<Recv>, ghost n: nat)
    returns (printed: seq<Report>)
    requires |bases| == |memory| == numCpus && IsRun(run, numCpus)
    requires CpusKnown(numCpus, recvs) && Carries(recvs, n, bases, run[|run| - 1].facts)
    ensures var w := run[|run| - 1];
            forall c :: 0 <= c < numCpus ==>
              (SumFor(printed, c) == |DroppedBetween(w, c)| <==> SmallGaps(w.facts, c))
  {
    ghost var w := run[|run| - 1];
    var m := new Monitor(numCpus, memory);
    var rc, used := m.HandleProcEv(recvs);
    printed := m.printed;
    StopsOnce(recvs, used, n);
    assert m.history == Events(bases, w.facts);
    forall c | 0 <= c < numCpus
      ensures SumFor(printed, c) == |DroppedBetween(w, c)| <==> SmallGaps(w.facts, c)
    {
      RunReportsLosses(run, m.initial, bases, c);
    }
  }
}

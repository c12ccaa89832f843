/** The monitor's receive loop by the outcomes of recv: what is passed over, what marks the CPUs, what ends it. */
module MonitorRecv {
  import opened Common
  import opened SequenceMonitor

  // ----- where the loop ends

  /** The loop leaves at the first shutdown or failure, and nowhere else. */
  lemma StopsByName(recvs: seq<Recv>, n: nat)
    ensures StopsAt(recvs, n) <==>
              && n <= |recvs|
              && (forall i :: 0 <= i < n ==> recvs[i] != Shutdown && recvs[i] != Failed)
              && (n < |recvs| ==> recvs[n] == Shutdown || recvs[n] == Failed)
  {
  }

  // ----- interrupted calls

  /** The results without the interrupted calls. */
  function Undisturbed(recvs: seq<Recv>): seq<Recv>
    decreases |recvs|
  {
    if recvs == [] then []
    else
      var n := |recvs| - 1;
      Undisturbed(recvs[..n]) + if recvs[n] == Interrupted then [] else [recvs[n]]
  }

  lemma ObservedStep(recvs: seq<Recv>, n: nat)
    requires n < |recvs|
    ensures Observed(recvs, n + 1) == Observed(recvs, n) + EventsOfRecv(recvs[n])
  {
  }

  lemma {:induction false} ObservedPrefix(recvs: seq<Recv>, more: seq<Recv>, n: nat)
    requires n <= |recvs|
    ensures Observed(recvs + more, n) == Observed(recvs, n)
    decreases n
  {
    if n > 0 {
      ObservedPrefix(recvs, more, n - 1);
    }
  }

  lemma ObservedAppend(recvs: seq<Recv>, r: Recv)
    ensures Observed(recvs + [r], |recvs| + 1) == Observed(recvs, |recvs|) + EventsOfRecv(r)
  {
    ObservedPrefix(recvs, [r], |recvs|);
  }

  lemma UndisturbedNext(recvs: seq<Recv>, n: nat)
    requires n < |recvs|
    ensures Undisturbed(recvs[..n + 1]) == Undisturbed(recvs[..n]) + if recvs[n] == Interrupted then [] else [recvs[n]]
  {
    assert recvs[..n + 1][..n] == recvs[..n];
  }

  /** An interrupted call contributes no event. */
  lemma {:induction false} SameEvents(recvs: seq<Recv>, n: nat)
    requires n <= |recvs|
    ensures Observed(Undisturbed(recvs[..n]), |Undisturbed(recvs[..n])|) == Observed(recvs, n)
    decreases n
  {
    if n > 0 {
      var before := Undisturbed(recvs[..n - 1]);
      SameEvents(recvs, n - 1);
      UndisturbedNext(recvs, n - 1);
      ObservedStep(recvs, n - 1);
      if recvs[n - 1] == Interrupted {
        assert before + [] == before;
        assert EventsOfRecv(Interrupted) == [];
      } else {
        ObservedAppend(before, recvs[n - 1]);
      }
    } else {
      assert recvs[..0] == [];
    }
  }

  lemma {:induction false} UndisturbedExtends(recvs: seq<Recv>, n: nat, m: nat)
    requires n <= m <= |recvs|
    ensures Undisturbed(recvs[..n]) <= Undisturbed(recvs[..m])
    decreases m - n
  {
    if n < m {
      UndisturbedExtends(recvs, n, m - 1);
      UndisturbedNext(recvs, m - 1);
    }
  }

  lemma {:induction false} UndisturbedGoesOn(recvs: seq<Recv>, n: nat)
    requires NoneEnds(recvs, n)
    ensures NoneEnds(Undisturbed(recvs[..n]), |Undisturbed(recvs[..n])|)
    decreases n
  {
    if n > 0 {
      UndisturbedGoesOn(recvs, n - 1);
      UndisturbedNext(recvs, n - 1);
    } else {
      assert recvs[..0] == [];
    }
  }

  /** Without the interrupted calls the loop ends at the same result. */
  lemma SameStop(recvs: seq<Recv>, n: nat)
    requires StopsAt(recvs, n)
    ensures StopsAt(Undisturbed(recvs), |Undisturbed(recvs[..n])|)
    ensures n < |recvs| ==> |Undisturbed(recvs[..n])| < |Undisturbed(recvs)| && Undisturbed(recvs)[|Undisturbed(recvs[..n])|] == recvs[n]
    ensures n == |recvs| ==> |Undisturbed(recvs[..n])| == |Undisturbed(recvs)|
  {
    var front := Undisturbed(recvs[..n]);
    assert recvs[..|recvs|] == recvs;
    UndisturbedGoesOn(recvs, n);
    UndisturbedExtends(recvs, n, |recvs|);
    if n < |recvs| {
      UndisturbedNext(recvs, n);
      UndisturbedExtends(recvs, n + 1, |recvs|);
    }
    assert forall i :: 0 <= i < |front| ==> Undisturbed(recvs)[i] == front[i];
  }

  lemma {:induction false} UndisturbedKnown(numCpus: nat, recvs: seq<Recv>)
    requires CpusKnown(numCpus, recvs)
    ensures CpusKnown(numCpus, Undisturbed(recvs))
    decreases |recvs|
  {
    if recvs != [] {
      UndisturbedKnown(numCpus, recvs[..|recvs| - 1]);
    }
  }

  lemma SameObserved(recvs: seq<Recv>, n: nat)
    requires n <= |recvs|
    ensures Undisturbed(recvs[..n]) <= Undisturbed(recvs)
    ensures Observed(Undisturbed(recvs), |Undisturbed(recvs[..n])|) == Observed(recvs, n)
  {
    var front := Undisturbed(recvs[..n]);
    assert recvs[..|recvs|] == recvs;
    UndisturbedExtends(recvs, n, |recvs|);
    SameEvents(recvs, n);
    var rest := Undisturbed(recvs)[|front|..];
    assert Undisturbed(recvs) == front + rest;
    ObservedPrefix(front, rest, |front|);
  }

  /** A monitor whose calls are interrupted prints and returns what it would without. */
  method InterruptsChangeNothing(numCpus: nat, memory: seq<CpuSeq>, recvs: seq<Recv>)
    returns (rc: int, printed: seq<Report>, rc': int, printed': seq<Report>)
    requires |memory| == numCpus && CpusKnown(numCpus, recvs)
    ensures rc == rc' && printed == printed'
  {
    UndisturbedKnown(numCpus, recvs);
    var m := new Monitor(numCpus, memory);
    var used, used';
    rc, used := m.HandleProcEv(recvs);
    printed := m.printed;
    var m' := new Monitor(numCpus, memory);
    rc', used' := m'.HandleProcEv(Undisturbed(recvs));
    printed' := m'.printed;
    SameStop(recvs, used);
    StopsOnce(Undisturbed(recvs), used', |Undisturbed(recvs[..used])|);
    SameObserved(recvs, used);
  }

  // ----- overruns

  /** Only interruptions and overruns between two messages of a CPU. */
  ghost predicate NoData(recvs: seq<Recv>) {
    forall i :: 0 <= i < |recvs| ==> recvs[i] == Interrupted || recvs[i] == Overrun
  }

  /** So far nothing was printed and the CPU's entry is as given. */
  ghost predicate Silent(table: seq<CpuSeq>, events: seq<Event>, cpu: nat, entry: CpuSeq) {
    && cpu < |table| && AllInRange(|table|, events)
    && TableAfter(table, events)[cpu] == entry
    && Reports(table, events) == []
  }

  lemma OverrunMarks(table: seq<CpuSeq>, events: seq<Event>, cpu: nat, entry: CpuSeq)
    requires Silent(table, events, cpu, entry)
    ensures Silent(table, events + [NoBufs], cpu, entry.(noBufs := true))
  {
    ReportsExtend(table, events, NoBufs);
  }

  lemma QuietStep(table: seq<CpuSeq>, events: seq<Event>, cpu: nat, r: Recv, entry: CpuSeq)
    requires Silent(table, events, cpu, entry) && (r == Interrupted || r == Overrun)
    ensures Silent(table, events + EventsOfRecv(r), cpu, entry.(noBufs := entry.noBufs || r == Overrun))
  {
    if r == Overrun {
      OverrunMarks(table, events, cpu, entry);
    } else {
      assert events + [] == events;
    }
  }

  function Marked(s: UInt, between: seq<Recv>, n: nat): CpuSeq
    requires n <= |between|
  {
    CpuSeq(true, Overrun in between[..n], s)
  }

  lemma MarkedNext(s: UInt, between: seq<Recv>, n: nat)
    requires n < |between|
    ensures var entry := Marked(s, between, n);
            Marked(s, between, n + 1) == entry.(noBufs := entry.noBufs || between[n] == Overrun)
  {
    assert between[..n + 1] == between[..n] + [between[n]];
  }

  ghost predicate SilentUpTo(table: seq<CpuSeq>, first: seq<Event>, cpu: nat, between: seq<Recv>, n: nat, s: UInt) {
    n <= |between| && Silent(table, first + Observed(between, n), cpu, Marked(s, between, n))
  }

  lemma QuietMore(table: seq<CpuSeq>, first: seq<Event>, cpu: nat, between: seq<Recv>, n: nat, s: UInt)
    requires NoData(between) && n < |between| && SilentUpTo(table, first, cpu, between, n, s)
    ensures SilentUpTo(table, first, cpu, between, n + 1, s)
  {
    QuietStep(table, first + Observed(between, n), cpu, between[n], Marked(s, between, n));
    Assoc(first, Observed(between, n), EventsOfRecv(between[n]));
    ObservedStep(between, n);
    MarkedNext(s, between, n);
  }

  lemma QuietNone(table: seq<CpuSeq>, first: seq<Event>, cpu: nat, between: seq<Recv>, s: UInt)
    requires Silent(table, first, cpu, CpuSeq(true, false, s))
    ensures SilentUpTo(table, first, cpu, between, 0, s)
  {
    assert first + [] == first;
  }

  /** An overrun marks the CPU and nothing is printed. */
  lemma {:induction false} QuietBetween(table: seq<CpuSeq>, first: seq<Event>, cpu: nat, between: seq<Recv>, n: nat, s: UInt)
    requires NoData(between) && n <= |between|
    requires Silent(table, first, cpu, CpuSeq(true, false, s))
    ensures SilentUpTo(table, first, cpu, between, n, s)
    decreases n
  {
    if n == 0 {
      QuietNone(table, first, cpu, between, s);
    } else {
      QuietBetween(table, first, cpu, between, n - 1, s);
      QuietMore(table, first, cpu, between, n - 1, s);
    }
  }

  /** After its first result, the list goes on with b. */
  ghost predicate GoesOn(recvs: seq<Recv>, b: seq<Recv>, n: nat) {
    n <= |b| && n < |recvs| && forall i :: 0 <= i < n ==> recvs[i + 1] == b[i]
  }

  lemma SameStep(all: seq<Event>, first: seq<Event>, b: seq<Event>, more: seq<Event>)
    requires all == first + b
    ensures all + more == first + (b + more)
  {
  }

  lemma {:induction false} ObservedAfterFirst(recvs: seq<Recv>, b: seq<Recv>, n: nat, first: seq<Event>)
    requires GoesOn(recvs, b, n) && Observed(recvs, 1) == first
    ensures Observed(recvs, n + 1) == first + Observed(b, n)
    decreases n
  {
    if n == 0 {
      assert first + [] == first;
    } else {
      ObservedAfterFirst(recvs, b, n - 1, first);
      SameStep(Observed(recvs, n), first, Observed(b, n - 1), EventsOfRecv(b[n - 1]));
      ObservedStep(recvs, n);
      ObservedStep(b, n - 1);
    }
  }

  function One(cpu: nat, s: UInt): Recv {
    Data([Proc(cpu, s)])
  }

  lemma OneEvent(cpu: nat, s: UInt)
    ensures EventsOfRecv(One(cpu, s)) == [Message(cpu, s)]
  {
    assert EventsOf([Proc(cpu, s)], 0) == [];
  }

  lemma FirstObserved(recvs: seq<Recv>, events: seq<Event>)
    requires recvs != [] && EventsOfRecv(recvs[0]) == events
    ensures Observed(recvs, 1) == events
  {
    assert Observed(recvs, 0) == [] && [] + events == events;
  }

  lemma FirstMessage(table: seq<CpuSeq>, cpu: nat, s: UInt)
    requires cpu < |table| && !table[cpu].initialised
    ensures Silent(table, [Message(cpu, s)], cpu, CpuSeq(true, false, s))
  {
    ReportsExtend(table, [], Message(cpu, s));
    assert [] + [Message(cpu, s)] == [Message(cpu, s)];
  }

  /** The message that ends the silence. */
  lemma LastMessage(table: seq<CpuSeq>, events: seq<Event>, cpu: nat, tag: bool, s: UInt, s': UInt)
    requires Silent(table, events, cpu, CpuSeq(true, tag, s))
    ensures AllInRange(|table|, events + [Message(cpu, s')])
    ensures var missed := (s' - s - 1) % 0x1_0000_0000;
            Reports(table, events + [Message(cpu, s')]) == if missed == 0 then [] else [Report(tag, missed, cpu)]
  {
    ReportsExtend(table, events, Message(cpu, s'));
  }

  function Heard(cpu: nat, s: UInt, between: seq<Recv>, s': UInt): seq<Recv> {
    [One(cpu, s)] + between + [One(cpu, s')]
  }

  lemma HeardShape(cpu: nat, s: UInt, between: seq<Recv>, s': UInt)
    ensures var recvs := Heard(cpu, s, between, s');
            && |recvs| == |between| + 2 && recvs[0] == One(cpu, s) && recvs[|between| + 1] == One(cpu, s')
            && GoesOn(recvs, between, |between|)
  {
  }

  /** The events of a list that begins and ends with a message. */
  lemma EventsOfShape(recvs: seq<Recv>, between: seq<Recv>, first: seq<Event>, last: seq<Event>)
    requires |recvs| == |between| + 2 && GoesOn(recvs, between, |between|)
    requires EventsOfRecv(recvs[0]) == first && EventsOfRecv(recvs[|between| + 1]) == last
    ensures Observed(recvs, |between| + 2) == first + Observed(between, |between|) + last
  {
    FirstObserved(recvs, first);
    ObservedAfterFirst(recvs, between, |between|, first);
    ObservedStep(recvs, |between| + 1);
  }

  lemma HeardEvents(cpu: nat, s: UInt, between: seq<Recv>, s': UInt)
    ensures Observed(Heard(cpu, s, between, s'), |between| + 2)
         == [Message(cpu, s)] + Observed(between, |between|) + [Message(cpu, s')]
  {
    OneEvent(cpu, s);
    OneEvent(cpu, s');
    HeardShape(cpu, s, between, s');
    EventsOfShape(Heard(cpu, s, between, s'), between, [Message(cpu, s)], [Message(cpu, s')]);
  }

  lemma HeardGoesOn(numCpus: nat, cpu: nat, s: UInt, between: seq<Recv>, s': UInt)
    requires cpu < numCpus && NoData(between)
    ensures CpusKnown(numCpus, Heard(cpu, s, between, s'))
    ensures StopsAt(Heard(cpu, s, between, s'), |between| + 2)
  {
  }

  lemma HeardReports(table: seq<CpuSeq>, cpu: nat, s: UInt, between: seq<Recv>, s': UInt)
    requires cpu < |table| && !table[cpu].initialised && NoData(between)
    ensures var events := [Message(cpu, s)] + Observed(between, |between|) + [Message(cpu, s')];
            var missed := (s' - s - 1) % 0x1_0000_0000;
            && AllInRange(|table|, events)
            && Reports(table, events) == if missed == 0 then [] else [Report(Overrun in between, missed, cpu)]
  {
    FirstMessage(table, cpu, s);
    QuietBetween(table, [Message(cpu, s)], cpu, between, |between|, s);
    assert between[..|between|] == between;
    LastMessage(table, [Message(cpu, s)] + Observed(between, |between|), cpu, Overrun in between, s, s');
  }

  /**
   Two messages of a CPU with interruptions and overruns between them: the gap
   is printed, if there is one, and tagged exactly if an overrun came between.
   */
  method OverrunIsTagged(numCpus: nat, memory: seq<CpuSeq>, cpu: nat, s: UInt, between: seq<Recv>, s': UInt)
    returns (printed: seq<Report>)
    requires |memory| == numCpus && cpu < numCpus && NoData(between)
    ensures var missed := (s' - s - 1) % 0x1_0000_0000;
            printed == if missed == 0 then [] else [Report(Overrun in between, missed, cpu)]
  {
    HeardGoesOn(numCpus, cpu, s, between, s');
    var m := new Monitor(numCpus, memory);
    var rc, used := m.HandleProcEv(Heard(cpu, s, between, s'));
    printed := m.printed;
    StopsOnce(Heard(cpu, s, between, s'), used, |between| + 2);
    HeardEvents(cpu, s, between, s');
    HeardReports(m.initial, cpu, s, between, s');
    assert m.history == [Message(cpu, s)] + Observed(between, |between|) + [Message(cpu, s')];
  }
}

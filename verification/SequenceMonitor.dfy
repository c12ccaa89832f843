/**
 The process monitor's loss counter: per CPU it remembers the last connector
 sequence number, a 32-bit counter that wraps, and reports the gap when a
 message does not carry the next one.
 */
module SequenceMonitor {
  import opened Common

  datatype CpuSeq = CpuSeq(initialised: bool, noBufs: bool, last: UInt)

  datatype Report = Report(noBufs: bool, missed: UInt, cpu: nat)

  /** What reaches the monitor: an ENOBUFS error or a process event. */
  datatype Event = NoBufs | Message(cpu: nat, number: UInt)

  ghost predicate InRange(table: seq<CpuSeq>, ev: Event) {
    ev.Message? ==> ev.cpu < |table|
  }

  ghost function Step(table: seq<CpuSeq>, ev: Event): (next: seq<CpuSeq>)
    requires InRange(table, ev)
    ensures |next| == |table|
  {
    match ev
    case NoBufs => seq(|table|, c requires 0 <= c < |table| => table[c].(noBufs := true))
    case Message(cpu, s) => table[cpu := CpuSeq(true, false, s)]
  }

  ghost function Output(table: seq<CpuSeq>, ev: Event): Option<Report>
    requires InRange(table, ev)
  {
    match ev
    case NoBufs => None
    case Message(cpu, s) =>
      var missed := (s - table[cpu].last - 1) % UINT_MOD;
      if table[cpu].initialised && missed != 0 then Some(Report(table[cpu].noBufs, missed, cpu)) else None
  }

  // ----- whole runs

  ghost predicate AllInRange(n: nat, events: seq<Event>) {
    forall i :: 0 <= i < |events| ==> events[i].Message? ==> events[i].cpu < n
  }

  ghost function TableAfter(table: seq<CpuSeq>, events: seq<Event>): (t: seq<CpuSeq>)
    requires AllInRange(|table|, events)
    ensures |t| == |table|
    decreases |events|
  {
    if events == [] then table
    else Step(TableAfter(table, events[..|events| - 1]), events[|events| - 1])
  }

  /** What is printed on receiving event i. */
  ghost function ReportAt(table: seq<CpuSeq>, events: seq<Event>, i: nat): Option<Report>
    requires AllInRange(|table|, events) && i < |events|
  {
    Output(TableAfter(table, events[..i]), events[i])
  }

  ghost function Reports(table: seq<CpuSeq>, events: seq<Event>): seq<Report>
    requires AllInRange(|table|, events)
    decreases |events|
  {
    if events == [] then []
    else
      var n := |events| - 1;
      Reports(table, events[..n])
      + match Output(TableAfter(table, events[..n]), events[n]) { case None => [] case Some(r) => [r] }
  }

  // ----- the receive loop

  /** A netlink message: a process event, or one of the kinds the loop skips. */
  datatype NlMsg = Skipped | Proc(cpu: nat, number: UInt)

  /** The result of one recv call. */
  datatype Recv = Shutdown | Interrupted | Overrun | Failed | Data(msgs: seq<NlMsg>)

  /** The process events among the first n messages of a buffer. */
  function EventsOf(msgs: seq<NlMsg>, n: nat): seq<Event>
    requires n <= |msgs|
  {
    if n == 0 then []
    else EventsOf(msgs, n - 1) + match msgs[n - 1] { case Skipped => [] case Proc(cpu, s) => [Message(cpu, s)] }
  }

  function EventsOfRecv(r: Recv): seq<Event> {
    match r
    case Data(msgs) => EventsOf(msgs, |msgs|)
    case Overrun => [NoBufs]
    case _ => []
  }

  /** The events of the first n recv results. */
  function Observed(recvs: seq<Recv>, n: nat): seq<Event>
    requires n <= |recvs|
  {
    if n == 0 then [] else Observed(recvs, n - 1) + EventsOfRecv(recvs[n - 1])
  }

  predicate Ends(r: Recv) {
    r.Shutdown? || r.Failed?
  }

  ghost predicate MsgsKnown(n: nat, msgs: seq<NlMsg>) {
    forall k :: 0 <= k < |msgs| && msgs[k].Proc? ==> msgs[k].cpu < n
  }

  ghost predicate RecvKnown(n: nat, r: Recv) {
    r.Data? ==> MsgsKnown(n, r.msgs)
  }

  /** The kernel names only configured CPUs. */
  ghost predicate CpusKnown(n: nat, recvs: seq<Recv>) {
    forall i :: 0 <= i < |recvs| ==> RecvKnown(n, recvs[i])
  }

  lemma ReportsExtend(table: seq<CpuSeq>, events: seq<Event>, ev: Event)
    requires AllInRange(|table|, events) && InRange(table, ev)
    ensures AllInRange(|table|, events + [ev])
    ensures TableAfter(table, events + [ev]) == Step(TableAfter(table, events), ev)
    ensures Reports(table, events + [ev])
         == Reports(table, events)
            + match Output(TableAfter(table, events), ev) { case None => [] case Some(r) => [r] }
  {
    assert (events + [ev])[..|events|] == events;
  }

  /** The program's test for the next number in sequence. */
  predicate InSequence(last: UInt, s: UInt) {
    (last + 1) % UINT_MOD == s || (s == 0 && last == UINT_MOD - 1)
  }

  /** No message is missed exactly when the test holds. */
  lemma NextInSequence(last: UInt, s: UInt)
    ensures InSequence(last, s) <==> (s - last - 1) % UINT_MOD == 0
  {
  }

  lemma OutputOnMessage(table: seq<CpuSeq>, cpu: nat, s: UInt)
    requires cpu < |table|
    ensures var entry := table[cpu];
            Output(table, Message(cpu, s))
            == if entry.initialised && !InSequence(entry.last, s)
               then Some(Report(entry.noBufs, (s - entry.last - 1) % UINT_MOD, cpu)) else None
  {
    NextInSequence(table[cpu].last, s);
  }

  /** None of the first n results ends the loop. */
  ghost predicate NoneEnds(recvs: seq<Recv>, n: nat) {
    n <= |recvs| && forall i :: 0 <= i < n ==> !Ends(recvs[i])
  }

  /** Memory with every CPU marked as not yet heard. */
  function Cleared(memory: seq<CpuSeq>): seq<CpuSeq> {
    seq(|memory|, c requires 0 <= c < |memory| => memory[c].(initialised := false))
  }

  class Monitor {
    const cpuSeq: array<CpuSeq>
    ghost const initial: seq<CpuSeq>
    ghost var history: seq<Event>
    var printed: seq<Report>

    ghost predicate Valid()
      reads this, cpuSeq
    {
      && |initial| == cpuSeq.Length
      && (forall c :: 0 <= c < |initial| ==> !initial[c].initialised)
      && AllInRange(|initial|, history)
      && cpuSeq[..] == TableAfter(initial, history)
      && printed == Reports(initial, history)
    }

    /** The table after malloc and the loop that clears `initialised`; the rest of it is whatever was in memory. */
    constructor (numCpus: nat, memory: seq<CpuSeq>)
      requires |memory| == numCpus
      ensures Valid() && fresh(cpuSeq) && cpuSeq.Length == numCpus && history == [] && printed == []
      ensures initial == Cleared(memory)
    {
      var table := new CpuSeq[numCpus](i requires 0 <= i < numCpus => memory[i]);
      var num := 0;
      while num < numCpus
        invariant 0 <= num <= numCpus
        invariant forall c :: 0 <= c < numCpus ==>
                    table[c] == if c < num then memory[c].(initialised := false) else memory[c]
      {
        table[num] := table[num].(initialised := false);
        num := num + 1;
      }
      cpuSeq, initial, history, printed := table, table[..], [], [];
    }

    /** ENOBUFS: every CPU may have lost messages. */
    method OnNoBufs()
      requires Valid()
      modifies this`history, this`printed, cpuSeq
      ensures Valid() && history == old(history) + [NoBufs]
    {
      ghost var before := cpuSeq[..];
      var num := 0;
      while num < cpuSeq.Length
        invariant 0 <= num <= cpuSeq.Length
        invariant forall c :: 0 <= c < cpuSeq.Length ==>
                    cpuSeq[c] == if c < num then before[c].(noBufs := true) else before[c]
        invariant history == old(history) && printed == old(printed)
      {
        cpuSeq[num] := cpuSeq[num].(noBufs := true);
        num := num + 1;
      }
      ReportsExtend(initial, history, NoBufs);
      assert cpuSeq[..] == Step(before, NoBufs);
      history := history + [NoBufs];
    }

    /** The number is noted and the overrun forgotten. */
    method Note(cpu: nat, s: UInt)
      requires cpu < cpuSeq.Length && cpuSeq[cpu].initialised
      modifies cpuSeq
      ensures cpuSeq[..] == old(cpuSeq[..])[cpu := CpuSeq(true, false, s)]
    {
      cpuSeq[cpu] := cpuSeq[cpu].(last := s);
      cpuSeq[cpu] := cpuSeq[cpu].(noBufs := false);
    }

    /** A process event from `cpu` with sequence number `s`. */
    method OnMessage(cpu: nat, s: UInt)
      requires Valid() && cpu < cpuSeq.Length
      modifies this`history, this`printed, cpuSeq
      ensures Valid() && history == old(history) + [Message(cpu, s)]
    {
      ghost var before := cpuSeq[..];
      ReportsExtend(initial, history, Message(cpu, s));
      OutputOnMessage(before, cpu, s);
      if !cpuSeq[cpu].initialised {
        cpuSeq[cpu] := cpuSeq[cpu].(initialised := true);
      } else if !InSequence(cpuSeq[cpu].last, s) {
        printed := printed + [Report(cpuSeq[cpu].noBufs, (s - cpuSeq[cpu].last - 1) % UINT_MOD, cpu)];
      }
      Note(cpu, s);
      assert cpuSeq[..] == before[cpu := CpuSeq(true, false, s)];
      history := history + [Message(cpu, s)];
    }

    /** The messages of one received buffer. */
    method OnData(msgs: seq<NlMsg>)
      requires Valid()
      requires MsgsKnown(cpuSeq.Length, msgs)
      modifies this`history, this`printed, cpuSeq
      ensures Valid() && history == old(history) + EventsOf(msgs, |msgs|)
    {
      var k := 0;
      while k < |msgs|
        invariant 0 <= k <= |msgs|
        invariant Valid() && history == old(history) + EventsOf(msgs, k)
      {
        if msgs[k].Proc? {
          OnMessage(msgs[k].cpu, msgs[k].number);
        }
        k := k + 1;
      }
    }

    /** One recv result that does not end the loop. */
    method OnRecv(r: Recv)
      requires Valid() && !Ends(r)
      requires RecvKnown(cpuSeq.Length, r)
      modifies this`history, this`printed, cpuSeq
      ensures Valid() && history == old(history) + EventsOfRecv(r)
    {
      if r.Overrun? {
        OnNoBufs();
      } else if r.Data? {
        OnData(r.msgs);
      }
    }

    /** One turn of the receive loop. */
    method Turn(recvs: seq<Recv>, used: nat, ghost start: seq<Event>)
      requires Valid() && CpusKnown(cpuSeq.Length, recvs)
      requires Seen(history, start, recvs, used) && used < |recvs| && !Ends(recvs[used])
      modifies this`history, this`printed, cpuSeq
      ensures Valid() && Seen(history, start, recvs, used + 1)
    {
      SeenNext(history, start, recvs, used);
      OnRecv(recvs[used]);
    }

    /** The receive loop over the results of successive recv calls; it stops at a shutdown or a failure. */
    method HandleProcEv(recvs: seq<Recv>) returns (rc: int, used: nat)
      requires Valid() && CpusKnown(cpuSeq.Length, recvs)
      modifies this`history, this`printed, cpuSeq
      ensures Valid()
      ensures Seen(history, old(history), recvs, used)
      ensures StopsAt(recvs, used)
      ensures rc == if used < |recvs| && recvs[used].Failed? then -1 else 0
    {
      ghost var start := history;
      used := 0;
      while used < |recvs| && !Ends(recvs[used])
        invariant Valid() && Seen(history, start, recvs, used)
        invariant NoneEnds(recvs, used)
      {
        Turn(recvs, used, start);
        used := used + 1;
      }
      rc := if used < |recvs| && recvs[used].Failed? then -1 else 0;
    }
  }

  /** The loop handles the results before n and leaves at n, if there is such a result. */
  ghost predicate StopsAt(recvs: seq<Recv>, n: nat) {
    NoneEnds(recvs, n) && (n < |recvs| ==> Ends(recvs[n]))
  }

  lemma StopsOnce(recvs: seq<Recv>, m: nat, n: nat)
    requires StopsAt(recvs, m) && StopsAt(recvs, n)
    ensures m == n
  {
  }

  /** The history is `start` and then the events of the first `used` results. */
  ghost predicate Seen(history: seq<Event>, start: seq<Event>, recvs: seq<Recv>, used: nat) {
    used <= |recvs| && history == start + Observed(recvs, used)
  }

  lemma SeenNext(history: seq<Event>, start: seq<Event>, recvs: seq<Recv>, used: nat)
    requires Seen(history, start, recvs, used) && used < |recvs|
    ensures Seen(history + EventsOfRecv(recvs[used]), start, recvs, used + 1)
  {
    Assoc(start, Observed(recvs, used), EventsOfRecv(recvs[used]));
  }
}

/**
 What becomes of the adding server when the client it is reading from dies:
 exactly when the session can still end.
 */
module AbandonedSession {
  import opened Common
  import opened AdderServer
  import opened AdderProtocol

  /** The text an end of file makes the server look at again. */
  function StaleText(buf: seq<char>): seq<char>
    requires |buf| == BUFFER_SIZE
  {
    CString(Filled(buf, []))
  }

  /** The server is reading from client c, which has died. */
  ghost predicate ReadingDead(s: System, c: nat) {
    && s.phase == Reading(c) && c < |s.clients| && s.clients[c].phase == Dead
    && |s.buffer| == BUFFER_SIZE
    && s.clients[c].read <= s.clients[c].sent <= |s.clients[c].script|
  }

  ghost predicate CommandAt(cl: Client, i: int) {
    cl.read <= i < cl.sent <= |cl.script| && IsCommand(Text(cl.script[i]))
  }

  /** A command is on its way, or nothing is and the buffer still spells one. */
  ghost predicate CommandAhead(s: System, c: nat)
    requires ReadingDead(s, c)
  {
    var cl := s.clients[c];
    || (exists i :: CommandAt(cl, i))
    || (cl.read == cl.sent && IsCommand(StaleText(s.buffer)))
  }

  /** A run of the system from any state on. */
  ghost predicate Continues(run: seq<System>) {
    run != [] && forall i :: 0 <= i < |run| - 1 ==> CanStep(run[i], run[i + 1])
  }

  /** Some continuation of s takes the server out of client c's session. */
  ghost predicate CanEnd(s: System, c: nat) {
    exists run: seq<System> :: Continues(run) && run[0] == s && run[|run| - 1].phase != Reading(c)
  }

  // ----- without a command the session goes on for ever

  lemma EofTwice(buf: seq<char>)
    requires |buf| == BUFFER_SIZE
    ensures StaleText(Filled(buf, [])) == StaleText(buf)
  {
    assert [] + buf[0..] == buf;
    assert [] + Filled(buf, [])[0..] == Filled(buf, []);
    assert Filled(Filled(buf, []), []) == Filled(buf, []);
  }

  lemma {:induction false} EofGoesOn(s: System, c: nat)
    requires ReadingDead(s, c) && !CommandAhead(s, c) && Enabled(s, ReadEof)
    ensures var s' := Act(s, ReadEof);
            s'.phase == Reading(c) && s'.clients == s.clients && s'.buffer == Filled(s.buffer, [])
  {
  }

  lemma {:induction false} PacketGoesOn(s: System, c: nat)
    requires ReadingDead(s, c) && !CommandAhead(s, c) && Enabled(s, ReadPacket)
    ensures var s', cl := Act(s, ReadPacket), s.clients[c];
            && s'.phase == Reading(c) && s'.clients == s.clients[c := cl.(read := cl.read + 1)]
            && |s'.buffer| == BUFFER_SIZE && StaleText(s'.buffer) == Text(cl.script[cl.read])
  {
    var cl := s.clients[c];
    assert !CommandAt(cl, cl.read);
    PacketReadHolds(s);
  }

  lemma {:induction false} StaysInSession(s: System, c: nat, a: Action)
    requires ReadingDead(s, c) && !CommandAhead(s, c) && Enabled(s, a)
    ensures ReadingDead(Act(s, a), c) && !CommandAhead(Act(s, a), c)
  {
    var s', cl := Act(s, a), s.clients[c];
    match a
    case ReadPacket =>
      PacketGoesOn(s, c);
      assert !CommandAt(cl, cl.read);
      forall i
        ensures !CommandAt(s'.clients[c], i)
      {
        assert !CommandAt(cl, i);
      }
    case ReadEof =>
      EofGoesOn(s, c);
      EofTwice(s.buffer);
    case Send(d) => assert s'.clients[c] == cl;
    case Kill(d) => assert s'.clients[c] == cl;
    case Collect(d, _) => assert s'.clients[c] == cl;
    case _ =>
  }

  /** Every continuation, however long, leaves the server in the session. */
  lemma {:induction false} StuckForever(run: seq<System>, c: nat)
    requires Continues(run) && ReadingDead(run[0], c) && !CommandAhead(run[0], c)
    ensures ReadingDead(run[|run| - 1], c) && !CommandAhead(run[|run| - 1], c)
    decreases |run|
  {
    var last := |run| - 1;
    if last > 0 {
      StuckForever(run[..last], c);
      assert CanStep(run[last - 1], run[last]);
      var a :| Enabled(run[last - 1], a) && run[last] == Act(run[last - 1], a);
      StaysInSession(run[last - 1], c, a);
    }
  }

  // ----- with a command it can end

  lemma ContinueWith(s: System, a: Action, run: seq<System>)
    requires Enabled(s, a) && Continues(run) && run[0] == Act(s, a)
    ensures Continues([s] + run)
  {
    var all := [s] + run;
    forall i | 0 <= i < |all| - 1
      ensures CanStep(all[i], all[i + 1])
    {
      if i > 0 {
        assert all[i] == run[i - 1] && all[i + 1] == run[i];
      }
    }
  }

  /** Reading on as far as the first command takes the server out of the session. */
  lemma {:induction false} ReadUpTo(s: System, c: nat, k: nat) returns (run: seq<System>)
    requires ReadingDead(s, c) && CommandAt(s.clients[c], k)
    requires forall i :: s.clients[c].read <= i < k ==> !CommandAt(s.clients[c], i)
    ensures Continues(run) && run[0] == s && run[|run| - 1].phase != Reading(c)
    decreases k - s.clients[c].read
  {
    var cl := s.clients[c];
    var s' := Act(s, ReadPacket);
    PacketReadHolds(s);
    if k == cl.read {
      run := [s'];
    } else {
      assert !CommandAt(cl, cl.read);
      assert s'.clients == s.clients[c := cl.(read := cl.read + 1)];
      forall i | cl.read + 1 <= i < k
        ensures !CommandAt(s'.clients[c], i)
      {
        assert !CommandAt(cl, i);
      }
      run := ReadUpTo(s', c, k);
    }
    ContinueWith(s, ReadPacket, run);
    run := [s] + run;
  }

  lemma {:induction false} FirstCommandAhead(cl: Client, i: int) returns (k: nat)
    requires CommandAt(cl, i)
    ensures CommandAt(cl, k) && forall j :: cl.read <= j < k ==> !CommandAt(cl, j)
    decreases i
  {
    if j :| cl.read <= j < i && CommandAt(cl, j) {
      k := FirstCommandAhead(cl, j);
    } else {
      k := i;
    }
  }

  lemma {:induction false} EofEnds(s: System, c: nat) returns (run: seq<System>)
    requires ReadingDead(s, c) && s.clients[c].read == s.clients[c].sent && IsCommand(StaleText(s.buffer))
    ensures Continues(run) && run[0] == s && run[|run| - 1].phase != Reading(c)
  {
    run := [Act(s, ReadEof)];
    ContinueWith(s, ReadEof, run);
    run := [s] + run;
  }

  /**
   The session of a dead client can still end if and only if a command is among
   the packets not yet read, or none is left and the buffer spells one.
   */
  lemma {:induction false} SessionCanEndIff(s: System, c: nat)
    requires ReadingDead(s, c)
    ensures CanEnd(s, c) <==> CommandAhead(s, c)
  {
    var cl := s.clients[c];
    if CommandAhead(s, c) {
      if i :| CommandAt(cl, i) {
        var k := FirstCommandAhead(cl, i);
        var run := ReadUpTo(s, c, k);
      } else {
        var run := EofEnds(s, c);
      }
    }
    if CanEnd(s, c) {
      var run: seq<System> :| Continues(run) && run[0] == s && run[|run| - 1].phase != Reading(c);
      if !CommandAhead(s, c) {
        StuckForever(run, c);
      }
    }
  }

  // ----- and it does happen

  /** From any start with a client and a harmless buffer, killing the client before it sends traps the server. */
  lemma {:induction false} StuckReachable(s: System, c: nat) returns (run: seq<System>)
    requires Init(s) && c < |s.clients| && !IsCommand(StaleText(s.buffer))
    ensures IsRun(run) && run[0] == s
    ensures ReadingDead(run[|run| - 1], c) && !CommandAhead(run[|run| - 1], c)
    ensures !CanEnd(run[|run| - 1], c)
  {
    var killed := Act(s, Kill(c));
    var stuck := Act(killed, Accept(c));
    run := [s, killed, stuck];
    assert CanStep(s, killed) && CanStep(killed, stuck);
    SessionCanEndIff(stuck, c);
  }
}

/** The two commands by name: END closes a session, DOWN closes it and stops the server. */
module AdderCommands {
  import opened Common
  import opened DecimalText
  import opened AdderServer
  import opened AdderProtocol
  import opened AdderArguments

  /** A text is a command exactly when it reads END or DOWN. */
  lemma CommandsByName(t: seq<char>)
    ensures IsEnd(t) <==> t == "END"
    ensures IsDown(t) <==> t == "DOWN"
    ensures IsCommand(t) <==> t == "END" || t == "DOWN"
  {
    if IsEnd(t) {
      assert t == [t[0], t[1], t[2]];
    }
    if IsDown(t) {
      assert t == [t[0], t[1], t[2], t[3]];
    }
  }

  lemma CommandArrives(command: Arg)
    requires command == "END" || command == "DOWN"
    ensures Text(command) == command && IsCommand(Text(command)) && (IsDown(Text(command)) <==> command == "DOWN")
  {
    CStringIsPrefix(command);
    CommandsByName(command);
  }

  // ----- sessions

  /** Numbers, the command after them, and what would follow it. */
  datatype Spoken = Spoken(numbers: seq<Int>, down: bool, rest: seq<Arg>)

  function Said(s: Spoken): seq<Arg> {
    Spelled(s.numbers) + [if s.down then "DOWN" else "END"] + s.rest
  }

  function Sessions(spoken: seq<Spoken>): seq<seq<Arg>> {
    seq(|spoken|, i requires 0 <= i < |spoken| => Said(spoken[i]))
  }

  /** The session ends at its command with the sum of the numbers, and with DOWN exactly if that is the command. */
  lemma SaidMeans(s: Spoken)
    ensures Terminates(Said(s)) && Total(Said(s)) == Wrap(SumOf(s.numbers))
    ensures EndsWithDown(Said(s)) <==> s.down
  {
    var command: Arg := if s.down then "DOWN" else "END";
    CommandArrives(command);
    SpelledTotal(s.numbers, command, s.rest);
    SpelledEnds(s.numbers, command, s.rest);
  }

  lemma SpelledEnds(ns: seq<Int>, command: Arg, rest: seq<Arg>)
    requires IsCommand(Text(command))
    ensures FirstCommand(Spelled(ns) + [command] + rest) == |ns|
    ensures EndsWithDown(Spelled(ns) + [command] + rest) <==> IsDown(Text(command))
  {
    var args := Spelled(ns) + [command] + rest;
    forall i | 0 <= i < |ns|
      ensures !IsCommand(Text(args[i]))
    {
      assert args[i] == Decimal(ns[i]);
      SpelledText(ns[i]);
    }
    assert args[|ns|] == command;
    FirstCommandUnique(args, |ns|);
  }

  /** The reply spells the sum of the numbers. */
  ghost predicate SaysSum(reply: seq<char>, ns: seq<Int>) {
    |reply| == 12 && CString(reply) == Decimal(Wrap(SumOf(ns)))
  }

  /** How many sessions are served: up to and including the first that says DOWN. */
  ghost predicate ServesUpTo(spoken: seq<Spoken>, n: nat) {
    && n <= |spoken|
    && (forall i :: 0 <= i < n - 1 ==> !spoken[i].down)
    && (n < |spoken| ==> n > 0 && spoken[n - 1].down)
  }

  lemma SessionsTerminate(spoken: seq<Spoken>)
    ensures forall i :: 0 <= i < |spoken| ==> Terminates(Sessions(spoken)[i])
  {
    forall i | 0 <= i < |spoken|
      ensures Terminates(Sessions(spoken)[i])
    {
      SaidMeans(spoken[i]);
    }
  }

  /** What the server promises of sessions, in terms of what was said in them. */
  lemma ServedMeans(replies: seq<seq<char>>, spoken: seq<Spoken>, down: bool)
    requires Served(replies, Sessions(spoken), down) && (|replies| < |spoken| ==> down)
    ensures ServesUpTo(spoken, |replies|)
    ensures forall i :: 0 <= i < |replies| ==> SaysSum(replies[i], spoken[i].numbers)
    ensures down <==> |replies| > 0 && spoken[|replies| - 1].down
  {
    forall i | 0 <= i < |replies|
      ensures SaysSum(replies[i], spoken[i].numbers) && (EndsWithDown(Sessions(spoken)[i]) <==> spoken[i].down)
    {
      SaidMeans(spoken[i]);
      assert Answers(replies[i], Sessions(spoken)[i]);
    }
  }

  /**
   The server on sessions of numbers, each ended by END or DOWN: every one up to
   the first DOWN is answered with its sum, and the server is down exactly if
   the last one answered said DOWN.
   */
  method ServeNumbers(server: Server, spoken: seq<Spoken>) returns (replies: seq<seq<char>>)
    requires server.buffer.Length == BUFFER_SIZE && !server.downFlag
    modifies server, server.buffer
    ensures ServesUpTo(spoken, |replies|)
    ensures forall i :: 0 <= i < |replies| ==> SaysSum(replies[i], spoken[i].numbers)
    ensures server.downFlag <==> |replies| > 0 && spoken[|replies| - 1].down
  {
    SessionsTerminate(spoken);
    replies := server.Serve(Sessions(spoken));
    ServedMeans(replies, spoken, server.downFlag);
  }

  // ----- scripts and runs

  /** The first of the two commands in the script is DOWN. */
  ghost predicate SaysDownFirst(script: seq<Arg>) {
    exists k :: 0 <= k < |script| && FirstIsDown(script, k)
  }

  ghost predicate FirstIsDown(script: seq<Arg>, k: nat)
    requires k < |script|
  {
    Text(script[k]) == "DOWN" && forall i :: 0 <= i < k ==> Text(script[i]) != "DOWN" && Text(script[i]) != "END"
  }

  /** Every client's script, which ends with END, ends its session; with DOWN exactly if that comes first. */
  lemma ScriptEnds(script: seq<Arg>)
    requires script != [] && script[|script| - 1] == "END"
    ensures Terminates(script)
    ensures EndsWithDown(script) <==> SaysDownFirst(script)
  {
    var k := FirstCommand(script);
    FirstCommandIsFirst(script);
    CommandArrives("END");
    assert IsCommand(Text(script[|script| - 1]));
    forall i | 0 <= i < |script|
      ensures IsCommand(Text(script[i])) <==> Text(script[i]) == "END" || Text(script[i]) == "DOWN"
      ensures IsDown(Text(script[i])) <==> Text(script[i]) == "DOWN"
    {
      CommandsByName(Text(script[i]));
    }
    if EndsWithDown(script) {
      assert FirstIsDown(script, k);
    }
    if SaysDownFirst(script) {
      var j :| 0 <= j < |script| && FirstIsDown(script, j);
      FirstCommandUnique(script, j);
    }
  }

  ghost predicate AllScripts(clients: seq<Client>) {
    forall c :: 0 <= c < |clients| ==> IsScript(clients[c].script)
  }

  lemma StepKeepsScripts(s: System, a: Action)
    requires Enabled(s, a)
    ensures SameScripts(s.clients, Act(s, a).clients)
  {
  }

  lemma ScriptsCarryOver(a: seq<Client>, b: seq<Client>, c: seq<Client>)
    requires SameScripts(a, b) && SameScripts(b, c) && AllScripts(b)
    ensures SameScripts(a, c) && AllScripts(c)
  {
  }

  lemma InitHasScripts(s: System)
    requires Init(s)
    ensures AllScripts(s.clients)
  {
  }

  lemma {:induction false} RunKeepsScripts(run: seq<System>)
    requires IsRun(run)
    ensures SameScripts(run[0].clients, run[|run| - 1].clients)
    ensures AllScripts(run[|run| - 1].clients)
    decreases |run|
  {
    var last := |run| - 1;
    if last > 0 {
      RunKeepsScripts(run[..last]);
      assert CanStep(run[last - 1], run[last]);
      var a :| Enabled(run[last - 1], a) && run[last] == Act(run[last - 1], a);
      StepKeepsScripts(run[last - 1], a);
      ScriptsCarryOver(run[0].clients, run[last - 1].clients, run[last].clients);
    } else {
      InitHasScripts(run[0]);
    }
  }

  /** Whose sessions have ended: the server is stopped exactly if the last one said DOWN before END, and no earlier one did. */
  ghost predicate StopsByName(s: System) {
    && (forall k :: 0 <= k < |s.served| ==> s.served[k] < |s.clients|)
    && (forall k :: 0 <= k < |s.served| - 1 ==> !SaysDownFirst(s.clients[s.served[k]].script))
    && (s.phase == Stopped <==> |s.served| > 0 && SaysDownFirst(s.clients[s.served[|s.served| - 1]].script))
  }

  /** In every run the server stops exactly after the first session that said DOWN before END. */
  lemma EveryRunStopsOnDown(run: seq<System>)
    requires IsRun(run)
    ensures StopsByName(run[|run| - 1])
  {
    var s := run[|run| - 1];
    EveryRunAddsCorrectly(run);
    RunKeepsScripts(run);
    forall k | 0 <= k < |s.served|
      ensures EndsWithDown(s.clients[s.served[k]].script) <==> SaysDownFirst(s.clients[s.served[k]].script)
    {
      ScriptEnds(s.clients[s.served[k]].script);
    }
  }

  /** The script of a client started with the given numbers, and perhaps DOWN after them. */
  function ScriptOf(ns: seq<Int>, down: bool): seq<Arg> {
    if down then Spelled(ns) + ["DOWN"] + ["END"] else Spelled(ns) + ["END"] + []
  }

  lemma ScriptMeans(ns: seq<Int>, down: bool)
    ensures Total(ScriptOf(ns, down)) == Wrap(SumOf(ns)) && (EndsWithDown(ScriptOf(ns, down)) <==> down)
  {
    SaidMeans(Spoken(ns, down, if down then ["END"] else []));
  }

  /**
   A client started with numbers alone prints their sum and leaves the server
   accepting; started with numbers and DOWN it prints their sum, and once it
   has been answered the server is stopped.
   */
  lemma ClientByName(run: seq<System>, c: nat, ns: seq<Int>, down: bool)
    requires IsRun(run) && c < |run[|run| - 1].clients| && run[|run| - 1].clients[c].script == ScriptOf(ns, down)
    ensures var s := run[|run| - 1];
            && (s.clients[c].phase.Finished? ==> s.clients[c].phase.output == Decimal(Wrap(SumOf(ns))))
            && (s.served != [] && s.served[|s.served| - 1] == c ==> (s.phase == Stopped <==> down))
            && (down && c in s.served ==> s.phase == Stopped)
  {
    var s := run[|run| - 1];
    EveryRunAddsCorrectly(run);
    ScriptMeans(ns, down);
    if down && c in s.served {
      var k :| 0 <= k < |s.served| && s.served[k] == c;
      assert EndsWithDown(s.clients[s.served[k]].script);
    }
  }
}

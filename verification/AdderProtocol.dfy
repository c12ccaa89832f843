/**
 Any number of clients and the adding server, interleaved in every possible
 way: clients send, die and collect replies while the server accepts one
 connection at a time and works through its packets.
 */
module AdderProtocol {
  import opened Common
  import opened DecimalText
  import opened AdderServer

  datatype ClientPhase = Running | Dead | Finished(output: seq<char>)

  /** Of all the packets in its `script`, the client has written `sent` and the server has read `read`. */
  datatype Client = Client(
    script: seq<Arg>, sent: nat, read: nat, accepted: bool, reply: Option<seq<char>>, phase: ClientPhase
  )

  datatype ServerPhase = Idle | Reading(client: nat) | Replying(client: nat) | Stopped | Failed

  datatype System = System(
    clients: seq<Client>,
    buffer: seq<char>,
    result: Int,
    down: bool,
    phase: ServerPhase,
    served: seq<nat>                // the clients replied to, in order
  )

  datatype Action =
    | Send(c: nat)
    | Kill(c: nat)
    | Collect(c: nat, own: seq<char>)
    | Accept(c: nat)
    | ReadPacket
    | ReadEof
    | Reply

  ghost predicate Enabled(s: System, a: Action) {
    match a
    case Send(c) => c < |s.clients| && s.clients[c].phase == Running && s.clients[c].sent < |s.clients[c].script|
    case Kill(c) => c < |s.clients| && s.clients[c].phase == Running
    case Collect(c, own) =>
      && c < |s.clients| && s.clients[c].phase == Running && s.clients[c].reply.Some?
      && s.clients[c].sent == |s.clients[c].script|
      && |own| == BUFFER_SIZE && |s.clients[c].reply.value| == BUFFER_SIZE
    case Accept(c) => s.phase == Idle && c < |s.clients| && !s.clients[c].accepted
    case ReadPacket =>
      && s.phase.Reading? && s.phase.client < |s.clients| && |s.buffer| == BUFFER_SIZE
      && s.clients[s.phase.client].read < s.clients[s.phase.client].sent
      && s.clients[s.phase.client].sent <= |s.clients[s.phase.client].script|
    case ReadEof =>
      && s.phase.Reading? && s.phase.client < |s.clients| && |s.buffer| == BUFFER_SIZE
      && s.clients[s.phase.client].read == s.clients[s.phase.client].sent
      && s.clients[s.phase.client].phase == Dead
    case Reply => s.phase.Replying? && s.phase.client < |s.clients| && |s.buffer| == BUFFER_SIZE
  }

  /** What the server does with the text in its buffer. */
  ghost function Handle(s: System, c: nat): System {
    var text := CString(s.buffer);
    var t := Absorb(Tally(s.result, s.down), text);
    s.(result := t.result, down := t.down, phase := if IsCommand(text) then Replying(c) else s.phase)
  }

  /** The system when the next packet is in the buffer but not yet looked at. */
  ghost function PacketRead(s: System): System
    requires Enabled(s, ReadPacket)
  {
    var c := s.phase.client;
    var cl := s.clients[c];
    s.(clients := s.clients[c := cl.(read := cl.read + 1)], buffer := Filled(s.buffer, Packet(cl.script[cl.read])))
  }

  ghost function Act(s: System, a: Action): System
    requires Enabled(s, a)
  {
    match a
    case Send(c) =>
      // a write to a connection the server has closed fails, and the client gives up
      var cl := s.clients[c];
      s.(clients := s.clients[c := if cl.reply.Some? then cl.(phase := Dead) else cl.(sent := cl.sent + 1)])
    case Kill(c) => s.(clients := s.clients[c := s.clients[c].(phase := Dead)])
    case Collect(c, own) =>
      var cl := s.clients[c];
      s.(clients := s.clients[c := cl.(phase := Finished(CString(Filled(own, cl.reply.value))))])
    case Accept(c) =>
      s.(clients := s.clients[c := s.clients[c].(accepted := true)], result := 0, phase := Reading(c))
    case ReadPacket =>
      Handle(PacketRead(s), s.phase.client)
    case ReadEof =>
      Handle(s.(buffer := Filled(s.buffer, [])), s.phase.client)
    case Reply =>
      // a reply to a client that is gone fails, and the server exits
      var c := s.phase.client;
      var buf := Printed(s.buffer, s.result);
      if s.clients[c].phase == Dead then s.(buffer := buf, phase := Failed)
      else s.(clients := s.clients[c := s.clients[c].(reply := Some(buf))], buffer := buf,
              served := s.served + [c], phase := if s.down then Stopped else Idle)
  }

  // ----- the invariant

  ghost predicate ClientInv(cl: Client) {
    && cl.read <= cl.sent <= |cl.script|
    && (!cl.accepted ==> cl.read == 0 && cl.reply == None)
    && (cl.reply.Some? ==> Answers(cl.reply.value, cl.script))
    && (cl.phase.Finished? ==> cl.phase.output == Decimal(Total(cl.script)))
  }

  /** The client has died with nothing left to read: every further read is an end of file. */
  ghost predicate Abandoned(cl: Client) {
    cl.phase == Dead && cl.read == cl.sent
  }

  ghost predicate NoCommandIn(script: seq<Arg>, k: nat) {
    k <= |script| && forall i :: 0 <= i < k ==> !IsCommand(Text(script[i]))
  }

  ghost predicate ReadingInv(cl: Client, result: Int, down: bool) {
    && cl.accepted && cl.reply == None && !down
    && NoCommandIn(cl.script, cl.read)
    && (Abandoned(cl) || result == Wrap(Sum(cl.script[..cl.read])))
  }

  ghost predicate ReplyingInv(cl: Client, result: Int, down: bool) {
    && cl.accepted && cl.reply == None
    && FirstCommand(cl.script) < |cl.script|
    && result == Total(cl.script)
    && (down <==> EndsWithDown(cl.script))
  }

  ghost predicate ServerInv(s: System) {
    && |s.buffer| == BUFFER_SIZE
    && match s.phase
       case Idle => !s.down
       case Reading(c) => c < |s.clients| && ReadingInv(s.clients[c], s.result, s.down)
       case Replying(c) =>
         // a dead client may have been cut short by a command left in the buffer; it gets no reply
         c < |s.clients| && (s.clients[c].phase == Dead || ReplyingInv(s.clients[c], s.result, s.down))
       case _ => true
  }

  /** The server stops after the first session that ended with DOWN, and only then. */
  ghost predicate ServedInv(s: System) {
    && (forall k :: 0 <= k < |s.served| ==> s.served[k] < |s.clients|)
    && (forall k :: 0 <= k < |s.served| - 1 ==> !EndsWithDown(s.clients[s.served[k]].script))
    && (s.phase == Stopped <==> |s.served| > 0 && EndsWithDown(s.clients[s.served[|s.served| - 1]].script))
  }

  ghost predicate ClientsInv(clients: seq<Client>) {
    forall c :: 0 <= c < |clients| ==> ClientInv(clients[c])
  }

  ghost predicate Inv(s: System) {
    && ClientsInv(s.clients)
    && ServerInv(s)
    && ServedInv(s)
  }

  /** What a client writes: its arguments, then END. */
  ghost predicate IsScript(script: seq<Arg>) {
    script != [] && script[|script| - 1] == ['E', 'N', 'D']
  }

  ghost predicate Init(s: System) {
    && (forall c :: 0 <= c < |s.clients| ==>
          && s.clients[c] == Client(s.clients[c].script, 0, 0, false, None, Running)
          && IsScript(s.clients[c].script))
    && |s.buffer| == BUFFER_SIZE && !s.down && s.phase == Idle && s.served == []
  }

  // ----- what an update leaves alone

  lemma ClientsUpdate(clients: seq<Client>, c: nat, cl: Client)
    requires ClientsInv(clients) && c < |clients| && ClientInv(cl)
    ensures ClientsInv(clients[c := cl])
  {
  }

  ghost predicate SameScripts(a: seq<Client>, b: seq<Client>) {
    |a| == |b| && forall c :: 0 <= c < |a| ==> a[c].script == b[c].script
  }

  lemma ServedKept(s: System, s': System)
    requires ServedInv(s) && SameScripts(s.clients, s'.clients) && s'.served == s.served
    requires s.phase == Stopped <==> s'.phase == Stopped
    ensures ServedInv(s')
  {
  }

  // ----- client steps

  /** The server's view of a client survives a step the client takes. */
  lemma ServerKept(s: System, c: nat, cl: Client)
    requires ServerInv(s) && c < |s.clients|
    requires cl.script == s.clients[c].script && cl.read == s.clients[c].read
    requires cl.accepted == s.clients[c].accepted && cl.reply == s.clients[c].reply
    requires s.clients[c].phase == Dead ==> cl == s.clients[c]
    ensures ServerInv(s.(clients := s.clients[c := cl]))
  {
  }

  lemma ClientStepKeeps(s: System, c: nat, cl: Client)
    requires Inv(s) && c < |s.clients| && ClientInv(cl)
    requires cl.script == s.clients[c].script && cl.read == s.clients[c].read
    requires cl.accepted == s.clients[c].accepted && cl.reply == s.clients[c].reply
    requires s.clients[c].phase == Dead ==> cl == s.clients[c]
    ensures Inv(s.(clients := s.clients[c := cl]))
  {
    ClientsUpdate(s.clients, c, cl);
    ServerKept(s, c, cl);
    ServedKept(s, s.(clients := s.clients[c := cl]));
  }

  lemma DeadInv(cl: Client)
    requires ClientInv(cl)
    ensures ClientInv(cl.(phase := Dead))
  {
  }

  lemma SentInv(cl: Client)
    requires ClientInv(cl) && cl.sent < |cl.script| && cl.reply == None
    ensures ClientInv(cl.(sent := cl.sent + 1))
  {
  }

  lemma {:induction false} SendKeeps(s: System, c: nat)
    requires Inv(s) && Enabled(s, Send(c))
    ensures Inv(Act(s, Send(c)))
  {
    var cl := s.clients[c];
    if cl.reply.Some? {
      DeadInv(cl);
      ClientStepKeeps(s, c, cl.(phase := Dead));
    } else {
      SentInv(cl);
      ClientStepKeeps(s, c, cl.(sent := cl.sent + 1));
    }
  }

  lemma KillKeeps(s: System, c: nat)
    requires Inv(s) && Enabled(s, Kill(c))
    ensures Inv(Act(s, Kill(c)))
  {
    ClientStepKeeps(s, c, s.clients[c].(phase := Dead));
  }

  lemma CollectKeeps(s: System, c: nat, own: seq<char>)
    requires Inv(s) && Enabled(s, Collect(c, own))
    ensures Inv(Act(s, Collect(c, own)))
  {
    var cl := s.clients[c];
    var reply := cl.reply.value;
    DecimalFits(Total(cl.script));
    CollectedText(own, reply);
    ClientStepKeeps(s, c, cl.(phase := Finished(CString(Filled(own, reply)))));
  }

  /** Reading a whole reply packet over any buffer shows the text of the reply. */
  lemma CollectedText(own: seq<char>, reply: seq<char>)
    requires |own| == BUFFER_SIZE && |reply| == BUFFER_SIZE && |CString(reply)| < BUFFER_SIZE
    ensures CString(Filled(own, reply)) == CString(reply)
  {
    var t := CString(reply);
    CStringIsPrefix(reply);
    var r := Filled(own, reply);
    assert r[..|t|] == t && r[|t|] == NUL;
    assert r == t + [NUL] + r[|t| + 1..];
    CStringUpTo(t, r[|t| + 1..]);
  }

  // ----- server steps

  lemma AcceptKeeps(s: System, c: nat)
    requires Inv(s) && Enabled(s, Accept(c))
    ensures Inv(Act(s, Accept(c)))
  {
    var cl := s.clients[c].(accepted := true);
    assert ClientInv(s.clients[c]);
    assert cl.script[..0] == [];
    ClientsUpdate(s.clients, c, cl);
    ServedKept(s, Act(s, Accept(c)));
  }

  /** An end of file leaves the client as it was; a command left in the buffer can only end a dead client's session. */
  lemma {:induction false} EofHandled(s: System)
    requires ServerInv(s) && Enabled(s, ReadEof)
    ensures ServerInv(Act(s, ReadEof))
  {
    var c := s.phase.client;
    assert Abandoned(s.clients[c]);
  }

  lemma ReadEofKeeps(s: System)
    requires Inv(s) && Enabled(s, ReadEof)
    ensures Inv(Act(s, ReadEof))
  {
    EofHandled(s);
    ServedKept(s, Act(s, ReadEof));
  }

  lemma PacketText(buf: seq<char>, arg: Arg)
    requires |buf| == BUFFER_SIZE
    ensures CString(Filled(buf, Packet(arg))) == Text(arg)
    ensures CString(Filled(Filled(buf, Packet(arg)), [])) == Text(arg)
  {
    StaleBytesIrrelevant(buf, arg);
    var r := Filled(buf, Packet(arg));
    assert [] + r[0..] == r;
    assert Filled(r, []) == r;
  }

  lemma {:induction false} ReadNumber(cl: Client, result: Int)
    requires ClientInv(cl) && ReadingInv(cl, result, false) && cl.read < cl.sent
    requires !IsCommand(Text(cl.script[cl.read]))
    ensures ReadingInv(cl.(read := cl.read + 1), Wrap(result + Atoi(Text(cl.script[cl.read]))), false)
  {
    SumStep(cl.script, cl.read);
  }

  lemma ReadCommand(cl: Client, result: Int)
    requires ClientInv(cl) && ReadingInv(cl, result, false) && cl.read < cl.sent
    requires IsCommand(Text(cl.script[cl.read]))
    ensures ReplyingInv(cl.(read := cl.read + 1), result, IsDown(Text(cl.script[cl.read])))
  {
    FirstCommandUnique(cl.script, cl.read);
  }

  lemma {:induction false} NumberHandled(s: System, c: nat, result: Int)
    requires s.phase == Reading(c) && c < |s.clients| && |s.buffer| == BUFFER_SIZE
    requires ReadingInv(s.clients[c], result, s.down)
    ensures ServerInv(s.(result := result))
  {
  }

  lemma CommandHandled(s: System, c: nat, down: bool)
    requires c < |s.clients| && |s.buffer| == BUFFER_SIZE
    requires ReplyingInv(s.clients[c], s.result, down)
    ensures ServerInv(s.(down := down, phase := Replying(c)))
  {
  }

  lemma HandleByText(s: System, c: nat, text: seq<char>)
    requires CString(s.buffer) == text && s.phase == Reading(c) && !s.down
    ensures IsCommand(text) ==> Handle(s, c) == s.(down := IsDown(text), phase := Replying(c))
    ensures !IsCommand(text) ==> Handle(s, c) == s.(result := Wrap(s.result + Atoi(text)))
  {
  }

  /** The system s1 has the client's next packet, whose text is `text`, in its buffer. */
  ghost predicate HoldsNext(s: System, c: nat, s1: System, text: seq<char>) {
    && s.phase == s1.phase == Reading(c) && c < |s.clients| && s.clients[c].read < |s.clients[c].script|
    && s1.clients == s.clients[c := s.clients[c].(read := s.clients[c].read + 1)]
    && s1.result == s.result && s1.down == s.down
    && |s1.buffer| == BUFFER_SIZE && CString(s1.buffer) == text && CString(Filled(s1.buffer, [])) == text
    && text == Text(s.clients[c].script[s.clients[c].read])
  }

  lemma PacketReadHolds(s: System)
    requires Enabled(s, ReadPacket)
    ensures var c := s.phase.client;
            HoldsNext(s, c, PacketRead(s), Text(s.clients[c].script[s.clients[c].read]))
  {
    var cl := s.clients[s.phase.client];
    PacketText(s.buffer, cl.script[cl.read]);
  }

  lemma {:induction false} HandleCommand(s: System, c: nat, s1: System, text: seq<char>)
    requires HoldsNext(s, c, s1, text) && s.clients[c].read < s.clients[c].sent && IsCommand(text)
    requires ClientInv(s.clients[c]) && ReadingInv(s.clients[c], s.result, s.down)
    ensures ServerInv(Handle(s1, c))
  {
    HandleByText(s1, c, text);
    ReadCommand(s.clients[c], s.result);
    CommandHandled(s1, c, IsDown(text));
  }

  /** The result after the number the client sent next. */
  lemma {:induction false} NextResult(cl: Client, before: Int, text: seq<char>) returns (result: Int)
    requires ClientInv(cl) && ReadingInv(cl, before, false) && cl.read < cl.sent
    requires text == Text(cl.script[cl.read]) && !IsCommand(text)
    ensures result == Wrap(before + Atoi(text))
    ensures ReadingInv(cl.(read := cl.read + 1), result, false)
  {
    result := Wrap(before + Atoi(text));
    ReadNumber(cl, before);
  }

  /** The client as s1 has it. */
  lemma NextClient(s: System, c: nat, s1: System, text: seq<char>)
    requires HoldsNext(s, c, s1, text)
    ensures s1.clients[c] == s.clients[c].(read := s.clients[c].read + 1)
  {
  }

  lemma ResultHandled(s1: System, c: nat, text: seq<char>, result: Int)
    requires CString(s1.buffer) == text && !IsCommand(text) && result == Wrap(s1.result + Atoi(text))
    ensures Handle(s1, c) == s1.(result := result)
  {
  }

  lemma {:induction false} NumberKeeps(s1: System, c: nat, text: seq<char>, result: Int)
    requires CString(s1.buffer) == text && !IsCommand(text) && result == Wrap(s1.result + Atoi(text))
    requires s1.phase == Reading(c) && c < |s1.clients| && |s1.buffer| == BUFFER_SIZE
    requires ReadingInv(s1.clients[c], result, s1.down)
    ensures ServerInv(Handle(s1, c))
  {
    ResultHandled(s1, c, text, result);
    NumberHandled(s1, c, result);
  }

  lemma {:induction false} HandleNumber(cl: Client, s1: System, c: nat, text: seq<char>)
    requires ClientInv(cl) && ReadingInv(cl, s1.result, s1.down) && cl.read < cl.sent
    requires text == Text(cl.script[cl.read]) && !IsCommand(text)
    requires s1.phase == Reading(c) && c < |s1.clients| && s1.clients[c] == cl.(read := cl.read + 1)
    requires |s1.buffer| == BUFFER_SIZE && CString(s1.buffer) == text
    ensures ServerInv(Handle(s1, c))
  {
    var result := NextResult(cl, s1.result, text);
    NumberKeeps(s1, c, text, result);
  }

  lemma {:induction false} HandleNext(s: System, c: nat, s1: System, text: seq<char>)
    requires HoldsNext(s, c, s1, text) && s.clients[c].read < s.clients[c].sent
    requires ClientInv(s.clients[c]) && ReadingInv(s.clients[c], s.result, s.down)
    ensures ServerInv(Handle(s1, c))
  {
    if IsCommand(text) {
      HandleCommand(s, c, s1, text);
    } else {
      NextClient(s, c, s1, text);
      HandleNumber(s.clients[c], s1, c, text);
    }
  }

  lemma {:induction false} PacketHandled(s: System)
    requires ServerInv(s) && Enabled(s, ReadPacket) && ClientInv(s.clients[s.phase.client])
    ensures ServerInv(Handle(PacketRead(s), s.phase.client))
  {
    var c := s.phase.client;
    PacketReadHolds(s);
    HandleNext(s, c, PacketRead(s), Text(s.clients[c].script[s.clients[c].read]));
  }

  lemma {:induction false} ReadPacketKeeps(s: System)
    requires Inv(s) && Enabled(s, ReadPacket)
    ensures Inv(Act(s, ReadPacket))
  {
    var c := s.phase.client;
    var cl := s.clients[c];
    assert ClientInv(cl);
    PacketHandled(s);
    ClientsUpdate(s.clients, c, cl.(read := cl.read + 1));
    ServedKept(s, Act(s, ReadPacket));
  }

  lemma ServedNext(s: System, s': System, c: nat)
    requires ServedInv(s) && s.phase.Replying? && c < |s.clients| && SameScripts(s.clients, s'.clients)
    requires s'.served == s.served + [c]
    requires s'.phase == Stopped <==> EndsWithDown(s.clients[c].script)
    ensures ServedInv(s')
  {
    forall k | 0 <= k < |s'.served| - 1
      ensures s'.served[k] < |s'.clients| && !EndsWithDown(s'.clients[s'.served[k]].script)
    {
      assert s'.served[k] == s.served[k];
    }
  }

  lemma {:induction false} ReplyKeeps(s: System)
    requires Inv(s) && Enabled(s, Reply)
    ensures Inv(Act(s, Reply))
  {
    var s', c := Act(s, Reply), s.phase.client;
    if s.clients[c].phase == Dead {
      ServedKept(s, s');
    } else {
      var cl := s.clients[c].(reply := Some(Printed(s.buffer, s.result)));
      ReplyAnswers(s.clients[c], s.buffer, s.result);
      ClientsUpdate(s.clients, c, cl);
      ServedNext(s, s', c);
    }
  }

  lemma ReplyAnswers(cl: Client, buffer: seq<char>, result: Int)
    requires ClientInv(cl) && cl.accepted && |buffer| == BUFFER_SIZE && result == Total(cl.script)
    ensures ClientInv(cl.(reply := Some(Printed(buffer, result))))
  {
    PrintedText(buffer, result);
  }

  lemma StepKeeps(s: System, a: Action)
    requires Inv(s) && Enabled(s, a)
    ensures Inv(Act(s, a))
  {
    match a
    case Send(c) => SendKeeps(s, c);
    case Kill(c) => KillKeeps(s, c);
    case Collect(c, own) => CollectKeeps(s, c, own);
    case Accept(c) => AcceptKeeps(s, c);
    case ReadPacket => ReadPacketKeeps(s);
    case ReadEof => ReadEofKeeps(s);
    case Reply => ReplyKeeps(s);
  }

  // ----- whole runs

  ghost predicate CanStep(s: System, s': System) {
    exists a :: Enabled(s, a) && s' == Act(s, a)
  }

  ghost predicate IsRun(run: seq<System>) {
    && run != [] && Init(run[0])
    && forall i :: 0 <= i < |run| - 1 ==> CanStep(run[i], run[i + 1])
  }

  lemma {:induction false} RunKeeps(run: seq<System>)
    requires IsRun(run)
    ensures Inv(run[|run| - 1])
    decreases |run|
  {
    var last := |run| - 1;
    if last > 0 {
      RunKeeps(run[..last]);
      assert CanStep(run[last - 1], run[last]);
      var a :| Enabled(run[last - 1], a) && run[last] == Act(run[last - 1], a);
      StepKeeps(run[last - 1], a);
    }
  }

  /**
   Main result: in every interleaving, whatever a client prints is the decimal
   text of its own numbers' sum, and the server has stopped exactly when the
   last session it served was the first to end with DOWN.
   */
  lemma EveryRunAddsCorrectly(run: seq<System>)
    requires IsRun(run)
    ensures var s := run[|run| - 1];
            && (forall c :: 0 <= c < |s.clients| && s.clients[c].phase.Finished? ==>
                  s.clients[c].phase.output == Decimal(Total(s.clients[c].script)))
            && ServedInv(s)
  {
    RunKeeps(run);
    var s := run[|run| - 1];
    assert forall c :: 0 <= c < |s.clients| ==> ClientInv(s.clients[c]);
  }

  /** The total is exact whenever the sum is an `int`, even if a partial sum is not. */
  lemma TotalExact(args: seq<Arg>)
    requires INT_MIN <= Sum(args[..FirstCommand(args)]) <= INT_MAX
    ensures Total(args) == Sum(args[..FirstCommand(args)])
    ensures Atoi(Decimal(Total(args))) == Sum(args[..FirstCommand(args)])
  {
    AtoiOfDecimal(Total(args));
  }
}

/**
 The adding server: it reads packets into one reused buffer, adds the numbers
 they spell until an END or DOWN packet, and replies with the total.
 */
module AdderServer {
  import opened Common
  import opened DecimalText

  const BUFFER_SIZE := 12

  /** A command-line argument. */
  type Arg = seq<char>

  /** The packet a client writes for an argument: its bytes and the terminator. */
  function Packet(arg: Arg): seq<char> {
    arg + [NUL]
  }

  /** The buffer after read() stores a packet and the last byte is set to NUL; an empty packet is an end of file. */
  function Filled(buf: seq<char>, packet: seq<char>): (r: seq<char>)
    requires |buf| == BUFFER_SIZE
    ensures |r| == BUFFER_SIZE
  {
    var n := if |packet| < BUFFER_SIZE then |packet| else BUFFER_SIZE;
    (packet[..n] + buf[n..])[BUFFER_SIZE - 1 := NUL]
  }

  /** What the server makes of an argument: at most eleven characters of it. */
  function Text(arg: Arg): seq<char> {
    CString(if |arg| < BUFFER_SIZE then arg else arg[..BUFFER_SIZE - 1])
  }

  /** The buffer holds the text and its terminator, whatever follows. */
  lemma HoldsText(r: seq<char>, t: seq<char>)
    requires |t| < |r| && NUL !in t && r[|t|] == NUL && forall i :: 0 <= i < |t| ==> r[i] == t[i]
    ensures CString(r) == t
  {
    assert r == t + [NUL] + r[|t| + 1..];
    CStringUpTo(t, r[|t| + 1..]);
  }

  lemma FilledByte(buf: seq<char>, arg: Arg, i: nat)
    requires |buf| == BUFFER_SIZE && i < BUFFER_SIZE - 1 && i <= |arg|
    ensures Filled(buf, Packet(arg))[i] == if i < |arg| then arg[i] else NUL
  {
  }

  /** Bytes left in the buffer by earlier packets never reach the text of a new one. */
  lemma {:induction false} StaleBytesIrrelevant(buf: seq<char>, arg: Arg)
    requires |buf| == BUFFER_SIZE
    ensures CString(Filled(buf, Packet(arg))) == Text(arg)
  {
    var r, t := Filled(buf, Packet(arg)), Text(arg);
    CStringIsPrefix(if |arg| < BUFFER_SIZE then arg else arg[..BUFFER_SIZE - 1]);
    forall i | 0 <= i < |t|
      ensures r[i] == t[i]
    {
      FilledByte(buf, arg, i);
    }
    if |t| < BUFFER_SIZE - 1 {
      FilledByte(buf, arg, |t|);
    }
    HoldsText(r, t);
  }

  /** strncmp(t, "DOWN", BUFFER_SIZE) == 0 */
  predicate IsDown(t: seq<char>) { |t| == 4 && t[0] == 'D' && t[1] == 'O' && t[2] == 'W' && t[3] == 'N' }

  /** strncmp(t, "END", BUFFER_SIZE) == 0 */
  predicate IsEnd(t: seq<char>) { |t| == 3 && t[0] == 'E' && t[1] == 'N' && t[2] == 'D' }

  predicate IsCommand(t: seq<char>) { IsDown(t) || IsEnd(t) }

  /** What the server keeps of its own between packets. */
  datatype Tally = Tally(result: Int, down: bool)

  /** One turn on a text: a command leaves the result, anything else is added to it. */
  function Absorb(t: Tally, text: seq<char>): Tally {
    if IsCommand(text) then t.(down := t.down || IsDown(text)) else t.(result := Wrap(t.result + Atoi(text)))
  }

  /** The position of the first packet that ends the session; the length if there is none. */
  function FirstCommand(args: seq<Arg>): (k: nat)
    ensures k <= |args|
    decreases |args|
  {
    if args == [] || IsCommand(Text(args[0])) then 0 else 1 + FirstCommand(args[1..])
  }

  lemma {:induction false} FirstCommandIsFirst(args: seq<Arg>)
    ensures var k := FirstCommand(args);
            && (k < |args| ==> IsCommand(Text(args[k])))
            && (forall i :: 0 <= i < k ==> !IsCommand(Text(args[i])))
    decreases |args|
  {
    if args != [] && !IsCommand(Text(args[0])) {
      FirstCommandIsFirst(args[1..]);
      forall i | 0 <= i < FirstCommand(args)
        ensures !IsCommand(Text(args[i]))
      {
        if i > 0 {
          assert args[i] == args[1..][i - 1];
        }
      }
    }
  }

  function Sum(args: seq<Arg>): int
    decreases |args|
  {
    if args == [] then 0 else Sum(args[..|args| - 1]) + Atoi(Text(args[|args| - 1]))
  }

  /** The total of a session: its numbers before the first command. */
  function Total(args: seq<Arg>): Int {
    Wrap(Sum(args[..FirstCommand(args)]))
  }

  lemma FirstCommandUnique(args: seq<Arg>, k: nat)
    requires k < |args| && IsCommand(Text(args[k]))
    requires forall i :: 0 <= i < k ==> !IsCommand(Text(args[i]))
    ensures FirstCommand(args) == k
  {
    FirstCommandIsFirst(args);
    var j := FirstCommand(args);
    assert !(j < k) && !(k < j);
  }

  lemma {:induction false} SumStep(args: seq<Arg>, i: nat)
    requires i < |args|
    ensures Wrap(Wrap(Sum(args[..i])) + Atoi(Text(args[i]))) == Wrap(Sum(args[..i + 1]))
  {
    assert args[..i + 1][..i] == args[..i];
    WrapSum(Sum(args[..i]), Atoi(Text(args[i])));
  }

  /** The reply packet: the whole buffer after sprintf. */
  function Printed(buf: seq<char>, n: Int): (r: seq<char>)
    requires |buf| == BUFFER_SIZE
    ensures |r| == BUFFER_SIZE
  {
    DecimalFits(n);
    var text := Decimal(n) + [NUL];
    text + buf[|text|..]
  }

  lemma PrintedText(buf: seq<char>, n: Int)
    requires |buf| == BUFFER_SIZE
    ensures CString(Printed(buf, n)) == Decimal(n)
  {
    DecimalFits(n);
    CStringUpTo(Decimal(n), buf[|Decimal(n)| + 1..]);
  }

  /** A reply packet that carries the total of its session, as decimal text. */
  ghost predicate Answers(reply: seq<char>, args: seq<Arg>) {
    |reply| == BUFFER_SIZE && CString(reply) == Decimal(Total(args))
  }

  /** The client sends a command at some point. */
  ghost predicate Terminates(args: seq<Arg>) {
    FirstCommand(args) < |args|
  }

  ghost predicate EndsWithDown(args: seq<Arg>) {
    FirstCommand(args) < |args| && IsDown(Text(args[FirstCommand(args)]))
  }

  /** None of the first n sessions ends with DOWN. */
  ghost predicate NoneDown(sessions: seq<seq<Arg>>, n: int) {
    n <= |sessions| && forall i :: 0 <= i < n ==> !EndsWithDown(sessions[i])
  }

  /** The first i packets were numbers and have been added. */
  ghost predicate Reading(args: seq<Arg>, i: nat, t: Tally, wasDown: bool) {
    i <= FirstCommand(args) && t == Tally(Wrap(Sum(args[..i])), wasDown)
  }

  lemma AbsorbNumber(args: seq<Arg>, i: nat, t: Tally, wasDown: bool)
    requires i < FirstCommand(args) && Reading(args, i, t, wasDown) && !IsCommand(Text(args[i]))
    ensures Reading(args, i + 1, Absorb(t, Text(args[i])), wasDown)
  {
    SumStep(args, i);
  }

  lemma AbsorbCommand(args: seq<Arg>, i: nat, t: Tally, wasDown: bool)
    requires i == FirstCommand(args) < |args| && Reading(args, i, t, wasDown) && IsCommand(Text(args[i]))
    ensures Absorb(t, Text(args[i])) == Tally(Total(args), wasDown || EndsWithDown(args))
  {
  }

  lemma ReadingNext(args: seq<Arg>, i: nat, t: Tally, wasDown: bool)
    requires Terminates(args) && Reading(args, i, t, wasDown)
    ensures IsCommand(Text(args[i])) <==> i == FirstCommand(args)
    ensures i < FirstCommand(args) ==> Reading(args, i + 1, Absorb(t, Text(args[i])), wasDown)
    ensures i == FirstCommand(args) ==> Absorb(t, Text(args[i])) == Tally(Total(args), wasDown || EndsWithDown(args))
  {
    FirstCommandIsFirst(args);
    if i < FirstCommand(args) {
      AbsorbNumber(args, i, t, wasDown);
    } else {
      AbsorbCommand(args, i, t, wasDown);
    }
  }

  /** A client reading the reply sees the decimal text alone, and reads the total back from it. */
  lemma ReplyReadsBack(buf: seq<char>, n: Int, own: seq<char>)
    requires |buf| == BUFFER_SIZE && |own| == BUFFER_SIZE
    ensures CString(Filled(own, Printed(buf, n))) == Decimal(n)
    ensures Atoi(CString(Filled(own, Printed(buf, n)))) == n
  {
    DecimalFits(n);
    var t := Decimal(n);
    var r := Filled(own, Printed(buf, n));
    assert r[..|t|] == t && r[|t|] == NUL;
    assert r == t + [NUL] + r[|t| + 1..];
    CStringUpTo(t, r[|t| + 1..]);
    AtoiOfDecimal(n);
  }

  class Server {
    const buffer: array<char>
    var result: Int
    var downFlag: bool

    /** The buffer starts with whatever was on the stack. */
    constructor (memory: seq<char>)
      requires |memory| == BUFFER_SIZE
      ensures fresh(buffer) && buffer.Length == BUFFER_SIZE && !downFlag
    {
      buffer := new char[BUFFER_SIZE](i requires 0 <= i < BUFFER_SIZE => memory[i]);
      result, downFlag := 0, false;
    }

    /** read() and the terminator. */
    method Receive(packet: seq<char>)
      requires buffer.Length == BUFFER_SIZE
      modifies buffer
      ensures buffer[..] == Filled(old(buffer[..]), packet)
    {
      var i := 0;
      while i < |packet| && i < BUFFER_SIZE
        invariant 0 <= i <= |packet| && i <= BUFFER_SIZE
        invariant forall k :: 0 <= k < BUFFER_SIZE ==> buffer[k] == if k < i then packet[k] else old(buffer[k])
      {
        buffer[i] := packet[i];
        i := i + 1;
      }
      buffer[BUFFER_SIZE - 1] := NUL;
    }

    /** sprintf(buffer, "%d", result) */
    method PrintResult()
      requires buffer.Length == BUFFER_SIZE
      modifies buffer
      ensures buffer[..] == Printed(old(buffer[..]), result)
    {
      DecimalFits(result);
      var text := Decimal(result) + [NUL];
      var i := 0;
      while i < |text|
        invariant 0 <= i <= |text|
        invariant forall k :: 0 <= k < BUFFER_SIZE ==> buffer[k] == if k < i then text[k] else old(buffer[k])
      {
        buffer[i] := text[i];
        i := i + 1;
      }
    }

    /** Reads the packet of one argument; the text is the same whatever the buffer held before. */
    method ReadText(arg: Arg) returns (text: seq<char>)
      requires buffer.Length == BUFFER_SIZE
      modifies buffer
      ensures text == Text(arg)
    {
      StaleBytesIrrelevant(buffer[..], arg);
      Receive(Packet(arg));
      text := CString(buffer[..]);
    }

    /** One turn of the inner loop: true when the packet is a command. */
    method ReadOne(arg: Arg) returns (stop: bool)
      requires buffer.Length == BUFFER_SIZE
      modifies this, buffer
      ensures stop == IsCommand(Text(arg))
      ensures Tally(result, downFlag) == Absorb(Tally(old(result), old(downFlag)), Text(arg))
    {
      var text := ReadText(arg);
      if IsDown(text) {
        downFlag := true;
        return true;
      }
      if IsEnd(text) {
        return true;
      }
      result := Wrap(result + Atoi(text));
      stop := false;
    }

    /** The inner loop: reads up to and including the first command. */
    method Accumulate(args: seq<Arg>)
      requires buffer.Length == BUFFER_SIZE && Terminates(args)
      modifies this, buffer
      ensures result == Total(args)
      ensures downFlag == (old(downFlag) || EndsWithDown(args))
    {
      var i := 0;
      result := 0;
      var stop := false;
      while !stop
        invariant 0 <= i
        invariant !stop ==> Reading(args, i, Tally(result, downFlag), old(downFlag))
        invariant stop ==> Tally(result, downFlag) == Tally(Total(args), old(downFlag) || EndsWithDown(args))
        decreases FirstCommand(args) - i, !stop
      {
        ReadingNext(args, i, Tally(result, downFlag), old(downFlag));
        stop := ReadOne(args[i]);
        i := i + 1;
      }
    }

    /** One connection whose packets include a command. */
    method Session(args: seq<Arg>) returns (reply: seq<char>)
      requires buffer.Length == BUFFER_SIZE && Terminates(args)
      modifies this, buffer
      ensures Answers(reply, args)
      ensures downFlag == (old(downFlag) || EndsWithDown(args))
    {
      Accumulate(args);
      PrintedText(buffer[..], result);
      PrintResult();
      reply := buffer[..];
    }

    /** The accept loop over the sessions offered; it stops after the first one ended by DOWN. */
    method Serve(sessions: seq<seq<Arg>>) returns (replies: seq<seq<char>>)
      requires buffer.Length == BUFFER_SIZE && !downFlag
      requires forall i :: 0 <= i < |sessions| ==> Terminates(sessions[i])
      modifies this, buffer
      ensures Served(replies, sessions, downFlag)
      ensures |replies| < |sessions| ==> downFlag
    {
      replies := [];
      var n := 0;
      while n < |sessions|
        invariant n == |replies| && !downFlag
        invariant Served(replies, sessions, false)
      {
        var reply := Session(sessions[n]);
        ServedNext(replies, sessions, reply);
        replies := replies + [reply];
        if downFlag {
          return;
        }
        n := n + 1;
      }
    }
  }

  ghost predicate AllAnswered(replies: seq<seq<char>>, sessions: seq<seq<Arg>>) {
    && |replies| <= |sessions|
    && forall i :: 0 <= i < |replies| ==> Answers(replies[i], sessions[i])
  }

  /** The sessions answered, none but the last of which ended with DOWN, and whether that one did. */
  ghost predicate Served(replies: seq<seq<char>>, sessions: seq<seq<Arg>>, down: bool) {
    && AllAnswered(replies, sessions)
    && NoneDown(sessions, |replies| - 1)
    && (down <==> |replies| > 0 && EndsWithDown(sessions[|replies| - 1]))
  }

  lemma ServedNext(replies: seq<seq<char>>, sessions: seq<seq<Arg>>, reply: seq<char>)
    requires Served(replies, sessions, false) && |replies| < |sessions| && Answers(reply, sessions[|replies|])
    ensures Served(replies + [reply], sessions, EndsWithDown(sessions[|replies|]))
  {
    AnsweredNext(replies, sessions, reply);
  }

  lemma AnsweredNext(replies: seq<seq<char>>, sessions: seq<seq<Arg>>, reply: seq<char>)
    requires AllAnswered(replies, sessions) && |replies| < |sessions|
    requires Answers(reply, sessions[|replies|])
    ensures AllAnswered(replies + [reply], sessions)
  {
  }
}

/** What the adding server makes of the numbers its clients are given on the command line. */
module AdderArguments {
  import opened Common
  import opened DecimalText
  import opened AdderServer
  import opened AdderProtocol

  function SumOf(ns: seq<Int>): int
    decreases |ns|
  {
    if ns == [] then 0 else SumOf(ns[..|ns| - 1]) + ns[|ns| - 1]
  }

  /** The arguments that spell the numbers. */
  function Spelled(ns: seq<Int>): seq<Arg> {
    seq(|ns|, i requires 0 <= i < |ns| => Decimal(ns[i]))
  }

  /** A spelled `int` reaches the server whole, as a number. */
  lemma SpelledText(n: Int)
    ensures Text(Decimal(n)) == Decimal(n)
    ensures !IsCommand(Decimal(n))
    ensures Atoi(Text(Decimal(n))) == n
  {
    DecimalFits(n);
    CStringIsPrefix(Decimal(n));
    AtoiOfDecimal(n);
  }

  lemma {:induction false} SumOfSpelled(ns: seq<Int>)
    ensures Sum(Spelled(ns)) == SumOf(ns)
    decreases |ns|
  {
    if ns != [] {
      var n := |ns| - 1;
      SumOfSpelled(ns[..n]);
      assert Spelled(ns)[..n] == Spelled(ns[..n]);
      SpelledText(ns[n]);
    }
  }

  /** The total of a session that spells numbers up to its first command is their sum. */
  lemma SpelledTotal(ns: seq<Int>, command: Arg, rest: seq<Arg>)
    requires IsCommand(Text(command))
    ensures Total(Spelled(ns) + [command] + rest) == Wrap(SumOf(ns))
  {
    var args := Spelled(ns) + [command] + rest;
    forall i | 0 <= i < |ns|
      ensures !IsCommand(Text(args[i]))
    {
      assert args[i] == Decimal(ns[i]);
      SpelledText(ns[i]);
    }
    assert args[|ns|] == command;
    FirstCommandUnique(args, |ns|);
    assert args[..|ns|] == Spelled(ns);
    SumOfSpelled(ns);
  }

  /**
   In every run, a client given `int`s and then a command prints, if it prints
   at all, the decimal text of their sum, reduced to an `int`.
   */
  lemma ClientsPrintSums(run: seq<System>, c: nat, ns: seq<Int>, command: Arg, rest: seq<Arg>)
    requires IsRun(run) && c < |run[|run| - 1].clients| && IsCommand(Text(command))
    requires run[|run| - 1].clients[c].script == Spelled(ns) + [command] + rest
    requires run[|run| - 1].clients[c].phase.Finished?
    ensures run[|run| - 1].clients[c].phase.output == Decimal(Wrap(SumOf(ns)))
    ensures INT_MIN <= SumOf(ns) <= INT_MAX ==> run[|run| - 1].clients[c].phase.output == Decimal(SumOf(ns))
  {
    EveryRunAddsCorrectly(run);
    SpelledTotal(ns, command, rest);
  }

  // ----- longer arguments are cut

  /** An argument reaches the server whole exactly when it has at most eleven characters. */
  lemma ReachesWholeIff(arg: Arg)
    ensures Text(arg) == CString(arg) <==> |CString(arg)| < BUFFER_SIZE
  {
    if |arg| >= BUFFER_SIZE {
      var t, whole := Text(arg), CString(arg);
      CStringIsPrefix(arg);
      CStringIsPrefix(arg[..BUFFER_SIZE - 1]);
      if |whole| < BUFFER_SIZE {
        assert |t| == |whole|;
        assert t == arg[..|t|] == whole;
      }
    } else {
      CStringIsPrefix(arg);
    }
  }

  lemma {:induction false} ZerosAreZero(s: seq<char>)
    requires forall i :: 0 <= i < |s| ==> s[i] == '0'
    ensures Value(0, s) == 0
    decreases |s|
  {
    if s != [] {
      ZerosAreZero(s[1..]);
    }
  }

  /** Eleven zeros and a one: the one is cut off and the argument counts as 0. */
  lemma LongArgumentIsCut(zeros: seq<char>)
    requires |zeros| == 11 && forall i :: 0 <= i < 11 ==> zeros[i] == '0'
    ensures Text(zeros + ['1']) == zeros
    ensures Atoi(Text(zeros + ['1'])) == 0 && Atoi(zeros + ['1']) == 1
  {
    assert (zeros + ['1'])[..11] == zeros;
    CStringIsPrefix(zeros);
    ZerosAreZero(zeros);
    assert forall c :: c in zeros ==> c == '0';
    ValueConcat(0, zeros, ['1']);
    assert ['1'][1..] == [];
  }
}

/**
 The stripper on every configuration, however its lines fall into buffers:
 it drops exactly the buffers of checkers if and only if the braces add up.
 */
module CheckerBalance {
  import opened Common
  import opened CheckerFilter
  import opened CheckerTheorems
  import opened LineBuffers
  import opened ConfigTree

  // ----- dropping exactly the wanted buffers

  /** The buffer at n is not printed. */
  ghost predicate DroppedAt(bufs: seq<string>, n: nat)
    requires n < |bufs|
  {
    !Keeps(After(START, bufs[..n]), bufs[n])
  }

  ghost predicate DropsUpTo(bufs: seq<string>, wanted: seq<bool>, n: nat)
    requires n <= |bufs| == |wanted|
  {
    forall m :: 0 <= m < n ==> (DroppedAt(bufs, m) <==> wanted[m])
  }

  /** Exactly the wanted buffers are dropped, and the filter ends outside every checker. */
  ghost predicate DropsExactly(bufs: seq<string>, wanted: seq<bool>)
    requires |bufs| == |wanted|
  {
    DropsUpTo(bufs, wanted, |bufs|) && After(START, bufs) == START
  }

  // ----- counting braces

  function Change(buf: string): int {
    (if '{' in buf then 1 else 0) - (if '}' in buf then 1 else 0)
  }

  /** Wanted buffers with `{` less those with `}`, among the first n buffers. */
  function Balance(bufs: seq<string>, wanted: seq<bool>, n: nat): int
    requires n <= |bufs| == |wanted|
  {
    if n == 0 then 0 else Balance(bufs, wanted, n - 1) + if wanted[n - 1] then Change(bufs[n - 1]) else 0
  }

  /** At n no checker is open: at the start, after a buffer outside, or where a closing brace makes the count zero. */
  predicate Settled(bufs: seq<string>, wanted: seq<bool>, n: nat)
    requires n <= |bufs| == |wanted|
  {
    n == 0 || !wanted[n - 1] || ('}' in bufs[n - 1] && Balance(bufs, wanted, n) % UINT_MOD == 0)
  }

  /** A buffer outside checkers comes where none is open and holds no marker; one that opens a checker holds one. */
  ghost predicate FitsAt(bufs: seq<string>, wanted: seq<bool>, n: nat)
    requires n < |bufs| == |wanted|
  {
    if wanted[n] then Settled(bufs, wanted, n) ==> HasMarker(bufs[n])
    else Settled(bufs, wanted, n) && !HasMarker(bufs[n])
  }

  ghost predicate AddsUp(bufs: seq<string>, wanted: seq<bool>)
    requires |bufs| == |wanted|
  {
    && (forall n :: 0 <= n < |bufs| ==> FitsAt(bufs, wanted, n))
    && Settled(bufs, wanted, |bufs|)
  }

  // ----- the state tells both

  lemma StepAt(bufs: seq<string>, n: nat)
    requires 0 < n <= |bufs| && NoNul(bufs)
    ensures After(START, bufs[..n]) == Step(After(START, bufs[..n - 1]), bufs[n - 1])
  {
    assert bufs[..n] == bufs[..n - 1] + [bufs[n - 1]];
    FilterConcat(START, bufs[..n - 1], [bufs[n - 1]]);
    FilterOne(After(START, bufs[..n - 1]), bufs[n - 1]);
  }

  /** The flag and the counter after n buffers. */
  ghost function StateAt(bufs: seq<string>, wanted: seq<bool>, n: nat): State
    requires n <= |bufs| == |wanted|
  {
    State(!Settled(bufs, wanted, n), Balance(bufs, wanted, n) % UINT_MOD)
  }

  ghost predicate Follows(bufs: seq<string>, wanted: seq<bool>, n: nat)
    requires n <= |bufs| == |wanted|
  {
    && After(START, bufs[..n]) == StateAt(bufs, wanted, n)
    && (Settled(bufs, wanted, n) ==> StateAt(bufs, wanted, n) == START)
  }

  /** One dropped buffer moves the counter by its braces. */
  lemma StepDropped(st: State, buf: string, balance: int)
    requires st.depth == balance % UINT_MOD && !Keeps(st, buf)
    ensures var b := balance + Change(buf);
            Step(st, buf) == State(!('}' in buf && b % UINT_MOD == 0), b % UINT_MOD)
  {
  }

  lemma {:induction false} StateFollows(bufs: seq<string>, wanted: seq<bool>, n: nat)
    requires n <= |bufs| == |wanted| && NoNul(bufs) && DropsUpTo(bufs, wanted, n)
    ensures Follows(bufs, wanted, n)
    decreases n
  {
    if n == 0 {
      assert bufs[..0] == [];
    } else {
      StateFollows(bufs, wanted, n - 1);
      StepAt(bufs, n);
      assert DroppedAt(bufs, n - 1) <==> wanted[n - 1];
      if wanted[n - 1] {
        StepDropped(After(START, bufs[..n - 1]), bufs[n - 1], Balance(bufs, wanted, n - 1));
      }
    }
  }

  lemma DroppedAtIff(bufs: seq<string>, wanted: seq<bool>, n: nat)
    requires n < |bufs| == |wanted| && NoNul(bufs) && DropsUpTo(bufs, wanted, n)
    ensures (DroppedAt(bufs, n) <==> wanted[n]) <==> FitsAt(bufs, wanted, n)
  {
    StateFollows(bufs, wanted, n);
  }

  lemma {:induction false} FitsDrops(bufs: seq<string>, wanted: seq<bool>, n: nat)
    requires n <= |bufs| == |wanted| && NoNul(bufs)
    ensures DropsUpTo(bufs, wanted, n) <==> forall m :: 0 <= m < n ==> FitsAt(bufs, wanted, m)
    decreases n
  {
    if n > 0 {
      FitsDrops(bufs, wanted, n - 1);
      if DropsUpTo(bufs, wanted, n - 1) {
        DroppedAtIff(bufs, wanted, n - 1);
      }
    }
  }

  /** For any buffers and any choice of them: exactly those are dropped if and only if the braces add up. */
  lemma DropsExactlyIff(bufs: seq<string>, wanted: seq<bool>)
    requires |bufs| == |wanted| && NoNul(bufs)
    ensures DropsExactly(bufs, wanted) <==> AddsUp(bufs, wanted)
  {
    FitsDrops(bufs, wanted, |bufs|);
    assert bufs[..|bufs|] == bufs;
    if DropsUpTo(bufs, wanted, |bufs|) {
      StateFollows(bufs, wanted, |bufs|);
    }
  }

  // ----- configurations

  function All(n: nat, b: bool): seq<bool> {
    seq(n, _ => b)
  }

  /** Which buffers of a configuration belong to checkers. */
  ghost function Wanted(c: Config): (w: seq<bool>)
    ensures |w| == |Buffers(c)|
  {
    match c
    case End => []
    case Line(_, rest) => All(|CheckerBuffers(c)|, IsChecker(c)) + Wanted(rest)
    case Block(head, begin, body, close, rest) =>
      if IsChecker(c) then All(|CheckerBuffers(c)|, true) + Wanted(rest)
      else All(|Bufs(head)|, false) + All(|Chunks(begin)|, false) + Wanted(body) + All(|Chunks(close)|, false) + Wanted(rest)
  }

  /** The buffers not wanted, in order. */
  function Others(bufs: seq<string>, wanted: seq<bool>): seq<string>
    requires |bufs| == |wanted|
    decreases |bufs|
  {
    if bufs == [] then [] else (if wanted[0] then [] else [bufs[0]]) + Others(bufs[1..], wanted[1..])
  }

  lemma {:induction false} OthersConcat(a: seq<string>, w: seq<bool>, b: seq<string>, v: seq<bool>)
    requires |a| == |w| && |b| == |v|
    ensures Others(a + b, w + v) == Others(a, w) + Others(b, v)
    decreases |a|
  {
    if a == [] {
      assert a + b == b && w + v == v;
    } else {
      OthersConcat(a[1..], w[1..], b, v);
      assert (a + b)[1..] == a[1..] + b && (w + v)[1..] == w[1..] + v;
      assert (a + b)[0] == a[0] && (w + v)[0] == w[0];
      Assoc(if w[0] then [] else [a[0]], Others(a[1..], w[1..]), Others(b, v));
    }
  }

  lemma {:induction false} OthersAll(a: seq<string>, b: bool)
    ensures Others(a, All(|a|, b)) == if b then [] else a
    decreases |a|
  {
    if a != [] {
      OthersAll(a[1..], b);
      assert All(|a|, b)[1..] == All(|a| - 1, b);
    }
  }

  lemma OthersFront(a: seq<string>, wa: seq<bool>, b: seq<string>, wb: seq<bool>, c: seq<string>, w: seq<bool>)
    requires |a| == |wa| && |b| == |wb| && |c| == |w|
    ensures Others(a + b + c, wa + wb + w) == Others(a, wa) + Others(b, wb) + Others(c, w)
  {
    OthersConcat(a, wa, b, wb);
    OthersConcat(a + b, wa + wb, c, w);
  }

  lemma OthersHead(a: seq<string>, b: seq<string>, c: seq<string>, w: seq<bool>)
    requires |c| == |w|
    ensures Others(a + b + c, All(|a|, false) + All(|b|, false) + w) == a + b + Others(c, w)
  {
    OthersFront(a, All(|a|, false), b, All(|b|, false), c, w);
    OthersAll(a, false);
    OthersAll(b, false);
  }

  lemma OthersParts(a: seq<string>, b: seq<string>, c: seq<string>, w: seq<bool>, d: seq<string>, e: seq<string>, v: seq<bool>)
    requires |c| == |w| && |e| == |v|
    ensures Others(a + b + c + d + e, All(|a|, false) + All(|b|, false) + w + All(|d|, false) + v)
         == a + b + Others(c, w) + d + Others(e, v)
  {
    OthersHead(a, b, c, w);
    OthersAll(d, false);
    OthersFront(a + b + c, All(|a|, false) + All(|b|, false) + w, d, All(|d|, false), e, v);
  }

  /** Outside the checkers is what pruning leaves. */
  lemma {:induction false} OthersArePruned(c: Config)
    ensures Others(Buffers(c), Wanted(c)) == Buffers(Prune(c))
    decreases c
  {
    if !c.End? {
      OthersArePruned(c.rest);
      if c.Line? || IsChecker(c) {
        OthersFirst(c);
      } else {
        OthersArePruned(c.body);
        OthersParts(Bufs(c.head), Chunks(c.begin), Buffers(c.body), Wanted(c.body), Chunks(c.close), Buffers(c.rest), Wanted(c.rest));
      }
    }
  }

  lemma OthersFirst(c: Config)
    requires !c.End? && (c.Line? || IsChecker(c)) && Others(Buffers(c.rest), Wanted(c.rest)) == Buffers(Prune(c.rest))
    ensures Others(Buffers(c), Wanted(c)) == Buffers(Prune(c))
  {
    var first := CheckerBuffers(c);
    BuffersOfFirst(c);
    OthersAll(first, IsChecker(c));
    OthersConcat(first, All(|first|, IsChecker(c)), Buffers(c.rest), Wanted(c.rest));
  }

  lemma {:induction false} KeptIsOthers(bufs: seq<string>, wanted: seq<bool>, n: nat)
    requires n <= |bufs| == |wanted| && NoNul(bufs) && DropsUpTo(bufs, wanted, n)
    ensures Kept(START, bufs[..n]) == Others(bufs[..n], wanted[..n])
    decreases n
  {
    if n > 0 {
      KeptIsOthers(bufs, wanted, n - 1);
      var st := After(START, bufs[..n - 1]);
      assert bufs[..n] == bufs[..n - 1] + [bufs[n - 1]] && wanted[..n] == wanted[..n - 1] + [wanted[n - 1]];
      FilterConcat(START, bufs[..n - 1], [bufs[n - 1]]);
      FilterOne(st, bufs[n - 1]);
      OthersConcat(bufs[..n - 1], wanted[..n - 1], [bufs[n - 1]], [wanted[n - 1]]);
      assert DroppedAt(bufs, n - 1) <==> wanted[n - 1];
    }
  }

  /**
   For every configuration, of any nesting and with lines of any length: the
   stripper drops exactly the buffers of its checkers, and ends outside, if and
   only if the braces add up; it then prints the pruned text.
   */
  lemma StripperDropsExactlyIff(c: Config)
    requires BraceFormed(c) && IsText(Render(c))
    ensures DropsExactly(Buffers(c), Wanted(c)) <==> AddsUp(Buffers(c), Wanted(c))
    ensures AddsUp(Buffers(c), Wanted(c)) ==> Filter(Text(c)) == Text(Prune(c))
  {
    var bufs, wanted := Buffers(c), Wanted(c);
    BuffersHaveNoNul(c);
    DropsExactlyIff(bufs, wanted);
    if AddsUp(bufs, wanted) {
      KeptIsOthers(bufs, wanted, |bufs|);
      assert bufs[..|bufs|] == bufs && wanted[..|bufs|] == wanted;
      OthersArePruned(c);
      PrunesByBuffer(c);
    }
  }
}

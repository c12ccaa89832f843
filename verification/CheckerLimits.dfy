/**
 Exactly when the stripper prunes: checkers whose marker it sees too late,
 whose closing line goes on after the brace, or which nest deeper than the
 counter, all print something they should not.
 */
module CheckerLimits {
  import opened Common
  import opened CheckerFilter
  import opened CheckerTheorems
  import opened LineBuffers
  import opened ConfigTree

  predicate HasBrace(s: string) {
    '{' in s || '}' in s
  }

  /** No buffer of a title after one with a brace holds a marker. */
  ghost predicate QuietTitle(bufs: seq<string>) {
    forall i, j :: 0 <= i < j < |bufs| && HasBrace(bufs[i]) ==> !HasMarker(bufs[j])
  }

  /** The lines of a block between its title and its body. */
  function BelowTitle(c: Config): seq<string>
    requires c.Block?
  {
    (c.head + [c.begin])[1..]
  }

  /** The bodies of checkers name no checkers: of their buffers only the title's hold markers, none after a brace. */
  ghost predicate Quiet(c: Config) {
    match c
    case End => true
    case Line(text, rest) => (IsChecker(c) ==> QuietTitle(Chunks(text))) && Quiet(rest)
    case Block(_, _, body, close, rest) =>
      && (if IsChecker(c) then
            && QuietTitle(Chunks(Title(c))) && NoMarker(Bufs(BelowTitle(c)))
            && NoMarker(Buffers(body)) && NoMarker(Chunks(close))
          else Quiet(body))
      && Quiet(rest)
  }

  lemma CleanBuffersStay(c: Config)
    requires BraceFormed(c) && NoMarker(Buffers(c))
    ensures After(START, Buffers(c)) == START && Kept(START, Buffers(c)) == Buffers(c)
  {
    BuffersHaveNoNul(c);
    CleanIsKept(Buffers(c));
  }

  /** No buffer after one with a closing brace holds a marker. */
  ghost predicate QuietAfter(bufs: seq<string>) {
    forall i, j :: 0 <= i < j < |bufs| && '}' in bufs[i] ==> !HasMarker(bufs[j])
  }

  lemma RestIsPrinted(bufs: seq<string>, k: nat)
    requires NoNul(bufs) && QuietAfter(bufs) && k < |bufs| && '}' in bufs[k]
    ensures After(START, bufs[k + 1..]) == START && Kept(START, bufs[k + 1..]) == bufs[k + 1..]
  {
    var rest := bufs[k + 1..];
    assert forall i :: 0 <= i < |rest| ==> rest[i] == bufs[k + 1 + i];
    CleanIsKept(rest);
  }

  /** The line that ends a checker prints what follows its closing brace, buffer by buffer. */
  lemma EndingLine(line: string, d: int)
    requires IsLine(line) && '}' in line && Tidy(Chunks(line))
    requires (if '{' in line then d else d - 1) % UINT_MOD == 0
    requires QuietAfter(Chunks(line))
    ensures After(Inside(d), Chunks(line)) == START
    ensures Kept(Inside(d), Chunks(line)) == [] <==> ClosedAtLast(line)
  {
    var bufs := Chunks(line);
    var k := EndsChecker(line, d);
    LineHasBuffers(line);
    assert bufs == bufs[..k + 1] + bufs[k + 1..];
    FilterConcat(Inside(d), bufs[..k + 1], bufs[k + 1..]);
    RestIsPrinted(bufs, k);
  }

  // ----- nesting deeper than the counter

  lemma NoMarkerOfConfig(c: Config)
    requires c.Block? && NoMarker(Buffers(c))
    ensures NoMarker(Buffers(c.body)) && NoMarker(Chunks(c.close)) && NoMarker(Buffers(c.rest))
  {
    NoMarkerOfBlock(Bufs(c.head), Chunks(c.begin), Buffers(c.body), Chunks(c.close), Buffers(c.rest));
    NoMarkerConcat(Bufs(c.head) + Chunks(c.begin), Chunks(c.close));
  }

  /** The states a block met at some depth passes through. */
  lemma BlockInside(c: Config, d: int)
    requires c.Block? && BraceFormed(c) && Tidy(Chunks(c.begin))
    ensures After(Inside(d), Buffers(c))
            == After(After(After(Inside(d + 1), Buffers(c.body)), Chunks(c.close)), Buffers(c.rest))
  {
    DropHead(c.head, d);
    DropOpening(c.begin, d);
    FilterParts(Inside(d), Bufs(c.head), Chunks(c.begin), Buffers(c.body), Chunks(c.close), Buffers(c.rest));
  }

  lemma WrapsAround()
    ensures Inside(UINT_MOD + 1) == Inside(1)
  {
  }

  lemma {:induction false} EscapeLine(c: Config, d: int)
    requires c.Line? && BraceFormed(c) && TidyBraces(c) && NoMarker(Buffers(c)) && 1 <= d <= UINT_MOD
    ensures NoMarker(Buffers(c.rest))
    ensures After(Inside(d), Buffers(c))
            == After(if OneLiner(c.text) && d == UINT_MOD then START else Inside(d), Buffers(c.rest))
  {
    NoMarkerConcat(Chunks(c.text), Buffers(c.rest));
    FilterConcat(Inside(d), Chunks(c.text), Buffers(c.rest));
    if !OneLiner(c.text) {
      DropPlainLine(c.text, d);
    } else if d == UINT_MOD {
      EndingLine(c.text, d);
    } else {
      DropOneLiner(c.text, d);
    }
  }

  /** Too deep for the counter: before the configuration ends the filter believes the checker is over. */
  lemma {:induction false} Escape(c: Config, d: int)
    requires BraceFormed(c) && TidyBraces(c) && NoMarker(Buffers(c))
    requires 1 <= d <= UINT_MOD < d + Height(c)
    ensures After(Inside(d), Buffers(c)) == START
    decreases c
  {
    if c.Line? {
      EscapeLine(c, d);
      if OneLiner(c.text) && d == UINT_MOD {
        CleanBuffersStay(c.rest);
      } else {
        Escape(c.rest, d);
      }
    } else {
      EscapeBlock(c, d);
    }
  }

  lemma {:induction false} EscapeBlock(c: Config, d: int)
    requires c.Block? && BraceFormed(c) && TidyBraces(c) && NoMarker(Buffers(c))
    requires 1 <= d <= UINT_MOD < d + Height(c)
    ensures After(Inside(d), Buffers(c)) == START
    decreases c, 0
  {
    NoMarkerOfConfig(c);
    BlockInside(c, d);
    var inner := if d == UINT_MOD then 1 else d + 1;
    WrapsAround();
    if inner + Height(c.body) > UINT_MOD {
      Escape(c.body, inner);
      KeepPlainLine(c.close);
      CleanBuffersStay(c.rest);
    } else {
      DropInside(c.body, inner);
      if d == UINT_MOD {
        EndingLine(c.close, 1);
        CleanBuffersStay(c.rest);
      } else {
        DropClosing(c.close, d);
        Escape(c.rest, d);
      }
    }
  }

  // ----- a checker the filter does not catch prints something

  /** Ends outside, printing nothing exactly if `silent`. */
  ghost predicate EndsOutside(st: State, bufs: seq<string>, silent: bool) {
    After(st, bufs) == START && (Kept(st, bufs) == [] <==> silent)
  }

  lemma EndsOutsideConcat(st: State, a: seq<string>, b: seq<string>, st': State, silent: bool)
    requires Drops(st, a, st') && EndsOutside(st', b, silent)
    ensures EndsOutside(st, a + b, silent)
  {
    FilterConcat(st, a, b);
  }

  /** From the buffer that holds the marker on, a checker block prints exactly unless it is closed at last and shallow. */
  lemma BlockFromInside(c: Config)
    requires c.Block? && BraceFormed(c) && Tidy(Chunks(c.begin)) && TidyBraces(c.body) && Tidy(Chunks(c.close))
    requires NoMarker(Buffers(c.body)) && NoMarker(Chunks(c.close))
    ensures EndsOutside(Inside(0), CheckerBuffers(c), ClosedAtLast(c.close) && 1 + Height(c.body) <= UINT_MOD)
  {
    var front := Bufs(c.head) + Chunks(c.begin);
    DropHead(c.head, 0);
    DropOpening(c.begin, 0);
    DropsConcat(Inside(0), Bufs(c.head), Inside(0), Chunks(c.begin), Inside(1));
    if 1 + Height(c.body) <= UINT_MOD {
      DropInside(c.body, 1);
      DropsConcat(Inside(0), front, Inside(1), Buffers(c.body), Inside(1));
      EndingLine(c.close, 1);
      EndsOutsideConcat(Inside(0), front + Buffers(c.body), Chunks(c.close), Inside(1), ClosedAtLast(c.close));
    } else {
      Escape(c.body, 1);
      LineHasBuffers(c.close);
      KeepPlainLine(c.close);
      FilterConcat(Inside(0), front, Buffers(c.body));
      FilterConcat(Inside(0), front + Buffers(c.body), Chunks(c.close));
    }
  }

  lemma LineFromInside(c: Config)
    requires c.Line? && IsChecker(c) && BraceFormed(c) && Tidy(Chunks(c.text)) && QuietTitle(Chunks(c.text))
    ensures EndsOutside(Inside(0), CheckerBuffers(c), ClosedAtLast(c.text))
  {
    EndingLine(c.text, 0);
  }

  lemma {:induction false} FirstMarker(bufs: seq<string>, j: nat) returns (k: nat)
    requires j < |bufs| && HasMarker(bufs[j])
    ensures k <= j && HasMarker(bufs[k]) && forall i :: 0 <= i < k ==> !HasMarker(bufs[i])
    decreases j
  {
    if i :| 0 <= i < j && HasMarker(bufs[i]) {
      k := FirstMarker(bufs, i);
    } else {
      k := j;
    }
  }

  lemma NoneInFront(bufs: seq<string>)
    requires NoNul(bufs) && NoMarker(bufs) && forall i :: 0 <= i < |bufs| ==> !HasBrace(bufs[i])
    ensures After(START, bufs) == START && Kept(START, bufs) == bufs
    ensures Drops(Inside(0), bufs, Inside(0))
  {
    CleanIsKept(bufs);
    assert !Has(bufs, '{') && !Has(bufs, '}');
    TidyDrops(bufs, 0);
  }

  /** Buffers before the first marker are printed; from there on it is as inside. */
  lemma SeenLate(a: seq<string>, b: seq<string>)
    requires After(START, a) == START && Kept(START, a) == a && Drops(Inside(0), a, Inside(0))
    requires After(START, b) == After(Inside(0), b) && Kept(START, b) == Kept(Inside(0), b)
    ensures After(START, a + b) == After(Inside(0), a + b)
    ensures Kept(START, a + b) == a + Kept(Inside(0), a + b)
  {
    FilterConcat(START, a, b);
    FilterConcat(Inside(0), a, b);
    assert [] + Kept(Inside(0), b) == Kept(Inside(0), b);
  }

  /** The buffers of the checker at the front, from the title's first marker on. */
  lemma CheckerSeen(c: Config, k: nat)
    requires !c.End? && BraceFormed(c) && k < |CheckerBuffers(c)| && HasMarker(CheckerBuffers(c)[k])
    requires forall i :: 0 <= i < k ==> !HasMarker(CheckerBuffers(c)[i]) && !HasBrace(CheckerBuffers(c)[i])
    ensures After(START, CheckerBuffers(c)) == After(Inside(0), CheckerBuffers(c))
    ensures Kept(START, CheckerBuffers(c)) == CheckerBuffers(c)[..k] + Kept(Inside(0), CheckerBuffers(c))
  {
    CheckerHasNoNul(c);
    var bufs := CheckerBuffers(c);
    var a, b := bufs[..k], bufs[k..];
    assert bufs == a + b && b[0] == bufs[k];
    assert forall i :: 0 <= i < |a| ==> a[i] == bufs[i];
    NoneInFront(a);
    CaughtAtOnce(b);
    SeenLate(a, b);
  }

  lemma CheckerHasNoNul(c: Config)
    requires !c.End? && BraceFormed(c)
    ensures NoNul(CheckerBuffers(c))
  {
    BuffersHaveNoNul(c);
    BuffersOfFirst(c);
    NoNulConcat(CheckerBuffers(c), Buffers(c.rest));
  }

  /** The conditions of `Quiet`, `Neat` and `Caught` on the checker that stands first. */
  ghost predicate QuietFirst(c: Config)
    requires !c.End?
  {
    match c
    case Line(text, _) => Tidy(Chunks(text)) && QuietTitle(Chunks(text))
    case Block(_, begin, body, close, _) =>
      && Tidy(Chunks(begin)) && TidyBraces(body) && Tidy(Chunks(close))
      && QuietTitle(Chunks(Title(c))) && NoMarker(Bufs(BelowTitle(c)))
      && NoMarker(Buffers(body)) && NoMarker(Chunks(close))
  }

  ghost predicate ClosedFirst(c: Config)
    requires !c.End?
  {
    match c
    case Line(text, _) => ClosedAtLast(text)
    case Block(_, _, body, close, _) => ClosedAtLast(close) && 1 + Height(body) <= UINT_MOD
  }

  function TitleLine(c: Config): string
    requires !c.End?
  {
    if c.Line? then c.text else Title(c)
  }

  /** The buffers of a checker after its title's. */
  function BelowBuffers(c: Config): seq<string>
    requires !c.End?
  {
    if c.Line? then [] else Bufs(BelowTitle(c)) + Buffers(c.body) + Chunks(c.close)
  }

  lemma TitleFirst(c: Config)
    requires !c.End? && BraceFormed(c)
    ensures CheckerBuffers(c) == Chunks(TitleLine(c)) + BelowBuffers(c)
    ensures Chunks(TitleLine(c)) != []
  {
    LineHasBuffers(TitleLine(c));
    if c.Block? {
      var lines := c.head + [c.begin];
      BufsConcat(c.head, [c.begin]);
      BufsOne(c.begin);
      assert Bufs(lines) == Chunks(lines[0]) + Bufs(lines[1..]);
      Regroup(Chunks(lines[0]), Bufs(lines[1..]), Buffers(c.body), Chunks(c.close));
    }
  }

  lemma Regroup(a: seq<string>, b: seq<string>, c: seq<string>, d: seq<string>)
    ensures (a + b) + c + d == a + (b + c + d)
  {
  }

  lemma BelowIsQuiet(c: Config)
    requires !c.End? && QuietFirst(c)
    ensures NoMarker(BelowBuffers(c))
  {
    if c.Block? {
      NoMarkerConcat(Bufs(BelowTitle(c)), Buffers(c.body));
      NoMarkerConcat(Bufs(BelowTitle(c)) + Buffers(c.body), Chunks(c.close));
    }
  }

  /** A checker whose title no buffer gives away is printed whole. */
  lemma MissedChecker(c: Config)
    requires !c.End? && BraceFormed(c) && QuietFirst(c) && NoMarker(Chunks(TitleLine(c)))
    ensures EndsOutside(START, CheckerBuffers(c), false)
  {
    TitleFirst(c);
    BelowIsQuiet(c);
    NoMarkerConcat(Chunks(TitleLine(c)), BelowBuffers(c));
    CheckerHasNoNul(c);
    CleanIsKept(CheckerBuffers(c));
  }

  lemma FromInside(c: Config)
    requires IsChecker(c) && BraceFormed(c) && QuietFirst(c)
    ensures EndsOutside(Inside(0), CheckerBuffers(c), ClosedFirst(c))
  {
    if c.Line? {
      LineFromInside(c);
    } else {
      BlockFromInside(c);
    }
  }

  lemma QuietBefore(bufs: seq<string>, j: nat) returns (k: nat)
    requires QuietTitle(bufs) && j < |bufs| && HasMarker(bufs[j])
    ensures k < |bufs| && HasMarker(bufs[k])
    ensures forall i :: 0 <= i < k ==> !HasMarker(bufs[i]) && !HasBrace(bufs[i])
  {
    k := FirstMarker(bufs, j);
  }

  lemma TitleSeen(c: Config, j: nat) returns (k: nat)
    requires !c.End? && BraceFormed(c) && QuietTitle(Chunks(TitleLine(c)))
    requires j < |Chunks(TitleLine(c))| && HasMarker(Chunks(TitleLine(c))[j])
    ensures k < |CheckerBuffers(c)| && (MarkedAtOnce(TitleLine(c)) <==> k == 0)
    ensures After(START, CheckerBuffers(c)) == After(Inside(0), CheckerBuffers(c))
    ensures Kept(START, CheckerBuffers(c)) == CheckerBuffers(c)[..k] + Kept(Inside(0), CheckerBuffers(c))
  {
    var title := Chunks(TitleLine(c));
    TitleFirst(c);
    k := QuietBefore(title, j);
    assert forall i :: 0 <= i < |title| ==> CheckerBuffers(c)[i] == title[i];
    CheckerSeen(c, k);
  }

  /** A checker some buffer of whose title gives it away prints what came before that buffer. */
  lemma SeenChecker(c: Config, j: nat)
    requires IsChecker(c) && BraceFormed(c) && QuietFirst(c)
    requires j < |Chunks(TitleLine(c))| && HasMarker(Chunks(TitleLine(c))[j])
    ensures EndsOutside(START, CheckerBuffers(c), MarkedAtOnce(TitleLine(c)) && ClosedFirst(c))
  {
    var k := TitleSeen(c, j);
    FromInside(c);
  }

  lemma CheckerOutside(c: Config)
    requires IsChecker(c) && BraceFormed(c) && QuietFirst(c)
    ensures EndsOutside(START, CheckerBuffers(c), MarkedAtOnce(TitleLine(c)) && ClosedFirst(c))
  {
    var title := Chunks(TitleLine(c));
    if j :| 0 <= j < |title| && HasMarker(title[j]) {
      SeenChecker(c, j);
    } else {
      MissedChecker(c);
    }
  }

  // ----- the exact condition

  /** The filter ends outside and never prints fewer buffers than pruning leaves; more, unless every checker is caught. */
  ghost predicate Leaks(c: Config) {
    && After(START, Buffers(c)) == START
    && |Kept(START, Buffers(c))| >= |Buffers(Prune(c))|
    && (!Caught(c) ==> |Kept(START, Buffers(c))| > |Buffers(Prune(c))|)
  }

  lemma CheckerLeaks(c: Config)
    requires IsChecker(c) && BraceFormed(c) && Neat(c) && Quiet(c) && Leaks(c.rest)
    ensures Leaks(c)
  {
    CheckerOutside(c);
    BuffersOfFirst(c);
    FilterConcat(START, CheckerBuffers(c), Buffers(c.rest));
  }

  lemma LineLeaks(c: Config)
    requires c.Line? && !IsChecker(c) && BraceFormed(c) && Clean(c) && Leaks(c.rest)
    ensures Leaks(c)
  {
    KeepPlainLine(c.text);
    FilterConcat(START, Chunks(c.text), Buffers(c.rest));
    var kept, rest := Kept(START, Buffers(c.rest)), Buffers(Prune(c.rest));
    assert |Kept(START, Buffers(c))| == |Chunks(c.text)| + |kept|;
    assert Buffers(Prune(c)) == Chunks(c.text) + rest;
  }

  lemma PlainBlockLeaks(c: Config)
    requires c.Block? && !IsChecker(c) && BraceFormed(c) && Clean(c) && Leaks(c.body) && Leaks(c.rest)
    ensures Leaks(c)
  {
    KeepPlainBlock(c);
    FilterParts(START, Bufs(c.head), Chunks(c.begin), Buffers(c.body), Chunks(c.close), Buffers(c.rest));
    var own := |Bufs(c.head)| + |Chunks(c.begin)| + |Chunks(c.close)|;
    assert |Kept(START, Buffers(c))| == own + |Kept(START, Buffers(c.body))| + |Kept(START, Buffers(c.rest))|;
    assert |Buffers(Prune(c))| == own + |Buffers(Prune(c.body))| + |Buffers(Prune(c.rest))|;
  }

  lemma {:induction false} KeptAtLeastPruned(c: Config)
    requires BraceFormed(c) && Clean(c) && Neat(c) && Quiet(c)
    ensures Leaks(c)
    decreases c
  {
    if !c.End? {
      KeptAtLeastPruned(c.rest);
      if IsChecker(c) {
        CheckerLeaks(c);
      } else if c.Line? {
        LineLeaks(c);
      } else {
        KeptAtLeastPruned(c.body);
        PlainBlockLeaks(c);
      }
    }
  }

  /**
   When checkers are neat and their bodies name no checkers, the stripper
   prunes exactly the checkers if and only if no buffer outside them holds a
   marker and every one is caught: its first buffer holds a marker, the last
   buffer of its closing line the brace, and it nests at most 2^32 deep.
   */
  lemma StripperExact(c: Config)
    requires BraceFormed(c) && IsText(Render(c)) && Neat(c) && Quiet(c)
    ensures Filter(Text(c)) == Text(Prune(c)) <==> Clean(c) && Caught(c)
  {
    if Clean(c) && Caught(c) {
      StripperPrunes(c);
    } else if Filter(Text(c)) == Text(Prune(c)) {
      PrunesOnlyClean(c);
      PrunesByBuffer(c);
      KeptAtLeastPruned(c);
    }
  }

  /** With lines that fit the buffer only stray markers and the nesting remain. */
  lemma StripperExactOnShortLines(c: Config)
    requires BraceFormed(c) && IsText(Render(c)) && ShortLines(c)
    ensures Shallow(c) ==> (Filter(Text(c)) == Text(Prune(c)) <==> Clean(c))
    ensures Quiet(c) ==> (Filter(Text(c)) == Text(Prune(c)) <==> Clean(c) && Shallow(c))
  {
    ShortLinesAreNeat(c);
    if Shallow(c) {
      StripperPrunesIff(c);
    }
    if Quiet(c) {
      StripperExact(c);
    }
  }
}

/** Inputs on which the stripper does not do what it is for. */
module CheckerExamples {
  import opened Common
  import opened CheckerFilter
  import opened CheckerTheorems
  import opened LineBuffers
  import opened ConfigTree
  import opened CheckerLimits
  import opened CheckerBalance

  // ----- a NUL joins two lines

  lemma ShortHasNoMarker(s: string)
    requires |s| < 8
    ensures !HasMarker(s)
  {
  }

  lemma ConcatTwo(a: string, b: string)
    ensures Concat([a, b]) == a + b && Concat([a]) == a
  {
    assert [a, b][1..] == [b] && [b][1..] == [] && [a][1..] == [];
    assert Concat([b]) == b + [];
  }

  lemma CutAtNul()
    ensures CString("TCP_\0\n") == "TCP_"
  {
    assert "TCP_\0\n"[1..] == "CP_\0\n" && "CP_\0\n"[1..] == "P_\0\n";
    assert "P_\0\n"[1..] == "_\0\n" && "_\0\n"[1..] == "\0\n";
    assert CString("_\0\n") == "_";
    assert CString("CP_\0\n") == "CP_";
  }

  lemma KeepTwo(a: string, b: string)
    requires !HasMarker(CString(a)) && !HasMarker(CString(b))
    ensures Kept(START, [a, b]) == [CString(a), CString(b)]
  {
    assert [a, b][1..] == [b] && [b][1..] == [];
    assert Kept(START, [b]) == [CString(b)] + Kept(START, []);
    assert Kept(START, [a, b]) == [CString(a)] + Kept(START, [b]);
  }

  lemma JoinedLines(a: string, cut: string, b: string, joined: string)
    requires IsChunkList([a, b]) && CString(a) == cut && NUL !in b
    requires !HasMarker(cut) && !HasMarker(b)
    requires cut + b == joined && IsChunk(joined) && HasMarker(joined)
    ensures Filter(Filter(a + b)) != Filter(a + b)
  {
    ConcatTwo(a, b);
    RechunkConcat([a, b]);
    CStringIsPrefix(b);
    KeepTwo(a, b);
    ConcatTwo(cut, b);
    assert Filter(a + b) == joined;
    ConcatTwo(joined, b);
    RechunkConcat([joined]);
    assert !NoMarker([joined]) by { assert [joined][0] == joined; }
    IdleIffNoMarker(a + b);
  }

  /** The first pass cuts a line at its NUL and so prints a marker that the second pass removes. */
  lemma NulDefeatsSecondPass()
    ensures var s := "TCP_\0\n" + "CHECK\n"; Filter(Filter(s)) != Filter(s)
  {
    CutAtNul();
    ShortHasNoMarker("TCP_");
    ShortHasNoMarker("CHECK\n");
    assert MatchesAt("TCP_CHECK\n", "TCP_CHECK", 0);
    JoinedLines("TCP_\0\n", "TCP_", "CHECK\n", "TCP_CHECK\n");
  }

  // ----- small configurations

  /** A block with its brace on its title line. */
  function Braced(begin: string, body: Config, close: string, rest: Config): Config {
    Block([], begin, body, close, rest)
  }

  lemma BracedLines(begin: string, body: Config, close: string, rest: Config)
    ensures Render(Braced(begin, body, close, rest)) == [begin] + Render(body) + [close] + Render(rest)
  {
    assert [] + [begin] == [begin];
  }

  lemma BracedBuffers(begin: string, body: Config, close: string, rest: Config)
    ensures Buffers(Braced(begin, body, close, rest)) == Chunks(begin) + Buffers(body) + Chunks(close) + Buffers(rest)
  {
    assert Bufs([]) == [] && [] + Chunks(begin) == Chunks(begin);
  }

  lemma OneLine(line: string)
    ensures Render(End) == [] && Render(Line(line, End)) == [line]
    ensures Buffers(End) == [] && Buffers(Line(line, End)) == Chunks(line)
  {
    assert Chunks(line) + [] == Chunks(line);
  }

  lemma SkipEmpty(a: seq<string>, b: seq<string>)
    ensures a + [] + b == a + b
  {
  }

  lemma EmptyBlock(begin: string, close: string)
    ensures Render(Braced(begin, End, close, End)) == [begin, close]
    ensures Buffers(Braced(begin, End, close, End)) == Chunks(begin) + Chunks(close)
  {
    OneLine(begin);
    SkipEmpty([begin], [close]);
    SkipEmpty(Chunks(begin), Chunks(close));
    BracedLines(begin, End, close, End);
    BracedBuffers(begin, End, close, End);
  }

  lemma BlockWithLine(begin: string, line: string, close: string)
    ensures Render(Braced(begin, Line(line, End), close, End)) == [begin, line, close]
    ensures Buffers(Braced(begin, Line(line, End), close, End)) == Chunks(begin) + Chunks(line) + Chunks(close)
  {
    OneLine(line);
    BracedLines(begin, Line(line, End), close, End);
    BracedBuffers(begin, Line(line, End), close, End);
  }

  lemma BlockBeforeLine(begin: string, close: string, line: string)
    ensures Render(Braced(begin, End, close, Line(line, End))) == [begin, close, line]
    ensures Buffers(Braced(begin, End, close, Line(line, End))) == Chunks(begin) + Chunks(close) + Chunks(line)
  {
    OneLine(line);
    SkipEmpty([begin], [close]);
    SkipEmpty(Chunks(begin), Chunks(close));
    BracedLines(begin, End, close, Line(line, End));
    BracedBuffers(begin, End, close, Line(line, End));
  }

  // ----- a stray marker swallows the next block

  /** A stray line, then an empty block. */
  function CommentAndBlock(comment: string, begin: string, close: string): Config {
    Line(comment, Braced(begin, End, close, End))
  }

  lemma RenderCommentAndBlock(comment: string, begin: string, close: string)
    ensures Render(CommentAndBlock(comment, begin, close)) == [comment, begin, close]
    ensures Buffers(CommentAndBlock(comment, begin, close)) == Chunks(comment) + (Chunks(begin) + Chunks(close))
  {
    EmptyBlock(begin, close);
  }

  lemma PlainBlockIsKept(comment: string, begin: string, close: string)
    requires NoBrace(comment) && !HasMarker(begin)
    ensures Prune(CommentAndBlock(comment, begin, close)) == CommentAndBlock(comment, begin, close)
    ensures Shallow(CommentAndBlock(comment, begin, close))
  {
    var block := Block([], begin, End, close, End);
    assert Prune(End) == End && Shallow(End);
    assert Prune(block) == block && Shallow(block);
  }

  lemma CommentEnters(comment: string)
    requires IsLine(comment) && NoBrace(comment) && MarkedAtOnce(comment)
    ensures Drops(START, Chunks(comment), Inside(0))
  {
    LineHasBuffers(comment);
    DropPlainLine(comment, 0);
    CaughtDrops(Chunks(comment), Inside(0));
  }

  lemma SwallowedBuffers(comment: seq<string>, begin: seq<string>, close: seq<string>)
    requires Drops(START, comment, Inside(0)) && Drops(Inside(0), begin, Inside(1)) && Drops(Inside(1), close, START)
    ensures Drops(START, comment + (begin + close), START)
  {
    DropsConcat(Inside(0), begin, Inside(1), close, START);
    DropsConcat(START, comment, Inside(0), begin + close, START);
  }

  /** A line that names a checker without a brace, such as a comment, takes the block after it with it. */
  lemma StrayMarkerSwallows(comment: string, begin: string, close: string)
    requires IsLine(comment) && |comment| <= LINE_MAX && NoBrace(comment) && HasMarker(comment) && IsEnded(comment)
    requires IsLine(begin) && |begin| <= LINE_MAX && '{' in begin && '}' !in begin && !HasMarker(begin) && IsEnded(begin)
    requires IsLine(close) && |close| <= LINE_MAX && '}' in close && '{' !in close
    ensures var c := CommentAndBlock(comment, begin, close);
            BraceFormed(c) && IsText(Render(c)) && ShortLines(c) && Shallow(c) && Prune(c) == c && Filter(Text(c)) == []
  {
    PlainBlockIsKept(comment, begin, close);
    ShortLine(comment);
    ShortLine(begin);
    ShortLine(close);
    CommentEnters(comment);
    DropOpening(begin, 0);
    DropLast(close, 1);
    SwallowedBuffers(Chunks(comment), Chunks(begin), Chunks(close));
    RenderCommentAndBlock(comment, begin, close);
    ReadConfig(CommentAndBlock(comment, begin, close));
  }

  lemma NamesChecker(comment: string)
    requires comment == "# TCP_CHECK\n"
    ensures IsLine(comment) && NoBrace(comment) && HasMarker(comment)
  {
    assert MatchesAt(comment, "TCP_CHECK", 2);
  }

  lemma OpensBlock(begin: string)
    requires begin == "vrrp {\n"
    ensures IsLine(begin) && '{' in begin && '}' !in begin && !HasMarker(begin)
  {
    ShortHasNoMarker(begin);
    assert begin[5] == '{';
  }

  /** A comment naming a checker, then a block that is no checker: nothing of the text is printed. */
  lemma CommentSwallowsBlock()
    ensures var c := CommentAndBlock("# TCP_CHECK\n", "vrrp {\n", "}\n");
            BraceFormed(c) && IsText(Render(c)) && ShortLines(c) && Shallow(c) && Prune(c) == c && Filter(Text(c)) == []
  {
    NamesChecker("# TCP_CHECK\n");
    OpensBlock("vrrp {\n");
    assert "}\n"[0] == '}';
    StrayMarkerSwallows("# TCP_CHECK\n", "vrrp {\n", "}\n");
  }

  // ----- lines longer than the buffer

  function Blanks(n: nat): string {
    seq(n, _ => ' ')
  }

  /** A line of two buffers. */
  ghost predicate IsSplit(a: string, b: string) {
    && |a| == LINE_MAX && '\n' !in a && NUL !in a
    && IsChunk(b) && NUL !in b && IsEnded(b)
  }

  lemma TwoBuffers(a: string, b: string)
    requires IsSplit(a, b)
    ensures Chunks(a + b) == [a, b] && IsLine(a + b) && IsEnded(a + b)
  {
    ConcatTwo(a, b);
    RechunkConcat([a, b]);
  }

  lemma MissingCharacter(s: string, pat: string, i: nat)
    requires i < |pat| && pat[i] !in s
    ensures !Contains(s, pat)
  {
    forall k | 0 <= k <= |s| - |pat|
      ensures !MatchesAt(s, pat, k)
    {
      assert s[k + i] in s && s[k..k + |pat|][i] == s[k + i];
    }
  }

  lemma NoMarkerWithout(s: string)
    requires 'K' !in s && 'G' !in s
    ensures !HasMarker(s)
  {
    assert "TCP_CHECK"[8] == 'K' && "HTTP_GET"[5] == 'G';
    MissingCharacter(s, "TCP_CHECK", 8);
    MissingCharacter(s, "HTTP_GET", 5);
  }

  lemma UnseenConfig(c: Config)
    requires BraceFormed(c) && IsText(Render(c)) && NoMarker(Buffers(c))
    ensures Filter(Text(c)) == Text(c)
  {
    BuffersHaveNoNul(c);
    ReadConfig(c);
    ChunksHaveNoNul(Text(c));
    FixedPoints(Text(c));
  }

  lemma NoMarkerThree(a: string, b: string, c: string)
    requires !HasMarker(a) && !HasMarker(b) && !HasMarker(c)
    ensures NoMarker([a, b] + [c])
  {
  }

  /** A title whose marker straddles two buffers: the whole checker is printed. */
  lemma StraddledTitle(a: string, b: string, close: string)
    requires IsSplit(a, b) && !HasMarker(a) && !HasMarker(b) && HasMarker(a + b)
    requires '{' in a + b && '}' !in a + b
    requires IsLine(close) && |close| <= LINE_MAX && '}' in close && '{' !in close && !HasMarker(close)
    ensures var c := Braced(a + b, End, close, End);
            && BraceFormed(c) && IsText(Render(c)) && Prune(c) == End
            && Filter(Text(c)) == Text(c)
  {
    TwoBuffers(a, b);
    ShortLine(close);
    EmptyBlock(a + b, close);
    NoMarkerThree(a, b, close);
    assert Prune(End) == End;
    UnseenConfig(Braced(a + b, End, close, End));
  }

  lemma LongTitle(a: string, b: string)
    requires a == Blanks(250) + "TCP_C" && b == "HECK {\n"
    ensures IsSplit(a, b) && !HasMarker(a) && !HasMarker(b) && HasMarker(a + b)
    ensures '{' in a + b && '}' !in a + b
  {
    NoMarkerWithout(a);
    ShortHasNoMarker(b);
    assert (a + b)[250..259] == "TCP_CHECK";
    assert MatchesAt(a + b, "TCP_CHECK", 250);
    assert b[5] == '{' && (a + b)[255 + 5] == b[5];
  }

  /** 250 blanks before the name of the checker: it is not removed. */
  lemma LongTitleMissed()
    ensures var title := Blanks(250) + "TCP_C" + "HECK {\n";
            HasMarker(title) && Filter(title + "}\n") == title + "}\n"
  {
    var a, b, close := Blanks(250) + "TCP_C", "HECK {\n", "}\n";
    LongTitle(a, b);
    ShortHasNoMarker(close);
    assert close[0] == '}';
    StraddledTitle(a, b, close);
    EmptyBlock(a + b, close);
    ConcatTwo(a + b, close);
  }

  ghost predicate IsTitle(begin: string) {
    IsLine(begin) && IsEnded(begin) && |begin| <= LINE_MAX && HasMarker(begin) && '{' in begin && '}' !in begin
  }

  lemma TitleEnters(begin: string)
    requires IsTitle(begin)
    ensures Chunks(begin) == [begin] && Drops(START, [begin], Inside(1))
  {
    ShortLine(begin);
    DropOpening(begin, 0);
    CaughtDrops(Chunks(begin), Inside(1));
  }

  lemma StepTwo(st: State, a: string, b: string)
    requires NUL !in a && NUL !in b
    ensures After(st, [a, b]) == Step(Step(st, a), b)
    ensures Kept(st, [a, b])
         == (if Keeps(st, a) then [a] else []) + (if Keeps(Step(st, a), b) then [b] else [])
  {
    FilterOne(st, a);
    FilterOne(Step(st, a), b);
    FilterConcat(st, [a], [b]);
    assert [a] + [b] == [a, b];
  }

  lemma FilterByBuffer(c: Config)
    requires IsText(Render(c))
    ensures Filter(Text(c)) == Concat(Kept(START, Buffers(c)))
  {
    ReadConfig(c);
  }

  /** Inside a checker at depth 1, a buffer with `}` ends it and the next one is printed. */
  lemma NextIsPrinted(begin: string, a: string, b: string)
    requires Drops(START, [begin], Inside(1)) && NUL !in a && NUL !in b
    requires '}' in a && '{' !in a && !HasMarker(b)
    ensures After(START, [begin] + [a, b]) == START && Kept(START, [begin] + [a, b]) == [b]
  {
    StepInside(1, a);
    StepTwo(Inside(1), a, b);
    FilterConcat(START, [begin], [a, b]);
  }

  /** A closing line that goes on into another buffer: that buffer is printed. */
  lemma TrailingTextLeaks(begin: string, a: string, b: string)
    requires IsTitle(begin) && IsSplit(a, b) && '}' in a && '{' !in a + b && !HasMarker(b)
    ensures var c := Braced(begin, End, a + b, End);
            && BraceFormed(c) && IsText(Render(c)) && Prune(c) == End
            && Filter(Text(c)) == b
  {
    TwoBuffers(a, b);
    TitleEnters(begin);
    EmptyBlock(begin, a + b);
    NextIsPrinted(begin, a, b);
    FilterByBuffer(Braced(begin, End, a + b, End));
    ConcatTwo(b, b);
  }

  /** A closing brace, 254 blanks and a newline: the newline is printed. */
  lemma LongCloseLeaks()
    ensures Filter("TCP_CHECK {\n" + ("}" + Blanks(254) + "\n")) == "\n"
  {
    var begin, a, b := "TCP_CHECK {\n", "}" + Blanks(254), "\n";
    ShortTitle(begin);
    ShortHasNoMarker(b);
    assert a[0] == '}';
    TrailingTextLeaks(begin, a, b);
    EmptyBlock(begin, a + b);
    ConcatTwo(begin, a + b);
  }

  lemma ShortTitle(begin: string)
    requires begin == "TCP_CHECK {\n"
    ensures IsTitle(begin)
  {
    assert MatchesAt(begin, "TCP_CHECK", 0);
    assert begin[10] == '{';
  }

  lemma RestIsPrintedToo(begin: string, a: string, b: string, close: string)
    requires Drops(START, [begin], Inside(1)) && NUL !in a && NUL !in b && NUL !in close
    requires '}' in a && '{' !in a && !HasMarker(b) && !HasMarker(close)
    ensures Concat(Kept(START, [begin] + [a, b] + [close])) == b + close
  {
    NextIsPrinted(begin, a, b);
    FilterOne(START, close);
    FilterConcat(START, [begin] + [a, b], [close]);
    assert [b] + [close] == [b, close];
    ConcatTwo(b, close);
  }

  lemma LateOpening(a: string, b: string)
    requires IsSplit(a, b) && '}' in a && '{' in b
    ensures OneLiner(a + b)
  {
  }

  lemma CheckerWithLine(begin: string, line: string, close: string)
    requires IsTitle(begin) && IsLine(line) && IsEnded(line) && OneLiner(line)
    requires IsLine(close) && '}' in close && '{' !in close
    ensures var c := Braced(begin, Line(line, End), close, End);
            BraceFormed(c) && IsText(Render(c)) && Prune(c) == End
  {
    BlockWithLine(begin, line, close);
    assert Prune(End) == End && BraceFormed(End);
  }

  /** Inside a checker, a line with `}` in a buffer before the one with `{`: the checker ends there. */
  lemma UntidyLineEndsChecker(begin: string, a: string, b: string, close: string)
    requires IsTitle(begin) && IsSplit(a, b)
    requires '}' in a && '{' !in a && '{' in b && !HasMarker(b)
    requires IsLine(close) && |close| <= LINE_MAX && '}' in close && '{' !in close && !HasMarker(close)
    ensures var c := Braced(begin, Line(a + b, End), close, End);
            && BraceFormed(c) && IsText(Render(c)) && Prune(c) == End
            && Filter(Text(c)) == b + close
  {
    TwoBuffers(a, b);
    LateOpening(a, b);
    TitleEnters(begin);
    ShortLine(close);
    CheckerWithLine(begin, a + b, close);
    BlockWithLine(begin, a + b, close);
    RestIsPrintedToo(begin, a, b, close);
    FilterByBuffer(Braced(begin, Line(a + b, End), close, End));
  }

  lemma CheckerBeforeLine(begin: string, close: string, line: string)
    requires IsLine(begin) && IsEnded(begin) && HasMarker(begin) && '{' in begin && '}' !in begin
    requires IsLine(close) && IsEnded(close) && '}' in close && '{' !in close
    requires IsLine(line) && NoBrace(line)
    ensures var c := Braced(begin, End, close, Line(line, End));
            BraceFormed(c) && IsText(Render(c)) && Prune(c) == Line(line, End)
  {
    BlockBeforeLine(begin, close, line);
    assert BraceFormed(End) && BraceFormed(Line(line, End));
    assert Prune(End) == End && Prune(Line(line, End)) == Line(line, End);
  }

  /** A title with `{` in two buffers: the counter stays one too high and the next line is lost. */
  lemma DoubleOpeningSwallows(a: string, b: string, close: string, line: string)
    requires IsSplit(a, b) && HasMarker(a) && '{' in a && '{' in b && '}' !in a + b && HasMarker(a + b)
    requires IsLine(close) && IsEnded(close) && |close| <= LINE_MAX && '}' in close && '{' !in close
    requires IsLine(line) && |line| <= LINE_MAX && NoBrace(line)
    ensures var c := Braced(a + b, End, close, Line(line, End));
            && BraceFormed(c) && IsText(Render(c)) && Prune(c) == Line(line, End)
            && Filter(Text(c)) == []
  {
    TwoBuffers(a, b);
    DropsTwoOpenings(a, b);
    SwallowsLine(a, b, close, line);
    assert '{' in a + b;
    CheckerBeforeLine(a + b, close, line);
    BlockBeforeLine(a + b, close, line);
    FilterByBuffer(Braced(a + b, End, close, Line(line, End)));
  }

  lemma SwallowsLine(a: string, b: string, close: string, line: string)
    requires Drops(START, [a, b], Inside(2))
    requires IsLine(close) && |close| <= LINE_MAX && '}' in close && '{' !in close
    requires IsLine(line) && |line| <= LINE_MAX && NoBrace(line)
    ensures Chunks(close) == [close] && Chunks(line) == [line]
    ensures Drops(START, [a, b] + [close] + [line], Inside(1))
  {
    ShortLine(close);
    ShortLine(line);
    DropClosing(close, 1);
    DropPlainLine(line, 1);
    DropsConcat(START, [a, b], Inside(2), [close], Inside(1));
    DropsConcat(START, [a, b] + [close], Inside(1), [line], Inside(1));
  }

  lemma DropsTwoOpenings(a: string, b: string)
    requires NUL !in a && NUL !in b && HasMarker(a) && '{' in a && '{' in b && '}' !in a && '}' !in b
    ensures Drops(START, [a, b], Inside(2))
  {
    assert Step(START, a) == Inside(1);
    StepInside(1, b);
    StepTwo(START, a, b);
  }

  // ----- nesting deeper than the counter

  function Deep(n: nat): Config {
    if n == 0 then End else Braced("{\n", Deep(n - 1), "}\n", End)
  }

  lemma BraceLines(begin: string, close: string)
    requires begin == "{\n" && close == "}\n"
    ensures IsLine(begin) && IsEnded(begin) && '{' in begin && '}' !in begin && !HasMarker(begin)
    ensures IsLine(close) && IsEnded(close) && '}' in close && '{' !in close && !HasMarker(close)
  {
    assert begin[0] == '{' && close[0] == '}';
    ShortHasNoMarker(begin);
    ShortHasNoMarker(close);
  }

  ghost predicate WholeLines(lines: seq<string>) {
    AllEnded(lines) && IsText(lines)
  }

  lemma WholeLinesConcat(a: seq<string>, b: seq<string>)
    requires WholeLines(a) && WholeLines(b)
    ensures WholeLines(a + b)
  {
    TextConcat(a, b);
    EndedConcat(a, b);
  }

  lemma RenderWrapped(begin: string, c: Config, close: string)
    ensures Render(Braced(begin, c, close, End)) == [begin] + Render(c) + [close]
    ensures Buffers(Braced(begin, c, close, End)) == Chunks(begin) + Buffers(c) + Chunks(close)
    ensures Height(Braced(begin, c, close, End)) == 1 + Height(c)
  {
    BracedLines(begin, c, close, End);
    BracedBuffers(begin, c, close, End);
    OneLine(begin);
    assert Height(End) == 0;
  }

  lemma WrapInBlock(begin: string, c: Config, close: string)
    requires BraceFormed(c) && ShortLines(c) && WholeLines(Render(c))
    requires IsLine(begin) && IsEnded(begin) && |begin| <= LINE_MAX && '{' in begin && '}' !in begin
    requires IsLine(close) && IsEnded(close) && |close| <= LINE_MAX && '}' in close && '{' !in close
    ensures var d := Braced(begin, c, close, End);
            BraceFormed(d) && ShortLines(d) && WholeLines(Render(d)) && Height(d) == 1 + Height(c)
    ensures Buffers(Braced(begin, c, close, End)) == [begin] + Buffers(c) + [close]
  {
    RenderWrapped(begin, c, close);
    ShortLine(begin);
    ShortLine(close);
    WholeLinesConcat([begin], Render(c));
    WholeLinesConcat([begin] + Render(c), [close]);
  }

  lemma NoMarkerWrapped(begin: string, inner: seq<string>, close: string)
    requires NoMarker(inner) && !HasMarker(begin) && !HasMarker(close)
    ensures NoMarker([begin] + inner + [close])
  {
    NoMarkerConcat([begin], inner);
    NoMarkerConcat([begin] + inner, [close]);
  }

  lemma {:induction false} DeepIsFormed(n: nat)
    ensures BraceFormed(Deep(n)) && ShortLines(Deep(n)) && WholeLines(Render(Deep(n)))
    ensures Height(Deep(n)) == n && NoMarker(Buffers(Deep(n)))
    decreases n
  {
    if n > 0 {
      DeepIsFormed(n - 1);
      BraceLines("{\n", "}\n");
      WrapInBlock("{\n", Deep(n - 1), "}\n");
      NoMarkerWrapped("{\n", Buffers(Deep(n - 1)), "}\n");
    }
  }

  /** A checker around 2^32 nested blocks is not pruned; around fewer it is. */
  lemma DeepChecker(n: nat)
    ensures var c := Braced("TCP_CHECK {\n", Deep(n), "}\n", End);
            && BraceFormed(c) && IsText(Render(c)) && Prune(c) == End
            && (Filter(Text(c)) == [] <==> n < UINT_MOD)
  {
    var begin, close := "TCP_CHECK {\n", "}\n";
    DeepIsFormed(n);
    BraceLines("{\n", close);
    ShortTitle(begin);
    WrapInBlock(begin, Deep(n), close);
    DeepExact(Braced(begin, Deep(n), close, End));
  }

  lemma DeepExact(c: Config)
    requires c.Block? && c.head == [] && c.rest == End && IsTitle(c.begin) && |c.close| <= LINE_MAX && !HasMarker(c.close)
    requires BraceFormed(c) && ShortLines(c) && WholeLines(Render(c)) && NoMarker(Buffers(c.body))
    ensures Prune(c) == End && (Filter(Text(c)) == [] <==> 1 + Height(c.body) <= UINT_MOD)
  {
    assert Prune(End) == End && Clean(End) && Shallow(End) && Quiet(End);
    ShortLine(c.begin);
    ShortLine(c.close);
    assert BelowTitle(c) == [] && Bufs([]) == [];
    assert NoMarker([c.close]);
    assert Clean(c) && Quiet(c);
    assert Text(End) == [];
    StripperExactOnShortLines(c);
  }

  // ----- the right text by accident

  /** A checker that leaks, a checker that swallows, and a plain block with the text that leaked. */
  function LeakAndSwallow(title: string, a1: string, b1: string, a2: string, b2: string, close: string, a3: string, b3: string): Config {
    Braced(title, Line(a1 + b1, End), a3 + b3, Braced(a2 + b2, End, close, Braced(b1, End, a3 + b3, End)))
  }

  ghost predicate Leaky(a1: string, b1: string, a3: string, b3: string) {
    && IsSplit(a1, b1) && '}' in a1 && '{' !in a1 && '{' in b1 && '}' !in b1 && !HasMarker(b1)
    && IsSplit(a3, b3) && '}' in a3 && '}' in b3 && '{' !in a3 && '{' !in b3 && !HasMarker(a3) && !HasMarker(b3)
  }

  ghost predicate Greedy(a2: string, b2: string, close: string) {
    && IsSplit(a2, b2) && HasMarker(a2) && HasMarker(a2 + b2)
    && '{' in a2 && '{' in b2 && '}' !in a2 && '}' !in b2
    && IsLine(close) && IsEnded(close) && |close| <= LINE_MAX && '}' in close && '{' !in close
  }

  lemma LeakedBuffers(title: string, a1: string, b1: string, a3: string, b3: string)
    requires Drops(START, [title], Inside(1)) && Leaky(a1, b1, a3, b3)
    ensures After(START, [title] + [a1, b1] + [a3, b3]) == START
    ensures Kept(START, [title] + [a1, b1] + [a3, b3]) == [b1] + [a3, b3]
  {
    NextIsPrinted(title, a1, b1);
    StepTwo(START, a3, b3);
    FilterConcat(START, [title] + [a1, b1], [a3, b3]);
  }

  lemma SwallowedBlock(a2: string, b2: string, close: string, b1: string, a3: string, b3: string)
    requires Drops(START, [a2, b2], Inside(2)) && Drops(Inside(2), [close], Inside(1))
    requires NUL !in b1 && '{' in b1 && '}' !in b1
    requires NUL !in a3 && NUL !in b3 && '}' in a3 && '}' in b3 && '{' !in a3 && '{' !in b3
    ensures Drops(START, [a2, b2] + [close] + [b1] + [a3, b3], START)
  {
    StepInside(1, b1);
    DropsOne(Inside(1), b1);
    StepInside(2, a3);
    StepInside(1, b3);
    StepTwo(Inside(2), a3, b3);
    DropsParts(START, [a2, b2], Inside(2), [close], Inside(1), [b1], Inside(2), [a3, b3], START);
  }

  lemma LeakAndSwallowParts(title: string, a1: string, b1: string, a2: string, b2: string, close: string, a3: string, b3: string)
    ensures var c := LeakAndSwallow(title, a1, b1, a2, b2, close, a3, b3);
            && Render(c) == [title, a1 + b1, a3 + b3, a2 + b2, close, b1, a3 + b3]
            && Buffers(c) == Chunks(title) + Chunks(a1 + b1) + Chunks(a3 + b3)
                             + (Chunks(a2 + b2) + Chunks(close) + Chunks(b1) + Chunks(a3 + b3))
  {
    var plain := Braced(b1, End, a3 + b3, End);
    var greedy := Braced(a2 + b2, End, close, plain);
    EmptyBlock(b1, a3 + b3);
    OneLine(a1 + b1);
    BracedLines(a2 + b2, End, close, plain);
    BracedBuffers(a2 + b2, End, close, plain);
    SkipEmpty([a2 + b2], [close]);
    SkipEmpty(Chunks(a2 + b2), Chunks(close));
    Assoc(Chunks(a2 + b2) + Chunks(close), Chunks(b1), Chunks(a3 + b3));
    BracedLines(title, Line(a1 + b1, End), a3 + b3, greedy);
    BracedBuffers(title, Line(a1 + b1, End), a3 + b3, greedy);
  }

  lemma LeakAndSwallowText(title: string, a1: string, b1: string, a2: string, b2: string, close: string, a3: string, b3: string)
    requires IsTitle(title) && Leaky(a1, b1, a3, b3) && Greedy(a2, b2, close)
    ensures IsText(Render(LeakAndSwallow(title, a1, b1, a2, b2, close, a3, b3)))
  {
    TwoBuffers(a1, b1);
    TwoBuffers(a2, b2);
    TwoBuffers(a3, b3);
    LeakAndSwallowParts(title, a1, b1, a2, b2, close, a3, b3);
  }

  lemma NestTree(title: string, line: string, close: string, rest: Config)
    requires IsTitle(title) && IsLine(line) && OneLiner(line) && IsLine(close) && '}' in close && '{' !in close
    requires BraceFormed(rest)
    ensures BraceFormed(Braced(title, Line(line, End), close, rest))
    ensures Prune(Braced(title, Line(line, End), close, rest)) == Prune(rest)
  {
    assert BraceFormed(End);
  }

  lemma EmptyTree(begin: string, close: string, rest: Config)
    requires IsLine(begin) && '{' in begin && '}' !in begin && IsLine(close) && '}' in close && '{' !in close
    requires BraceFormed(rest)
    ensures var c := Braced(begin, End, close, rest);
            BraceFormed(c) && Prune(c) == if HasMarker(begin) then Prune(rest) else Braced(begin, End, close, Prune(rest))
  {
    assert BraceFormed(End) && Prune(End) == End;
  }

  lemma LeakAndSwallowTree(title: string, a1: string, b1: string, a2: string, b2: string, close: string, a3: string, b3: string)
    requires IsTitle(title) && Leaky(a1, b1, a3, b3) && Greedy(a2, b2, close)
    ensures var c := LeakAndSwallow(title, a1, b1, a2, b2, close, a3, b3);
            BraceFormed(c) && Prune(c) == Braced(b1, End, a3 + b3, End)
  {
    TwoBuffers(a1, b1);
    TwoBuffers(a2, b2);
    TwoBuffers(a3, b3);
    LateOpening(a1, b1);
    assert '{' in a2 + b2 && '}' in a3 + b3;
    var plain := Braced(b1, End, a3 + b3, End);
    EmptyTree(b1, a3 + b3, End);
    EmptyTree(a2 + b2, close, plain);
    NestTree(title, a1 + b1, a3 + b3, Braced(a2 + b2, End, close, plain));
  }

  /** The buffer printed after the first checker's early end belongs to that checker. */
  lemma WronglyKept(title: string, a1: string, b1: string, bufs: seq<string>, wanted: seq<bool>)
    requires Drops(START, [title], Inside(1)) && NUL !in a1 && '}' in a1 && '{' !in a1 && !HasMarker(b1)
    requires |bufs| == |wanted| > 2 && bufs[0] == title && bufs[1] == a1 && bufs[2] == b1 && wanted[2]
    ensures !DropsExactly(bufs, wanted)
  {
    assert bufs[..2] == [title] + [a1];
    FilterConcat(START, [title], [a1]);
    FilterOne(Inside(1), a1);
    StepInside(1, a1);
    assert !DroppedAt(bufs, 2);
  }

  lemma AccidentBuffers(title: string, a1: string, b1: string, a2: string, b2: string, close: string, a3: string, b3: string)
    requires IsTitle(title) && Leaky(a1, b1, a3, b3) && Greedy(a2, b2, close)
    ensures Kept(START, [title] + [a1, b1] + [a3, b3] + ([a2, b2] + [close] + [b1] + [a3, b3])) == [b1] + [a3, b3]
  {
    TitleEnters(title);
    LeakedBuffers(title, a1, b1, a3, b3);
    DropsTwoOpenings(a2, b2);
    ShortLine(close);
    DropClosing(close, 1);
    SwallowedBlock(a2, b2, close, b1, a3, b3);
    FilterConcat(START, [title] + [a1, b1] + [a3, b3], [a2, b2] + [close] + [b1] + [a3, b3]);
  }

  lemma AccidentChunks(title: string, a1: string, b1: string, a2: string, b2: string, close: string, a3: string, b3: string)
    requires IsTitle(title) && Leaky(a1, b1, a3, b3) && Greedy(a2, b2, close)
    ensures Buffers(LeakAndSwallow(title, a1, b1, a2, b2, close, a3, b3))
         == [title] + [a1, b1] + [a3, b3] + ([a2, b2] + [close] + [b1] + [a3, b3])
    ensures Buffers(Braced(b1, End, a3 + b3, End)) == [b1] + [a3, b3]
  {
    TwoBuffers(a1, b1);
    TwoBuffers(a2, b2);
    TwoBuffers(a3, b3);
    TitleEnters(title);
    ShortLine(close);
    ChunkOfChunk(b1);
    EmptyBlock(b1, a3 + b3);
    LeakAndSwallowParts(title, a1, b1, a2, b2, close, a3, b3);
  }

  lemma FirstIsWanted(c: Config, n: nat)
    requires IsChecker(c) && n < |CheckerBuffers(c)|
    ensures Wanted(c)[n]
  {
  }

  /**
   The stripper prints the pruned text although it drops the wrong buffers: the
   first checker prints its end, the second swallows a block of the same text.
   */
  lemma PrunedByAccident(title: string, a1: string, b1: string, a2: string, b2: string, close: string, a3: string, b3: string)
    requires IsTitle(title) && Leaky(a1, b1, a3, b3) && Greedy(a2, b2, close)
    ensures var c := LeakAndSwallow(title, a1, b1, a2, b2, close, a3, b3);
            && BraceFormed(c) && IsText(Render(c))
            && Filter(Text(c)) == Text(Prune(c))
            && !DropsExactly(Buffers(c), Wanted(c))
  {
    LeakAndSwallowTree(title, a1, b1, a2, b2, close, a3, b3);
    LeakAndSwallowText(title, a1, b1, a2, b2, close, a3, b3);
    AccidentBuffers(title, a1, b1, a2, b2, close, a3, b3);
    AccidentChunks(title, a1, b1, a2, b2, close, a3, b3);
    PrunesByBuffer(LeakAndSwallow(title, a1, b1, a2, b2, close, a3, b3));
    NotDroppedExactly(title, a1, b1, a2, b2, close, a3, b3);
  }

  lemma AccidentStart(title: string, a1: string, b1: string, a2: string, b2: string, close: string, a3: string, b3: string)
    requires IsTitle(title) && Leaky(a1, b1, a3, b3) && Greedy(a2, b2, close)
    ensures var bufs := Buffers(LeakAndSwallow(title, a1, b1, a2, b2, close, a3, b3));
            |bufs| > 2 && bufs[0] == title && bufs[1] == a1 && bufs[2] == b1
  {
    AccidentChunks(title, a1, b1, a2, b2, close, a3, b3);
  }

  lemma NotDroppedExactly(title: string, a1: string, b1: string, a2: string, b2: string, close: string, a3: string, b3: string)
    requires IsTitle(title) && Leaky(a1, b1, a3, b3) && Greedy(a2, b2, close)
    ensures var c := LeakAndSwallow(title, a1, b1, a2, b2, close, a3, b3);
            !DropsExactly(Buffers(c), Wanted(c))
  {
    var c := LeakAndSwallow(title, a1, b1, a2, b2, close, a3, b3);
    AccidentStart(title, a1, b1, a2, b2, close, a3, b3);
    CheckerIsLong(c, title, a1, b1, a3, b3);
    FirstIsWanted(c, 2);
    TitleEnters(title);
    WronglyKept(title, a1, b1, Buffers(c), Wanted(c));
  }

  lemma CheckerIsLong(c: Config, title: string, a1: string, b1: string, a3: string, b3: string)
    requires c.Block? && c.head == [] && c.begin == title && c.body == Line(a1 + b1, End) && c.close == a3 + b3
    requires IsTitle(title) && Leaky(a1, b1, a3, b3)
    ensures |CheckerBuffers(c)| == 5
  {
    TwoBuffers(a1, b1);
    TwoBuffers(a3, b3);
    TitleEnters(title);
    OneLine(a1 + b1);
    assert Bufs([]) == [];
  }

  /** It does happen. */
  lemma AccidentHappens()
    ensures var pad := "}" + Blanks(254);
            var c := LeakAndSwallow("TCP_CHECK {\n", pad, "{\n", "TCP_CHECK {" + Blanks(244), "{\n", "}\n", pad, "}\n");
            && BraceFormed(c) && IsText(Render(c))
            && Filter(Text(c)) == Text(Prune(c))
            && !DropsExactly(Buffers(c), Wanted(c))
  {
    var pad, a2 := "}" + Blanks(254), "TCP_CHECK {" + Blanks(244);
    BraceLines("{\n", "}\n");
    ShortTitle("TCP_CHECK {\n");
    PadIsLeaky(pad, "{\n", "}\n");
    LongGreedy(a2, "{\n", "}\n");
    PrunedByAccident("TCP_CHECK {\n", pad, "{\n", a2, "{\n", "}\n", pad, "}\n");
  }

  lemma PadIsLeaky(pad: string, b1: string, b3: string)
    requires pad == "}" + Blanks(254) && b1 == "{\n" && b3 == "}\n"
    ensures Leaky(pad, b1, pad, b3)
  {
    BraceLines(b1, b3);
    assert pad[0] == '}';
    NoMarkerWithout(pad);
  }

  lemma LongGreedy(a2: string, b2: string, close: string)
    requires a2 == "TCP_CHECK {" + Blanks(244) && b2 == "{\n" && close == "}\n"
    ensures Greedy(a2, b2, close)
  {
    BraceLines(b2, close);
    assert a2[10] == '{';
    assert a2[0..9] == "TCP_CHECK" && (a2 + b2)[0..9] == "TCP_CHECK";
    assert MatchesAt(a2, "TCP_CHECK", 0) && MatchesAt(a2 + b2, "TCP_CHECK", 0);
  }
}

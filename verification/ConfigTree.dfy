/** Nested brace configurations as trees, and the stripper as pruning. */
module ConfigTree {
  import opened Common
  import opened CheckerFilter
  import opened CheckerTheorems
  import opened LineBuffers

  /**
   A configuration: a line, or a block whose opening brace may stand on its
   own line below the block's `head`, followed by the rest. Lines have any length.
   */
  datatype Config =
    | End
    | Line(text: string, rest: Config)
    | Block(head: seq<string>, begin: string, body: Config, close: string, rest: Config)

  function Render(c: Config): seq<string> {
    match c
    case End => []
    case Line(text, rest) => [text] + Render(rest)
    case Block(head, begin, body, close, rest) => head + [begin] + Render(body) + [close] + Render(rest)
  }

  function Text(c: Config): string {
    Concat(Render(c))
  }

  /** The buffers the configuration is read in. */
  function Buffers(c: Config): seq<string> {
    match c
    case End => []
    case Line(text, rest) => Chunks(text) + Buffers(rest)
    case Block(head, begin, body, close, rest) =>
      Bufs(head) + Chunks(begin) + Buffers(body) + Chunks(close) + Buffers(rest)
  }

  /** The line that names a block. */
  function Title(c: Config): string
    requires c.Block?
  {
    if c.head == [] then c.begin else c.head[0]
  }

  predicate OneLiner(s: string) {
    '{' in s && '}' in s
  }

  predicate NoBrace(s: string) {
    '{' !in s && '}' !in s
  }

  /** A checker stands first: a block titled so, or a whole block on one line. */
  ghost predicate IsChecker(c: Config) {
    match c
    case End => false
    case Line(text, _) => OneLiner(text) && HasMarker(text)
    case Block(_, _, _, _, _) => HasMarker(Title(c))
  }

  /** The configuration without its checkers. */
  ghost function Prune(c: Config): Config {
    match c
    case End => End
    case Line(text, rest) => if IsChecker(c) then Prune(rest) else Line(text, Prune(rest))
    case Block(head, begin, body, close, rest) =>
      if IsChecker(c) then Prune(rest) else Block(head, begin, Prune(body), close, Prune(rest))
  }

  /**
   Braces nest by line: a line with `{` alone opens a block, one with `}` alone
   closes it, one with both is a block of its own, however many braces it holds.
   */
  ghost predicate BraceFormed(c: Config) {
    match c
    case End => true
    case Line(text, rest) =>
      && IsLine(text)
      && (OneLiner(text) || NoBrace(text))
      && BraceFormed(rest)
    case Block(head, begin, body, close, rest) =>
      && (forall i :: 0 <= i < |head| ==> IsLine(head[i]) && NoBrace(head[i]))
      && IsLine(begin) && '{' in begin && '}' !in begin
      && IsLine(close) && '}' in close && '{' !in close
      && BraceFormed(body)
      && BraceFormed(rest)
  }

  /** How deep the braces nest. */
  function Height(c: Config): nat {
    match c
    case End => 0
    case Line(text, rest) => Max(if OneLiner(text) then 1 else 0, Height(rest))
    case Block(_, _, body, _, rest) => Max(1 + Height(body), Height(rest))
  }

  function Max(a: nat, b: nat): nat {
    if a < b then b else a
  }

  // ----- conditions on the buffers of a configuration

  /** Outside checkers no buffer holds a marker. */
  ghost predicate Clean(c: Config) {
    match c
    case End => true
    case Line(text, rest) => (!IsChecker(c) ==> NoMarker(Chunks(text))) && Clean(rest)
    case Block(head, begin, body, close, rest) =>
      && (!IsChecker(c) ==> NoMarker(Bufs(head) + Chunks(begin) + Chunks(close)) && Clean(body))
      && Clean(rest)
  }

  ghost predicate TidyBraces(c: Config) {
    match c
    case End => true
    case Line(text, rest) => Tidy(Chunks(text)) && TidyBraces(rest)
    case Block(_, begin, body, close, rest) =>
      Tidy(Chunks(begin)) && TidyBraces(body) && Tidy(Chunks(close)) && TidyBraces(rest)
  }

  /** Inside checkers each brace of a line is in one buffer, `{` in none after `}`. */
  ghost predicate Neat(c: Config) {
    match c
    case End => true
    case Line(text, rest) => (IsChecker(c) ==> Tidy(Chunks(text))) && Neat(rest)
    case Block(_, begin, body, close, rest) =>
      && (if IsChecker(c) then Tidy(Chunks(begin)) && TidyBraces(body) && Tidy(Chunks(close)) else Neat(body))
      && Neat(rest)
  }

  ghost predicate MarkedAtOnce(line: string) {
    Chunks(line) != [] && HasMarker(Chunks(line)[0])
  }

  predicate ClosedAtLast(line: string) {
    Chunks(line) != [] && '}' in Chunks(line)[|Chunks(line)| - 1]
  }

  /**
   The first buffer of every checker holds a marker, the last buffer of its
   closing line holds the brace, and the counter can follow its nesting.
   */
  ghost predicate Caught(c: Config) {
    match c
    case End => true
    case Line(text, rest) => (IsChecker(c) ==> MarkedAtOnce(text) && ClosedAtLast(text)) && Caught(rest)
    case Block(_, _, body, close, rest) =>
      && (if IsChecker(c) then MarkedAtOnce(Title(c)) && ClosedAtLast(close) && 1 + Height(body) <= UINT_MOD
          else Caught(body))
      && Caught(rest)
  }

  // ----- the buffers of a tree

  lemma {:induction false} RenderBuffers(c: Config)
    ensures Bufs(Render(c)) == Buffers(c)
    decreases c
  {
    match c
    case End =>
    case Line(text, rest) =>
      RenderBuffers(rest);
      BufsOne(text);
      BufsConcat([text], Render(rest));
    case Block(head, begin, body, close, rest) =>
      RenderBuffers(body);
      RenderBuffers(rest);
      BufsOfBlock(head, begin, Render(body), close, Render(rest));
  }

  lemma BufsOfBlock(a: seq<string>, b: string, c: seq<string>, d: string, e: seq<string>)
    ensures Bufs(a + [b] + c + [d] + e) == Bufs(a) + Chunks(b) + Bufs(c) + Chunks(d) + Bufs(e)
  {
    BufsOne(b);
    BufsOne(d);
    BufsConcat(a + [b] + c + [d], e);
    BufsConcat(a + [b] + c, [d]);
    BufsConcat(a + [b], c);
    BufsConcat(a, [b]);
  }

  lemma {:induction false} BuffersHaveNoNul(c: Config)
    requires BraceFormed(c)
    ensures NoNul(Buffers(c))
    decreases c
  {
    match c
    case End =>
    case Line(text, rest) =>
      BuffersHaveNoNul(rest);
      LineHasBuffers(text);
      NoNulConcat(Chunks(text), Buffers(rest));
    case Block(head, begin, body, close, rest) =>
      BuffersHaveNoNul(body);
      BuffersHaveNoNul(rest);
      TextHasNoNul(head);
      LineHasBuffers(begin);
      LineHasBuffers(close);
      NoNulOfBlock(Bufs(head), Chunks(begin), Buffers(body), Chunks(close), Buffers(rest));
  }

  lemma NoNulOfBlock(a: seq<string>, b: seq<string>, c: seq<string>, d: seq<string>, e: seq<string>)
    requires NoNul(a) && NoNul(b) && NoNul(c) && NoNul(d) && NoNul(e)
    ensures NoNul(a + b + c + d + e)
  {
    NoNulConcat(a, b);
    NoNulConcat(a + b, c);
    NoNulConcat(a + b + c, d);
    NoNulConcat(a + b + c + d, e);
  }

  // ----- inside a checker everything is dropped

  /** A line without braces leaves the counter alone. */
  lemma DropPlainLine(line: string, d: int)
    requires IsLine(line) && NoBrace(line)
    ensures Drops(Inside(d), Chunks(line), Inside(d))
  {
    LineHasBuffers(line);
    HasOfLine(line, '{');
    HasOfLine(line, '}');
    assert Tidy(Chunks(line));
    TidyDrops(Chunks(line), d);
  }

  /** An opening line is one level deeper. */
  lemma DropOpening(line: string, d: int)
    requires IsLine(line) && '{' in line && '}' !in line && Tidy(Chunks(line))
    ensures Drops(Inside(d), Chunks(line), Inside(d + 1))
  {
    LineHasBuffers(line);
    HasOfLine(line, '{');
    HasOfLine(line, '}');
    TidyDrops(Chunks(line), d);
  }

  /** A closing line that does not reach zero is one level less deep. */
  lemma DropClosing(line: string, d: int)
    requires IsLine(line) && '}' in line && '{' !in line && Tidy(Chunks(line))
    requires 0 < d < UINT_MOD
    ensures Drops(Inside(d + 1), Chunks(line), Inside(d))
  {
    LineHasBuffers(line);
    HasOfLine(line, '{');
    HasOfLine(line, '}');
    TidyDrops(Chunks(line), d + 1);
  }

  lemma DropOneLiner(line: string, d: int)
    requires IsLine(line) && OneLiner(line) && Tidy(Chunks(line))
    requires 0 < d < UINT_MOD
    ensures Drops(Inside(d), Chunks(line), Inside(d))
  {
    LineHasBuffers(line);
    HasOfLine(line, '{');
    HasOfLine(line, '}');
    TidyDrops(Chunks(line), d);
  }

  /** The line that ends a checker, split at the buffer with its closing brace. */
  lemma EndsChecker(line: string, d: int) returns (k: nat)
    requires IsLine(line) && '}' in line && Tidy(Chunks(line))
    requires (if '{' in line then d else d - 1) % UINT_MOD == 0
    ensures k < |Chunks(line)| && '}' in Chunks(line)[k] && Drops(Inside(d), Chunks(line)[..k + 1], START)
    ensures ClosedAtLast(line) <==> k == |Chunks(line)| - 1
  {
    LineHasBuffers(line);
    HasOfLine(line, '{');
    HasOfLine(line, '}');
    k := TidyEnds(Chunks(line), d);
  }

  lemma DropLast(line: string, d: int)
    requires IsLine(line) && '}' in line && Tidy(Chunks(line)) && ClosedAtLast(line)
    requires (if '{' in line then d else d - 1) % UINT_MOD == 0
    ensures Drops(Inside(d), Chunks(line), START)
  {
    var k := EndsChecker(line, d);
    assert Chunks(line)[..k + 1] == Chunks(line);
  }

  lemma {:induction false} DropHead(head: seq<string>, d: int)
    requires forall i :: 0 <= i < |head| ==> IsLine(head[i]) && NoBrace(head[i])
    ensures Drops(Inside(d), Bufs(head), Inside(d))
    decreases |head|
  {
    if head != [] {
      var rest := head[1..];
      assert forall i :: 0 <= i < |rest| ==> rest[i] == head[i + 1];
      DropHead(rest, d);
      DropPlainLine(head[0], d);
      DropsConcat(Inside(d), Chunks(head[0]), Inside(d), Bufs(rest), Inside(d));
    }
  }

  /** The buffers of what stands first: a line or a whole block. */
  function CheckerBuffers(c: Config): seq<string> {
    match c
    case End => []
    case Line(text, _) => Chunks(text)
    case Block(head, begin, body, close, _) => Bufs(head) + Chunks(begin) + Buffers(body) + Chunks(close)
  }

  lemma BuffersOfFirst(c: Config)
    requires !c.End?
    ensures Buffers(c) == CheckerBuffers(c) + Buffers(c.rest)
  {
  }

  lemma DropsParts(s0: State, a: seq<string>, s1: State, b: seq<string>, s2: State, c: seq<string>, s3: State,
                   d: seq<string>, s4: State)
    requires Drops(s0, a, s1) && Drops(s1, b, s2) && Drops(s2, c, s3) && Drops(s3, d, s4)
    ensures Drops(s0, a + b + c + d, s4)
  {
    DropsConcat(s0, a, s1, b, s2);
    DropsConcat(s0, a + b, s2, c, s3);
    DropsConcat(s0, a + b + c, s3, d, s4);
  }

  /** A block, from any depth at which its opening line is read. */
  lemma DropBlock(c: Config, d: int, inner: State, st': State)
    requires c.Block? && BraceFormed(c) && Tidy(Chunks(c.begin)) && inner == Inside(d + 1)
    requires Drops(inner, Buffers(c.body), inner)
    requires Drops(inner, Chunks(c.close), st')
    ensures Drops(Inside(d), CheckerBuffers(c), st')
  {
    DropHead(c.head, d);
    DropOpening(c.begin, d);
    DropsParts(Inside(d), Bufs(c.head), Inside(d), Chunks(c.begin), inner, Buffers(c.body), inner, Chunks(c.close), st');
  }

  lemma DropInsideLine(c: Config, d: int)
    requires c.Line? && BraceFormed(c) && Tidy(Chunks(c.text)) && 1 <= d && d + Height(c) <= UINT_MOD
    requires Drops(Inside(d), Buffers(c.rest), Inside(d))
    ensures Drops(Inside(d), Buffers(c), Inside(d))
  {
    if OneLiner(c.text) {
      DropOneLiner(c.text, d);
    } else {
      DropPlainLine(c.text, d);
    }
    DropsConcat(Inside(d), Chunks(c.text), Inside(d), Buffers(c.rest), Inside(d));
  }

  lemma DropInsideBlock(c: Config, d: int)
    requires c.Block? && BraceFormed(c) && Tidy(Chunks(c.begin)) && Tidy(Chunks(c.close)) && 0 < d < UINT_MOD
    requires Drops(Inside(d + 1), Buffers(c.body), Inside(d + 1))
    requires Drops(Inside(d), Buffers(c.rest), Inside(d))
    ensures Drops(Inside(d), Buffers(c), Inside(d))
  {
    DropClosing(c.close, d);
    DropBlock(c, d, Inside(d + 1), Inside(d));
    BuffersOfFirst(c);
    DropsConcat(Inside(d), CheckerBuffers(c), Inside(d), Buffers(c.rest), Inside(d));
  }

  /** A tidy configuration inside a checker, at a depth the counter can follow, is dropped whole. */
  lemma {:induction false} DropInside(c: Config, d: int)
    requires BraceFormed(c) && TidyBraces(c)
    requires 1 <= d && d + Height(c) <= UINT_MOD
    ensures Drops(Inside(d), Buffers(c), Inside(d))
    decreases c
  {
    if !c.End? {
      DropInside(c.rest, d);
      if c.Line? {
        DropInsideLine(c, d);
      } else {
        DropInside(c.body, d + 1);
        DropInsideBlock(c, d);
      }
    }
  }

  /** The checker's first buffer is the first of its title. */
  lemma FirstBuffer(c: Config)
    requires c.Block? && BraceFormed(c)
    ensures CheckerBuffers(c) != [] && Chunks(Title(c)) != []
    ensures CheckerBuffers(c)[0] == Chunks(Title(c))[0]
    ensures NUL !in CheckerBuffers(c)[0]
  {
    LineHasBuffers(Title(c));
  }

  lemma DropOneLineChecker(c: Config)
    requires c.Line? && IsChecker(c) && BraceFormed(c) && Tidy(Chunks(c.text))
    requires MarkedAtOnce(c.text) && ClosedAtLast(c.text)
    ensures Drops(START, CheckerBuffers(c), START)
  {
    LineHasBuffers(c.text);
    DropLast(c.text, 0);
    CaughtDrops(Chunks(c.text), START);
  }

  lemma CaughtBlock(c: Config, st': State)
    requires c.Block? && BraceFormed(c) && MarkedAtOnce(Title(c)) && Drops(Inside(0), CheckerBuffers(c), st')
    ensures Drops(START, CheckerBuffers(c), st')
  {
    FirstBuffer(c);
    CaughtDrops(CheckerBuffers(c), st');
  }

  lemma BlockFromZero(c: Config)
    requires c.Block? && BraceFormed(c) && Tidy(Chunks(c.begin)) && TidyBraces(c.body) && Tidy(Chunks(c.close))
    requires ClosedAtLast(c.close) && 1 + Height(c.body) <= UINT_MOD
    ensures Drops(Inside(0), CheckerBuffers(c), START)
  {
    DropInside(c.body, 1);
    DropLast(c.close, 1);
    DropBlock(c, 0, Inside(1), START);
  }

  lemma DropCheckerBlock(c: Config)
    requires c.Block? && BraceFormed(c) && Tidy(Chunks(c.begin)) && TidyBraces(c.body) && Tidy(Chunks(c.close))
    requires MarkedAtOnce(Title(c)) && ClosedAtLast(c.close) && 1 + Height(c.body) <= UINT_MOD
    ensures Drops(START, CheckerBuffers(c), START)
  {
    BlockFromZero(c);
    CaughtBlock(c, START);
  }

  /** A whole checker, met outside any other, is dropped and leaves the filter where it was. */
  lemma DropChecker(c: Config)
    requires IsChecker(c) && BraceFormed(c) && Neat(c) && Caught(c)
    ensures Drops(START, CheckerBuffers(c), START)
  {
    if c.Line? {
      DropOneLineChecker(c);
    } else {
      DropCheckerBlock(c);
    }
  }

  // ----- outside, the filter prunes

  lemma FilterParts(st: State, a: seq<string>, b: seq<string>, c: seq<string>, d: seq<string>, e: seq<string>)
    ensures var s1 := After(st, a);
            var s2 := After(s1, b);
            var s3 := After(s2, c);
            var s4 := After(s3, d);
            && After(st, a + b + c + d + e) == After(s4, e)
            && Kept(st, a + b + c + d + e) == Kept(st, a) + Kept(s1, b) + Kept(s2, c) + Kept(s3, d) + Kept(s4, e)
  {
    FilterConcat(st, a + b + c + d, e);
    FilterConcat(st, a + b + c, d);
    FilterConcat(st, a + b, c);
    FilterConcat(st, a, b);
  }

  /** The filter prunes: it prints the buffers of the pruned configuration and ends outside. */
  ghost predicate Pruned(c: Config) {
    After(START, Buffers(c)) == START && Kept(START, Buffers(c)) == Buffers(Prune(c))
  }

  lemma PruneChecker(c: Config)
    requires IsChecker(c) && BraceFormed(c) && Neat(c) && Caught(c) && Pruned(c.rest)
    ensures Pruned(c)
  {
    DropChecker(c);
    BuffersOfFirst(c);
    FilterConcat(START, CheckerBuffers(c), Buffers(c.rest));
  }

  lemma KeepPlainLine(line: string)
    requires IsLine(line) && NoMarker(Chunks(line))
    ensures After(START, Chunks(line)) == START && Kept(START, Chunks(line)) == Chunks(line)
  {
    LineHasBuffers(line);
    CleanIsKept(Chunks(line));
  }

  lemma PruneLine(c: Config)
    requires c.Line? && !IsChecker(c) && BraceFormed(c) && Clean(c) && Pruned(c.rest)
    ensures Pruned(c)
  {
    KeepPlainLine(c.text);
    FilterConcat(START, Chunks(c.text), Buffers(c.rest));
  }

  /** The lines of a plain block itself are printed. */
  lemma KeepPlainBlock(c: Config)
    requires c.Block? && !IsChecker(c) && BraceFormed(c) && Clean(c)
    ensures After(START, Bufs(c.head)) == START && Kept(START, Bufs(c.head)) == Bufs(c.head)
    ensures After(START, Chunks(c.begin)) == START && Kept(START, Chunks(c.begin)) == Chunks(c.begin)
    ensures After(START, Chunks(c.close)) == START && Kept(START, Chunks(c.close)) == Chunks(c.close)
  {
    NoMarkerConcat(Bufs(c.head) + Chunks(c.begin), Chunks(c.close));
    NoMarkerConcat(Bufs(c.head), Chunks(c.begin));
    TextHasNoNul(c.head);
    CleanIsKept(Bufs(c.head));
    KeepPlainLine(c.begin);
    KeepPlainLine(c.close);
  }

  lemma PrunePlainBlock(c: Config)
    requires c.Block? && !IsChecker(c) && BraceFormed(c) && Clean(c) && Pruned(c.body) && Pruned(c.rest)
    ensures Pruned(c)
  {
    KeepPlainBlock(c);
    FilterParts(START, Bufs(c.head), Chunks(c.begin), Buffers(c.body), Chunks(c.close), Buffers(c.rest));
  }

  lemma {:induction false} FilterPrunes(c: Config)
    requires BraceFormed(c) && Clean(c) && Neat(c) && Caught(c)
    ensures Pruned(c)
    decreases c
  {
    if !c.End? {
      FilterPrunes(c.rest);
      if IsChecker(c) {
        PruneChecker(c);
      } else if c.Line? {
        PruneLine(c);
      } else {
        FilterPrunes(c.body);
        PrunePlainBlock(c);
      }
    }
  }

  // ----- the theorems on text

  lemma TextConcat(a: seq<string>, b: seq<string>)
    ensures IsText(a + b) <==> IsText(a) && IsText(b) && (b != [] ==> AllEnded(a))
  {
    var all := a + b;
    assert forall i :: 0 <= i < |a| ==> all[i] == a[i];
    assert forall i :: 0 <= i < |b| ==> all[|a| + i] == b[i];
    if IsText(a) && IsText(b) && (b != [] ==> AllEnded(a)) {
      forall i | 0 <= i < |all|
        ensures IsLine(all[i]) && (i < |all| - 1 ==> IsEnded(all[i]))
      {
        if i >= |a| {
          assert all[i] == b[i - |a|];
        }
      }
    }
  }

  lemma EndedConcat(a: seq<string>, b: seq<string>)
    ensures AllEnded(a + b) <==> AllEnded(a) && AllEnded(b)
  {
    var all := a + b;
    assert forall i :: 0 <= i < |a| ==> all[i] == a[i];
    assert forall i :: 0 <= i < |b| ==> all[|a| + i] == b[i];
  }

  /** Lines taken out of a text leave a text. */
  ghost predicate StillText(lines: seq<string>, lines': seq<string>) {
    && (IsText(lines) ==> IsText(lines'))
    && (AllEnded(lines) ==> AllEnded(lines'))
    && (lines == [] ==> lines' == [])
  }

  lemma StillTextConcat(a: seq<string>, a': seq<string>, b: seq<string>, b': seq<string>)
    requires StillText(a, a') && StillText(b, b')
    ensures StillText(a + b, a' + b')
  {
    TextConcat(a, b);
    TextConcat(a', b');
    EndedConcat(a, b);
    EndedConcat(a', b');
  }

  lemma {:induction false} PrunedIsText(c: Config)
    ensures StillText(Render(c), Render(Prune(c)))
    decreases c
  {
    match c
    case End =>
    case Line(text, rest) =>
      PrunedIsText(rest);
      StillTextConcat([text], [], Render(rest), Render(Prune(rest)));
      StillTextConcat([text], [text], Render(rest), Render(Prune(rest)));
      assert [] + Render(Prune(rest)) == Render(Prune(rest));
    case Block(head, begin, body, close, rest) =>
      PrunedIsText(body);
      PrunedIsText(rest);
      var front, front' := head + [begin] + Render(body) + [close], head + [begin] + Render(Prune(body)) + [close];
      StillTextConcat(head + [begin], head + [begin], Render(body), Render(Prune(body)));
      StillTextConcat(head + [begin] + Render(body), head + [begin] + Render(Prune(body)), [close], [close]);
      StillTextConcat(front, [], Render(rest), Render(Prune(rest)));
      StillTextConcat(front, front', Render(rest), Render(Prune(rest)));
      assert [] + Render(Prune(rest)) == Render(Prune(rest));
  }

  lemma ReadConfig(c: Config)
    requires IsText(Render(c))
    ensures Chunks(Text(c)) == Buffers(c)
  {
    ReadByLine(Render(c));
    RenderBuffers(c);
  }

  lemma ReadPruned(c: Config)
    requires IsText(Render(c))
    ensures Chunks(Text(Prune(c))) == Buffers(Prune(c))
  {
    PrunedIsText(c);
    ReadConfig(Prune(c));
  }

  /**
   Main result: on the text of a nested configuration the stripper prints the
   text of the pruned configuration, and ends outside every checker.
   */
  lemma StripperPrunes(c: Config)
    requires BraceFormed(c) && IsText(Render(c))
    requires Clean(c) && Neat(c) && Caught(c)
    ensures Filter(Text(c)) == Text(Prune(c))
    ensures After(START, Chunks(Text(c))) == START
  {
    ReadConfig(c);
    ReadPruned(c);
    FilterPrunes(c);
    ChunksHaveNoNul(Text(Prune(c)));
  }

  /** The stripper prints the pruned configuration exactly when it keeps the pruned buffers. */
  lemma PrunesByBuffer(c: Config)
    requires BraceFormed(c) && IsText(Render(c))
    ensures Filter(Text(c)) == Text(Prune(c)) <==> Kept(START, Buffers(c)) == Buffers(Prune(c))
  {
    ReadConfig(c);
    ReadPruned(c);
    ChunksHaveNoNul(Text(Prune(c)));
    if Filter(Text(c)) == Text(Prune(c)) {
      ChunksAreChunks(Text(c));
      BuffersHaveNoNul(c);
      KeptIsChunkList(START, Buffers(c));
      RechunkConcat(Kept(START, Buffers(c)));
    }
  }

  lemma NoMarkerOfBlock(a: seq<string>, b: seq<string>, c: seq<string>, d: seq<string>, e: seq<string>)
    ensures NoMarker(a + b + c + d + e) <==> NoMarker(a + b + d) && NoMarker(c) && NoMarker(e)
  {
    NoMarkerConcat(a + b + c + d, e);
    NoMarkerConcat(a + b + c, d);
    NoMarkerConcat(a + b, c);
    NoMarkerConcat(a + b, d);
  }

  /** A configuration is clean exactly when no buffer that pruning leaves holds a marker. */
  lemma {:induction false} CleanIff(c: Config)
    ensures Clean(c) <==> NoMarker(Buffers(Prune(c)))
    decreases c
  {
    match c
    case End =>
    case Line(text, rest) =>
      CleanIff(rest);
      NoMarkerConcat(Chunks(text), Buffers(Prune(rest)));
    case Block(head, begin, body, close, rest) =>
      CleanIff(body);
      CleanIff(rest);
      NoMarkerOfBlock(Bufs(head), Chunks(begin), Buffers(Prune(body)), Chunks(close), Buffers(Prune(rest)));
  }

  /** What the stripper prunes correctly is clean: a stray marker outside checkers always shows. */
  lemma PrunesOnlyClean(c: Config)
    requires BraceFormed(c) && IsText(Render(c)) && Filter(Text(c)) == Text(Prune(c))
    ensures Clean(c)
  {
    PrunesByBuffer(c);
    KeptIsClean(START, Buffers(c));
    CleanIff(c);
  }

  /**
   On any nested configuration whose checkers the filter can follow, it prunes
   exactly the checkers if and only if no buffer outside them holds a marker.
   */
  lemma StripperPrunesIff(c: Config)
    requires BraceFormed(c) && IsText(Render(c)) && Neat(c) && Caught(c)
    ensures Filter(Text(c)) == Text(Prune(c)) <==> Clean(c)
  {
    if Clean(c) {
      StripperPrunes(c);
    } else if Filter(Text(c)) == Text(Prune(c)) {
      PrunesOnlyClean(c);
    }
  }

  // ----- lines that fit the buffer

  /** No line is longer than one buffer. */
  ghost predicate ShortLines(c: Config) {
    match c
    case End => true
    case Line(text, rest) => |text| <= LINE_MAX && ShortLines(rest)
    case Block(head, begin, body, close, rest) =>
      && (forall i :: 0 <= i < |head| ==> |head[i]| <= LINE_MAX)
      && |begin| <= LINE_MAX && |close| <= LINE_MAX && ShortLines(body) && ShortLines(rest)
  }

  /** No checker nests deeper than the counter can follow. */
  ghost predicate Shallow(c: Config) {
    match c
    case End => true
    case Line(_, rest) => Shallow(rest)
    case Block(_, _, body, _, rest) =>
      && (if IsChecker(c) then 1 + Height(body) <= UINT_MOD else Shallow(body))
      && Shallow(rest)
  }

  lemma ShortLine(line: string)
    requires IsLine(line) && |line| <= LINE_MAX
    ensures Chunks(line) == [line] && Tidy(Chunks(line))
    ensures MarkedAtOnce(line) <==> HasMarker(line)
    ensures ClosedAtLast(line) <==> '}' in line
  {
    ChunkOfChunk(line);
  }

  lemma {:induction false} ShortBraces(c: Config)
    requires BraceFormed(c) && ShortLines(c)
    ensures TidyBraces(c)
    decreases c
  {
    match c
    case End =>
    case Line(text, rest) =>
      ShortLine(text);
      ShortBraces(rest);
    case Block(_, begin, body, close, rest) =>
      ShortLine(begin);
      ShortLine(close);
      ShortBraces(body);
      ShortBraces(rest);
  }

  /** Lines that fit the buffer leave only the nesting to watch. */
  lemma {:induction false} ShortLinesAreNeat(c: Config)
    requires BraceFormed(c) && ShortLines(c)
    ensures Neat(c) && (Caught(c) <==> Shallow(c))
    decreases c
  {
    match c
    case End =>
    case Line(text, rest) =>
      ShortLine(text);
      ShortLinesAreNeat(rest);
    case Block(_, begin, body, close, rest) =>
      ShortLine(begin);
      ShortLine(close);
      ShortLine(Title(c));
      ShortBraces(body);
      ShortLinesAreNeat(body);
      ShortLinesAreNeat(rest);
  }
}

/**
 What the checker stripper does to any file at all: which files it returns
 unchanged, and when a second pass over its own output is idle.
 */
module CheckerTheorems {
  import opened Common
  import opened CheckerFilter

  // ----- reading back

  /** A buffer fgets can return: non-empty, within the limit, a newline only at its end. */
  ghost predicate IsChunk(s: string) {
    && 0 < |s| <= LINE_MAX
    && forall i :: 0 <= i < |s| - 1 ==> s[i] != '\n'
  }

  /** A buffer that more input may follow. */
  ghost predicate IsClosed(s: string) {
    s != [] && (s[|s| - 1] == '\n' || |s| == LINE_MAX)
  }

  ghost predicate IsChunkList(lines: seq<string>) {
    && (forall i :: 0 <= i < |lines| ==> IsChunk(lines[i]))
    && (forall i :: 0 <= i < |lines| - 1 ==> IsClosed(lines[i]))
  }

  lemma {:induction false} ChunkEndStops(s: string, i: nat)
    requires i <= |s| && i <= LINE_MAX
    ensures var n := ChunkEnd(s, i);
            && (forall k :: i <= k < n - 1 ==> s[k] != '\n')
            && (n == |s| || n == LINE_MAX || (n > i && s[n - 1] == '\n'))
    decreases |s| - i
  {
    if i < |s| && i < LINE_MAX && s[i] != '\n' {
      ChunkEndStops(s, i + 1);
    }
  }

  lemma {:induction false} ChunksAreChunks(s: string)
    ensures IsChunkList(Chunks(s))
    ensures s != [] ==> Chunks(s) != []
    decreases |s|
  {
    if s != [] {
      var n := ChunkEnd(s, 0);
      ChunkEndStops(s, 0);
      ChunksAreChunks(s[n..]);
      ChunkListCons(s[..n], Chunks(s[n..]));
    }
  }

  lemma ChunkListCons(line: string, lines: seq<string>)
    requires IsChunk(line) && IsChunkList(lines)
    requires lines != [] ==> IsClosed(line)
    ensures IsChunkList([line] + lines)
  {
    var all := [line] + lines;
    forall i | 0 <= i < |all|
      ensures IsChunk(all[i]) && (i < |all| - 1 ==> IsClosed(all[i]))
    {
      if i > 0 {
        assert all[i] == lines[i - 1];
      }
    }
  }

  lemma ChunkListTail(lines: seq<string>)
    requires IsChunkList(lines) && lines != []
    ensures IsChunk(lines[0]) && IsChunkList(lines[1..])
    ensures lines[1..] != [] ==> IsClosed(lines[0])
  {
    var rest := lines[1..];
    assert forall i :: 0 <= i < |rest| ==> rest[i] == lines[i + 1];
  }

  lemma {:induction false} ChunkEndOfLine(line: string, rest: string, i: nat)
    requires IsChunk(line) && i < |line|
    requires rest != [] ==> IsClosed(line)
    ensures ChunkEnd(line + rest, i) == |line|
    decreases |line| - i
  {
    if i + 1 < |line| {
      ChunkEndOfLine(line, rest, i + 1);
    }
  }

  /** Reading back concatenated buffers finds the same buffers. */
  lemma {:induction false} RechunkConcat(lines: seq<string>)
    requires IsChunkList(lines)
    ensures Chunks(Concat(lines)) == lines
    decreases |lines|
  {
    if lines != [] {
      var line, rest := lines[0], lines[1..];
      ChunkListTail(lines);
      RechunkConcat(rest);
      ChunkEndOfLine(line, Concat(rest), 0);
      assert (line + Concat(rest))[..|line|] == line && (line + Concat(rest))[|line|..] == Concat(rest);
      assert [line] + rest == lines;
    }
  }

  ghost predicate NoNul(lines: seq<string>) {
    forall i :: 0 <= i < |lines| ==> NUL !in lines[i]
  }

  ghost predicate NoMarker(lines: seq<string>) {
    forall i :: 0 <= i < |lines| ==> !HasMarker(lines[i])
  }

  /** Every printed line is free of markers and NULs. */
  lemma {:induction false} KeptIsClean(st: State, lines: seq<string>)
    ensures NoMarker(Kept(st, lines)) && NoNul(Kept(st, lines))
    decreases |lines|
  {
    if lines != [] {
      CStringIsPrefix(lines[0]);
      KeptIsClean(Step(st, CString(lines[0])), lines[1..]);
    }
  }

  /** Without NULs the printed lines are again a list of fgets buffers. */
  lemma {:induction false} KeptIsChunkList(st: State, lines: seq<string>)
    requires IsChunkList(lines) && NoNul(lines)
    ensures IsChunkList(Kept(st, lines))
    ensures lines == [] ==> Kept(st, lines) == []
    decreases |lines|
  {
    if lines != [] {
      var line, rest := lines[0], lines[1..];
      ChunkListTail(lines);
      assert forall i :: 0 <= i < |rest| ==> rest[i] == lines[i + 1];
      CStringIsPrefix(line);
      var next := Step(st, CString(line));
      KeptIsChunkList(next, rest);
      if Keeps(st, CString(line)) {
        ChunkListCons(line, Kept(next, rest));
      } else {
        assert Kept(st, lines) == Kept(next, rest);
      }
    }
  }

  lemma {:induction false} CleanIsKept(lines: seq<string>)
    requires NoMarker(lines) && NoNul(lines)
    ensures Kept(START, lines) == lines && After(START, lines) == START
    decreases |lines|
  {
    if lines != [] {
      var rest := lines[1..];
      assert forall i :: 0 <= i < |rest| ==> rest[i] == lines[i + 1];
      CleanIsKept(rest);
      CStringIsPrefix(lines[0]);
      assert [lines[0]] + rest == lines;
    }
  }

  lemma {:induction false} ChunksHaveNoNul(s: string)
    ensures NoNul(Chunks(s)) <==> NUL !in s
    ensures Concat(Chunks(s)) == s
    decreases |s|
  {
    if s != [] {
      var n := ChunkEnd(s, 0);
      var rest := Chunks(s[n..]);
      ChunksHaveNoNul(s[n..]);
      assert s == s[..n] + s[n..];
      var all := [s[..n]] + rest;
      assert all[1..] == rest;
      assert forall i :: 0 <= i < |rest| ==> all[i + 1] == rest[i];
      assert NoNul(all) <==> NUL !in s[..n] && NoNul(rest) by {
        if NoNul(all) {
          assert NUL !in all[0];
        }
      }
    }
  }

  // ----- fixed points

  function TotalLength(lines: seq<string>): nat {
    if lines == [] then 0 else |lines[0]| + TotalLength(lines[1..])
  }

  lemma {:induction false} ConcatLength(lines: seq<string>)
    ensures |Concat(lines)| == TotalLength(lines)
    decreases |lines|
  {
    if lines != [] {
      ConcatLength(lines[1..]);
    }
  }

  /** Nothing is lost only if every line is printed whole. */
  lemma {:induction false} KeptShorter(st: State, lines: seq<string>)
    requires forall i :: 0 <= i < |lines| ==> lines[i] != []
    ensures TotalLength(Kept(st, lines)) <= TotalLength(lines)
    ensures TotalLength(Kept(st, lines)) == TotalLength(lines) ==> NoMarker(lines) && NoNul(lines)
    decreases |lines|
  {
    if lines != [] {
      var line, rest := lines[0], lines[1..];
      var buf := CString(line);
      CStringIsPrefix(line);
      var next := Step(st, buf);
      assert forall i :: 0 <= i < |rest| ==> rest[i] == lines[i + 1];
      KeptShorter(next, rest);
      var more := Kept(next, rest);
      if Keeps(st, buf) {
        assert ([buf] + more)[1..] == more;
        if TotalLength(Kept(st, lines)) == TotalLength(lines) {
          assert buf == line;
          forall i | 0 <= i < |lines|
            ensures !HasMarker(lines[i]) && NUL !in lines[i]
          {
            if i > 0 {
              assert lines[i] == rest[i - 1];
            }
          }
        }
      } else {
        assert Kept(st, lines) == more;
      }
    }
  }

  /** The filter returns its input unchanged exactly when the input has no NUL and no buffer of it names a checker. */
  lemma FixedPoints(s: string)
    ensures Filter(s) == s <==> NUL !in s && NoMarker(Chunks(s))
  {
    ChunksHaveNoNul(s);
    ChunksAreChunks(s);
    if NUL !in s && NoMarker(Chunks(s)) {
      CleanIsKept(Chunks(s));
    }
    if Filter(s) == s {
      ConcatLength(Chunks(s));
      ConcatLength(Kept(START, Chunks(s)));
      KeptShorter(START, Chunks(s));
    }
  }

  lemma {:induction false} ConcatNoNul(lines: seq<string>)
    requires NoNul(lines)
    ensures NUL !in Concat(lines)
    decreases |lines|
  {
    if lines != [] {
      var rest := lines[1..];
      assert forall i :: 0 <= i < |rest| ==> rest[i] == lines[i + 1];
      ConcatNoNul(rest);
      assert NUL !in lines[0];
    }
  }

  // ----- the second pass

  /** The buffers of which the filter prints something; a NUL cuts what it prints. */
  ghost function Shown(st: State, lines: seq<string>): seq<string>
    decreases |lines|
  {
    if lines == [] then []
    else
      var buf := CString(lines[0]);
      (if Keeps(st, buf) && buf != [] then [lines[0]] else []) + Shown(Step(st, buf), lines[1..])
  }

  function Cut(lines: seq<string>): seq<string> {
    seq(|lines|, i requires 0 <= i < |lines| => CString(lines[i]))
  }

  lemma ConcatCut(line: string, lines: seq<string>)
    ensures Concat(Cut([line] + lines)) == CString(line) + Concat(Cut(lines))
  {
    var cut := Cut([line] + lines);
    assert cut[1..] == Cut(lines);
    assert cut[0] == CString(line);
  }

  lemma ConcatCons(line: string, lines: seq<string>)
    ensures Concat([line] + lines) == line + Concat(lines)
  {
    assert ([line] + lines)[1..] == lines;
  }

  lemma {:induction false} KeptIsShownCut(st: State, lines: seq<string>)
    ensures Concat(Kept(st, lines)) == Concat(Cut(Shown(st, lines)))
    decreases |lines|
  {
    if lines != [] {
      var buf := CString(lines[0]);
      var next := Step(st, buf);
      var kept, shown := Kept(next, lines[1..]), Shown(next, lines[1..]);
      KeptIsShownCut(next, lines[1..]);
      ConcatCons(buf, kept);
      ConcatCut(lines[0], shown);
      assert [] + kept == kept && [] + shown == shown;
      if buf == [] {
        assert buf + Concat(kept) == Concat(kept);
      }
    }
  }

  lemma {:induction false} ShownIsChunkList(st: State, lines: seq<string>)
    requires IsChunkList(lines)
    ensures IsChunkList(Shown(st, lines))
    ensures lines == [] ==> Shown(st, lines) == []
    decreases |lines|
  {
    if lines != [] {
      ChunkListTail(lines);
      var next := Step(st, CString(lines[0]));
      var more := Shown(next, lines[1..]);
      ShownIsChunkList(next, lines[1..]);
      if Keeps(st, CString(lines[0])) && CString(lines[0]) != [] {
        ChunkListCons(lines[0], more);
      } else {
        assert Shown(st, lines) == more;
      }
    }
  }

  /** Pieces of buffers that the filter printed. */
  ghost predicate Plain(lines: seq<string>) {
    forall i :: 0 <= i < |lines| ==> IsChunk(lines[i]) && !HasMarker(lines[i])
  }

  lemma {:induction false} ShownIsPrinted(st: State, lines: seq<string>, i: nat)
    requires i < |Shown(st, lines)|
    ensures var buf := CString(Shown(st, lines)[i]); buf != [] && !HasMarker(buf)
    decreases |lines|
  {
    var buf := CString(lines[0]);
    if !(Keeps(st, buf) && buf != []) {
      ShownIsPrinted(Step(st, buf), lines[1..], i);
    } else if i > 0 {
      ShownIsPrinted(Step(st, buf), lines[1..], i - 1);
    }
  }

  /** What is left of a buffer after the cut: the whole of it, or a piece that nothing closes. */
  lemma PieceOfChunk(line: string)
    requires IsChunk(line) && CString(line) != []
    ensures IsChunk(CString(line))
    ensures NUL !in line ==> CString(line) == line
    ensures NUL in line ==> !IsClosed(CString(line))
  {
    CStringIsPrefix(line);
  }

  lemma PiecesArePlain(s: string)
    ensures Plain(Cut(Shown(START, Chunks(s))))
  {
    var raw := Shown(START, Chunks(s));
    ChunksAreChunks(s);
    ShownIsChunkList(START, Chunks(s));
    forall i | 0 <= i < |raw|
      ensures IsChunk(CString(raw[i])) && !HasMarker(CString(raw[i]))
    {
      ShownIsPrinted(START, Chunks(s), i);
      PieceOfChunk(raw[i]);
    }
  }

  /** No buffer that something was printed of holds a NUL, unless nothing is printed after it. */
  ghost predicate CutOnlyLast(raw: seq<string>) {
    forall i :: 0 <= i < |raw| - 1 ==> NUL !in raw[i]
  }

  /**
   A second pass reads back the very pieces the first one printed, exactly
   when no printed buffer but the last was cut at a NUL.
   */
  lemma RereadsSameIff(s: string)
    ensures var raw := Shown(START, Chunks(s));
            Chunks(Filter(s)) == Cut(raw) <==> CutOnlyLast(raw)
  {
    var raw := Shown(START, Chunks(s));
    var pieces := Cut(raw);
    KeptIsShownCut(START, Chunks(s));
    PiecesArePlain(s);
    ChunksAreChunks(s);
    ShownIsChunkList(START, Chunks(s));
    forall i | 0 <= i < |raw| - 1
      ensures IsClosed(pieces[i]) <==> NUL !in raw[i]
    {
      ShownIsPrinted(START, Chunks(s), i);
      PieceOfChunk(raw[i]);
    }
    if CutOnlyLast(raw) {
      RechunkConcat(pieces);
    }
    if Chunks(Filter(s)) == pieces {
      ChunksAreChunks(Filter(s));
      assert forall i :: 0 <= i < |raw| - 1 ==> IsClosed(pieces[i]);
    }
  }

  lemma IdleIffNoMarker(s: string)
    ensures Filter(Filter(s)) == Filter(s) <==> NoMarker(Chunks(Filter(s)))
  {
    KeptIsClean(START, Chunks(s));
    ConcatNoNul(Kept(START, Chunks(s)));
    FixedPoints(Filter(s));
  }

  /** A second pass changes nothing unless a printed buffer was cut and more was printed after it. */
  lemma SecondPassIdle(s: string)
    requires CutOnlyLast(Shown(START, Chunks(s)))
    ensures Filter(Filter(s)) == Filter(s)
  {
    RereadsSameIff(s);
    PiecesArePlain(s);
    IdleIffNoMarker(s);
  }

  lemma {:induction false} ShownHasNoNul(st: State, lines: seq<string>)
    requires NoNul(lines)
    ensures NoNul(Shown(st, lines))
    decreases |lines|
  {
    if lines != [] {
      var rest := lines[1..];
      assert forall i :: 0 <= i < |rest| ==> rest[i] == lines[i + 1];
      ShownHasNoNul(Step(st, CString(lines[0])), rest);
    }
  }

  /** A text file: a second pass changes nothing. */
  lemma SecondPassIdleOnText(s: string)
    requires NUL !in s
    ensures Filter(Filter(s)) == Filter(s)
  {
    ChunksHaveNoNul(s);
    ShownHasNoNul(START, Chunks(s));
    SecondPassIdle(s);
  }

  // ----- what a cut joins

  /** The pieces one line of the output is made of: it ends at a newline, or at a single full buffer. */
  predicate Complete(run: seq<string>) {
    && run != []
    && var last := run[|run| - 1];
       last != [] && (last[|last| - 1] == '\n' || (|run| == 1 && |last| == LINE_MAX))
  }

  /** The printed pieces, grouped into the stretches a second pass reads together. */
  function Runs(pieces: seq<string>, acc: seq<string>): seq<seq<string>>
    decreases |pieces|
  {
    if pieces == [] then
      if acc == [] then [] else [acc]
    else
      var run := acc + [pieces[0]];
      if Complete(run) then [run] + Runs(pieces[1..], []) else Runs(pieces[1..], run)
  }

  ghost predicate RunHasNoMarker(run: seq<string>) {
    NoMarker(Chunks(Concat(run)))
  }

  ghost predicate NoRunHasMarker(runs: seq<seq<string>>) {
    forall i :: 0 <= i < |runs| ==> RunHasNoMarker(runs[i])
  }

  lemma {:induction false} ConcatAppend(a: seq<string>, b: seq<string>)
    ensures Concat(a + b) == Concat(a) + Concat(b)
    decreases |a|
  {
    if a == [] {
      assert a + b == b;
    } else {
      ConcatAppend(a[1..], b);
      assert (a + b)[1..] == a[1..] + b;
    }
  }

  lemma {:induction false} ChunkEndBeforeNewline(a: string, b: string, i: nat)
    requires i < |a| && i <= LINE_MAX && a[|a| - 1] == '\n'
    ensures ChunkEnd(a + b, i) == ChunkEnd(a, i)
    decreases |a| - i
  {
    if i < LINE_MAX && i + 1 < |a| {
      ChunkEndBeforeNewline(a, b, i + 1);
    }
  }

  /** After a newline reading starts afresh. */
  lemma {:induction false} ChunksAfterNewline(a: string, b: string)
    requires a != [] && a[|a| - 1] == '\n'
    ensures Chunks(a + b) == Chunks(a) + Chunks(b)
    decreases |a|
  {
    var n := ChunkEnd(a, 0);
    ChunkEndBeforeNewline(a, b, 0);
    assert (a + b)[..n] == a[..n] && (a + b)[n..] == a[n..] + b;
    if n < |a| {
      ChunksAfterNewline(a[n..], b);
      Assoc([a[..n]], Chunks(a[n..]), Chunks(b));
    } else {
      assert a[n..] + b == b;
      assert Chunks(a) == [a[..n]];
    }
  }

  lemma ChunkOfChunk(line: string)
    requires IsChunk(line)
    ensures Chunks(line) == [line]
  {
    RechunkConcat([line]);
    assert Concat([line]) == line;
  }

  lemma ChunksAfterRun(run: seq<string>, rest: string)
    requires Complete(run) && forall i :: 0 <= i < |run| ==> IsChunk(run[i])
    ensures Chunks(Concat(run) + rest) == Chunks(Concat(run)) + Chunks(rest)
  {
    var last := run[|run| - 1];
    ConcatAppend(run[..|run| - 1], [last]);
    assert run == run[..|run| - 1] + [last];
    assert Concat([last]) == last;
    var text := Concat(run);
    if last[|last| - 1] == '\n' {
      assert text[|text| - 1] == last[|last| - 1];
      ChunksAfterNewline(text, rest);
    } else {
      assert text == last;
      ChunkEndOfLine(last, rest, 0);
      ChunkOfChunk(last);
      assert (last + rest)[..|last|] == last && (last + rest)[|last|..] == rest;
    }
  }

  lemma NoMarkerConcat(a: seq<string>, b: seq<string>)
    ensures NoMarker(a + b) <==> NoMarker(a) && NoMarker(b)
  {
    var all := a + b;
    assert forall i :: 0 <= i < |a| ==> all[i] == a[i];
    assert forall i :: 0 <= i < |b| ==> all[|a| + i] == b[i];
  }

  lemma NoRunConcat(run: seq<string>, runs: seq<seq<string>>)
    ensures NoRunHasMarker([run] + runs) <==> RunHasNoMarker(run) && NoRunHasMarker(runs)
  {
    var all := [run] + runs;
    assert all[0] == run;
    assert forall i :: 0 <= i < |runs| ==> all[i + 1] == runs[i];
  }

  lemma {:induction false} MarkersAreInRuns(pieces: seq<string>, acc: seq<string>)
    requires Plain(pieces) && Plain(acc)
    ensures NoMarker(Chunks(Concat(acc + pieces))) <==> NoRunHasMarker(Runs(pieces, acc))
    decreases |pieces|
  {
    if pieces == [] {
      assert acc + pieces == acc;
      NoRunConcat(acc, []);
      assert [acc] + [] == [acc];
    } else {
      var run, rest := acc + [pieces[0]], pieces[1..];
      assert acc + pieces == run + rest && [] + rest == rest;
      if Complete(run) {
        MarkersAreInRuns(rest, []);
        ConcatAppend(run, rest);
        ChunksAfterRun(run, Concat(rest));
        NoMarkerConcat(Chunks(Concat(run)), Chunks(Concat(rest)));
        NoRunConcat(run, Runs(rest, []));
      } else {
        MarkersAreInRuns(rest, run);
      }
    }
  }

  /** Every run is made of printed pieces, and a run of several begins with one that nothing closed. */
  ghost predicate IsJoin(run: seq<string>) {
    run != [] && Plain(run) && (|run| > 1 ==> !IsClosed(run[0]))
  }

  lemma {:induction false} RunsAreJoins(pieces: seq<string>, acc: seq<string>, i: nat)
    requires Plain(pieces) && Plain(acc) && (acc != [] ==> !IsClosed(acc[0]))
    requires i < |Runs(pieces, acc)|
    ensures IsJoin(Runs(pieces, acc)[i])
    decreases |pieces|
  {
    if pieces != [] {
      var run := acc + [pieces[0]];
      if !Complete(run) {
        RunsAreJoins(pieces[1..], run, i);
      } else if i > 0 {
        RunsAreJoins(pieces[1..], [], i - 1);
      }
    }
  }

  /** Where several pieces were joined, reading them together finds no marker. */
  ghost predicate NoJoinHasMarker(runs: seq<seq<string>>) {
    forall i :: 0 <= i < |runs| && |runs[i]| > 1 ==> RunHasNoMarker(runs[i])
  }

  lemma SingleRun(piece: string)
    requires IsChunk(piece) && !HasMarker(piece)
    ensures RunHasNoMarker([piece])
  {
    ChunkOfChunk(piece);
    assert Concat([piece]) == piece;
  }

  lemma OnlyJoinsMatter(pieces: seq<string>)
    requires Plain(pieces)
    ensures NoRunHasMarker(Runs(pieces, [])) <==> NoJoinHasMarker(Runs(pieces, []))
  {
    var runs := Runs(pieces, []);
    forall i | 0 <= i < |runs| && |runs[i]| <= 1
      ensures RunHasNoMarker(runs[i])
    {
      RunsAreJoins(pieces, [], i);
      SingleRun(runs[i][0]);
      assert runs[i] == [runs[i][0]];
    }
  }

  /** The printed pieces of a file, grouped as a second pass reads them. */
  ghost function PrintedRuns(s: string): seq<seq<string>> {
    Runs(Cut(Shown(START, Chunks(s))), [])
  }

  /**
   For any input at all, the second pass is idle exactly when no marker arises
   where printed pieces were joined.
   */
  lemma SecondPassIdleIff(s: string)
    ensures Filter(Filter(s)) == Filter(s) <==> NoJoinHasMarker(PrintedRuns(s))
  {
    var pieces := Cut(Shown(START, Chunks(s)));
    IdleIffNoMarker(s);
    KeptIsShownCut(START, Chunks(s));
    PiecesArePlain(s);
    MarkersAreInRuns(pieces, []);
    assert [] + pieces == pieces;
    OnlyJoinsMatter(pieces);
  }

  /** Pieces are joined only behind one that lost its end to a NUL: neither a newline nor a full buffer closes it. */
  lemma JoinsFollowCuts(s: string, i: nat)
    requires i < |PrintedRuns(s)| && |PrintedRuns(s)[i]| > 1
    ensures !IsClosed(PrintedRuns(s)[i][0])
  {
    PiecesArePlain(s);
    RunsAreJoins(Cut(Shown(START, Chunks(s))), [], i);
  }
}

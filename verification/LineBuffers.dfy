/**
 Lines of any length as the stripper reads them: each line is one or more
 fgets buffers, and the filter counts braces buffer by buffer.
 */
module LineBuffers {
  import opened Common
  import opened CheckerFilter
  import opened CheckerTheorems

  // ----- a text is read line by line

  /** A line of a text file; the last one may lack its newline. */
  ghost predicate IsLine(s: string) {
    && s != []
    && NUL !in s
    && forall i :: 0 <= i < |s| - 1 ==> s[i] != '\n'
  }

  predicate IsEnded(s: string) {
    s != [] && s[|s| - 1] == '\n'
  }

  ghost predicate AllEnded(lines: seq<string>) {
    forall i :: 0 <= i < |lines| ==> IsEnded(lines[i])
  }

  /** Lines that make up a text: every one but the last ends in a newline. */
  ghost predicate IsText(lines: seq<string>) {
    && (forall i :: 0 <= i < |lines| ==> IsLine(lines[i]))
    && (forall i :: 0 <= i < |lines| - 1 ==> IsEnded(lines[i]))
  }

  /** The buffers of the lines, one line after the other. */
  function Bufs(lines: seq<string>): seq<string> {
    if lines == [] then [] else Chunks(lines[0]) + Bufs(lines[1..])
  }

  lemma {:induction false} BufsConcat(a: seq<string>, b: seq<string>)
    ensures Bufs(a + b) == Bufs(a) + Bufs(b)
    decreases |a|
  {
    if a == [] {
      assert a + b == b;
    } else {
      BufsConcat(a[1..], b);
      assert (a + b)[1..] == a[1..] + b;
    }
  }

  lemma BufsOne(line: string)
    ensures Bufs([line]) == Chunks(line)
  {
    assert [line][1..] == [];
    assert Chunks(line) + [] == Chunks(line);
  }

  lemma TextTail(lines: seq<string>)
    requires IsText(lines) && lines != []
    ensures IsLine(lines[0]) && IsText(lines[1..])
    ensures lines[1..] != [] ==> IsEnded(lines[0])
  {
    var rest := lines[1..];
    assert forall i :: 0 <= i < |rest| ==> rest[i] == lines[i + 1];
  }

  /** Reading a text finds the buffers of its lines: no buffer spans two lines. */
  lemma {:induction false} ReadByLine(lines: seq<string>)
    requires IsText(lines)
    ensures Chunks(Concat(lines)) == Bufs(lines)
    decreases |lines|
  {
    if lines != [] {
      var line, rest := lines[0], lines[1..];
      TextTail(lines);
      ReadByLine(rest);
      if rest == [] {
        assert line + Concat(rest) == line;
        assert Chunks(line) + Bufs(rest) == Chunks(line);
      } else {
        ChunksAfterNewline(line, Concat(rest));
      }
    }
  }

  lemma LineHasBuffers(line: string)
    requires IsLine(line)
    ensures Chunks(line) != [] && NoNul(Chunks(line))
  {
    ChunksHaveNoNul(line);
  }

  lemma NoNulConcat(a: seq<string>, b: seq<string>)
    ensures NoNul(a + b) <==> NoNul(a) && NoNul(b)
  {
    var all := a + b;
    assert forall i :: 0 <= i < |a| ==> all[i] == a[i];
    assert forall i :: 0 <= i < |b| ==> all[|a| + i] == b[i];
  }

  lemma {:induction false} TextHasNoNul(lines: seq<string>)
    requires forall i :: 0 <= i < |lines| ==> IsLine(lines[i])
    ensures NoNul(Bufs(lines))
    decreases |lines|
  {
    if lines != [] {
      var rest := lines[1..];
      assert forall i :: 0 <= i < |rest| ==> rest[i] == lines[i + 1];
      TextHasNoNul(rest);
      LineHasBuffers(lines[0]);
      NoNulConcat(Chunks(lines[0]), Bufs(rest));
    }
  }

  // ----- braces in the buffers of a line

  ghost predicate Has(bufs: seq<string>, c: char) {
    exists i :: 0 <= i < |bufs| && c in bufs[i]
  }

  lemma HasTail(bufs: seq<string>, c: char)
    requires bufs != []
    ensures Has(bufs, c) <==> c in bufs[0] || Has(bufs[1..], c)
  {
    var rest := bufs[1..];
    assert forall i :: 0 <= i < |rest| ==> rest[i] == bufs[i + 1];
    if i :| 0 <= i < |bufs| && c in bufs[i] && i > 0 {
      assert c in rest[i - 1];
    }
    if i :| 0 <= i < |rest| && c in rest[i] {
      assert c in bufs[i + 1];
    }
  }

  lemma {:induction false} HasOfLine(line: string, c: char)
    ensures Has(Chunks(line), c) <==> c in line
    decreases |line|
  {
    if line != [] {
      var n := ChunkEnd(line, 0);
      HasOfLine(line[n..], c);
      HasTail(Chunks(line), c);
      assert line == line[..n] + line[n..];
    }
  }

  /** Each kind of brace is in one buffer at most, and `{` in none after the buffer with `}`. */
  ghost predicate Tidy(bufs: seq<string>) {
    forall i, j :: 0 <= i < j < |bufs| ==>
      && !('{' in bufs[i] && '{' in bufs[j])
      && !('}' in bufs[i] && ('{' in bufs[j] || '}' in bufs[j]))
  }

  lemma TidyTail(bufs: seq<string>)
    requires Tidy(bufs) && bufs != []
    ensures Tidy(bufs[1..])
    ensures '{' in bufs[0] ==> !Has(bufs[1..], '{')
    ensures '}' in bufs[0] ==> !Has(bufs[1..], '{') && !Has(bufs[1..], '}')
  {
    var rest := bufs[1..];
    assert forall i :: 0 <= i < |rest| ==> rest[i] == bufs[i + 1];
  }

  ghost function Opens(bufs: seq<string>): int {
    if Has(bufs, '{') then 1 else 0
  }

  ghost function Closes(bufs: seq<string>): int {
    if Has(bufs, '}') then 1 else 0
  }

  // ----- inside a checker

  /** From `st` the buffers are read without printing any, ending in `st'`. */
  ghost predicate Drops(st: State, bufs: seq<string>, st': State) {
    After(st, bufs) == st' && Kept(st, bufs) == []
  }

  lemma DropsConcat(st: State, a: seq<string>, st': State, b: seq<string>, st'': State)
    requires Drops(st, a, st') && Drops(st', b, st'')
    ensures Drops(st, a + b, st'')
  {
    FilterConcat(st, a, b);
  }

  lemma FilterOne(st: State, buf: string)
    requires NUL !in buf
    ensures After(st, [buf]) == Step(st, buf)
    ensures Kept(st, [buf]) == if Keeps(st, buf) then [buf] else []
  {
    CStringIsPrefix(buf);
    assert [buf][1..] == [];
  }

  lemma DropsOne(st: State, buf: string)
    requires NUL !in buf && !Keeps(st, buf)
    ensures Drops(st, [buf], Step(st, buf))
  {
    FilterOne(st, buf);
  }

  function Inside(depth: int): State {
    State(true, depth % UINT_MOD)
  }

  /** How each kind of buffer moves the counter inside a checker. */
  lemma StepInside(d: int, buf: string)
    ensures '{' !in buf && '}' !in buf ==> Step(Inside(d), buf) == Inside(d)
    ensures '{' in buf && '}' !in buf ==> Step(Inside(d), buf) == Inside(d + 1)
    ensures '{' !in buf && '}' in buf ==> Step(Inside(d), buf) == if (d - 1) % UINT_MOD == 0 then START else Inside(d - 1)
    ensures '{' in buf && '}' in buf ==> Step(Inside(d), buf) == if d % UINT_MOD == 0 then START else Inside(d)
  {
  }

  lemma DropsCons(st: State, bufs: seq<string>, st': State)
    requires bufs != [] && NUL !in bufs[0] && st.inChecker
    requires Drops(Step(st, bufs[0]), bufs[1..], st')
    ensures Drops(st, bufs, st')
  {
    DropsOne(st, bufs[0]);
    DropsConcat(st, [bufs[0]], Step(st, bufs[0]), bufs[1..], st');
    assert [bufs[0]] + bufs[1..] == bufs;
  }

  lemma NoNulTail(bufs: seq<string>)
    requires NoNul(bufs) && bufs != []
    ensures NUL !in bufs[0] && NoNul(bufs[1..])
  {
    var rest := bufs[1..];
    assert forall i :: 0 <= i < |rest| ==> rest[i] == bufs[i + 1];
  }

  /** A tidy line that does not end the checker moves the counter by its braces, whatever buffers they are in. */
  lemma {:induction false} TidyDrops(bufs: seq<string>, d: int)
    requires NoNul(bufs) && Tidy(bufs)
    requires Has(bufs, '}') ==> (d + Opens(bufs) - 1) % UINT_MOD != 0
    ensures Drops(Inside(d), bufs, Inside(d + Opens(bufs) - Closes(bufs)))
    decreases |bufs|
  {
    if bufs != [] {
      var buf, rest := bufs[0], bufs[1..];
      NoNulTail(bufs);
      TidyTail(bufs);
      HasTail(bufs, '{');
      HasTail(bufs, '}');
      StepInside(d, buf);
      var d' := d + (if '{' in buf then 1 else 0) - (if '}' in buf then 1 else 0);
      assert Step(Inside(d), buf) == Inside(d');
      TidyDrops(rest, d');
      DropsCons(Inside(d), bufs, Inside(d + Opens(bufs) - Closes(bufs)));
    }
  }

  /** A tidy line that ends the checker does so at the buffer with the closing brace. */
  lemma {:induction false} TidyEnds(bufs: seq<string>, d: int) returns (k: nat)
    requires NoNul(bufs) && Tidy(bufs)
    requires Has(bufs, '}') && (d + Opens(bufs) - 1) % UINT_MOD == 0
    ensures k < |bufs| && '}' in bufs[k]
    ensures Drops(Inside(d), bufs[..k + 1], START)
    decreases |bufs|
  {
    var buf, rest := bufs[0], bufs[1..];
    NoNulTail(bufs);
    TidyTail(bufs);
    HasTail(bufs, '{');
    HasTail(bufs, '}');
    StepInside(d, buf);
    if '}' in buf {
      k := 0;
      DropsOne(Inside(d), buf);
      assert bufs[..1] == [buf];
    } else {
      var d' := d + if '{' in buf then 1 else 0;
      var k' := TidyEnds(rest, d');
      k := k' + 1;
      var front := bufs[..k + 1];
      assert front[0] == buf && front[1..] == rest[..k' + 1];
      DropsCons(Inside(d), front, START);
    }
  }

  /** A marker in the first buffer starts a checker: from there on it is as inside one at depth 0. */
  lemma CaughtAtOnce(bufs: seq<string>)
    requires bufs != [] && NUL !in bufs[0] && HasMarker(bufs[0])
    ensures After(START, bufs) == After(Inside(0), bufs) && Kept(START, bufs) == Kept(Inside(0), bufs)
  {
    CStringIsPrefix(bufs[0]);
    assert Step(START, bufs[0]) == Step(Inside(0), bufs[0]);
  }

  lemma CaughtDrops(bufs: seq<string>, st': State)
    requires bufs != [] && NUL !in bufs[0] && HasMarker(bufs[0]) && Drops(Inside(0), bufs, st')
    ensures Drops(START, bufs, st')
  {
    CaughtAtOnce(bufs);
  }
}

/**
 Stripping TCP_CHECK and HTTP_GET blocks from a keepalived configuration: a
 read loop over fgets buffers with a flag and a wrapping brace counter.
 */
module CheckerFilter {
  import opened Common

  /** The most characters one fgets call stores in a 256-byte buffer. */
  const LINE_MAX := 255

  // ----- reading

  /** How far fgets reads: up to and including a newline, at most LINE_MAX characters. */
  function ChunkEnd(s: string, i: nat): (n: nat)
    requires i <= |s| && i <= LINE_MAX
    ensures i <= n <= |s| && n <= LINE_MAX
    ensures i < |s| && i < LINE_MAX ==> n > i
    decreases |s| - i
  {
    if i == |s| || i == LINE_MAX then i
    else if s[i] == '\n' then i + 1
    else ChunkEnd(s, i + 1)
  }

  /** The buffers successive fgets calls return. */
  function Chunks(s: string): seq<string>
    decreases |s|
  {
    if s == [] then [] else [s[..ChunkEnd(s, 0)]] + Chunks(s[ChunkEnd(s, 0)..])
  }

  ghost predicate Contains(s: string, pat: string) {
    exists i :: 0 <= i <= |s| - |pat| && MatchesAt(s, pat, i)
  }

  predicate MatchesAt(s: string, pat: string, i: nat) {
    i + |pat| <= |s| && s[i..i + |pat|] == pat
  }

  /** strstr */
  method Search(s: string, pat: string) returns (found: bool)
    ensures found <==> Contains(s, pat)
  {
    var i := 0;
    while i + |pat| <= |s|
      invariant forall k :: 0 <= k < i ==> !MatchesAt(s, pat, k)
    {
      if MatchesAt(s, pat, i) {
        return true;
      }
      i := i + 1;
    }
    return false;
  }

  ghost predicate HasMarker(s: string) {
    Contains(s, "TCP_CHECK") || Contains(s, "HTTP_GET")
  }

  // ----- filtering

  datatype State = State(inChecker: bool, depth: UInt)

  const START := State(false, 0)

  ghost predicate Keeps(st: State, buf: string) {
    !st.inChecker && !HasMarker(buf)
  }

  ghost function Step(st: State, buf: string): State {
    if Keeps(st, buf) then st
    else
      var up := if '{' in buf then (st.depth + 1) % UINT_MOD else st.depth;
      if '}' in buf then
        var down := (up - 1) % UINT_MOD;
        State(down != 0, down)
      else
        State(true, up)
  }

  ghost function After(st: State, lines: seq<string>): State
    decreases |lines|
  {
    if lines == [] then st else After(Step(st, CString(lines[0])), lines[1..])
  }

  /** The lines printed. */
  ghost function Kept(st: State, lines: seq<string>): seq<string>
    decreases |lines|
  {
    if lines == [] then []
    else
      var buf := CString(lines[0]);
      (if Keeps(st, buf) then [buf] else []) + Kept(Step(st, buf), lines[1..])
  }

  function Concat(lines: seq<string>): string {
    if lines == [] then [] else lines[0] + Concat(lines[1..])
  }

  ghost function Filter(input: string): string {
    Concat(Kept(START, Chunks(input)))
  }

  /** The loop body, for the buffer one fgets call returned; `keep` says whether it is printed. */
  method HandleLine(st: State, buf: string) returns (next: State, keep: bool)
    ensures next == Step(st, buf) && keep == Keeps(st, buf)
  {
    var inChecker, depth := st.inChecker, st.depth;
    if !inChecker {
      var tcp := Search(buf, "TCP_CHECK");
      var http := Search(buf, "HTTP_GET");
      inChecker := tcp || http;
    }
    keep := !inChecker;
    if inChecker {
      if '{' in buf {
        depth := (depth + 1) % UINT_MOD;
      }
      if '}' in buf {
        depth := (depth - 1) % UINT_MOD;
        if depth == 0 {
          inChecker := false;
        }
      }
    }
    next := State(inChecker, depth);
  }

  lemma FilterChunk(st: State, rest: string)
    requires rest != []
    ensures var n := ChunkEnd(rest, 0);
            var buf := CString(rest[..n]);
            && After(st, Chunks(rest)) == After(Step(st, buf), Chunks(rest[n..]))
            && Concat(Kept(st, Chunks(rest)))
               == (if Keeps(st, buf) then buf else []) + Concat(Kept(Step(st, buf), Chunks(rest[n..])))
  {
    var n := ChunkEnd(rest, 0);
    var buf := CString(rest[..n]);
    assert Chunks(rest)[1..] == Chunks(rest[n..]);
    var more := Kept(Step(st, buf), Chunks(rest[n..]));
    assert ([buf] + more)[1..] == more;
    assert [] + more == more;
  }

  /** Printing `output` so far and continuing from `st` on the rest gives the whole result. */
  ghost predicate Progress(input: string, output: string, st: State, rest: string) {
    && Filter(input) == output + Concat(Kept(st, Chunks(rest)))
    && After(START, Chunks(input)) == After(st, Chunks(rest))
  }

  lemma ProgressStarts(input: string)
    ensures Progress(input, [], START, input)
  {
    assert [] + Filter(input) == Filter(input);
  }

  lemma ProgressStep(input: string, output: string, st: State, rest: string)
    requires Progress(input, output, st, rest) && rest != []
    ensures var n := ChunkEnd(rest, 0);
            var buf := CString(rest[..n]);
            Progress(input, output + (if Keeps(st, buf) then buf else []), Step(st, buf), rest[n..])
  {
    FilterChunk(st, rest);
    var n := ChunkEnd(rest, 0);
    var buf := CString(rest[..n]);
    Assoc(output, if Keeps(st, buf) then buf else [], Concat(Kept(Step(st, buf), Chunks(rest[n..]))));
  }

  lemma ProgressEnds(input: string, output: string, st: State)
    requires Progress(input, output, st, [])
    ensures output == Filter(input) && st == After(START, Chunks(input))
  {
  }

  /** The read loop. */
  method RemoveCheckers(input: string) returns (output: string, st: State)
    ensures output == Filter(input)
    ensures st == After(START, Chunks(input))
  {
    st, output := START, [];
    var rest := input;
    ProgressStarts(input);
    while rest != []
      invariant Progress(input, output, st, rest)
      decreases |rest|
    {
      ProgressStep(input, output, st, rest);
      var n := ChunkEnd(rest, 0);
      var buf := CString(rest[..n]);
      var keep;
      st, keep := HandleLine(st, buf);
      output := output + if keep then buf else [];
      rest := rest[n..];
    }
    ProgressEnds(input, output, st);
  }

  lemma {:induction false} FilterConcat(st: State, a: seq<string>, b: seq<string>)
    ensures After(st, a + b) == After(After(st, a), b)
    ensures Kept(st, a + b) == Kept(st, a) + Kept(After(st, a), b)
    decreases |a|
  {
    if a == [] {
      assert a + b == b;
    } else {
      assert (a + b)[1..] == a[1..] + b;
      FilterConcat(Step(st, CString(a[0])), a[1..], b);
    }
  }
}

/**
 `execvpe`: trying a program name in each directory of PATH. Running a
 candidate, with its fallback to the shell, is an oracle.
 */
module PathSearch {
  import opened Common

  // limits of the platform
  const PATH_MAX := 4096
  const NAME_MAX := 255

  datatype Errno = EACCES | ENOENT | ESTALE | ENOTDIR | ENODEV | ETIMEDOUT | ENAMETOOLONG | OTHER(code: int)

  datatype Attempt = Runs | Fails(errno: Errno)

  datatype Outcome = Launched | Failed(errno: Errno)

  /** Errors after which the next directory is tried. */
  predicate IsSoft(e: Errno) {
    e.EACCES? || e.ENOENT? || e.ESTALE? || e.ENOTDIR? || e.ENODEV? || e.ETIMEDOUT?
  }

  predicate IsSoftAttempt(a: Attempt) {
    a.Fails? && IsSoft(a.errno)
  }

  // ----- the entries of PATH

  function NextColon(path: seq<char>, i: nat): (e: nat)
    requires i <= |path|
    ensures i <= e <= |path|
    decreases |path| - i
  {
    if i == |path| || path[i] == ':' then i else NextColon(path, i + 1)
  }

  /** The colon-separated entries from offset i on; an empty string has one empty entry. */
  function Entries(path: seq<char>, i: nat): seq<seq<char>>
    requires i <= |path|
    decreases |path| - i
  {
    var e := NextColon(path, i);
    [path[i..e]] + if e == |path| then [] else Entries(path, e + 1)
  }

  /** The file as looked for in one entry; an empty entry means the current directory. */
  function Candidate(entry: seq<char>, file: seq<char>): seq<char> {
    if entry == [] then file else entry + ['/'] + file
  }

  /** What the search is documented to try: every entry, in order. */
  function Documented(entries: seq<seq<char>>, file: seq<char>): seq<seq<char>>
    decreases |entries|
  {
    if entries == [] then [] else [Candidate(entries[0], file)] + Documented(entries[1..], file)
  }

  /**
   What it does try. An entry of `limit` bytes or more does not fit the buffer:
   the last one is dropped, any other is replaced by the current directory.
   */
  function Tried(entries: seq<seq<char>>, file: seq<char>, limit: nat): seq<seq<char>>
    decreases |entries|
  {
    if entries == [] then []
    else if |entries[0]| < limit then [Candidate(entries[0], file)] + Tried(entries[1..], file, limit)
    else if |entries| == 1 then []
    else [file] + Tried(entries[1..], file, limit)
  }

  /** strnlen(path, PATH_MAX - 1) + 1 */
  function Limit(path: seq<char>): nat {
    1 + if |path| < PATH_MAX - 1 then |path| else PATH_MAX - 1
  }

  ghost predicate AllFit(entries: seq<seq<char>>, limit: nat) {
    forall i :: 0 <= i < |entries| ==> |entries[i]| < limit
  }

  /** The search tries exactly what is documented if and only if every entry fits the limit. */
  lemma {:induction false} TriedAsDocumentedIff(entries: seq<seq<char>>, file: seq<char>, limit: nat)
    requires file != [] && limit > 0
    ensures Tried(entries, file, limit) == Documented(entries, file) <==> AllFit(entries, limit)
    decreases |entries|
  {
    if entries != [] {
      var first, rest := entries[0], entries[1..];
      TriedAsDocumentedIff(rest, file, limit);
      assert AllFit(entries, limit) <==> |first| < limit && AllFit(rest, limit) by {
        assert forall i :: 0 <= i < |rest| ==> rest[i] == entries[i + 1];
        if |first| < limit && AllFit(rest, limit) {
          forall i | 0 <= i < |entries|
            ensures |entries[i]| < limit
          {
            if i > 0 {
              assert entries[i] == rest[i - 1];
            }
          }
        }
      }
      var tried, doc := Tried(rest, file, limit), Documented(rest, file);
      if |first| < limit {
        assert ([Candidate(first, file)] + tried)[1..] == tried;
        assert ([Candidate(first, file)] + doc)[1..] == doc;
      } else if |entries| > 1 {
        assert |Candidate(first, file)| > |file|;
        assert Tried(entries, file, limit)[0] == file;
      }
    }
  }

  lemma {:induction false} EntriesShort(path: seq<char>, i: nat)
    requires i <= |path|
    ensures AllFit(Entries(path, i), |path| - i + 1)
    decreases |path| - i
  {
    var e := NextColon(path, i);
    if e < |path| {
      EntriesShort(path, e + 1);
    }
  }

  /** For a PATH shorter than PATH_MAX every entry fits, so the documented search is the actual one. */
  lemma ShortPathAsDocumented(path: seq<char>, file: seq<char>)
    requires file != [] && |path| <= 4095
    ensures Tried(Entries(path, 0), file, Limit(path)) == Documented(Entries(path, 0), file)
  {
    EntriesShort(path, 0);
    TriedAsDocumentedIff(Entries(path, 0), file, Limit(path));
  }

  lemma {:induction false} FirstColon(entry: seq<char>, rest: seq<char>, i: nat)
    requires ':' !in entry && i <= |entry|
    ensures NextColon(entry + [':'] + rest, i) == |entry|
    decreases |entry| - i
  {
    if i < |entry| {
      FirstColon(entry, rest, i + 1);
    }
  }

  /** An entry of PATH_MAX bytes or more before a colon: the bare file is tried where the entry should be. */
  lemma OverlongEntry(entry: seq<char>, rest: seq<char>, file: seq<char>)
    requires ':' !in entry && |entry| >= 4096 && file != []
    ensures var path := entry + [':'] + rest;
            && Tried(Entries(path, 0), file, Limit(path)) == [file] + Tried(Entries(path, |entry| + 1), file, Limit(path))
            && Documented(Entries(path, 0), file)
               == [entry + ['/'] + file] + Documented(Entries(path, |entry| + 1), file)
            && file != entry + ['/'] + file
  {
    var path := entry + [':'] + rest;
    FirstColon(entry, rest, 0);
    assert path[0..|entry|] == entry;
    var more := Entries(path, |entry| + 1);
    assert Entries(path, 0)[1..] == more;
    assert |file| < |entry + ['/'] + file|;
  }

  /** A PATH of one 4096-byte entry and /bin: the current directory is tried first. */
  lemma OverlongPathTriesCurrentDirectory(file: seq<char>)
    requires file != []
    ensures var entry := seq(4096, _ => 'd');
            var path := entry + [':'] + "/bin";
            Tried(Entries(path, 0), file, Limit(path)) == [file, "/bin/" + file]
  {
    var entry := seq(4096, _ => 'd');
    var path := entry + [':'] + "/bin";
    OverlongEntry(entry, "/bin", file);
    LastEntry(path, 4096 + 1);
    assert path[4096 + 1..] == "/bin";
    assert Candidate("/bin", file) == "/bin/" + file;
  }

  lemma LastEntry(path: seq<char>, i: nat)
    requires i <= |path| && forall k :: i <= k < |path| ==> path[k] != ':'
    ensures Entries(path, i) == [path[i..]]
  {
    NoColon(path, i);
    assert path[i..|path|] == path[i..];
  }

  lemma {:induction false} NoColon(path: seq<char>, i: nat)
    requires i <= |path| && forall k :: i <= k < |path| ==> path[k] != ':'
    ensures NextColon(path, i) == |path|
    decreases |path| - i
  {
    if i < |path| {
      NoColon(path, i + 1);
    }
  }

  // ----- the search

  function Result(a: Attempt): Outcome {
    match a
    case Runs => Launched
    case Fails(e) => Failed(e)
  }

  /** How a search over `cands` ended after trying the first n of them. */
  ghost predicate Ended(exec: (nat, seq<char>) -> Attempt, cands: seq<seq<char>>, n: nat, errno: Errno, r: Outcome) {
    && n <= |cands|
    && (forall i :: 0 <= i < n - 1 ==> SoftAt(exec, cands, i))
    && (if n > 0 && !SoftAt(exec, cands, n - 1)
        then r == Result(exec(n - 1, cands[n - 1]))
        else n == |cands| && r == Failed(
               if Denied(exec, cands, n) then EACCES
               else LastErrno(exec, cands, n, errno)))
  }

  ghost predicate SoftAt(exec: (nat, seq<char>) -> Attempt, cands: seq<seq<char>>, i: nat)
    requires i < |cands|
  {
    IsSoftAttempt(exec(i, cands[i]))
  }

  ghost predicate DeniedAt(exec: (nat, seq<char>) -> Attempt, cands: seq<seq<char>>, i: nat)
    requires i < |cands|
  {
    exec(i, cands[i]) == Fails(EACCES)
  }

  /** One of the first n candidates was refused for lack of permission. */
  ghost predicate Denied(exec: (nat, seq<char>) -> Attempt, cands: seq<seq<char>>, n: nat)
    requires n <= |cands|
  {
    exists i :: 0 <= i < n && DeniedAt(exec, cands, i)
  }

  ghost function LastErrno(exec: (nat, seq<char>) -> Attempt, cands: seq<seq<char>>, n: nat, errno: Errno): Errno
    requires n <= |cands|
  {
    if n == 0 then errno
    else match exec(n - 1, cands[n - 1]) { case Runs => errno case Fails(e) => e }
  }

  // ----- one candidate in the buffer

  /** mempcpy, the slash and memcpy: the buffer then holds the candidate and its terminator. */
  method Compose(buffer: array<char>, entry: seq<char>, file: seq<char>) returns (candidate: seq<char>)
    requires |entry| + 1 + |file| + 1 <= buffer.Length
    modifies buffer
    ensures candidate == Candidate(entry, file)
    ensures buffer[..|candidate| + 1] == candidate + [NUL]
  {
    var i := 0;
    while i < |entry|
      invariant 0 <= i <= |entry|
      invariant buffer[..i] == entry[..i]
    {
      buffer[i] := entry[i];
      i := i + 1;
    }
    buffer[i] := '/';
    var at := if entry != [] then |entry| + 1 else |entry|;
    ghost var front := if entry != [] then entry + ['/'] else [];
    assert buffer[..at] == front;
    var j := 0;
    while j < |file|
      invariant 0 <= j <= |file|
      invariant buffer[..at + j] == front + file[..j]
    {
      buffer[at + j] := file[j];
      j := j + 1;
    }
    buffer[at + j] := NUL;
    assert buffer[..at + |file| + 1] == front + file + [NUL];
    candidate := buffer[..at + |file|];
  }

  lemma {:induction false} TriedCons(first: seq<char>, rest: seq<seq<char>>, file: seq<char>, limit: nat)
    ensures Tried([first] + rest, file, limit)
         == if |first| < limit then [Candidate(first, file)] + Tried(rest, file, limit)
            else if rest == [] then []
            else [file] + Tried(rest, file, limit)
  {
    assert ([first] + rest)[1..] == rest;
  }

  /** The entries after the one at offset i. */
  function After(path: seq<char>, i: nat): seq<seq<char>>
    requires i <= |path|
  {
    var e := NextColon(path, i);
    if e == |path| then [] else Entries(path, e + 1)
  }

  lemma {:induction false} EntriesAt(path: seq<char>, i: nat)
    requires i <= |path|
    ensures Entries(path, i) == [path[i..NextColon(path, i)]] + After(path, i)
  {
  }

  /** Standing on a colon is like standing on an empty entry. */
  lemma {:induction false} EntriesAtColon(path: seq<char>, i: nat)
    requires i <= |path| && NextColon(path, i) < |path|
    ensures Entries(path, NextColon(path, i)) == [[]] + After(path, i)
    ensures After(path, i) != []
  {
    var e := NextColon(path, i);
    ColonThere(path, i);
    EntriesAt(path, e);
    assert NextColon(path, e) == e && path[e..e] == [];
  }

  lemma {:induction false} ColonThere(path: seq<char>, i: nat)
    requires i <= |path|
    ensures NextColon(path, i) < |path| ==> path[NextColon(path, i)] == ':'
    decreases |path| - i
  {
    if i < |path| && path[i] != ':' {
      ColonThere(path, i + 1);
    }
  }

  /** Everything tried so far failed softly. */
  ghost predicate SoftSoFar(exec: (nat, seq<char>) -> Attempt, tried: seq<seq<char>>, errno: Errno, last: Errno, gotEacces: bool) {
    && (forall i :: 0 <= i < |tried| ==> SoftAt(exec, tried, i))
    && (gotEacces <==> Denied(exec, tried, |tried|))
    && last == LastErrno(exec, tried, |tried|, errno)
  }

  lemma SamePrefix(exec: (nat, seq<char>) -> Attempt, tried: seq<seq<char>>, cands: seq<seq<char>>, i: nat)
    requires tried <= cands && i < |tried|
    ensures SoftAt(exec, cands, i) <==> SoftAt(exec, tried, i)
    ensures DeniedAt(exec, cands, i) <==> DeniedAt(exec, tried, i)
  {
  }

  lemma DeniedNext(exec: (nat, seq<char>) -> Attempt, tried: seq<seq<char>>, c: seq<char>)
    ensures Denied(exec, tried + [c], |tried| + 1) <==> Denied(exec, tried, |tried|) || exec(|tried|, c) == Fails(EACCES)
  {
    var more := tried + [c];
    forall i | 0 <= i < |tried|
      ensures DeniedAt(exec, more, i) <==> DeniedAt(exec, tried, i)
    {
      SamePrefix(exec, tried, more, i);
    }
    assert DeniedAt(exec, more, |tried|) <==> exec(|tried|, c) == Fails(EACCES);
    if i :| 0 <= i < |tried| && DeniedAt(exec, tried, i) {
      assert DeniedAt(exec, more, i);
    }
  }

  lemma SoftNext(exec: (nat, seq<char>) -> Attempt, tried: seq<seq<char>>, errno: Errno, last: Errno, gotEacces: bool, c: seq<char>)
    requires SoftSoFar(exec, tried, errno, last, gotEacces)
    requires IsSoftAttempt(exec(|tried|, c))
    ensures var e := exec(|tried|, c).errno;
            SoftSoFar(exec, tried + [c], errno, e, gotEacces || e == EACCES)
  {
    var more := tried + [c];
    DeniedNext(exec, tried, c);
    forall i | 0 <= i < |more|
      ensures SoftAt(exec, more, i)
    {
      if i < |tried| {
        SamePrefix(exec, tried, more, i);
      }
    }
  }

  lemma EndedHard(exec: (nat, seq<char>) -> Attempt, tried: seq<seq<char>>, c: seq<char>, cands: seq<seq<char>>,
                  errno: Errno, last: Errno, gotEacces: bool)
    requires SoftSoFar(exec, tried, errno, last, gotEacces)
    requires tried + [c] <= cands
    requires !IsSoftAttempt(exec(|tried|, c))
    ensures Ended(exec, cands, |tried| + 1, errno, Result(exec(|tried|, c)))
  {
    assert cands[|tried|] == c;
    forall i | 0 <= i < |tried|
      ensures SoftAt(exec, cands, i)
    {
      assert tried <= cands;
      SamePrefix(exec, tried, cands, i);
    }
  }

  lemma EndedSoft(exec: (nat, seq<char>) -> Attempt, cands: seq<seq<char>>, errno: Errno, last: Errno, gotEacces: bool)
    requires SoftSoFar(exec, cands, errno, last, gotEacces)
    ensures Ended(exec, cands, |cands|, errno, Failed(if gotEacces then EACCES else last))
  {
  }

  /** One turn of the loop: what was tried and what remains still make up the whole list. */
  ghost predicate Remaining(path: seq<char>, p: nat, file: seq<char>, limit: nat, tried: seq<seq<char>>, cands: seq<seq<char>>) {
    p <= |path| && cands == tried + Tried(Entries(path, p), file, limit)
  }

  lemma {:induction false} DropLast(path: seq<char>, p: nat, file: seq<char>, limit: nat, tried: seq<seq<char>>, cands: seq<seq<char>>)
    requires Remaining(path, p, file, limit, tried, cands)
    requires NextColon(path, p) == |path| && |path| - p >= limit
    ensures cands == tried
  {
    EntriesAt(path, p);
    TriedCons(path[p..], [], file, limit);
    assert path[p..|path|] == path[p..];
  }

  lemma {:induction false} SkipEntry(path: seq<char>, p: nat, file: seq<char>, limit: nat, tried: seq<seq<char>>, cands: seq<seq<char>>)
    requires Remaining(path, p, file, limit, tried, cands) && limit > 0
    requires NextColon(path, p) < |path| && NextColon(path, p) - p >= limit
    ensures Remaining(path, NextColon(path, p), file, limit, tried, cands)
  {
    EntriesAt(path, p);
    EntriesAtColon(path, p);
    TriedCons(path[p..NextColon(path, p)], After(path, p), file, limit);
    TriedCons([], After(path, p), file, limit);
  }

  lemma TakeFirst(tried: seq<seq<char>>, first: seq<char>, rest: seq<seq<char>>)
    ensures tried + ([first] + rest) == (tried + [first]) + rest
    ensures tried + [first] <= tried + ([first] + rest)
    ensures rest == [] ==> tried + ([first] + rest) == tried + [first]
  {
  }

  lemma TriedAt(path: seq<char>, p: nat, file: seq<char>, limit: nat)
    requires p <= |path| && NextColon(path, p) - p < limit
    ensures Tried(Entries(path, p), file, limit)
         == [Candidate(path[p..NextColon(path, p)], file)] + Tried(After(path, p), file, limit)
  {
    EntriesAt(path, p);
    TriedCons(path[p..NextColon(path, p)], After(path, p), file, limit);
  }

  lemma {:induction false} TakeEntry(path: seq<char>, p: nat, file: seq<char>, limit: nat, tried: seq<seq<char>>, cands: seq<seq<char>>)
    requires Remaining(path, p, file, limit, tried, cands)
    requires NextColon(path, p) - p < limit
    ensures var e := NextColon(path, p);
            var more := tried + [Candidate(path[p..e], file)];
            && more <= cands
            && (e == |path| ==> cands == more)
            && (e < |path| ==> Remaining(path, e + 1, file, limit, more, cands))
  {
    var first, rest := Candidate(path[p..NextColon(path, p)], file), Tried(After(path, p), file, limit);
    TriedAt(path, p, file, limit);
    TakeFirst(tried, first, rest);
    assert cands == (tried + [first]) + rest;
  }

  /** Where the loop stands: what failed softly, and what remains from offset p on. */
  ghost predicate Looping(path: seq<char>, p: nat, file: seq<char>, limit: nat, exec: (nat, seq<char>) -> Attempt, errno: Errno,
                          cands: seq<seq<char>>, soft: seq<seq<char>>, last: Errno, gotEacces: bool) {
    Remaining(path, p, file, limit, soft, cands) && SoftSoFar(exec, soft, errno, last, gotEacces)
  }

  /** How the loop may end. */
  ghost predicate LoopEnded(exec: (nat, seq<char>) -> Attempt, errno: Errno, cands: seq<seq<char>>,
                            soft: seq<seq<char>>, hard: seq<seq<char>>, last: Errno, gotEacces: bool) {
    && SoftSoFar(exec, soft, errno, last, gotEacces)
    && soft + hard <= cands && |hard| <= 1
    && (hard == [] ==> cands == soft)
    && (hard != [] ==> !IsSoftAttempt(exec(|soft|, hard[0])))
  }

  lemma EndNone(exec: (nat, seq<char>) -> Attempt, errno: Errno, cands: seq<seq<char>>, last: Errno, gotEacces: bool)
    requires SoftSoFar(exec, cands, errno, last, gotEacces)
    ensures LoopEnded(exec, errno, cands, cands, [], last, gotEacces)
  {
    assert cands + [] == cands;
  }

  lemma EndHard(exec: (nat, seq<char>) -> Attempt, errno: Errno, cands: seq<seq<char>>,
                soft: seq<seq<char>>, c: seq<char>, last: Errno, gotEacces: bool)
    requires SoftSoFar(exec, soft, errno, last, gotEacces) && soft + [c] <= cands && !IsSoftAttempt(exec(|soft|, c))
    ensures LoopEnded(exec, errno, cands, soft, [c], last, gotEacces)
  {
  }

  /** One directory: the candidate is composed in the buffer and run. */
  method Try(buffer: array<char>, entry: seq<char>, file: seq<char>, exec: (nat, seq<char>) -> Attempt, n: nat)
    returns (candidate: seq<char>, attempt: Attempt)
    requires |entry| + 1 + |file| + 1 <= buffer.Length
    modifies buffer
    ensures candidate == Candidate(entry, file) && attempt == exec(n, candidate)
  {
    candidate := Compose(buffer, entry, file);
    attempt := exec(n, candidate);
  }

  /**
   The loop over PATH: `soft` holds the candidates that failed softly, `hard` the
   one that ended the search, if any. The buffer holds every candidate tried.
   */
  method Loop(file: seq<char>, path: seq<char>, limit: nat, exec: (nat, seq<char>) -> Attempt, errno: Errno, ghost cands: seq<seq<char>>)
    returns (soft: seq<seq<char>>, hard: seq<seq<char>>, last: Errno, gotEacces: bool)
    requires limit > 0 && Remaining(path, 0, file, limit, [], cands)
    ensures LoopEnded(exec, errno, cands, soft, hard, last, gotEacces)
  {
    var buffer := new char[limit + |file| + 1];
    var p := 0;
    soft, hard, last, gotEacces := [], [], errno, false;
    while true
      invariant hard == [] && p <= |path| && Looping(path, p, file, limit, exec, errno, cands, soft, last, gotEacces)
      decreases |path| - p
    {
      var subp := NextColon(path, p);
      if subp - p >= limit {
        if subp == |path| {
          DropLast(path, p, file, limit, soft, cands);
          EndNone(exec, errno, cands, last, gotEacces);
          return;
        }
        SkipEntry(path, p, file, limit, soft, cands);
        p := subp;
      } else {
        TakeEntry(path, p, file, limit, soft, cands);
        var candidate, attempt := Try(buffer, path[p..subp], file, exec, |soft|);
        if !IsSoftAttempt(attempt) {
          EndHard(exec, errno, cands, soft, candidate, last, gotEacces);
          hard := [candidate];
          return;
        }
        SoftNext(exec, soft, errno, last, gotEacces, candidate);
        last := attempt.errno;
        gotEacces := gotEacces || last == EACCES;
        soft := soft + [candidate];
        if subp == |path| {
          EndNone(exec, errno, cands, last, gotEacces);
          return;
        }
        p := subp + 1;
      }
    }
  }

  /** The loop, then the error to report: EACCES if any candidate was denied, else the last one. */
  method Conclude(file: seq<char>, path: seq<char>, limit: nat, exec: (nat, seq<char>) -> Attempt, errno: Errno, ghost cands: seq<seq<char>>)
    returns (r: Outcome, tried: seq<seq<char>>)
    requires limit > 0 && Remaining(path, 0, file, limit, [], cands)
    ensures tried <= cands && Ended(exec, cands, |tried|, errno, r)
  {
    var soft, hard, last, gotEacces := Loop(file, path, limit, exec, errno, cands);
    tried := soft + hard;
    if hard == [] {
      EndedSoft(exec, cands, errno, last, gotEacces);
      r := Failed(if gotEacces then EACCES else last);
    } else {
      assert hard == [hard[0]];
      EndedHard(exec, soft, hard[0], cands, errno, last, gotEacces);
      r := Result(exec(|soft|, hard[0]));
    }
  }

  /** The search over the entries of PATH. */
  method SearchPath(file: seq<char>, path: seq<char>, exec: (nat, seq<char>) -> Attempt, errno: Errno)
    returns (r: Outcome, tried: seq<seq<char>>)
    ensures var cands := Tried(Entries(path, 0), file, Limit(path));
            tried <= cands && Ended(exec, cands, |tried|, errno, r)
  {
    ghost var cands := Tried(Entries(path, 0), file, Limit(path));
    assert [] + cands == cands;
    r, tried := Conclude(file, path, Limit(path), exec, errno, cands);
  }

  /** The whole call; `canAlloca` tells whether the stack has room for the buffer. */
  method Execvpe(file: seq<char>, path: seq<char>, exec: (nat, seq<char>) -> Attempt, canAlloca: bool, errno: Errno)
    returns (r: Outcome, tried: seq<seq<char>>)
    ensures file == [] ==> r == Failed(ENOENT) && tried == []
    ensures file != [] && '/' in file ==>
              tried == [file] && r == Result(exec(0, file))
    ensures file != [] && '/' !in file && (|file| > 255 || !canAlloca) ==> r == Failed(ENAMETOOLONG) && tried == []
    ensures file != [] && '/' !in file && |file| <= 255 && canAlloca ==>
              var cands := Tried(Entries(path, 0), file, Limit(path));
              tried <= cands && Ended(exec, cands, |tried|, errno, r)
  {
    if file == [] {
      return Failed(ENOENT), [];
    }
    if '/' in file {
      return Result(exec(0, file)), [file];
    }
    if |file| > NAME_MAX || !canAlloca {
      return Failed(ENAMETOOLONG), [];
    }
    r, tried := SearchPath(file, path, exec, errno);
  }
}

/** The search over PATH by the errors it meets: which let it go on, and what it reports. */
module PathOutcomes {
  import opened Common
  import opened PathSearch

  // ----- one error at a time

  /** The candidate at i failed with one of the six errors after which the next directory is tried. */
  ghost predicate PassedOver(exec: (nat, seq<char>) -> Attempt, cands: seq<seq<char>>, i: nat)
    requires i < |cands|
  {
    exec(i, cands[i]) in {Fails(EACCES), Fails(ENOENT), Fails(ESTALE), Fails(ENOTDIR), Fails(ENODEV), Fails(ETIMEDOUT)}
  }

  lemma SoftIsPassedOver(exec: (nat, seq<char>) -> Attempt, cands: seq<seq<char>>, i: nat)
    requires i < |cands|
    ensures SoftAt(exec, cands, i) <==> PassedOver(exec, cands, i)
  {
  }

  ghost predicate AllPassedOver(exec: (nat, seq<char>) -> Attempt, cands: seq<seq<char>>, n: nat)
    requires n <= |cands|
  {
    forall i :: 0 <= i < n ==> PassedOver(exec, cands, i)
  }

  // ----- what a search ends with

  /** The candidate at k is the first that is not passed over: the search ends there. */
  lemma EndsAtFirst(exec: (nat, seq<char>) -> Attempt, cands: seq<seq<char>>, n: nat, errno: Errno, r: Outcome, k: nat)
    requires Ended(exec, cands, n, errno, r)
    requires k < |cands| && AllPassedOver(exec, cands, k) && !PassedOver(exec, cands, k)
    ensures n == k + 1
    ensures r == match exec(k, cands[k]) { case Runs => Launched case Fails(e) => Failed(e) }
  {
    SoftIsPassedOver(exec, cands, k);
    if n < k + 1 {
      forall i | 0 <= i < n
        ensures SoftAt(exec, cands, i)
      {
        assert PassedOver(exec, cands, i);
        SoftIsPassedOver(exec, cands, i);
      }
    }
  }

  lemma NoneEnds(exec: (nat, seq<char>) -> Attempt, cands: seq<seq<char>>, n: nat, errno: Errno, r: Outcome)
    requires Ended(exec, cands, n, errno, r) && AllPassedOver(exec, cands, |cands|)
    ensures n == |cands|
    ensures r == Failed(if Denied(exec, cands, n) then EACCES else LastErrno(exec, cands, n, errno))
  {
    forall i | 0 <= i < |cands|
      ensures SoftAt(exec, cands, i)
    {
      assert PassedOver(exec, cands, i);
      SoftIsPassedOver(exec, cands, i);
    }
  }

  /** Every candidate is passed over: EACCES if any gave it, else the last one's error; the caller's errno if there was none. */
  lemma EndsWithout(exec: (nat, seq<char>) -> Attempt, cands: seq<seq<char>>, n: nat, errno: Errno, r: Outcome)
    requires Ended(exec, cands, n, errno, r) && AllPassedOver(exec, cands, |cands|)
    ensures n == |cands| && r.Failed?
    ensures (exists i :: 0 <= i < |cands| && exec(i, cands[i]) == Fails(EACCES)) ==> r == Failed(EACCES)
    ensures (forall i :: 0 <= i < |cands| ==> exec(i, cands[i]) != Fails(EACCES)) && cands != [] ==>
              exec(|cands| - 1, cands[|cands| - 1]) == Fails(r.errno)
    ensures cands == [] ==> r == Failed(errno)
  {
    NoneEnds(exec, cands, n, errno, r);
    if i :| 0 <= i < |cands| && exec(i, cands[i]) == Fails(EACCES) {
      assert DeniedAt(exec, cands, i);
    } else if cands != [] {
      assert PassedOver(exec, cands, |cands| - 1);
    }
  }

  // ----- the search itself

  /** The candidates of a search: one per entry of PATH, as it reads the entries. */
  ghost function CandidatesOf(path: seq<char>, file: seq<char>): seq<seq<char>> {
    Tried(Entries(path, 0), file, Limit(path))
  }

  /**
   The search finds the program in the first directory whose attempt is not
   one of the six errors: it is launched there, or that attempt's error is the
   outcome, and exactly the candidates up to it were tried.
   */
  method SearchFinds(file: seq<char>, path: seq<char>, exec: (nat, seq<char>) -> Attempt, errno: Errno, ghost k: nat)
    returns (r: Outcome, tried: seq<seq<char>>)
    requires k < |CandidatesOf(path, file)|
    requires AllPassedOver(exec, CandidatesOf(path, file), k) && !PassedOver(exec, CandidatesOf(path, file), k)
    ensures tried == CandidatesOf(path, file)[..k + 1]
    ensures exec(k, CandidatesOf(path, file)[k]) == Runs ==> r == Launched
    ensures forall e :: exec(k, CandidatesOf(path, file)[k]) == Fails(e) ==> r == Failed(e)
  {
    r, tried := SearchPath(file, path, exec, errno);
    EndsAtFirst(exec, CandidatesOf(path, file), |tried|, errno, r, k);
  }

  /** The program is nowhere: every directory answers ENOENT, and so does the search. */
  method SearchFindsNothing(file: seq<char>, path: seq<char>, exec: (nat, seq<char>) -> Attempt, errno: Errno)
    returns (r: Outcome, tried: seq<seq<char>>)
    requires CandidatesOf(path, file) != []
    requires forall i :: 0 <= i < |CandidatesOf(path, file)| ==> exec(i, CandidatesOf(path, file)[i]) == Fails(ENOENT)
    ensures tried == CandidatesOf(path, file) && r == Failed(ENOENT)
  {
    r, tried := SearchPath(file, path, exec, errno);
    EndsWithout(exec, CandidatesOf(path, file), |tried|, errno, r);
  }

  // ----- the entries of PATH

  function Joined(entries: seq<seq<char>>): seq<char>
    decreases |entries|
  {
    if entries == [] then [] else if |entries| == 1 then entries[0] else entries[0] + [':'] + Joined(entries[1..])
  }

  lemma {:induction false} NextColonStops(path: seq<char>, i: nat)
    requires i <= |path|
    ensures ':' !in path[i..NextColon(path, i)]
    decreases |path| - i
  {
    if i < |path| && path[i] != ':' {
      NextColonStops(path, i + 1);
      assert path[i..NextColon(path, i)] == [path[i]] + path[i + 1..NextColon(path, i + 1)];
    }
  }

  /** The entries, joined by colons, are PATH again, and no entry holds a colon. */
  lemma {:induction false} EntriesJoin(path: seq<char>, i: nat)
    requires i <= |path|
    ensures Entries(path, i) != [] && Joined(Entries(path, i)) == path[i..]
    ensures forall k :: 0 <= k < |Entries(path, i)| ==> ':' !in Entries(path, i)[k]
    decreases |path| - i
  {
    var e := NextColon(path, i);
    NextColonStops(path, i);
    ColonThere(path, i);
    if e < |path| {
      EntriesJoin(path, e + 1);
      var rest := Entries(path, e + 1);
      assert ([path[i..e]] + rest)[1..] == rest;
      assert path[i..] == path[i..e] + [':'] + path[e + 1..];
    } else {
      assert path[i..e] == path[i..];
    }
  }
}

/**
 Where the hash study stays within C `int`. A signed overflow has no defined
 result in C, so the study's results hold of the program exactly on these runs.
 */
module HashLimits {
  import opened Common
  import opened NumberTheory
  import opened Counting
  import opened Statistics
  import opened HashStudy

  predicate IsInt(n: int) {
    INT_MIN <= n <= INT_MAX
  }

  /** Every value `get_hash_dc` computes before the remainder is an `int`. */
  predicate PairingDefined(vrid: int, fd: int) {
    && IsInt(vrid + fd)
    && IsInt(vrid + fd + 1)
    && IsInt((vrid + fd) * (vrid + fd + 1))
    && IsInt(PairingCode(vrid, fd))
  }

  /** Every value `get_hash_pqa` computes before the remainder is an `int`. */
  predicate PrimesDefined(vrid: int, fd: int) {
    IsInt(vrid * 31) && IsInt(fd * 37) && IsInt(vrid * 31 + fd * 37)
  }

  predicate HashDefined(kind: Kind, vrid: int, fd: int) {
    match kind
    case Pairing => PairingDefined(vrid, fd)
    case Primes => PrimesDefined(vrid, fd)
  }

  /** Every value the nested loop computes is an `int`. */
  ghost predicate RunDefined(p: Params) {
    && IsInt(p.numFd * p.step)
    && IsInt(p.beginFd + p.numFd * p.step)
    && forall t, vrid :: 0 <= t < p.Rows() && 1 <= vrid <= p.numVrid ==> HashDefined(p.kind, vrid, p.Fd(t))
  }

  // ----- one hash

  lemma ProductGrows(s: nat, bound: nat)
    requires s <= bound
    ensures s * (s + 1) <= bound * (bound + 1)
  {
    assert s * (s + 1) <= bound * (s + 1) <= bound * (bound + 1);
  }

  lemma ProductMirrored(s: int)
    ensures s * (s + 1) == (-s - 1) * (-s - 1 + 1)
  {
    assert (-s - 1) * (-s) == (s + 1) * s;
  }

  lemma ProductFits(s: nat)
    ensures IsInt(s * (s + 1)) <==> s <= 46340
  {
    if s <= 46340 {
      ProductGrows(s, 46340);
    } else {
      ProductGrows(46341, s);
    }
  }

  /** The product of the pairing hash is an `int` exactly in this range of sums. */
  lemma ProductFitsIff(s: int)
    ensures IsInt(s * (s + 1)) <==> -46341 <= s <= 46340
  {
    if s >= 0 {
      ProductFits(s);
    } else {
      ProductMirrored(s);
      ProductFits(-s - 1);
    }
  }

  /** For every vrid: the product and the code after it decide. */
  lemma PairingDefinedIff(vrid: Int, fd: int)
    ensures PairingDefined(vrid, fd) <==> -46341 <= vrid + fd <= 46340 && vrid <= INT_MAX - Triangle(vrid + fd)
  {
    ProductFitsIff(vrid + fd);
    TriangleExact(vrid + fd);
  }

  /** Up to 2^30 the product alone decides. */
  lemma SmallVridDefinedIff(vrid: int, fd: int)
    requires 1 <= vrid <= 0x4000_0000
    ensures PairingDefined(vrid, fd) <==> -46341 <= vrid + fd <= 46340
  {
    PairingDefinedIff(vrid, fd);
    if -46341 <= vrid + fd <= 46340 {
      TriangleSmall(vrid + fd);
    }
  }

  lemma TriangleSmall(s: int)
    requires -46341 <= s <= 46340
    ensures 0 <= Triangle(s) < 0x4000_0000
  {
    ProductFitsIff(s);
    TriangleExact(s);
  }

  // ----- whole runs

  lemma FdBetween(p: Params, t: nat)
    requires t < p.Rows()
    ensures p.beginFd <= p.Fd(t) <= p.Fd(p.numFd - 1)
  {
    FactorSign(p.step, t);
    FactorSign(p.step, p.numFd - 1 - t);
    assert p.step * (p.numFd - 1 - t) == (p.numFd - 1) * p.step - t * p.step;
  }

  /** The smallest and the largest sum of a run decide whether its pairing hashes are defined. */
  ghost predicate PairingInRange(p: Params) {
    -46341 <= 1 + p.beginFd && p.numVrid + p.Fd(p.numFd - 1) <= 46340
  }

  lemma PairingHashes(p: Params)
    requires p.kind == Pairing && p.step > 0 && p.numFd > 0 && p.numVrid >= 1
    requires PairingInRange(p)
    ensures forall t, vrid :: 0 <= t < p.Rows() && 1 <= vrid <= p.numVrid ==> HashDefined(p.kind, vrid, p.Fd(t))
  {
    forall t, vrid | 0 <= t < p.Rows() && 1 <= vrid <= p.numVrid
      ensures HashDefined(p.kind, vrid, p.Fd(t))
    {
      FdBetween(p, t);
      SmallVridDefinedIff(vrid, p.Fd(t));
    }
  }

  lemma PairingExtremes(p: Params)
    requires p.kind == Pairing && p.step > 0 && p.numFd > 0 && 1 <= p.numVrid
    requires RunDefined(p)
    ensures PairingInRange(p)
  {
    assert p.Fd(0) == p.beginFd;
    assert HashDefined(p.kind, 1, p.Fd(0));
    assert HashDefined(p.kind, p.numVrid, p.Fd(p.numFd - 1));
    ProductFitsIff(1 + p.Fd(0));
    ProductFitsIff(p.numVrid + p.Fd(p.numFd - 1));
  }

  /** A run of the pairing hash is defined in C exactly when its loop bound and its extreme sums are in range. */
  lemma PairingRunDefinedIff(p: Params)
    requires p.kind == Pairing && p.step > 0 && p.numFd > 0 && p.numVrid >= 1
    ensures RunDefined(p)
       <==> IsInt(p.numFd * p.step) && IsInt(p.beginFd + p.numFd * p.step) && PairingInRange(p)
  {
    if RunDefined(p) {
      PairingExtremes(p);
    }
    if PairingInRange(p) {
      PairingHashes(p);
    }
  }

  /** The runs of `StudyPowerOfTwo` that are defined in C. */
  lemma PowerOfTwoDefinedIff(k: nat, beginFd: int, numVrid: nat)
    requires numVrid >= 1
    ensures RunDefined(Params(Pairing, Pow2(k), beginFd, Pow2(k), numVrid, 2))
       <==> -46342 <= beginFd && numVrid + beginFd + 2 * Pow2(k) <= 46342
  {
    PairingRunDefinedIff(Params(Pairing, Pow2(k), beginFd, Pow2(k), numVrid, 2));
  }

  lemma {:induction false} Pow2Grows(j: nat, k: nat)
    requires j <= k
    ensures Pow2(j) <= Pow2(k)
    decreases k
  {
    if j < k {
      Pow2Grows(j, k - 1);
    }
  }

  lemma Pow2Values()
    ensures Pow2(10) == 1024 && Pow2(14) == 16384 && Pow2(15) == 32768
  {
    assert Pow2(5) == 32;
    assert Pow2(10) == 32 * Pow2(5);
  }

  /**
   Run with `-h` and a power of two, the program overflows exactly from 32768
   buckets on: the even spread there is not a result of the C program.
   */
  lemma TableOptionDefinedIff(k: nat)
    ensures RunDefined(Params(Pairing, Pow2(k), 12, Pow2(k), 255, 2)) <==> k <= 14
  {
    PowerOfTwoDefinedIff(k, 12, 255);
    Pow2Values();
    if k <= 14 {
      Pow2Grows(k, 14);
    } else {
      Pow2Grows(15, k);
    }
  }

  /** The smallest and largest products and the largest sum of a run of the primes hash. */
  ghost predicate PrimesInRange(p: Params) {
    && 31 * p.numVrid <= INT_MAX
    && INT_MIN <= 37 * p.beginFd && 37 * p.Fd(p.numFd - 1) <= INT_MAX
    && 31 * p.numVrid + 37 * p.Fd(p.numFd - 1) <= INT_MAX
  }

  lemma PrimesHashes(p: Params)
    requires p.kind == Primes && p.step > 0 && p.numFd > 0 && p.numVrid >= 1 && PrimesInRange(p)
    ensures forall t, vrid :: 0 <= t < p.Rows() && 1 <= vrid <= p.numVrid ==> HashDefined(p.kind, vrid, p.Fd(t))
  {
    forall t, vrid | 0 <= t < p.Rows() && 1 <= vrid <= p.numVrid
      ensures HashDefined(p.kind, vrid, p.Fd(t))
    {
      FdBetween(p, t);
    }
  }

  lemma PrimesExtremes(p: Params)
    requires p.kind == Primes && p.step > 0 && p.numFd > 0 && p.numVrid >= 1 && RunDefined(p)
    ensures PrimesInRange(p)
  {
    assert p.Fd(0) == p.beginFd;
    assert HashDefined(p.kind, 1, p.Fd(0));
    assert HashDefined(p.kind, p.numVrid, p.Fd(p.numFd - 1));
  }

  /** A run of the primes hash is defined in C exactly when its loop bound and its extremes are in range. */
  lemma PrimesRunDefinedIff(p: Params)
    requires p.kind == Primes && p.step > 0 && p.numFd > 0 && p.numVrid >= 1
    ensures RunDefined(p)
       <==> IsInt(p.numFd * p.step) && IsInt(p.beginFd + p.numFd * p.step) && PrimesInRange(p)
  {
    if RunDefined(p) {
      PrimesExtremes(p);
    }
    if PrimesInRange(p) {
      PrimesHashes(p);
    }
  }

  /** Neither default run overflows. */
  lemma DefaultsDefined()
    ensures RunDefined(DEFAULTS) && RunDefined(PRIMES_DEFAULTS)
  {
    PairingRunDefinedIff(DEFAULTS);
    PrimesRunDefinedIff(PRIMES_DEFAULTS);
  }

  // ----- the variance on defined runs

  /** From a non-negative descriptor every full power-of-two run that is defined in C reports no variance. */
  lemma DefinedFullRunIsExact(k: nat, beginFd: nat, numVrid: nat)
    requires numVrid >= 1 && RunDefined(Params(Pairing, Pow2(k), beginFd, Pow2(k), numVrid, 2))
    ensures ReportedVariance(Table(Params(Pairing, Pow2(k), beginFd, Pow2(k), numVrid, 2))) == 0.0
  {
    var p := Params(Pairing, Pow2(k), beginFd, Pow2(k), numVrid, 2);
    PowerOfTwoDefinedIff(k, beginFd, numVrid);
    EvenTable(p, k);
    EvenTableReport(Table(p), numVrid);
  }

  /** From a negative one a defined full run may not: one bucket, one descriptor and 2^16 vrids. */
  lemma DefinedFullRunIsWrong()
    ensures var p := Params(Pairing, 1, -46342, 1, 0x1_0000, 2);
            RunDefined(p) && ReportedVariance(Table(p)) != 0.0
  {
    var p := Params(Pairing, 1, -46342, 1, 0x1_0000, 2);
    assert Pow2(0) == 1;
    PowerOfTwoDefinedIff(0, -46342, 0x1_0000);
    EvenTable(p, 0);
    EvenTableReport(Table(p), 0x1_0000);
  }

  lemma OneBucketTable(p: Params)
    requires p.size == 1 && p.kind == Pairing && p.numVrid >= 0
    ensures Table(p) == [(p.Rows() * p.numVrid) % UINT_MOD]
  {
    PairingInTable(p);
    PairsConserved(p);
    var counts := CellCounts(p.Bucket, p.Rows(), p.numVrid, 1);
    assert counts[..0] == [];
    assert Sum(counts) == |Cells(p.Bucket, p.Rows(), p.numVrid, 0)|;
  }

  /** Run with `-h 1 -f 256 -v 256` the program overflows nothing and reports a negative variance. */
  lemma NegativeVarianceReachable()
    ensures var p := Params(Pairing, 1, 12, 256, 256, 2);
            RunDefined(p) && Table(p) == [0x1_0000] && ReportedVariance(Table(p)) < 0.0
  {
    var p := Params(Pairing, 1, 12, 256, 256, 2);
    PairingRunDefinedIff(p);
    OneBucketTable(p);
    NegativeVarianceReported();
  }
}

/**
 The VRRP hash study: two hash functions of a (vrid, fd) pair, the loop that
 counts how many pairs fall into each bucket, and the statistics it reports.

 C `int` arithmetic is exact, since a signed overflow has no defined result
 (HashLimits says which runs have none); the bucket counters and their squares
 are `unsigned int` and wrap.
 */
module HashStudy {
  import opened Common
  import opened NumberTheory
  import opened Counting
  import opened Statistics

  type TableSize = n: int | n > 0 witness 1

  datatype Kind = Pairing | Primes

  /** One run's parameters; `Fd(t)` is the descriptor the outer loop visits at its t-th turn. */
  datatype Params = Params(kind: Kind, size: TableSize, beginFd: int, numFd: int, numVrid: int, step: int) {
    /** How often the outer loop runs. */
    function Rows(): nat {
      if step > 0 && numFd > 0 then numFd else 0
    }

    function Fd(t: int): int {
      beginFd + t * step
    }

    function Bucket(t: int, vrid: int): int {
      Hash(kind, vrid, Fd(t), size)
    }

    /** Every hash computed is an index of the table. */
    ghost predicate InTable() {
      forall vrid :: 1 <= vrid <= numVrid ==> RowWithin(Bucket, Rows(), vrid, size)
    }
  }

  /** The remainder of C, which takes the sign of the dividend. */
  function Rem(a: int, n: TableSize): (r: int)
    ensures r < n
    ensures a >= 0 ==> r >= 0
  {
    if a >= 0 then a % n else -((-a) % n)
  }

  function Triangle(s: int): int {
    s * (s + 1) / 2
  }

  function PairingCode(vrid: int, fd: int): int {
    Triangle(vrid + fd) + vrid
  }

  function HashDc(vrid: int, fd: int, size: TableSize): int
  {
    Rem(PairingCode(vrid, fd), size)
  }

  function HashPqa(vrid: int, fd: int, size: TableSize): int
  {
    Rem(PrimesCode(vrid, fd), size)
  }

  /** The function the option letters select. */
  function Hash(kind: Kind, vrid: int, fd: int, size: TableSize): int {
    match kind
    case Pairing => HashDc(vrid, fd, size)
    case Primes => HashPqa(vrid, fd, size)
  }

  // ----- the pairing code

  /** s * (s + 1) is even, so the C division loses nothing. */
  lemma TriangleExact(s: int)
    ensures 2 * Triangle(s) == s * (s + 1)
    ensures Triangle(s) >= 0
  {
    var h := s / 2;
    var half := if s % 2 == 0 then h * (s + 1) else s * (h + 1);
    assert s * (s + 1) == 2 * half by {
      if s % 2 == 0 {
        assert s == 2 * h;
      } else {
        assert s + 1 == 2 * (h + 1);
      }
    }
    ConsecutiveProduct(s);
  }

  lemma ConsecutiveProduct(s: int)
    ensures s * (s + 1) >= 0
  {
    if s < 0 {
      assert s * (s + 1) == (-s) * (-s - 1);
    }
  }

  lemma TriangleGap(s: int, s': int)
    ensures 2 * (Triangle(s') - Triangle(s)) == (s' - s) * (s' + s + 1)
  {
    TriangleExact(s);
    TriangleExact(s');
  }

  /** Before the modulo the pairing hash never maps two pairs to one code. */
  lemma PairingInjective(v: nat, f: nat, v': nat, f': nat)
    requires PairingCode(v, f) == PairingCode(v', f')
    ensures v == v' && f == f'
  {
    if v + f < v' + f' {
      DiagonalBelow(v, f, v', f');
    } else if v' + f' < v + f {
      DiagonalBelow(v', f', v, f);
    }
  }

  lemma DiagonalBelow(v: nat, f: nat, v': nat, f': nat)
    requires v + f < v' + f'
    ensures PairingCode(v, f) < PairingCode(v', f')
  {
    TriangleGrows(v + f, v' + f');
  }

  lemma TriangleGrows(s: nat, s': nat)
    requires s < s'
    ensures Triangle(s) + s < Triangle(s')
  {
    TriangleGap(s, s');
    MulAtLeast(s' + s + 1, s' - s);
  }

  /** Two keys share a bucket exactly when their codes are congruent modulo the table size. */
  lemma SharedBucket(v: nat, f: nat, v': nat, f': nat, size: TableSize)
    ensures HashDc(v, f, size) == HashDc(v', f', size)
       <==> (PairingCode(v, f) - PairingCode(v', f')) % size == 0
    ensures (v, f) != (v', f') ==> PairingCode(v, f) != PairingCode(v', f')
  {
    TriangleExact(v + f);
    TriangleExact(v' + f');
    SameRemainder(PairingCode(v, f), PairingCode(v', f'), size);
    if PairingCode(v, f) == PairingCode(v', f') {
      PairingInjective(v, f, v', f');
    }
  }

  // ----- one row: a fixed vrid, descriptors at distinct turns

  lemma PairingInTable(p: Params)
    requires p.kind == Pairing
    ensures p.InTable()
  {
    forall t, vrid | 0 <= t < p.Rows() && 1 <= vrid <= p.numVrid
      ensures 0 <= p.Bucket(t, vrid) < p.size
    {
      TriangleExact(vrid + p.Fd(t));
    }
  }

  function PrimesCode(vrid: int, fd: int): int {
    vrid * 31 + fd * 37
  }

  /** The C remainder is an index exactly when the code is not negative or is a multiple of the size. */
  lemma RemIsIndexIff(a: int, n: TableSize)
    ensures 0 <= Rem(a, n) < n <==> a >= 0 || a % n == 0
  {
    if a < 0 {
      SameRemainder(-a, 0, n);
      NegatedMultiple(a, n);
    }
  }

  lemma NegatedMultiple(a: int, n: TableSize)
    ensures (-a) % n == 0 <==> a % n == 0
  {
    if a % n == 0 {
      assert -a == n * -(a / n);
      MultipleOf(n, -(a / n));
    }
    if (-a) % n == 0 {
      assert a == n * -((-a) / n);
      MultipleOf(n, -((-a) / n));
    }
  }

  /** The primes hash leaves the table exactly at a negative code that the size does not divide. */
  lemma PrimesInTableIff(p: Params)
    requires p.kind == Primes
    ensures p.InTable() <==>
              forall t, vrid :: 0 <= t < p.Rows() && 1 <= vrid <= p.numVrid && PrimesCode(vrid, p.Fd(t)) < 0 ==>
                PrimesCode(vrid, p.Fd(t)) % p.size == 0
  {
    forall t, vrid
      ensures 0 <= p.Bucket(t, vrid) < p.size <==> PrimesCode(vrid, p.Fd(t)) >= 0 || PrimesCode(vrid, p.Fd(t)) % p.size == 0
    {
      RemIsIndexIff(PrimesCode(vrid, p.Fd(t)), p.size);
    }
    if p.InTable() {
      forall t, vrid | 0 <= t < p.Rows() && 1 <= vrid <= p.numVrid
        ensures 0 <= p.Bucket(t, vrid) < p.size
      {
        assert RowWithin(p.Bucket, p.Rows(), vrid, p.size);
      }
    }
  }

  lemma PrimesInTable(p: Params)
    requires p.kind == Primes && p.beginFd >= 0
    ensures p.InTable()
  {
    PrimesInTableIff(p);
    forall t, vrid | 0 <= t < p.Rows() && 1 <= vrid <= p.numVrid
      ensures PrimesCode(vrid, p.Fd(t)) >= 0
    {
      assert t * p.step >= 0;
    }
  }

  /** Run with `-q -b -1` the first hash is not an index: its code is -6. */
  lemma NegativeDescriptorLeavesTable()
    ensures !PRIMES_DEFAULTS.(beginFd := -1).InTable()
  {
    var p := PRIMES_DEFAULTS.(beginFd := -1);
    assert PrimesCode(1, p.Fd(0)) == -6;
    PrimesInTableIff(p);
  }

  lemma FdGap(p: Params, t: int, t': int)
    ensures p.Fd(t') - p.Fd(t) == p.step * (t' - t)
  {
  }

  lemma EvenGap(s: int, half: int, d: int) returns (odd: int)
    ensures odd % 2 == 1
    ensures Triangle(s + (2 * half) * d) - Triangle(s) == half * (d * odd)
  {
    var hd := half * d;
    var s' := s + 2 * hd;
    MulAssoc(2, half, d);
    TriangleGap(s, s');
    odd := s' + s + 1;
    assert odd == 2 * (s + hd) + 1;
    MulAssoc(2, hd, odd);
    MulAssoc(half, d, odd);
  }

  /** With an even step the codes of one row differ by half the step times the turn gap times an odd number. */
  lemma PairingRowGap(p: Params, vrid: int, t: int, t': int, half: int) returns (odd: int)
    requires p.step == 2 * half
    ensures odd % 2 == 1
    ensures PairingCode(vrid, p.Fd(t')) - PairingCode(vrid, p.Fd(t)) == half * ((t' - t) * odd)
  {
    FdGap(p, t, t');
    odd := EvenGap(vrid + p.Fd(t), half, t' - t);
  }

  lemma PairingSameBucket(p: Params, vrid: int, t: int, t': int)
    requires p.kind == Pairing && vrid >= 0
    ensures p.Bucket(t, vrid) == p.Bucket(t', vrid)
       <==> (PairingCode(vrid, p.Fd(t')) - PairingCode(vrid, p.Fd(t))) % p.size == 0
  {
    TriangleExact(vrid + p.Fd(t));
    TriangleExact(vrid + p.Fd(t'));
    SameRemainder(PairingCode(vrid, p.Fd(t')), PairingCode(vrid, p.Fd(t)), p.size);
  }

  /** Two turns of a row that share a bucket: the table size divides the gap between their codes. */
  lemma PairingSharedGap(p: Params, vrid: int, t: int, t': int) returns (odd: int)
    requires p.kind == Pairing && vrid >= 0 && p.step % 2 == 0
    requires p.Bucket(t, vrid) == p.Bucket(t', vrid)
    ensures odd % 2 == 1
    ensures (p.step / 2 * ((t' - t) * odd)) % p.size == 0
  {
    PairingSameBucket(p, vrid, t, t');
    odd := PairingRowGap(p, vrid, t, t', p.step / 2);
  }

  lemma NoGap(half: int, d: int, odd: int, k: nat)
    requires half % 2 == 1 && odd % 2 == 1 && 0 <= d < Pow2(k)
    requires (half * (d * odd)) % Pow2(k) == 0
    ensures d == 0
  {
    OddCancelTwice(d, half, odd, k);
    SmallMultiple(d, Pow2(k));
  }

  lemma HalfIsOdd(step: int)
    requires step % 4 == 2
    ensures step % 2 == 0 && step / 2 % 2 == 1
  {
  }

  lemma PairingTurnsDiffer(p: Params, vrid: int, k: nat, t: nat, t': nat)
    requires p.kind == Pairing && vrid >= 0 && p.size == Pow2(k) && p.step % 4 == 2
    requires t < t' < Pow2(k)
    ensures p.Bucket(t, vrid) != p.Bucket(t', vrid)
  {
    HalfIsOdd(p.step);
    if p.Bucket(t, vrid) == p.Bucket(t', vrid) {
      var odd := PairingSharedGap(p, vrid, t, t');
      NoGap(p.step / 2, t' - t, odd, k);
    }
  }

  /** A power-of-two table and a step twice an odd number: no two turns of a row collide. */
  lemma PairingRowInjective(p: Params, vrid: int, k: nat)
    requires p.kind == Pairing && vrid >= 0
    requires p.size == Pow2(k) && p.numFd <= p.size
    requires p.step % 4 == 2
    ensures RowInjective(p.Bucket, p.Rows(), vrid)
  {
    forall t, t' | 0 <= t < t' < p.Rows()
      ensures p.Bucket(t, vrid) != p.Bucket(t', vrid)
    {
      PairingTurnsDiffer(p, vrid, k, t, t');
    }
  }

  lemma HalfTable(quarter: int, d: int, odd: int)
    ensures (2 * quarter) * (d * odd) == (2 * d) * (quarter * odd)
  {
    MulAssoc(2, quarter, d * odd);
    MulSwap(quarter, d, odd);
    MulAssoc(2, d, quarter * odd);
  }

  /** A step divisible by four makes two turns half a table apart collide, whatever the vrid. */
  lemma PairingRowCollides(p: Params, vrid: int, k: nat)
    requires p.kind == Pairing && vrid >= 0
    requires k > 0 && p.size == Pow2(k)
    requires p.step % 4 == 0
    ensures p.Bucket(0, vrid) == p.Bucket(Pow2(k - 1), vrid)
  {
    var d, quarter := Pow2(k - 1), p.step / 4;
    var odd := PairingRowGap(p, vrid, 0, d, 2 * quarter);
    assert p.size == 2 * d;
    HalfTable(quarter, d, odd);
    MultipleOf(p.size, quarter * odd);
    PairingSameBucket(p, vrid, 0, d);
  }

  lemma PrimesRowGap(p: Params, vrid: int, t: int, t': int)
    requires p.kind == Primes && vrid >= 0
    requires p.beginFd >= 0 && p.step > 0 && t >= 0 && t' >= 0
    ensures p.Bucket(t, vrid) == p.Bucket(t', vrid)
       <==> ((37 * p.step) * (t' - t)) % p.size == 0
  {
    var a, a' := PrimesCode(vrid, p.Fd(t)), PrimesCode(vrid, p.Fd(t'));
    assert t * p.step >= 0 && t' * p.step >= 0;
    assert a' - a == (37 * p.step) * (t' - t) by {
      assert t' * p.step - t * p.step == p.step * (t' - t);
    }
    SameRemainder(a', a, p.size);
  }

  lemma PrimesRowInjective(p: Params, vrid: int)
    requires p.kind == Primes && vrid >= 0
    requires p.beginFd >= 0 && p.step > 0 && p.numFd <= p.size
    requires Gcd(37 * p.step, p.size) == 1
    ensures RowInjective(p.Bucket, p.Rows(), vrid)
  {
    forall t, t' | 0 <= t < t' < p.Rows()
      ensures p.Bucket(t, vrid) != p.Bucket(t', vrid)
    {
      PrimesRowGap(p, vrid, t, t');
      if p.Bucket(t, vrid) == p.Bucket(t', vrid) {
        CoprimeCancel(37 * p.step, t' - t, p.size);
        SmallMultiple(t' - t, p.size);
      }
    }
  }

  lemma CommonFactor(g: int, d: int, e: int)
    requires g * d > 0
    ensures ((g * e) * d) % (g * d) == 0
  {
    MulAssoc(g, e, d);
    MulAssoc(g, d, e);
    MultipleOf(g * d, e);
  }

  /** A common divisor above one makes two turns of a full table collide. */
  lemma CommonDivisorCollides(a: nat, n: nat) returns (d: nat)
    requires n > 0 && Gcd(a, n) != 1
    ensures 0 < d < n
    ensures (a * d) % n == 0
  {
    GcdDivides(a, n);
    var g := Gcd(a, n);
    d := n / g;
    var e := a / g;
    assert n == g * d && a == g * e;
    ProperFactor(g, d);
    CommonFactor(g, d, e);
  }

  lemma ProperFactor(g: int, d: int)
    requires g > 1 && g * d > 0
    ensures 0 < d < g * d
  {
    FactorSign(g, d);
    MulAtLeast(d, g - 1);
  }

  /** Over a full table a row of the primes hash is collision free exactly when 37 * step and the size are coprime. */
  lemma PrimesRowInjectiveIff(p: Params, vrid: int)
    requires p.kind == Primes && vrid >= 0
    requires p.beginFd >= 0 && p.step > 0 && p.numFd == p.size
    ensures RowInjective(p.Bucket, p.Rows(), vrid) <==> Gcd(37 * p.step, p.size) == 1
  {
    if Gcd(37 * p.step, p.size) == 1 {
      PrimesRowInjective(p, vrid);
    } else {
      var d := CommonDivisorCollides(37 * p.step, p.size);
      PrimesRowGap(p, vrid, 0, d);
      assert 0 <= 0 < d < p.Rows();
    }
  }

  // ----- the whole table

  /** Main result: the pairing hash spreads its keys perfectly evenly over any full power-of-two table. */
  lemma PairingEvenSpread(p: Params, k: nat, h: int)
    requires p.kind == Pairing && p.size == Pow2(k) == p.numFd
    requires p.step > 0 && p.step % 4 == 2
    requires p.numVrid >= 0 && 0 <= h < p.size
    ensures |Cells(p.Bucket, p.Rows(), p.numVrid, h)| == p.numVrid
  {
    forall vrid | 1 <= vrid <= p.numVrid
      ensures RowInjective(p.Bucket, p.Rows(), vrid)
    {
      PairingRowInjective(p, vrid, k);
    }
    PairingInTable(p);
    assert p.Rows() == p.size;
    CellsExactly(p.Bucket, p.size, p.numVrid, h);
  }

  /** The primes hash never puts two descriptors of one vrid together, and fills a full table evenly. */
  lemma PrimesEvenSpread(p: Params, h: int)
    requires p.kind == Primes && p.beginFd >= 0
    requires p.step > 0 && p.numFd <= p.size && Gcd(37 * p.step, p.size) == 1
    requires p.numVrid >= 0 && 0 <= h < p.size
    ensures |Cells(p.Bucket, p.Rows(), p.numVrid, h)| <= p.numVrid
    ensures p.numFd == p.size ==> |Cells(p.Bucket, p.Rows(), p.numVrid, h)| == p.numVrid
  {
    forall vrid | 1 <= vrid <= p.numVrid
      ensures RowInjective(p.Bucket, p.Rows(), vrid)
    {
      PrimesRowInjective(p, vrid);
    }
    PrimesInTable(p);
    CellsAtMost(p.Bucket, p.Rows(), p.numVrid, h);
    if p.numFd == p.size {
      CellsExactly(p.Bucket, p.size, p.numVrid, h);
    }
  }

  // ----- filling the table

  lemma LoopGuard(p: Params, t: nat)
    requires t <= p.Rows()
    requires p.numFd >= 0 || p.step >= 0
    ensures p.Fd(t) < p.beginFd + p.numFd * p.step <==> t < p.Rows()
  {
    if p.step > 0 {
      FactorSign(p.step, p.numFd - t - 1);
      FactorSign(p.step, t - p.numFd);
      assert p.step * (t - p.numFd) == t * p.step - p.numFd * p.step;
      assert p.step * (p.numFd - t - 1) == p.numFd * p.step - t * p.step - p.step;
      if p.numFd <= 0 {
        FactorSign(p.step, -p.numFd);
        assert t == 0 && p.step * (-p.numFd) == -(p.numFd * p.step);
      }
    } else if p.numFd > 0 {
      FactorSign(p.numFd, -p.step);
      assert p.numFd * (-p.step) == -(p.numFd * p.step);
    }
  }

  /** The pairs hashed to each bucket, counted modulo 2^32. */
  ghost function Table(p: Params): seq<UInt> {
    seq(p.size, h => |Cells(p.Bucket, p.Rows(), p.numVrid, h)| % UINT_MOD)
  }

  /** The inner loop, for one descriptor. */
  method FillRow(p: Params, numEnt: array<UInt>, i: int, ghost t: nat)
    requires numEnt.Length == p.size && t < p.Rows() && i == p.Fd(t)
    requires p.InTable()
    requires Counted(p.Bucket, numEnt[..], t, 1, p.numVrid)
    modifies numEnt
    ensures Counted(p.Bucket, numEnt[..], t + 1, 1, p.numVrid)
  {
    var j := 1;
    while j <= p.numVrid
      invariant j >= 1
      invariant Counted(p.Bucket, numEnt[..], t, j, p.numVrid)
    {
      assert RowWithin(p.Bucket, p.Rows(), j, p.size);
      var h := Hash(p.kind, j, i, p.size);
      assert h == p.Bucket(t, j);
      CountCell(p.Bucket, numEnt[..], t, j, p.numVrid);
      ghost var before := numEnt[..];
      numEnt[h] := (numEnt[h] + 1) % UINT_MOD;
      assert numEnt[..] == before[h := (before[h] + 1) % UINT_MOD];
      j := j + 1;
    }
    NextRow(p.Bucket, numEnt[..], t, j, p.numVrid);
  }

  /** The nested loop: afterwards each counter holds the number of pairs hashed to its bucket, modulo 2^32. */
  method Fill(p: Params) returns (numEnt: array<UInt>)
    requires p.InTable()
    requires p.numFd >= 0 || p.step >= 0
    ensures numEnt[..] == Table(p)
  {
    numEnt := new UInt[p.size](_ => 0);
    var i := p.beginFd;
    ghost var t := 0;
    NothingCounted(p.Bucket, numEnt[..], p.numVrid);
    LoopGuard(p, 0);
    while i < p.beginFd + p.numFd * p.step
      invariant 0 <= t <= p.Rows() && i == p.Fd(t)
      invariant i < p.beginFd + p.numFd * p.step <==> t < p.Rows()
      invariant Counted(p.Bucket, numEnt[..], t, 1, p.numVrid)
      decreases p.Rows() - t
    {
      FillRow(p, numEnt, i, t);
      FdGap(p, t, t + 1);
      i, t := i + p.step, t + 1;
      LoopGuard(p, t);
    }
    CountedAll(p.Bucket, numEnt[..], t, p.numVrid);
    assert numEnt[..] == Table(p);
  }

  /** No pair is lost or counted twice: the bucket counts add up to the number of pairs hashed. */
  lemma PairsConserved(p: Params)
    requires p.InTable() && p.numVrid >= 0
    ensures Sum(CellCounts(p.Bucket, p.Rows(), p.numVrid, p.size)) == p.Rows() * p.numVrid
  {
    CountsConserved(p.Bucket, p.Rows(), p.numVrid, p.size);
  }

  // ----- the report

  lemma PrefixSums(s: seq<nat>, i: nat)
    requires i < |s|
    ensures Sum(s[..i + 1]) == Sum(s[..i]) + s[i]
    ensures WrappedSquares(s[..i + 1]) == WrappedSquares(s[..i]) + Square(s[i]) % UINT_MOD
  {
    assert s[..i + 1][..i] == s[..i];
  }

  /** `min` and `max` are `int`s: a count above INT_MAX is stored, and printed, as a negative number. */
  datatype Report = Report(mean: real, variance: real, min: Int, max: Int)

  /** An `int` converted to `unsigned int`, as C does to compare it with one. */
  function Unsigned(n: Int): UInt {
    n % UINT_MOD
  }

  /** Storing a count in an `int` and comparing it later loses nothing. */
  lemma UnsignedOfWrap(n: UInt)
    ensures Unsigned(Wrap(n)) == n
    ensures n <= INT_MAX ==> Wrap(n) == n
  {
  }

  lemma WrapOfUnsigned(n: Int)
    ensures Wrap(Unsigned(n)) == n
    ensures Unsigned(n) <= INT_MAX ==> Unsigned(n) == n
  {
  }

  /** The running minimum, capped by its start value, and maximum of the first i counters. */
  ghost predicate Bounds(s: seq<UInt>, i: nat, min: UInt, max: UInt) {
    && i <= |s| && min <= INT_MAX
    && (forall k :: 0 <= k < i ==> min <= s[k] <= max)
    && (min in s[..i] || min == INT_MAX)
    && (max in s[..i] || max == 0)
  }

  lemma BoundsOfNone(s: seq<UInt>)
    ensures Bounds(s, 0, INT_MAX, 0)
  {
  }

  lemma BoundsNext(s: seq<UInt>, i: nat, min: UInt, max: UInt)
    requires Bounds(s, i, min, max) && i < |s|
    ensures Bounds(s, i + 1, if s[i] < min then s[i] else min, if s[i] > max then s[i] else max)
  {
    assert s[..i + 1] == s[..i] + [s[i]];
  }

  lemma BoundsOfAll(s: seq<UInt>, min: UInt, max: UInt)
    requires s != [] && Bounds(s, |s|, min, max)
    ensures max in s && forall k :: 0 <= k < |s| ==> min <= s[k] <= max
    ensures min in s || min == INT_MAX
  {
    assert s[..|s|] == s;
    if max == 0 {
      assert s[0] == 0;
    }
  }

  /** The reduction loop over the counters. */
  method Reduce(numEnt: array<UInt>) returns (sum: nat, sumSquares: nat, min: Int, max: Int)
    ensures sum == Sum(numEnt[..]) && sumSquares == WrappedSquares(numEnt[..])
    ensures Bounds(numEnt[..], numEnt.Length, Unsigned(min), Unsigned(max))
  {
    sum, sumSquares, min, max := 0, 0, INT_MAX, 0;
    ghost var s := numEnt[..];
    BoundsOfNone(s);
    var i := 0;
    while i < numEnt.Length
      invariant 0 <= i <= numEnt.Length && numEnt[..] == s
      invariant sum == Sum(s[..i]) && sumSquares == WrappedSquares(s[..i])
      invariant Bounds(s, i, Unsigned(min), Unsigned(max))
    {
      PrefixSums(s, i);
      BoundsNext(s, i, Unsigned(min), Unsigned(max));
      var n := numEnt[i];
      UnsignedOfWrap(n);
      sum := sum + n;
      sumSquares := sumSquares + Square(n) % UINT_MOD;
      min := if n < Unsigned(min) then Wrap(n) else min;
      max := if n > Unsigned(max) then Wrap(n) else max;
      i := i + 1;
    }
    assert s[..i] == s;
  }

  ghost predicate IsGreatest(counts: seq<UInt>, m: UInt) {
    m in counts && forall k :: 0 <= k < |counts| ==> counts[k] <= m
  }

  /** The report describes the counters: its extremes are the least and greatest count, as `int`s. */
  ghost predicate Describes(r: Report, counts: seq<UInt>) {
    && counts != []
    && r.mean == Mean(counts) && r.variance == ReportedVariance(counts)
    && (exists m: UInt :: IsGreatest(counts, m) && r.max == Wrap(m))
    && (forall k :: 0 <= k < |counts| ==> r.min <= counts[k])
    && (r.min in counts || r.min == INT_MAX)
  }

  lemma DescribesAll(r: Report, counts: seq<UInt>)
    requires counts != [] && r.mean == Mean(counts) && r.variance == ReportedVariance(counts)
    requires Bounds(counts, |counts|, Unsigned(r.min), Unsigned(r.max))
    ensures Describes(r, counts)
  {
    BoundsOfAll(counts, Unsigned(r.min), Unsigned(r.max));
    WrapOfUnsigned(r.max);
    WrapOfUnsigned(r.min);
    assert IsGreatest(counts, Unsigned(r.max));
  }

  /** The reduction and the two formulas after it. */
  method Summarise(numEnt: array<UInt>) returns (r: Report)
    requires numEnt.Length > 0
    ensures Describes(r, numEnt[..])
  {
    var sum, sumSquares, min, max := Reduce(numEnt);
    var mean := sum as real / numEnt.Length as real;
    var variance := sumSquares as real / numEnt.Length as real - mean * mean;
    r := Report(mean, variance, min, max);
    DescribesAll(r, numEnt[..]);
  }

  /** A whole run of the program on the given parameters. */
  method Study(p: Params) returns (r: Report)
    requires p.InTable()
    requires p.numFd >= 0 || p.step >= 0
    ensures Describes(r, Table(p))
  {
    var numEnt := Fill(p);
    r := Summarise(numEnt);
  }

  /** Equal counts c are reported as mean c, and as having no variance exactly when c is below 2^16. */
  lemma EvenTableReport(table: seq<UInt>, c: nat)
    requires table != []
    requires forall h :: 0 <= h < |table| ==> table[h] == c
    ensures Mean(table) == c as real
    ensures ReportedVariance(table) == 0.0 <==> c < 0x1_0000
  {
    MeanBetween(table, c, c);
    ReportedVarianceExact(table);
    VarianceNonNegative(table);
    assert table[0] == c;
  }

  /** The program run with no options. */
  const DEFAULTS := Params(Pairing, 1024, 12, 1024, 255, 2)

  /** Run with `-q` alone: the primes hash over 1151 buckets. */
  const PRIMES_DEFAULTS := Params(Primes, 1151, 12, 1024, 255, 2)

  lemma TableAt(p: Params, h: nat, c: UInt)
    requires h < p.size && |Cells(p.Bucket, p.Rows(), p.numVrid, h)| == c
    ensures Table(p)[h] == c
  {
  }

  lemma EvenTableAt(p: Params, k: nat, h: nat)
    requires p.kind == Pairing && p.size == Pow2(k) == p.numFd && p.step > 0 && p.step % 4 == 2
    requires 0 <= p.numVrid < UINT_MOD && h < p.size
    ensures Table(p)[h] == p.numVrid
  {
    PairingEvenSpread(p, k, h);
    TableAt(p, h, p.numVrid);
  }

  lemma EvenTable(p: Params, k: nat)
    requires p.kind == Pairing && p.size == Pow2(k) == p.numFd && p.step > 0 && p.step % 4 == 2
    requires 0 <= p.numVrid < UINT_MOD
    ensures |Table(p)| == p.size && forall h :: 0 <= h < |Table(p)| ==> Table(p)[h] == p.numVrid
  {
    forall h | 0 <= h < |Table(p)|
      ensures Table(p)[h] == p.numVrid
    {
      EvenTableAt(p, k, h);
    }
  }

  /** A report on equal counts. */
  lemma EvenReport(r: Report, counts: seq<UInt>, c: Int)
    requires Describes(r, counts) && c >= 0 && forall h :: 0 <= h < |counts| ==> counts[h] == c
    ensures r.min == r.max == c
  {
    assert counts[0] == c;
    assert forall x :: x in counts ==> x == c;
  }

  /**
   Any full power-of-two table under the default hash and step: every bucket is
   filled to num_vrid exactly, which the report shows as a zero variance until
   the unsigned square wraps.
   */
  method StudyPowerOfTwo(k: nat, beginFd: int, numVrid: nat) returns (r: Report)
    requires numVrid <= INT_MAX
    ensures r.mean == numVrid as real && r.min == r.max == numVrid
    ensures r.variance == 0.0 <==> numVrid < 0x1_0000
  {
    var p := Params(Pairing, Pow2(k), beginFd, Pow2(k), numVrid, 2);
    PairingInTable(p);
    r := Study(p);
    EvenTable(p, k);
    EvenTableReport(Table(p), numVrid);
    EvenReport(r, Table(p), numVrid);
  }

  lemma DefaultSizeIsPowerOfTwo()
    ensures DEFAULTS.size == Pow2(10)
  {
    assert Pow2(5) == 32;
    assert Pow2(10) == 32 * Pow2(5);
  }

  /** The default run reports mean, min and max 255 and no deviation. */
  method StudyDefaults() returns (r: Report)
    ensures r == Report(255.0, 0.0, 255, 255)
  {
    DefaultSizeIsPowerOfTwo();
    r := StudyPowerOfTwo(10, 12, 255);
  }

  /** With `-q` alone no bucket receives more than one entry per vrid. */
  lemma PrimesDefaultsSpread(h: int)
    requires 0 <= h < 1151
    ensures |Cells(PRIMES_DEFAULTS.Bucket, 1024, 255, h)| <= 255
  {
    assert Gcd(74, 1151) == 1;
    PrimesEvenSpread(PRIMES_DEFAULTS, h);
  }
}

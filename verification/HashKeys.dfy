/** Which (vrid, fd) pairs each hash sends to which bucket, stated in the numbers themselves. */
module HashKeys {
  import opened Common
  import opened NumberTheory
  import opened Counting
  import opened Statistics
  import opened HashStudy

  // ----- each hash as a remainder

  /** r is what C leaves of a divided by n: congruent to it, below n in size, and of its sign. */
  ghost predicate IsRemainder(a: int, n: int, r: int) {
    && (exists q :: a == n * q + r)
    && -n < r < n
    && (a >= 0 ==> r >= 0) && (a <= 0 ==> r <= 0)
  }

  lemma DivideOut(a: int, n: int)
    requires n > 0
    ensures a == n * (a / n) + a % n
  {
  }

  lemma RemIsRemainder(a: int, n: TableSize)
    ensures IsRemainder(a, n, Rem(a, n))
  {
    if a >= 0 {
      DivideOut(a, n);
    } else {
      DivideOut(-a, n);
      MulSub(n, 0, (-a) / n);
      assert a == n * (0 - (-a) / n) + Rem(a, n);
    }
  }

  /** There is no other such r. */
  lemma RemainderUnique(a: int, n: int, r: int, r': int)
    requires n > 0 && IsRemainder(a, n, r) && IsRemainder(a, n, r')
    ensures r == r'
  {
    var q :| a == n * q + r;
    var q' :| a == n * q' + r';
    assert r - r' == n * (q' - q);
    MultipleOf(n, q' - q);
    SmallMultiple(r - r', n);
  }

  /** The primes hash of any pair is the C remainder of 31 times the vrid plus 37 times the descriptor. */
  lemma PrimesHash(vrid: int, fd: int, size: TableSize)
    ensures IsRemainder(31 * vrid + 37 * fd, size, HashPqa(vrid, fd, size))
  {
    RemIsRemainder(31 * vrid + 37 * fd, size);
  }

  /** The pairing hash of any pair, doubled to avoid the division. */
  lemma PairingHash(vrid: int, fd: int, size: TableSize)
    ensures exists code :: 2 * code == (vrid + fd) * (vrid + fd + 1) + 2 * vrid && IsRemainder(code, size, HashDc(vrid, fd, size))
  {
    TriangleExact(vrid + fd);
    var code := PairingCode(vrid, fd);
    RemIsRemainder(code, size);
    assert 2 * code == (vrid + fd) * (vrid + fd + 1) + 2 * vrid && IsRemainder(code, size, HashDc(vrid, fd, size));
  }

  // ----- pairs that share a bucket of the primes hash

  lemma PrimesBucket(v: nat, f: nat, size: TableSize)
    ensures HashPqa(v, f, size) == (31 * v + 37 * f) % size
  {
  }

  lemma WeightedGap(v: int, f: int, v': int, f': int)
    ensures (31 * v' + 37 * f') - (31 * v + 37 * f) == 31 * (v' - v) + 37 * (f' - f)
  {
  }

  /** Two keys share a bucket exactly when the size divides the difference of their weighted sums. */
  lemma PrimesSharedBucket(v: nat, f: nat, v': nat, f': nat, size: TableSize)
    ensures HashPqa(v, f, size) == HashPqa(v', f', size) <==> (31 * (v' - v) + 37 * (f' - f)) % size == 0
  {
    PrimesBucket(v, f, size);
    PrimesBucket(v', f', size);
    WeightedGap(v, f, v', f');
    SameRemainder(31 * v' + 37 * f', 31 * v + 37 * f, size);
  }

  // ----- the vrids of one descriptor

  /** No two of the first m vrids of a descriptor share a bucket. */
  ghost predicate ColumnInjective(fd: int, m: int, size: TableSize) {
    forall v, v' :: 1 <= v < v' <= m ==> HashPqa(v, fd, size) != HashPqa(v', fd, size)
  }

  lemma ColumnShared(fd: nat, v: nat, v': nat, size: TableSize)
    ensures HashPqa(v, fd, size) == HashPqa(v', fd, size) <==> (31 * (v' - v)) % size == 0
  {
    PrimesSharedBucket(v, fd, v', fd, size);
    assert 31 * (v' - v) + 37 * (fd - fd) == 31 * (v' - v);
  }

  lemma DivisorOf31(g: nat)
    requires g > 0 && 31 % g == 0
    ensures g == 1 || g == 31
  {
    var q := 31 / g;
    assert 31 == g * q;
    if g > 31 {
      FactorSign(g, q - 1);
    }
  }

  /** 31 is prime: a size it does not divide is coprime to it. */
  lemma CoprimeTo31(size: TableSize)
    ensures Gcd(31, size) == 1 <==> size % 31 != 0
  {
    GcdDivides(31, size);
    var g := Gcd(31, size);
    DivisorOf31(g);
    if size % 31 == 0 && g == 1 {
      CoprimeCancel(31, size / 31, size);
      assert 31 * (size / 31) == size;
      MultipleOf(size, 1);
      SmallMultiple(size / 31, size);
    }
  }

  /** How many vrids in a row are free of collisions: all residues, or a thirty-first of them. */
  function Period(size: TableSize): nat {
    if size % 31 == 0 then size / 31 else size
  }

  lemma PeriodIsLeast(d: nat, size: TableSize)
    ensures (31 * d) % size == 0 <==> d % Period(size) == 0
  {
    CoprimeTo31(size);
    if size % 31 == 0 {
      var m := size / 31;
      assert size == 31 * m;
      ScaledMultiple(31, d, m);
    } else {
      if (31 * d) % size == 0 {
        CoprimeCancel(31, d, size);
      }
      if d % size == 0 {
        assert 31 * d == size * (31 * (d / size)) by { assert d == size * (d / size); MulSwap(31, size, d / size); }
        MultipleOf(size, 31 * (d / size));
      }
    }
  }

  lemma ScaledMultiple(k: nat, d: nat, m: nat)
    requires k > 0 && m > 0
    ensures (k * d) % (k * m) == 0 <==> d % m == 0
  {
    FactorSign(k, m);
    if d % m == 0 {
      var q := d / m;
      assert d == m * q;
      MulAssoc(k, m, q);
      MultipleOf(k * m, q);
    }
    if (k * d) % (k * m) == 0 {
      var q := (k * d) / (k * m);
      assert k * d == (k * m) * q;
      MulAssoc(k, m, q);
      MulSub(k, d, m * q);
      FactorSign(k, d - m * q);
      MultipleOf(m, q);
    }
  }

  /** The vrids of one descriptor never collide exactly when there are no more of them than the period. */
  lemma ColumnInjectiveIff(fd: nat, m: nat, size: TableSize)
    ensures ColumnInjective(fd, m, size) <==> m <= Period(size)
  {
    var n := Period(size);
    if m <= n {
      forall v, v' | 1 <= v < v' <= m
        ensures HashPqa(v, fd, size) != HashPqa(v', fd, size)
      {
        ColumnShared(fd, v, v', size);
        PeriodIsLeast(v' - v, size);
        if (v' - v) % n == 0 {
          SmallMultiple(v' - v, n);
        }
      }
    } else {
      ColumnShared(fd, 1, 1 + n, size);
      PeriodIsLeast(n, size);
      MultipleOf(n, 1);
      assert 1 <= 1 < 1 + n <= m;
    }
  }

  /** With as many vrids as buckets they are free of collisions exactly when the size is coprime to 31. */
  lemma FullColumnIff(fd: nat, size: TableSize)
    ensures ColumnInjective(fd, size, size) <==> Gcd(31, size) == 1
    ensures Gcd(31, size) == 1 ==> forall m: nat :: m <= size ==> ColumnInjective(fd, m, size)
  {
    ColumnInjectiveIff(fd, size, size);
    CoprimeTo31(size);
    forall m: nat | m <= size && Gcd(31, size) == 1
      ensures ColumnInjective(fd, m, size)
    {
      ColumnInjectiveIff(fd, m, size);
    }
  }

  // ----- what that means for a run of one descriptor

  /** Run over one descriptor, no bucket receives more than one entry exactly under the column condition. */
  lemma OneDescriptorIff(fd: nat, numVrid: nat, size: TableSize, step: int)
    requires step > 0
    ensures var p := Params(Primes, size, fd, 1, numVrid, step);
            (forall h :: 0 <= h < size ==> |Cells(p.Bucket, p.Rows(), numVrid, h)| <= 1) <==> numVrid <= Period(size)
  {
    var p := Params(Primes, size, fd, 1, numVrid, step);
    ColumnInjectiveIff(fd, numVrid, size);
    assert p.Fd(0) == fd;
    if ColumnInjective(fd, numVrid, size) {
      forall h | 0 <= h < size
        ensures |Cells(p.Bucket, p.Rows(), numVrid, h)| <= 1
      {
        SingleCell(p, h);
      }
    } else {
      var v, v' :| 1 <= v < v' <= numVrid && HashPqa(v, fd, size) == HashPqa(v', fd, size);
      TwoCells(p, v, v');
    }
  }

  lemma AtMostOne<T>(s: set<T>)
    requires forall x, y :: x in s && y in s ==> x == y
    ensures |s| <= 1
  {
    if s != {} {
      var x :| x in s;
      assert s == {x};
    }
  }

  lemma SingleCell(p: Params, h: int)
    requires p.kind == Primes && p.Rows() == 1 && ColumnInjective(p.Fd(0), p.numVrid, p.size)
    ensures |Cells(p.Bucket, p.Rows(), p.numVrid, h)| <= 1
  {
    var cells := Cells(p.Bucket, p.Rows(), p.numVrid, h);
    forall x, y | x in cells && y in cells
      ensures x == y
    {
      assert x.0 == 0 && y.0 == 0;
      assert HashPqa(x.1, p.Fd(0), p.size) == HashPqa(y.1, p.Fd(0), p.size);
      assert !(x.1 < y.1) && !(y.1 < x.1);
    }
    AtMostOne(cells);
  }

  lemma TwoCells(p: Params, v: nat, v': nat)
    requires p.kind == Primes && p.Rows() == 1 && p.Fd(0) >= 0 && 1 <= v < v' <= p.numVrid
    requires HashPqa(v, p.Fd(0), p.size) == HashPqa(v', p.Fd(0), p.size)
    ensures exists h :: 0 <= h < p.size && |Cells(p.Bucket, p.Rows(), p.numVrid, h)| > 1
  {
    var h := HashPqa(v, p.Fd(0), p.size);
    var cells := Cells(p.Bucket, p.Rows(), p.numVrid, h);
    assert p.Bucket(0, v) == h && p.Bucket(0, v') == h;
    assert (0, v) in cells && (0, v') in cells;
    var two := {(0, v as int), (0, v' as int)};
    assert |two| == 2;
    SubsetSize(two, cells);
    assert 0 <= h < p.size;
  }

  lemma SubsetSize<T>(a: set<T>, b: set<T>)
    requires a <= b
    ensures |a| <= |b|
  {
    assert b == a + (b - a);
  }
}

/** Exactly when a row of the pairing hash is free of collisions, for every step. */
module HashRows {
  import opened NumberTheory
  import opened Counting
  import opened HashStudy

  lemma OddProduct(a: int, b: int)
    requires a % 2 == 1 && b % 2 == 1
    ensures (a * b) % 2 == 1
  {
    var h := a / 2;
    assert a == 2 * h + 1;
    assert a * b == 2 * (h * b) + b;
  }

  lemma EvenProduct(a: int, b: int)
    requires b % 2 == 0
    ensures (a * b) % 2 == 0
  {
    var h := b / 2;
    assert a * b == 2 * (a * h);
  }

  lemma InverseEvenStep(a: int, x: int, half: int, q: int)
    requires a * x == 1 + half * (2 * q)
    ensures a * x == 1 + (2 * half) * q
  {
    MulSwap(half, 2, q);
    MulAssoc(2, half, q);
  }

  lemma InverseOddStep(a: int, x: int, half: int, q': int, q: int)
    requires a * x == 1 + half * q' && q' + a == 2 * q
    ensures a * (x + half) == 1 + (2 * half) * q
  {
    MulAdd(a, x, half);
    MulAdd(half, q', a);
    assert a * half == half * a;
    assert half * (q' + a) == half * (2 * q);
    MulSwap(half, 2, q);
    MulAssoc(2, half, q);
  }

  /** An odd number has an inverse modulo every power of two. */
  lemma {:induction false} OddInverse(a: int, j: nat) returns (x: int, q: int)
    requires a % 2 == 1
    ensures a * x == 1 + Pow2(j) * q
    decreases j
  {
    if j == 0 {
      x, q := 0, -1;
    } else {
      var half := Pow2(j - 1);
      var x', q' := OddInverse(a, j - 1);
      if q' % 2 == 0 {
        x, q := x', q' / 2;
        InverseEvenStep(a, x, half, q);
      } else {
        x, q := x' + half, (q' + a) / 2;
        InverseOddStep(a, x', half, q', q);
      }
    }
  }

  /** Substituting m for minus c times the inverse leaves a multiple of n. */
  lemma SolveStep(a: int, c: int, x: int, n: int, q: int, m: int, r: int)
    requires a * x == 1 + n * q && m == -c * x - n * r
    ensures c + a * m == n * (-c * q - a * r)
  {
    MulSub(a, -c * x, n * r);
    MulSwap(a, -c, x);
    MulAdd(-c, 1, n * q);
    MulSwap(-c, n, q);
    MulSwap(a, n, r);
    MulSub(n, -c * q, a * r);
  }

  /** A congruence with an odd coefficient has a solution below the modulus. */
  lemma OddSolve(a: int, c: int, j: nat) returns (m: nat)
    requires a % 2 == 1
    ensures m < Pow2(j)
    ensures (c + a * m) % Pow2(j) == 0
  {
    var n := Pow2(j);
    var x, q := OddInverse(a, j);
    var r := (-c * x) / n;
    m := (-c * x) % n;
    SolveStep(a, c, x, n, q, m, r);
    MultipleOf(n, -c * q - a * r);
  }

  /** The sum a collision at two turns turns on. */
  function TurnSum(p: Params, vrid: int, m: int): int {
    2 * (vrid + p.beginFd) + 1 + p.step * m
  }

  lemma RowGap(p: Params, vrid: int, t: int, t': int)
    ensures 2 * (PairingCode(vrid, p.Fd(t')) - PairingCode(vrid, p.Fd(t)))
         == (p.step * (t' - t)) * TurnSum(p, vrid, t + t')
  {
    TriangleGap(vrid + p.Fd(t), vrid + p.Fd(t'));
    FdGap(p, t, t');
    assert p.Fd(t) + p.Fd(t') == 2 * p.beginFd + p.step * (t + t') by {
      assert t * p.step + t' * p.step == p.step * (t + t');
    }
  }

  /** Halving both sides of a divisibility. */
  lemma HalfMultiple(g: int, n: nat)
    requires n > 0
    ensures g % n == 0 <==> (2 * g) % (2 * n) == 0
  {
    if g % n == 0 {
      assert 2 * g == (2 * n) * (g / n) by { assert g == n * (g / n); }
      MultipleOf(2 * n, g / n);
    }
    if (2 * g) % (2 * n) == 0 {
      var q := (2 * g) / (2 * n);
      assert 2 * g == (2 * n) * q == 2 * (n * q);
      MultipleOf(n, q);
    }
  }

  lemma TurnSumParity(p: Params, vrid: int, m: int)
    requires p.step % 2 == 1
    ensures TurnSum(p, vrid, m) % 2 == 0 <==> m % 2 == 1
  {
    if m % 2 == 1 {
      OddProduct(p.step, m);
    } else {
      EvenProduct(p.step, m);
    }
  }

  lemma EvenOfPow2(n: int, j: nat)
    requires n % Pow2(j + 1) == 0
    ensures n % 2 == 0
  {
    var q := n / Pow2(j + 1);
    assert n == 2 * (Pow2(j) * q);
  }

  lemma FactorMultiple(a: int, b: int, n: nat)
    requires n > 0 && b % n == 0
    ensures (a * b) % n == 0
  {
    var q := b / n;
    assert a * b == n * (a * q) by { assert b == n * q; }
    MultipleOf(n, a * q);
  }

  /** With an odd step, the product at two turns within the table is a multiple exactly when the sum is. */
  lemma OnlySumMatters(step: int, d: int, sum: int, k: nat)
    requires step % 2 == 1 && 0 < d < Pow2(k)
    requires sum % 2 == 0 <==> d % 2 == 1
    ensures ((step * d) * sum) % Pow2(k + 1) == 0 <==> sum % Pow2(k + 1) == 0
  {
    var n := Pow2(k + 1);
    if sum % n == 0 {
      FactorMultiple(step * d, sum, n);
    }
    if ((step * d) * sum) % n == 0 {
      if d % 2 == 1 {
        OddProduct(step, d);
        assert (step * d) * sum == sum * (step * d);
        OddCancel(sum, step * d, k + 1);
      } else {
        assert (step * d) * sum == step * (d * sum) by { MulAssoc(step, d, sum); }
        OddCancelTwice(d, step, sum, k + 1);
        SmallMultiple(d, n);
      }
    }
  }

  /** Two turns of a row with an odd step collide exactly when their sum is a multiple of twice the table size. */
  lemma OddStepCollision(p: Params, vrid: int, t: nat, t': nat, k: nat)
    requires p.kind == Pairing && vrid >= 0 && p.size == Pow2(k) && p.step % 2 == 1
    requires t < t' < Pow2(k)
    ensures p.Bucket(t, vrid) == p.Bucket(t', vrid) <==> TurnSum(p, vrid, t + t') % Pow2(k + 1) == 0
  {
    var gap := PairingCode(vrid, p.Fd(t')) - PairingCode(vrid, p.Fd(t));
    PairingSameBucket(p, vrid, t, t');
    RowGap(p, vrid, t, t');
    HalfMultiple(gap, p.size);
    TurnSumParity(p, vrid, t + t');
    OnlySumMatters(p.step, t' - t, TurnSum(p, vrid, t + t'), k);
  }

  /** Two turns with a given odd sum. */
  lemma TurnsWithSum(m: nat, n: nat) returns (t: nat, t': nat)
    requires m % 2 == 1 && m <= 2 * n - 3
    ensures t < t' < n && t + t' == m
  {
    t := if m < n then 0 else m - (n - 1);
    t' := m - t;
  }

  /** The one residue of an odd step that no two turns of a full table can meet. */
  ghost predicate Aligned(p: Params, vrid: int, k: nat) {
    (2 * (vrid + p.beginFd) + 1 - p.step) % Pow2(k + 1) == 0
  }

  lemma AlignedSum(p: Params, vrid: int, m: int, k: nat)
    requires p.step % 2 == 1 && Aligned(p, vrid, k)
    requires TurnSum(p, vrid, m) % Pow2(k + 1) == 0
    ensures (m + 1) % Pow2(k + 1) == 0
  {
    var n := Pow2(k + 1);
    var c := 2 * (vrid + p.beginFd) + 1;
    SameRemainder(c + p.step * m, c - p.step, n);
    assert (c + p.step * m) - (c - p.step) == (m + 1) * p.step;
    OddCancel(m + 1, p.step, k + 1);
  }

  lemma OddStepInjective(p: Params, vrid: int, k: nat)
    requires p.kind == Pairing && vrid >= 0 && p.size == Pow2(k) == p.numFd && p.step > 0 && p.step % 2 == 1
    requires Aligned(p, vrid, k)
    ensures RowInjective(p.Bucket, p.Rows(), vrid)
  {
    forall t, t' | 0 <= t < t' < p.Rows()
      ensures p.Bucket(t, vrid) != p.Bucket(t', vrid)
    {
      OddStepCollision(p, vrid, t, t', k);
      if p.Bucket(t, vrid) == p.Bucket(t', vrid) {
        AlignedSum(p, vrid, t + t', k);
        SmallMultiple(t + t' + 1, Pow2(k + 1));
      }
    }
  }

  /** The solution n - 1 would mean that the step is aligned. */
  lemma LastSolution(c: int, step: int, n: nat)
    requires n > 0 && (c + step * (n - 1)) % n == 0
    ensures (c - step) % n == 0
  {
    MulSub(step, n, 1);
    assert c + step * (n - 1) == (c - step) + n * step;
    MultipleOf(n, step);
    SameRemainder(c + step * (n - 1), c - step, n);
  }

  lemma SolutionIsOdd(p: Params, vrid: int, m: int, k: nat)
    requires p.step % 2 == 1 && TurnSum(p, vrid, m) % Pow2(k + 1) == 0
    ensures m % 2 == 1
  {
    EvenOfPow2(TurnSum(p, vrid, m), k);
    TurnSumParity(p, vrid, m);
  }

  lemma CollidingSum(p: Params, vrid: int, k: nat) returns (m: nat)
    requires p.step % 2 == 1 && !Aligned(p, vrid, k)
    ensures TurnSum(p, vrid, m) % Pow2(k + 1) == 0
    ensures m % 2 == 1 && m <= 2 * Pow2(k) - 3
  {
    var c := 2 * (vrid + p.beginFd) + 1;
    m := OddSolve(p.step, c, k + 1);
    SolutionIsOdd(p, vrid, m, k);
    if m == Pow2(k + 1) - 1 {
      LastSolution(c, p.step, Pow2(k + 1));
    }
  }

  lemma OddStepCollides(p: Params, vrid: int, k: nat) returns (t: nat, t': nat)
    requires p.kind == Pairing && vrid >= 0 && p.size == Pow2(k) && p.step > 0 && p.step % 2 == 1
    requires !Aligned(p, vrid, k)
    ensures t < t' < Pow2(k) && p.Bucket(t, vrid) == p.Bucket(t', vrid)
  {
    var m := CollidingSum(p, vrid, k);
    t, t' := TurnsWithSum(m, Pow2(k));
    OddStepCollision(p, vrid, t, t', k);
  }

  /**
   Over a full power-of-two table a row is collision free exactly when the step
   is twice an odd number, or is odd and congruent to 2 * (vrid + begin_fd) + 1
   modulo twice the table size; a table of one bucket has one turn only.
   */
  lemma PairingRowInjectiveIff(p: Params, vrid: int, k: nat)
    requires p.kind == Pairing && vrid >= 0
    requires p.size == Pow2(k) == p.numFd && p.step > 0
    ensures RowInjective(p.Bucket, p.Rows(), vrid)
       <==> k == 0 || p.step % 4 == 2 || (p.step % 2 == 1 && Aligned(p, vrid, k))
  {
    if p.step % 4 == 2 {
      PairingRowInjective(p, vrid, k);
    } else if p.step % 2 == 1 {
      if Aligned(p, vrid, k) {
        OddStepInjective(p, vrid, k);
      } else {
        var t, t' := OddStepCollides(p, vrid, k);
        assert 0 <= t < t' < p.Rows();
      }
    } else if k > 0 {
      PairingRowCollides(p, vrid, k);
      assert 0 <= 0 < Pow2(k - 1) < p.Rows();
    }
  }
}

/** Divisibility facts used by the hash study: congruence, Euclid's lemma and powers of two. */
module NumberTheory {

  lemma {:induction false} ModUnique(a: int, n: int, q: int, r: int)
    requires n > 0 && 0 <= r < n
    requires a == n * q + r
    ensures a % n == r && a / n == q
  {
    var q', r' := a / n, a % n;
    assert n * (q - q') == r' - r;
    if q > q' {
      assert n * (q - q') >= n by { MulAtLeast(n, q - q'); }
    } else if q < q' {
      assert n * (q' - q) >= n by { MulAtLeast(n, q' - q); }
    }
  }

  lemma MulAtLeast(n: int, k: int)
    requires n > 0 && k > 0
    ensures n * k >= n
  {
  }

  /** Two numbers leave the same remainder exactly when the divisor divides their difference. */
  lemma SameRemainder(a: int, b: int, n: int)
    requires n > 0
    ensures a % n == b % n <==> (a - b) % n == 0
  {
    if a % n == b % n {
      assert a - b == n * (a / n - b / n) + 0;
      ModUnique(a - b, n, a / n - b / n, 0);
    }
    if (a - b) % n == 0 {
      var q := (a - b) / n;
      assert a == n * (q + b / n) + b % n;
      ModUnique(a, n, q + b / n, b % n);
    }
  }

  lemma MultipleOf(n: int, q: int)
    requires n > 0
    ensures (n * q) % n == 0
  {
    ModUnique(n * q, n, q, 0);
  }

  /** A multiple of n strictly between -n and n is zero. */
  lemma SmallMultiple(d: int, n: int)
    requires n > 0 && -n < d < n && d % n == 0
    ensures d == 0
  {
    var q := d / n;
    assert d == n * q;
    if q > 0 {
      MulAtLeast(n, q);
    } else if q < 0 {
      MulAtLeast(n, -q);
    }
  }

  // ----- greatest common divisor

  /** Euclid's algorithm. */
  function Gcd(a: nat, b: nat): nat
    decreases b
  {
    if b == 0 then a else Gcd(b, a % b)
  }

  /** One step back up Euclid's algorithm. */
  lemma BezoutStep(a: int, b: int, q: int, r: int, x: int, y: int)
    requires a == q * b + r
    ensures a * y + b * (x - q * y) == b * x + r * y
  {
    MulSub(b, x, q * y);
    MulSwap(b, q, y);
    MulAssoc(q, b, y);
    MulSub(y, a, q * b);
    assert y * (a - q * b) == r * y;
    assert y * a == a * y && y * (q * b) == (q * b) * y;
  }

  lemma {:induction false} Bezout(a: nat, b: nat) returns (x: int, y: int)
    ensures a * x + b * y == Gcd(a, b)
    decreases b
  {
    if b == 0 {
      x, y := 1, 0;
    } else {
      var x', y' := Bezout(b, a % b);
      var q := a / b;
      x, y := y', x' - q * y';
      Divided(a, b);
      assert b * q == q * b;
      BezoutStep(a, b, q, a % b, x', y');
    }
  }

  /** A divisor of b and r divides any multiple of b plus r. */
  lemma DividesCombination(g: int, b: int, q: int, r: int)
    requires g > 0 && b % g == 0 && r % g == 0
    ensures (b * q + r) % g == 0
  {
    var m, n := b / g, r / g;
    MulAssoc(g, m, q);
    MulAdd(g, m * q, n);
    assert b * q + r == g * (m * q + n);
    MultipleOf(g, m * q + n);
  }

  lemma MulAssoc(a: int, b: int, c: int)
    ensures (a * b) * c == a * (b * c)
  {
  }

  lemma MulSwap(a: int, b: int, c: int)
    ensures a * (b * c) == b * (a * c)
  {
  }

  lemma MulSub(a: int, b: int, c: int)
    ensures a * b - a * c == a * (b - c)
  {
  }

  lemma MulAdd(a: int, b: int, c: int)
    ensures a * b + a * c == a * (b + c)
  {
  }

  lemma DividesBack(a: nat, b: nat, g: int)
    requires b > 0 && g > 0 && b % g == 0 && (a % b) % g == 0
    ensures a % g == 0
  {
    DividesCombination(g, b, a / b, a % b);
    Divided(a, b);
  }

  lemma Divided(a: nat, b: nat)
    requires b > 0
    ensures a == b * (a / b) + a % b
  {
  }

  lemma {:induction false} GcdDivides(a: nat, b: nat)
    requires a > 0 || b > 0
    ensures Gcd(a, b) > 0
    ensures a % Gcd(a, b) == 0 && b % Gcd(a, b) == 0
    decreases b
  {
    if b == 0 {
      MultipleOf(a, 1);
    } else {
      GcdDivides(b, a % b);
      DividesBack(a, b, Gcd(b, a % b));
    }
  }

  /** If a x + n y is one and a d is a multiple of n, so is d. */
  lemma CancelStep(a: int, d: int, n: int, x: int, y: int, q: int)
    requires a * x + n * y == 1 && a * d == n * q
    ensures d == n * (q * x + y * d)
  {
    MulAdd(d, a * x, n * y);
    MulSwap(d, a, x);
    MulSwap(a, d, x);
    MulSwap(d, n, y);
    assert (a * d) * x == (n * q) * x;
    MulAssoc(a, d, x);
    MulAssoc(n, q, x);
    MulAdd(n, q * x, d * y);
    assert d * y == y * d;
  }

  /** Euclid's lemma: a factor coprime to n may be cancelled from a product that n divides. */
  lemma CoprimeCancel(a: nat, d: int, n: nat)
    requires n > 0 && Gcd(a, n) == 1
    requires (a * d) % n == 0
    ensures d % n == 0
  {
    var x, y := Bezout(a, n);
    var q := (a * d) / n;
    CancelStep(a, d, n, x, y, q);
    MultipleOf(n, q * x + y * d);
  }

  // ----- powers of two

  function Pow2(k: nat): (p: nat)
    ensures p > 0
  {
    if k == 0 then 1 else 2 * Pow2(k - 1)
  }

  /** An odd factor may be cancelled from a product divisible by a power of two. */
  lemma {:induction false} OddCancel(d: int, odd: int, k: nat)
    requires odd % 2 == 1
    requires (d * odd) % Pow2(k) == 0
    ensures d % Pow2(k) == 0
    decreases k
  {
    if k > 0 {
      var half := Pow2(k - 1);
      var q := (d * odd) / Pow2(k);
      assert d * odd == 2 * (half * q);
      var o := odd / 2;
      assert d == 2 * (half * q - d * o) by {
        assert odd == 2 * o + 1;
        assert d * (2 * o + 1) == 2 * (d * o) + d;
      }
      var e := half * q - d * o;
      assert e * odd == half * q by { assert (2 * e) * odd == 2 * (e * odd); }
      MultipleOf(half, q);
      OddCancel(e, odd, k - 1);
      assert d == Pow2(k) * (e / half) + 0 by { assert e == half * (e / half); }
      ModUnique(d, Pow2(k), e / half, 0);
    }
  }

  lemma OddCancelTwice(d: int, half: int, odd: int, k: nat)
    requires half % 2 == 1 && odd % 2 == 1
    requires (half * (d * odd)) % Pow2(k) == 0
    ensures d % Pow2(k) == 0
  {
    assert half * (d * odd) == (d * odd) * half;
    OddCancel(d * odd, half, k);
    OddCancel(d, odd, k);
  }
}

/** Walking a table with a fixed stride: when the stride has an inverse, every slot is reached. */
module Probing {
  import opened Arithmetic

  /** The slot of probe `k`. */
  function Slot(start: nat, stride: nat, k: nat, n: nat): (i: nat)
    requires n > 0
    ensures i < n
  {
    (start + k * stride) % n
  }

  lemma SlotNext(start: nat, stride: nat, k: nat, n: nat)
    requires n > 0 && stride < n
    ensures var i := Slot(start, stride, k, n);
            Slot(start, stride, k + 1, n) == if i + stride >= n then i + stride - n else i + stride
  {
    var x := start + k * stride;
    var i := x % n;
    assert start + (k + 1) * stride == x + stride;
    assert x + stride == (i + stride) + (x / n) * n;
    ModAddMultiple(i + stride, x / n, n);
    if i + stride >= n {
      ModAddMultiple(i + stride - n, 1, n);
      DivModUnique(0, i + stride - n, n);
    } else {
      DivModUnique(0, i + stride, n);
    }
  }

  lemma SlotZero(start: nat, stride: nat, n: nat)
    requires start < n
    ensures Slot(start, stride, 0, n) == start
  {
    DivModUnique(0, start, n);
  }

  /** A walk whose stride is invertible reaches every slot. */
  lemma WalkReaches(start: nat, stride: nat, inverse: int, n: nat, target: nat) returns (k: nat)
    requires n > 1 && target < n && (stride * inverse) % n == 1
    ensures Slot(start, stride, k, n) == target
  {
    var gap := target - start;
    k := (gap * inverse) % n;
    var q, t := (gap * inverse) / n, (stride * inverse) / n;
    WalkArithmetic(start, stride, inverse, n, gap, k, q, t);
    ModAddMultiple(target, gap * t - q * stride, n);
    DivModUnique(0, target, n);
  }

  lemma WalkArithmetic(start: nat, stride: nat, inverse: int, n: nat, gap: int, k: nat, q: int, t: int)
    requires gap * inverse == q * n + k && stride * inverse == t * n + 1
    ensures start + k * stride == start + gap + (gap * t - q * stride) * n
  {
    calc {
      k * stride;
      (gap * inverse - q * n) * stride;
      gap * inverse * stride - q * n * stride;
      { assert gap * inverse * stride == gap * (stride * inverse); }
      gap * (t * n + 1) - q * n * stride;
      { assert gap * (t * n + 1) == gap * t * n + gap; assert q * n * stride == q * stride * n; }
      gap + (gap * t - q * stride) * n;
    }
  }

  /** The extended Euclidean algorithm. */
  lemma {:induction false} Bezout(a: nat, b: nat) returns (x: int, y: int, g: nat)
    requires a > 0
    ensures g > 0 && a * x + b * y == g && a % g == 0 && b % g == 0
    decreases b
  {
    if b == 0 {
      x, y, g := 1, 0, a;
      DivModUnique(1, 0, a);
      DivModUnique(0, 0, a);
    } else {
      var x', y', g' := Bezout(b, a % b);
      x, y, g := y', x' - (a / b) * y', g';
      var q, r := a / b, a % b;
      assert a == q * b + r;
      BezoutStep(a, b, q, r, x', y', g);
      var m, l := b / g, r / g;
      assert b == m * g && r == l * g;
      assert q * b == q * m * g;
      assert a == (q * m + l) * g + 0;
      DivModUnique(q * m + l, 0, g);
    }
  }

  lemma BezoutStep(a: nat, b: nat, q: int, r: int, x: int, y: int, g: int)
    requires a == q * b + r && b * x + r * y == g
    ensures a * y + b * (x - q * y) == g
  {
    assert a * y == q * b * y + r * y;
    assert b * (x - q * y) == b * x - b * (q * y);
    assert b * (q * y) == q * b * y;
  }

  /** A stride that shares no factor with the size has an inverse. */
  lemma Invertible(d: nat, n: nat) returns (inverse: int)
    requires d > 0 && n > 1
    requires forall g: nat :: g > 1 && d % g == 0 ==> n % g != 0
    ensures (d * inverse) % n == 1
  {
    var x, y, g := Bezout(d, n);
    assert g == 1;
    inverse := x;
    assert d * x == 1 + (-y) * n by { assert n * y == y * n; assert (-y) * n == -(y * n); }
    ModAddMultiple(1, -y, n);
    DivModUnique(0, 1, n);
  }

  // ----- primes -----

  ghost predicate Prime(p: nat) {
    p >= 2 && forall m :: 2 <= m < p ==> p % m != 0
  }

  /** Trial division up to the square root is enough. */
  lemma TrialDivision(n: nat, root: nat)
    requires 2 <= root && n >= 2 && n < root * root && forall m :: 2 <= m < root ==> n % m != 0
    ensures Prime(n)
  {
    forall m | 2 <= m < n ensures n % m != 0 {
      if m >= root && n % m == 0 {
        var q := n / m;
        assert n == q * m;
        Cofactor(n, m, q, root);
        assert n == m * q + 0;
        DivModUnique(m, 0, q);
        assert false;
      }
    }
  }

  lemma Cofactor(n: nat, m: nat, q: int, root: nat)
    requires n == q * m && 0 < root <= m < n && n < root * root
    ensures 2 <= q < root
  {
    assert q * m == (q - root) * m + root * m;
    assert root * m == root * root + root * (m - root);
    assert root * (m - root) >= 0 by {
      if m > root {
        FarMultiple(m - root, root);
      }
    }
    if q > root {
      FarMultiple(q - root, m);
    }
    assert q < root;
    if q <= 1 {
      if q < 0 { FarMultiple(q, m); }
      assert false;
    }
  }

  lemma InvertiblePrime(d: nat, p: nat) returns (inverse: int)
    requires Prime(p) && 0 < d < p
    ensures (d * inverse) % p == 1
  {
    forall g: nat | g > 1 && d % g == 0 ensures p % g != 0 {
      assert g <= d by {
        if g > d {
          DivModUnique(0, d, g);
          assert false;
        }
      }
    }
    inverse := Invertible(d, p);
  }

  // ----- odd strides over a power of two -----

  lemma {:induction false} OddDivisor(g: nat, m: nat)
    requires g % 2 == 1 && Pow2(m) % g == 0
    ensures g == 1
  {
    var q := Pow2(m) / g;
    assert Pow2(m) == q * g;
    if m == 0 {
      if g > 1 {
        DivModUnique(0, 1, g);
        assert false;
      }
    } else {
      var h, r := q / 2, q % 2;
      var k := g / 2;
      assert g == 2 * k + 1;
      assert q * g == 2 * (q * k) + q;
      assert r == 0;
      assert q * g == 2 * (h * g);
      assert Pow2(m - 1) == h * g + 0;
      DivModUnique(h, 0, g);
      OddDivisor(g, m - 1);
    }
  }

  lemma InvertibleOdd(d: nat, m: nat) returns (inverse: int)
    requires d % 2 == 1 && m > 0
    ensures (d * inverse) % Pow2(m) == 1
  {
    forall g: nat | g > 1 && d % g == 0 ensures Pow2(m) % g != 0 {
      var q := d / g;
      assert d == q * g;
      assert g % 2 == 0 ==> q * g == 2 * (q * (g / 2)) by {
        assert g % 2 == 0 ==> g == 2 * (g / 2);
      }
      assert g % 2 == 1;
      if Pow2(m) % g == 0 {
        OddDivisor(g, m);
      }
    }
    inverse := Invertible(d, Pow2(m));
  }
}

/** Powers of two, C's truncating division, and walks through a table with a fixed stride. */
module Arithmetic {

  function Pow2(n: nat): (r: nat)
    ensures r >= 1
  {
    if n == 0 then 1 else 2 * Pow2(n - 1)
  }

  lemma {:induction false} Pow2Add(a: nat, b: nat)
    ensures Pow2(a + b) == Pow2(a) * Pow2(b)
  {
    if a == 0 {
    } else {
      Pow2Add(a - 1, b);
      assert Pow2(a + b) == 2 * Pow2(a - 1 + b);
    }
  }

  lemma {:induction false} Pow2Monotone(a: nat, b: nat)
    requires a <= b
    ensures Pow2(a) <= Pow2(b)
  {
    if a < b {
      Pow2Monotone(a, b - 1);
    }
  }

  lemma Pow2Values()
    ensures Pow2(9) == 512 && Pow2(10) == 1024 && Pow2(11) == 2048 && Pow2(12) == 4096
    ensures Pow2(13) == 8192 && Pow2(14) == 16384 && Pow2(15) == 32768 && Pow2(16) == 65536
  {
    assert Pow2(8) == 256;
  }

  lemma FarMultiple(a: int, d: int)
    requires d > 0
    ensures a >= 1 ==> a * d >= d
    ensures a <= -1 ==> a * d <= -d
  {
    assert a >= 1 ==> (a - 1) * d >= 0;
    assert a <= -1 ==> (-1 - a) * d >= 0;
  }

  /** Quotient and remainder recombine, and each is recovered from the combination. */
  lemma DivModUnique(q: int, r: int, d: int)
    requires 0 <= r < d
    ensures (q * d + r) / d == q && (q * d + r) % d == r
  {
    var x := q * d + r;
    var k, m := x / d, x % d;
    assert x == k * d + m;
    assert (k - q) * d == k * d - q * d;
    if k != q {
      FarMultiple(k - q, d);
      assert false;
    }
  }

  lemma ModAddMultiple(x: int, z: int, d: int)
    requires d > 0
    ensures (x + z * d) % d == x % d
  {
    assert x + z * d == (x / d + z) * d + x % d;
    DivModUnique(x / d + z, x % d, d);
  }

  lemma DivBound(x: nat, a: int, b: int)
    requires a > 0 && x < a * b
    ensures x / a < b
  {
    var q := x / a;
    assert x == q * a + x % a;
    assert (q - b) * a == q * a - b * a;
    if q >= b {
      if q != b {
        FarMultiple(q - b, a);
      }
      assert false;
    }
  }

  lemma ProductLess(x: nat, y: nat, a: nat, b: nat)
    requires x < a && y < b
    ensures x + y * a < a * b
  {
    assert (b - 1 - y) * a >= 0;
    assert (b - 1 - y) * a == a * b - a - y * a;
  }

  lemma ModOfMod(x: nat, y: int, m: nat, q: nat)
    requires m > 0 && q > 0 && m * q > 0
    ensures (x % (m * q) + y * (m * q)) % q == x % q
  {
    var k := x / (m * q);
    var z := (y - k) * m;
    assert x == k * (m * q) + x % (m * q);
    assert z * q == (y - k) * (m * q);
    assert (y - k) * (m * q) == y * (m * q) - k * (m * q);
    ModAddMultiple(x, z, q);
  }

  // ----- the shifts and masks of C, on numbers -----

  /** `x << k` */
  function Shl(x: nat, k: nat): (r: nat) {
    x * Pow2(k)
  }

  lemma DivNonNegative(x: nat, d: int)
    requires d > 0
    ensures x / d >= 0
  {
    var q := x / d;
    assert x == q * d + x % d;
    if q < 0 {
      FarMultiple(q, d);
      assert false;
    }
  }

  /** `x >> k` */
  function Shr(x: nat, k: nat): (r: nat) {
    DivNonNegative(x, Pow2(k));
    x / Pow2(k)
  }

  /** The low `k` bits of `x`. */
  function Low(x: nat, k: nat): (r: nat)
    ensures r < Pow2(k)
  {
    x % Pow2(k)
  }

  lemma ByteShift(x: nat)
    ensures Shr(x, 8) == x / 256 && Low(x, 8) == x % 256
  {
    assert Pow2(8) == 256;
  }

  lemma ShrLow(x: nat, k: nat)
    ensures x == Low(x, k) + Shl(Shr(x, k), k)
  {
  }

  /** A number is put together from its low bits and the rest. */
  lemma Join(low: nat, high: nat, k: nat)
    requires low < Pow2(k)
    ensures Shr(low + Shl(high, k), k) == high && Low(low + Shl(high, k), k) == low
  {
    DivModUnique(high, low, Pow2(k));
  }

  lemma ShlShl(x: nat, a: nat, b: nat)
    ensures Shl(Shl(x, a), b) == Shl(x, a + b)
  {
    Pow2Add(a, b);
    assert x * Pow2(a) * Pow2(b) == x * (Pow2(a) * Pow2(b));
  }

  lemma ShlAdd(x: nat, y: nat, k: nat)
    ensures Shl(x + y, k) == Shl(x, k) + Shl(y, k)
  {
  }

  lemma ShrBelow(x: nat, a: nat, b: nat)
    requires x < Pow2(a + b)
    ensures Shr(x, a) < Pow2(b)
  {
    Pow2Add(a, b);
    DivBound(x, Pow2(a), Pow2(b));
  }

  lemma JoinBelow(low: nat, high: nat, a: nat, b: nat)
    requires low < Pow2(a) && high < Pow2(b)
    ensures low + Shl(high, a) < Pow2(a + b)
  {
    Pow2Add(a, b);
    ProductLess(low, high, Pow2(a), Pow2(b));
  }

  lemma LowBelow(x: nat, k: nat)
    requires x < Pow2(k)
    ensures Low(x, k) == x
  {
    DivModUnique(0, x, Pow2(k));
  }

  /** Whatever sits above bit `s`, the low `t <= s` bits are those of `x`. */
  lemma LowOfJoin(x: nat, y: nat, s: nat, t: nat)
    requires t <= s
    ensures Low(Low(x, s) + Shl(y, s), t) == Low(x, t)
  {
    Pow2Add(s - t, t);
    ModOfMod(x, y, Pow2(s - t), Pow2(t));
  }

  lemma ShrTwice(x: nat, a: nat, b: nat)
    ensures Shr(Shr(x, a), b) == Shr(x, a + b)
  {
    hide Pow2;
    Pow2Add(a, b);
    var (p, q) := (Pow2(a), Pow2(b));
    var (y, r) := (x / p, x % p);
    var (z, s) := (y / q, y % q);
    assert x == (z * q + s) * p + r;
    assert (z * q + s) * p == z * (q * p) + s * p;
    ProductLess(r, s, p, q);
    DivModUnique(z, s * p + r, q * p);
    assert q * p == p * q;
  }
}

/** Integer stand-ins for the floating-point `pow(2, i)` and `std::log2` calls
    of the simulator, and the division facts the address decoder rests on. */
module Bits {

  /** 2^k: the value `pow(2, k)` is cast to when a bit string is read. */
  function Pow2(k: nat): (r: nat)
    ensures r >= 1
  {
    if k == 0 then 1 else 2 * Pow2(k - 1)
  }

  lemma {:induction false} Pow2Add(a: nat, b: nat)
    ensures Pow2(a + b) == Pow2(a) * Pow2(b)
  {
    if b > 0 {
      Pow2Add(a, b - 1);
      calc {
        Pow2(a + b);
        2 * Pow2(a + b - 1);
        2 * (Pow2(a) * Pow2(b - 1));
        Pow2(a) * (2 * Pow2(b - 1));
        Pow2(a) * Pow2(b);
      }
    }
  }

  lemma {:induction false} Pow2Monotone(a: nat, b: nat)
    requires a <= b
    ensures Pow2(a) <= Pow2(b)
  {
    if a < b {
      Pow2Monotone(a, b - 1);
    }
  }

  /** `(size_t)std::log2(n)` for n >= 1: the exponent of the largest power of
      two not above n (exact when n is a power of two). */
  function FloorLog2(n: nat): (k: nat)
    requires n >= 1
    ensures Pow2(k) <= n < Pow2(k + 1)
  {
    if n < 2 then 0 else 1 + FloorLog2(n / 2)
  }

  lemma {:induction false} FloorLog2Monotone(a: nat, b: nat)
    requires 1 <= a <= b
    ensures FloorLog2(a) <= FloorLog2(b)
  {
    if FloorLog2(b) < FloorLog2(a) {
      Pow2Monotone(FloorLog2(b) + 1, FloorLog2(a));
    }
  }

  lemma {:induction false} FloorLog2OfPow2(k: nat)
    ensures FloorLog2(Pow2(k)) == k
  {
    var n := Pow2(k);
    var m := FloorLog2(n);
    assert Pow2(m) <= n < Pow2(m + 1);
    if m < k {
      Pow2Monotone(m + 1, k);
      assert false;
    } else if m > k {
      Pow2Monotone(k + 1, m);
      assert false;
    }
  }

  lemma {:induction false} MulAtLeast(a: int, m: int)
    requires a >= 1 && m >= 0
    ensures a * m >= m
  {
    if a > 1 {
      MulAtLeast(a - 1, m);
      assert a * m == (a - 1) * m + m;
    }
  }

  /** Euclidean division is unique: q * m + r splits back into q and r. */
  lemma {:induction false} DivModUnique(q: int, m: int, r: int)
    requires m > 0 && 0 <= r < m
    ensures (q * m + r) / m == q
    ensures (q * m + r) % m == r
  {
    var n := q * m + r;
    var d, e := n / m, n % m;
    assert d * m + e == q * m + r;
    assert (d - q) * m == r - e;
    if d > q {
      MulAtLeast(d - q, m);
    } else if d < q {
      MulAtLeast(q - d, m);
    }
  }

  lemma MulMonotone(x: int, y: int, a: int)
    requires x <= y && a >= 0
    ensures x * a <= y * a
  {
  }

  /** Dividing by a and then by b is dividing by a * b. */
  lemma DivDiv(v: nat, a: nat, b: nat)
    requires a >= 1 && b >= 1
    ensures v / a / b == v / (a * b)
  {
    var q1, r1 := v / a, v % a;
    var q2, r2 := q1 / b, q1 % b;
    assert v == q1 * a + r1;
    assert q1 == q2 * b + r2;
    assert q1 * a == q2 * (a * b) + r2 * a by {
      assert (q2 * b + r2) * a == q2 * b * a + r2 * a;
      assert q2 * b * a == q2 * (a * b);
    }
    MulMonotone(r2, b - 1, a);
    assert (b - 1) * a == a * b - a;
    DivModUnique(q2, a * b, r2 * a + r1);
  }

  /** A quotient of at least one means the dividend is at least the divisor. */
  lemma QuotientAtLeastOne(c: nat, d: nat)
    requires d >= 1 && c / d >= 1
    ensures c >= d
  {
    assert c == (c / d) * d + c % d;
    MulAtLeast(c / d, d);
  }

  /** A factor of a divisor that goes into c at least once is at most c. */
  lemma FactorAtMost(a: nat, l: nat, c: nat)
    requires a >= 1 && l >= 1 && c / (a * l) >= 1
    ensures a <= c
  {
    QuotientAtLeastOne(c, a * l);
    MulAtLeast(l, a);
    assert l * a == a * l;
  }

  /** Reducing modulo m * n and then modulo m is reducing modulo m. */
  lemma ModMod(x: int, m: nat, n: nat)
    requires m >= 1 && n >= 1
    ensures (x % (m * n)) % m == x % m
  {
    var q, r := x / (m * n), x % (m * n);
    assert x == q * (m * n) + r;
    assert r == (r / m) * m + r % m;
    assert x == (q * n + r / m) * m + r % m by {
      assert q * (m * n) == (q * n) * m;
    }
    DivModUnique(q * n + r / m, m, r % m);
  }

  /** A number splits into its part above a * b, its middle digit in base b
      above a, and its remainder modulo a. */
  lemma SplitDigits(v: nat, a: nat, b: nat)
    requires a >= 1 && b >= 1
    ensures v == (v / (a * b)) * (a * b) + ((v / a) % b) * a + v % a
  {
    var q1 := v / a;
    var hi, mid := q1 / b, q1 % b;
    assert v == q1 * a + v % a;
    assert q1 == hi * b + mid;
    DivDiv(v, a, b);
    assert q1 * a == hi * (a * b) + mid * a by {
      assert (hi * b + mid) * a == hi * b * a + mid * a;
      assert hi * b * a == hi * (a * b);
    }
  }
}

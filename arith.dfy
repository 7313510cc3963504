/** Powers of two and the division facts the word-level proofs rest on. */
module Arith {

  function Pow2(n: nat): (r: nat)
    ensures r >= 1
  {
    if n == 0 then 1 else 2 * Pow2(n - 1)
  }

  lemma {:induction false} Pow2Add(a: nat, b: nat)
    ensures Pow2(a + b) == Pow2(a) * Pow2(b)
  {
    if a > 0 {
      Pow2Add(a - 1, b);
      assert Pow2(a + b) == 2 * Pow2(a - 1 + b);
    }
  }

  lemma {:induction false} Pow2Strict(a: nat, b: nat)
    requires a < b
    ensures Pow2(a) < Pow2(b)
  {
    if a + 1 < b {
      Pow2Strict(a, b - 1);
    }
  }

  lemma Pow2Mono(a: nat, b: nat)
    requires a <= b
    ensures Pow2(a) <= Pow2(b)
  {
    if a < b {
      Pow2Strict(a, b);
    }
  }

  /** A larger power of two is a multiple of a smaller one. */
  lemma Pow2Divides(a: nat, b: nat)
    requires a <= b
    ensures Pow2(b) == Pow2(a) * Pow2(b - a)
    ensures Pow2(b) % Pow2(a) == 0
  {
    var p, q := Pow2(a), Pow2(b - a);
    Pow2Add(a, b - a);
    assert Pow2(b) == p * q;
    DivModUnique(p * q, p, q, 0);
  }

  lemma Pow2Of16()
    ensures Pow2(16) == 0x1_0000
  {
    assert Pow2(8) == 0x100;
    Pow2Add(8, 8);
  }

  lemma Pow2Of32()
    ensures Pow2(32) == 0x1_0000_0000
  {
    Pow2Of16();
    Pow2Add(16, 16);
  }

  lemma Pow2Of48()
    ensures Pow2(48) == 0x1_0000_0000_0000
  {
    Pow2Of16();
    Pow2Of32();
    Pow2Add(32, 16);
  }

  lemma Pow2Of64()
    ensures Pow2(64) == 0x1_0000_0000_0000_0000
  {
    Pow2Of32();
    Pow2Add(32, 32);
  }

  lemma Pow2Of128()
    ensures Pow2(128) == 0x1_0000_0000_0000_0000 * 0x1_0000_0000_0000_0000
  {
    Pow2Of64();
    Pow2Add(64, 64);
  }

  lemma MulPos(k: int, d: int)
    requires d > 0
    ensures k >= 1 ==> k * d >= d
    ensures k <= -1 ==> k * d <= -d
  {
    if k >= 1 {
      assert (k - 1) * d >= 0;
    } else if k <= -1 {
      assert (-k - 1) * d >= 0;
    }
  }

  /** Euclidean division is determined by quotient and remainder. */
  lemma DivModUnique(x: int, d: int, q: int, r: int)
    requires d > 0
    requires x == q * d + r
    requires 0 <= r < d
    ensures x / d == q
    ensures x % d == r
  {
    var q0, r0 := x / d, x % d;
    assert (q - q0) * d == r0 - r;
    MulPos(q - q0, d);
  }

  lemma DivModOfMultiple(q: int, d: int)
    requires d > 0
    ensures (q * d) / d == q
    ensures (q * d) % d == 0
  {
    DivModUnique(q * d, d, q, 0);
  }

  lemma DivLe(x: nat, d: nat)
    requires d > 0
    ensures 0 <= x / d <= x
  {
    var q := x / d;
    assert x == q * d + x % d;
    if q >= 1 {
      MulPos(d, q);
    } else if q <= -1 {
      MulPos(q, d);
    }
  }

  lemma DivModBounds(x: nat, d: nat)
    requires d > 0
    ensures x / d <= x
    ensures x - x % d == d * (x / d)
  {
    var q := x / d;
    assert x == q * d + x % d;
    if q >= 1 {
      MulPos(d, q);
    }
  }

  /** Nested division. */
  lemma DivDiv(x: nat, a: nat, b: nat)
    requires a > 0 && b > 0
    ensures (x / a) / b == x / (a * b)
  {
    var q1, r1 := x / a, x % a;
    var q2, r2 := q1 / b, q1 % b;
    assert x == q2 * (a * b) + (r2 * a + r1);
    assert r2 * a + r1 < a * b by {
      MulPos(b - r2, a);
      assert (b - r2) * a == b * a - r2 * a;
    }
    DivModUnique(x, a * b, q2, r2 * a + r1);
  }

  /** Dividing a remainder: `(x mod ab) / a == (x / a) mod b`. */
  lemma ModDiv(x: nat, a: nat, b: nat)
    requires a > 0 && b > 0
    ensures (x % (a * b)) / a == (x / a) % b
    ensures (x % (a * b)) % a == x % a
    ensures x % (a * b) == ((x / a) % b) * a + x % a
  {
    var q1, r1 := x / a, x % a;
    var q2, r2 := q1 / b, q1 % b;
    assert x == q2 * (a * b) + (r2 * a + r1);
    assert r2 * a + r1 < a * b by {
      MulPos(b - r2, a);
      assert (b - r2) * a == b * a - r2 * a;
    }
    DivModUnique(x, a * b, q2, r2 * a + r1);
    DivModUnique(r2 * a + r1, a, r2, r1);
  }

  /** A multiple of `a` taken modulo `a * b`. */
  lemma MulMod(x: nat, a: nat, b: nat)
    requires a > 0 && b > 0
    ensures (x * a) % (a * b) == (x % b) * a
    ensures (x * a) / a == x
  {
    var q, r := x / b, x % b;
    assert x * a == q * (a * b) + r * a;
    assert r * a < a * b by {
      MulPos(b - r, a);
      assert (b - r) * a == b * a - r * a;
    }
    DivModUnique(x * a, a * b, q, r * a);
    DivModOfMultiple(x, a);
  }

  /** Removing a common factor from a division. */
  lemma MulDivCancel(x: nat, a: nat, b: nat)
    requires a > 0 && b > 0
    ensures (x * a) / (a * b) == x / b
  {
    var q, r := x / b, x % b;
    assert x * a == q * (a * b) + r * a;
    assert r * a < a * b by {
      MulPos(b - r, a);
      assert (b - r) * a == b * a - r * a;
    }
    DivModUnique(x * a, a * b, q, r * a);
  }

  /** A two-digit number in base `w`. */
  lemma Digits(h: nat, l: nat, w: nat)
    requires l < w
    ensures (h * w + l) / w == h
    ensures (h * w + l) % w == l
  {
    DivModUnique(h * w + l, w, h, l);
  }

  /** The bits below `2^s` of a two-digit number whose low digit spans `w = p * q`. */
  lemma DigitsMod(h: nat, l: nat, w: nat, p: nat, q: nat)
    requires p > 0 && q > 0
    requires w == p * q && l < w
    ensures (h * w + l) % p == l % p
  {
    assert h * w + l == (h * q + l / p) * p + l % p by {
      assert l == (l / p) * p + l % p;
      assert h * w == (h * q) * p;
    }
    DivModUnique(h * w + l, p, h * q + l / p, l % p);
  }

  /** Remainder of a two-digit number modulo a multiple of the low base. */
  lemma DigitsModHigh(h: nat, l: nat, w: nat, p: nat)
    requires w > 0 && p > 0
    requires l < w
    ensures (h * w + l) % (w * p) == (h % p) * w + l
    ensures (h * w + l) / (w * p) == h / p
  {
    var q, r := h / p, h % p;
    assert h * w + l == q * (w * p) + (r * w + l);
    assert r * w + l < w * p by {
      MulPos(p - r, w);
      assert (p - r) * w == p * w - r * w;
    }
    DivModUnique(h * w + l, w * p, q, r * w + l);
  }

  /** Splitting off the lowest binary digit. */
  lemma HalveMod(x: nat, p: nat)
    requires p > 0
    ensures x % (2 * p) == 2 * ((x / 2) % p) + x % 2
    ensures x / (2 * p) == (x / 2) / p
  {
    var h := x / 2;
    var q, r := h / p, h % p;
    assert x == q * (2 * p) + (2 * r + x % 2);
    assert 2 * r + x % 2 < 2 * p;
    DivModUnique(x, 2 * p, q, 2 * r + x % 2);
  }

  /** A value that is a multiple of `p` and below `p * m` is at most `p * m - p`. */
  lemma RoundDownBelow(x: nat, p: nat, m: nat)
    requires p > 0
    requires x < p * m
    ensures x - x % p + p <= p * m
  {
    var q := x / p;
    assert x == q * p + x % p;
    assert (m - q) * p == m * p - q * p;
    MulPos(m - q, p);
  }

  /** `x + 1` is a multiple of `p` exactly when `x` leaves the largest remainder. */
  lemma SuccMod(x: nat, p: nat)
    requires p > 0
    ensures (x + 1) % p == 0 <==> x % p == p - 1
  {
    var q, r := x / p, x % p;
    if r == p - 1 {
      DivModUnique(x + 1, p, q + 1, 0);
    } else {
      DivModUnique(x + 1, p, q, r + 1);
    }
  }

  /** Rounding down to a multiple of `p` leaves a multiple of `p`. */
  lemma RoundDownMod(x: nat, p: nat)
    requires p > 0
    ensures (x - x % p) % p == 0
    ensures x - x % p <= x
  {
    DivModBounds(x, p);
    DivModOfMultiple(x / p, p);
  }

  /**
   * `y` rounds down to the same multiple of `p` as `x` exactly when it lies
   * in the block `[x - x mod p, x - x mod p + p - 1]`.
   */
  lemma SameBlock(x: nat, y: nat, p: nat)
    requires p > 0
    ensures y - y % p == x - x % p <==> x - x % p <= y <= x - x % p + p - 1
  {
    var b := x - x % p;
    DivModBounds(x, p);
    DivModBounds(y, p);
    if b <= y <= b + p - 1 {
      DivModUnique(y, p, x / p, y - b);
    }
  }
}

/**
 * Java's 64-bit `long` as the library uses it.  A `Word` is the bit pattern
 * of a long read as an unsigned number in [0, 2^64); `Signed` gives the
 * two's-complement value Java compares and prints.  Every operator below
 * wraps around exactly as the JVM does, and shift distances are taken
 * modulo 64.
 */
module JavaLong {
  import opened Arith

  const W64: nat := 0x1_0000_0000_0000_0000
  const MinLong: int := -0x8000_0000_0000_0000
  const MaxLong: int := 0x7FFF_FFFF_FFFF_FFFF

  type Word = x: int | 0 <= x < W64

  /** A Java `long` value. */
  type Long = x: int | MinLong <= x <= MaxLong

  /** `0xFFFFFFFFFFFFFFFFL`, i.e. `-1L`. */
  const Ones: Word := W64 - 1

  lemma W64IsPow2()
    ensures Pow2(64) == W64
  {
    Pow2Of64();
  }

  /** The value Java sees in a word (two's complement). */
  function Signed(w: Word): (v: Long)
    ensures v < 0 <==> w >= W64 / 2
    ensures v % W64 == w
  {
    if w < W64 / 2 then w else w - W64
  }

  /** The bit pattern of an integer truncated to 64 bits (Java's implicit wrap-around). */
  function ToWord(v: int): (w: Word)
    ensures (v - w) % W64 == 0
  {
    v % W64
  }

  lemma SignedToWord(v: Long)
    ensures Signed(ToWord(v)) == v
  {
  }

  /** Java `x + v` on longs: the sum wraps around modulo 2^64. */
  function Plus(x: Word, v: int): (r: Word)
    ensures r == (x + v) % W64
  {
    ToWord(x + v)
  }

  /** Java `x << d`. */
  function ShiftLeft(x: Word, d: int): (r: Word)
    ensures r == (x * Pow2(d % 64)) % W64
  {
    (x * Pow2(d % 64)) % W64
  }

  /** Java `x >>> d`. */
  function UnsignedShiftRight(x: Word, d: int): (r: Word)
    ensures r == x / Pow2(d % 64)
  {
    var p := Pow2(d % 64);
    DivLe(x, p);
    x / p
  }

  /** Java `~x`. */
  function Not(x: Word): (r: Word)
    ensures r + x == Ones
  {
    Ones - x
  }

  /** Bit `i` of `x`, counted from the least significant. */
  predicate TestBit(x: int, i: nat)
  {
    (x / Pow2(i)) % 2 == 1
  }

  /** Java `x & y` on non-negative bit patterns. */
  function And(x: nat, y: nat): (r: nat)
    ensures r <= x && r <= y
  {
    if x == 0 || y == 0 then 0
    else 2 * And(x / 2, y / 2) + (if x % 2 == 1 && y % 2 == 1 then 1 else 0)
  }

  /** Java `x | y` on non-negative bit patterns. */
  function Or(x: nat, y: nat): nat
  {
    if x == 0 then y
    else if y == 0 then x
    else 2 * Or(x / 2, y / 2) + (if x % 2 == 1 || y % 2 == 1 then 1 else 0)
  }

  /** Java's `%` truncates toward zero, so the remainder takes the sign of `x`. */
  function JavaRemainder(x: int, y: int): (r: int)
    requires y > 0
    ensures x >= 0 ==> r == x % y
    ensures x < 0 ==> -y < r <= 0
  {
    if x >= 0 then x % y else -((-x) % y)
  }

  /** `Long.numberOfTrailingZeros` for the low `n` bits of `x`. */
  function TrailingZeros(x: nat, n: nat): (r: nat)
    ensures r <= n
  {
    if n == 0 || x % 2 == 1 then 0 else 1 + TrailingZeros(x / 2, n - 1)
  }

  /** `Long.numberOfLeadingZeros` for an `n`-bit pattern `x`. */
  function LeadingZeros(x: nat, n: nat): (r: nat)
    ensures r <= n
  {
    if n == 0 || x >= Pow2(n - 1) then 0 else 1 + LeadingZeros(x, n - 1)
  }

  /** `Long.numberOfTrailingZeros`: `x` is a multiple of `2^r` and of no higher power (64 for zero). */
  function NumberOfTrailingZeros(x: Word): (r: nat)
    ensures r <= 64
    ensures x % Pow2(r) == 0
    ensures r < 64 ==> x % Pow2(r + 1) != 0
  {
    var r := TrailingZeros(x, 64);
    TrailingZerosCount(x, 64, r);
    TrailingZerosCount(x, 64, if r < 64 then r + 1 else r);
    r
  }

  /** `Long.numberOfLeadingZeros`: `x` fits in `64 - r` bits and not in fewer. */
  function NumberOfLeadingZeros(x: Word): (r: nat)
    ensures r <= 64
    ensures x < Pow2(64 - r)
    ensures r < 64 ==> x >= Pow2(63 - r)
  {
    W64IsPow2();
    var r := LeadingZeros(x, 64);
    LeadingZerosCount(x, 64, r);
    LeadingZerosCount(x, 64, if r < 64 then r + 1 else r);
    r
  }

  // ---------------------------------------------------------------------
  // Bit-level facts

  /** At least `k` trailing zeros exactly when `x` is a multiple of `2^k`. */
  lemma {:induction false} TrailingZerosCount(x: nat, n: nat, k: nat)
    requires k <= n
    ensures TrailingZeros(x, n) >= k <==> x % Pow2(k) == 0
  {
    if k > 0 {
      TrailingZerosCount(x / 2, n - 1, k - 1);
      HalveMod(x, Pow2(k - 1));
    }
  }

  /** At least `k` leading zeros (of `n`) exactly when `x < 2^(n-k)`. */
  lemma {:induction false} LeadingZerosCount(x: nat, n: nat, k: nat)
    requires k <= n
    requires x < Pow2(n)
    ensures LeadingZeros(x, n) >= k <==> x < Pow2(n - k)
  {
    if k > 0 {
      if x < Pow2(n - 1) {
        LeadingZerosCount(x, n - 1, k - 1);
      } else {
        Pow2Mono(n - k, n - 1);
      }
    }
  }

  lemma AndStep(x: nat, y: nat)
    ensures And(x, y) == 2 * And(x / 2, y / 2) + (if x % 2 == 1 && y % 2 == 1 then 1 else 0)
  {
  }

  lemma OrStep(x: nat, y: nat)
    ensures Or(x, y) == 2 * Or(x / 2, y / 2) + (if x % 2 == 1 || y % 2 == 1 then 1 else 0)
  {
  }

  /** The pattern with bits `s .. n-1` set (built bit by bit, low bit first). */
  function RangeMask(n: nat, s: nat): nat
  {
    if n == 0 then 0
    else 2 * RangeMask(n - 1, if s == 0 then 0 else s - 1) + (if s == 0 then 1 else 0)
  }

  lemma {:induction false} RangeMaskValue(n: nat, s: nat)
    requires s <= n
    ensures RangeMask(n, s) == Pow2(n) - Pow2(s)
  {
    if n > 0 {
      if s == 0 {
        RangeMaskValue(n - 1, 0);
      } else {
        RangeMaskValue(n - 1, s - 1);
      }
    }
  }

  /** Bits `s .. n-1` of `x`, in place. */
  function KeepBits(x: nat, n: nat, s: nat): nat
  {
    if n == 0 then 0
    else 2 * KeepBits(x / 2, n - 1, if s == 0 then 0 else s - 1) + (if s == 0 then x % 2 else 0)
  }

  lemma {:induction false} KeepBitsZero(n: nat, s: nat)
    ensures KeepBits(0, n, s) == 0
  {
    if n > 0 {
      KeepBitsZero(n - 1, if s == 0 then 0 else s - 1);
    }
  }

  lemma {:induction false} KeepBitsValue(x: nat, n: nat, s: nat)
    requires s <= n
    ensures KeepBits(x, n, s) == x % Pow2(n) - x % Pow2(s)
  {
    if n > 0 {
      var h := x / 2;
      HalveMod(x, Pow2(n - 1));
      if s == 0 {
        KeepBitsValue(h, n - 1, 0);
      } else {
        KeepBitsValue(h, n - 1, s - 1);
        HalveMod(x, Pow2(s - 1));
      }
    }
  }

  /** And-ing with a range mask keeps the bits in that range. */
  lemma {:induction false} AndRangeMask(x: nat, n: nat, s: nat)
    ensures And(x, RangeMask(n, s)) == KeepBits(x, n, s)
  {
    if n > 0 {
      var s1 := if s == 0 then 0 else s - 1;
      AndRangeMask(x / 2, n - 1, s1);
      var m := RangeMask(n, s);
      assert m % 2 == (if s == 0 then 1 else 0) && m / 2 == RangeMask(n - 1, s1);
      if x == 0 {
        KeepBitsZero(n, s);
      }
    }
  }

  /** Masking with the bits `s .. n-1` set keeps exactly those bits of `x`. */
  lemma AndBitRange(x: nat, n: nat, s: nat)
    requires s <= n
    ensures And(x, RangeMask(n, s)) == x % Pow2(n) - x % Pow2(s)
  {
    AndRangeMask(x, n, s);
    KeepBitsValue(x, n, s);
  }

  /** The low `s` bits set. */
  function LowOnes(s: nat): nat
  {
    if s == 0 then 0 else 2 * LowOnes(s - 1) + 1
  }

  lemma {:induction false} LowOnesValue(s: nat)
    ensures LowOnes(s) == Pow2(s) - 1
  {
    if s > 0 {
      LowOnesValue(s - 1);
    }
  }

  /** `x` with its low `s` bits set. */
  function SetLow(x: nat, s: nat): nat
  {
    if s == 0 then x else 2 * SetLow(x / 2, s - 1) + 1
  }

  lemma {:induction false} OrSetLow(x: nat, s: nat)
    ensures Or(x, LowOnes(s)) == SetLow(x, s)
  {
    if s > 0 {
      OrSetLow(x / 2, s - 1);
      var m := LowOnes(s);
      assert m % 2 == 1 && m / 2 == LowOnes(s - 1);
    }
  }

  lemma {:induction false} SetLowValue(x: nat, s: nat)
    ensures SetLow(x, s) == x - x % Pow2(s) + Pow2(s) - 1
  {
    if s > 0 {
      SetLowValue(x / 2, s - 1);
      HalveMod(x, Pow2(s - 1));
    }
  }

  /** Or-ing the low `s` bits sets them and leaves the others. */
  lemma OrLowOnes(x: nat, s: nat, m: nat)
    requires m == Pow2(s) - 1
    ensures Or(x, m) == x - x % Pow2(s) + Pow2(s) - 1
  {
    LowOnesValue(s);
    OrSetLow(x, s);
    SetLowValue(x, s);
  }

  /** Or of two patterns without common bits is their sum. */
  lemma {:induction false} OrDisjoint(a: nat, b: nat, k: nat)
    requires a % Pow2(k) == 0
    requires b < Pow2(k)
    ensures Or(a, b) == a + b
  {
    if k > 0 {
      HalveMod(a, Pow2(k - 1));
      OrDisjoint(a / 2, b / 2, k - 1);
      OrStep(a, b);
    }
  }

  /** Or of two words is a word. */
  lemma OrWord(x: Word, y: Word)
    ensures Or(x, y) < W64
  {
    W64IsPow2();
    OrBound(x, y, 64);
  }

  /** Or stays within `n` bits. */
  lemma {:induction false} OrBound(x: nat, y: nat, n: nat)
    requires x < Pow2(n) && y < Pow2(n)
    ensures Or(x, y) < Pow2(n)
  {
    if x != 0 && y != 0 {
      OrBound(x / 2, y / 2, n - 1);
    }
  }

  lemma OnesTimes(p: int)
    requires 1 <= p <= W64
    ensures (Ones * p) % W64 == W64 - p
  {
    assert Ones * p == (p - 1) * W64 + (W64 - p);
    if p < W64 {
      DivModUnique(Ones * p, W64, p - 1, W64 - p);
    } else {
      DivModUnique(Ones * p, W64, p - 1, 0);
    }
  }

  /** `-1L << s` leaves ones above bit `s`. */
  lemma ShiftLeftOnes(s: int)
    requires 0 <= s < 64
    ensures ShiftLeft(Ones, s) == W64 - Pow2(s)
  {
    assert s % 64 == s by {
      DivModUnique(s, 64, 0, s);
    }
    assert 1 <= Pow2(s) <= W64 by {
      W64IsPow2();
      Pow2Strict(s, 64);
    }
    OnesTimes(Pow2(s));
  }

  lemma OnesDiv(p: nat, q: nat)
    requires p >= 1 && q >= 1
    requires p * q == W64
    ensures Ones / p == q - 1
  {
    assert (q - 1) * p == q * p - p;
    DivModUnique(Ones, p, q - 1, p - 1);
  }

  /** A left shift that pushes no one bit out is a multiplication. */
  lemma ShiftLeftNoWrap(x: Word, d: int, k: nat)
    requires d % 64 == k
    requires x * Pow2(k) < W64
    ensures ShiftLeft(x, d) == x * Pow2(k)
  {
    DivModUnique(x * Pow2(k), W64, 0, x * Pow2(k));
  }

  /** `-1L >>> j` leaves the low `64 - j` bits set. */
  lemma UnsignedShiftRightOnes(j: int)
    requires 0 <= j < 64
    ensures UnsignedShiftRight(Ones, j) == Pow2(64 - j) - 1
  {
    W64IsPow2();
    Pow2Add(j, 64 - j);
    assert j % 64 == j;
    OnesDiv(Pow2(j), Pow2(64 - j));
  }

  /** Bit `i + k` of `x` is bit `i` of `x >>> k`. */
  lemma TestBitShift(x: nat, k: nat, i: nat)
    ensures TestBit(x / Pow2(k), i) == TestBit(x, i + k)
  {
    Pow2Add(k, i);
    DivDiv(x, Pow2(k), Pow2(i));
  }

  /** Two numbers are equal exactly when their halves and their low bits are. */
  lemma SameHalves(u: nat, v: nat)
    ensures u == v <==> (u / 2 == v / 2 && u % 2 == v % 2)
  {
    assert u == 2 * (u / 2) + u % 2;
    assert v == 2 * (v / 2) + v % 2;
  }

  /** Dropping `k + 1` bits is dropping `k` bits and then one more. */
  lemma DivNext(x: nat, k: nat)
    ensures (x / Pow2(k)) / 2 == x / Pow2(k + 1)
  {
    DivDiv(x, Pow2(k), 2);
    assert Pow2(k + 1) == Pow2(k) * 2;
  }

  /** Numbers with the same quotient by `2^k` have the same bits from `k` upwards. */
  lemma SameHighBits(x: nat, y: nat, k: nat)
    requires x / Pow2(k) == y / Pow2(k)
    ensures forall i :: k <= i ==> TestBit(x, i) == TestBit(y, i)
  {
    forall i | k <= i
      ensures TestBit(x, i) == TestBit(y, i)
    {
      TestBitShift(x, k, i - k);
      TestBitShift(y, k, i - k);
    }
  }

  /** Numbers below `2^n` with the same bits from `k` to `n - 1` have the same quotient by `2^k`. */
  lemma {:induction false} SameQuotient(x: nat, y: nat, k: nat, n: nat)
    requires k <= n
    requires x < Pow2(n) && y < Pow2(n)
    requires forall i :: k <= i < n ==> TestBit(x, i) == TestBit(y, i)
    ensures x / Pow2(k) == y / Pow2(k)
    decreases n - k
  {
    if k == n {
      DivModUnique(x, Pow2(n), 0, x);
      DivModUnique(y, Pow2(n), 0, y);
    } else {
      SameQuotient(x, y, k + 1, n);
      DivNext(x, k);
      DivNext(y, k);
      assert TestBit(x, k) == TestBit(y, k);
      SameHalves(x / Pow2(k), y / Pow2(k));
    }
  }

  /** Numbers below `2^n` with the same bits from `k` upwards agree above `2^k`. */
  lemma HighBitsAgree(x: nat, y: nat, k: nat, n: nat)
    requires k <= n
    requires x < Pow2(n) && y < Pow2(n)
    ensures (forall i :: k <= i < n ==> TestBit(x, i) == TestBit(y, i))
            <==> x / Pow2(k) == y / Pow2(k)
  {
    if x / Pow2(k) == y / Pow2(k) {
      SameHighBits(x, y, k);
    } else if forall i :: k <= i < n ==> TestBit(x, i) == TestBit(y, i) {
      SameQuotient(x, y, k, n);
    }
  }

  /** The low bit, as Java's `value % 2L != 0` sees it on the signed value. */
  lemma JavaRemainderLowBit(w: Word)
    ensures JavaRemainder(Signed(w), 2) != 0 <==> w % 2 == 1
  {
    if w >= W64 / 2 {
      var v: int := Signed(w);
      assert -v == W64 - w;
      assert (W64 - w) % 2 == w % 2 by {
        DivModUnique(W64 - w, 2, W64 / 2 - w / 2 - w % 2, w % 2);
      }
    }
  }
}

/**
 * `IPv6Address` as of version 0.13: an immutable pair of Java longs holding
 * the 64 high and the 64 low bits of a 128-bit address.  `Value` reads the
 * pair as the unsigned 128-bit number it stands for; every operation is
 * specified by what it does to that number.
 */
module Addresses {
  import opened Arith
  import opened JavaLong
  import opened AddressHelpers

  /** 2^128, the number of IPv6 addresses. */
  const W128: nat := W64 * W64

  /** The largest address, `ffff:...:ffff`. */
  const MaxValue: nat := W128 - 1

  datatype Address = Address(high: Word, low: Word)

  /** The unsigned 128-bit number an address stands for. */
  function Value(a: Address): (v: nat)
    ensures v < W128
  {
    a.high * W64 + a.low
  }

  /** The address of a 128-bit number. */
  function FromValue(v: nat): (a: Address)
    requires v < W128
    ensures Value(a) == v
  {
    Digits(v / W64, v % W64, W64);
    Address(v / W64, v % W64)
  }

  /** An address is determined by its value. */
  lemma ValueInjective(a: Address, b: Address)
    requires Value(a) == Value(b)
    ensures a == b
  {
    Digits(a.high, a.low, W64);
    Digits(b.high, b.low, W64);
  }

  lemma FromValueOfValue(a: Address)
    ensures FromValue(Value(a)) == a
  {
    ValueInjective(FromValue(Value(a)), a);
  }

  /** `::` */
  const Zero: Address := Address(0, 0)

  /** `ffff:ffff:ffff:ffff:ffff:ffff:ffff:ffff` */
  const AllOnes: Address := Address(Ones, Ones)

  // ---------------------------------------------------------------------
  // Arithmetic

  /**
   * `add`: the low word wraps, and a carry (or borrow) into the high word is
   * detected by comparing the new low word with the old one, unsigned.
   */
  function Add(a: Address, value: Long): (r: Address)
    ensures Value(r) == (Value(a) + value) % W128
  {
    var newLow := Plus(a.low, value);
    var newHigh :=
      if value >= 0 then
        if IsLessThanUnsigned(newLow, a.low) then Plus(a.high, 1) else a.high
      else
        if IsLessThanUnsigned(a.low, newLow) then Plus(a.high, -1) else a.high;
    CarryValue(a.high, a.low, value, newHigh, newLow);
    Address(newHigh, newLow)
  }

  /** `subtract`: the mirror image of `add`. */
  function Subtract(a: Address, value: Long): (r: Address)
    ensures Value(r) == (Value(a) - value) % W128
  {
    var v: int := value;
    var newLow := Plus(a.low, -v);
    var newHigh :=
      if value >= 0 then
        if IsLessThanUnsigned(a.low, newLow) then Plus(a.high, -1) else a.high
      else
        if IsLessThanUnsigned(newLow, a.low) then Plus(a.high, 1) else a.high;
    CarryValue(a.high, a.low, -v, newHigh, newLow);
    Address(newHigh, newLow)
  }

  /**
   * The carry rule of `add` and `subtract`: adding `d` (with |d| <= 2^63)
   * to the low word wraps past zero exactly when the new low word is
   * unsigned-smaller (for `d >= 0`) or unsigned-larger (for `d < 0`).
   */
  lemma CarryValue(h: Word, l: Word, d: int, nh: Word, nl: Word)
    requires MinLong <= d <= -MinLong
    requires nl == Plus(l, d)
    requires d >= 0 ==> nh == if nl < l then Plus(h, 1) else h
    requires d < 0 ==> nh == if l < nl then Plus(h, -1) else h
    ensures nh * W64 + nl == (h * W64 + l + d) % W128
  {
    var x := h * W64 + l + d;
    if 0 <= l + d < W64 {
      assert nl == l + d by {
        DivModUnique(l + d, W64, 0, l + d);
      }
      assert x % W128 == x by {
        DivModUnique(x, W128, 0, x);
      }
    } else if l + d >= W64 {
      assert nl == l + d - W64 by {
        DivModUnique(l + d, W64, 1, l + d - W64);
      }
      if h + 1 < W64 {
        assert nh == h + 1 by {
          DivModUnique(h + 1, W64, 0, h + 1);
        }
        assert x % W128 == x by {
          DivModUnique(x, W128, 0, x);
        }
      } else {
        assert nh == 0 by {
          DivModUnique(h + 1, W64, 1, 0);
        }
        assert x % W128 == nl by {
          DivModUnique(x, W128, 1, nl);
        }
      }
    } else {
      assert nl == l + d + W64 by {
        DivModUnique(l + d, W64, -1, l + d + W64);
      }
      if h >= 1 {
        assert nh == h - 1 by {
          DivModUnique(h - 1, W64, 0, h - 1);
        }
        assert x % W128 == x by {
          DivModUnique(x, W128, 0, x);
        }
      } else {
        assert nh == Ones by {
          DivModUnique(h - 1, W64, -1, Ones);
        }
        assert x % W128 == Ones * W64 + nl by {
          DivModUnique(x, W128, -1, Ones * W64 + nl);
        }
      }
    }
  }

  /** Subtracting what was added gives the address back, for every delta. */
  lemma AddSubtract(a: Address, d: Long)
    ensures Subtract(Add(a, d), d) == a
  {
    var v: int := d;
    var b := Add(a, d);
    var c := Subtract(b, d);
    assert Value(c) == Value(a) by {
      ModAddBack(Value(a), v, Value(b), W128);
    }
    ValueInjective(c, a);
  }

  /** Adding what was subtracted gives the address back, for every delta. */
  lemma SubtractAdd(a: Address, d: Long)
    ensures Add(Subtract(a, d), d) == a
  {
    var v: int := d;
    var b := Subtract(a, d);
    var c := Add(b, d);
    assert Value(c) == Value(a) by {
      ModAddBack(Value(a), -v, Value(b), W128);
    }
    ValueInjective(c, a);
  }

  /** `((x + d) mod m - d) mod m == x` for `x` below `m`. */
  lemma ModAddBack(x: nat, d: int, y: int, m: nat)
    requires x < m
    requires y == (x + d) % m
    ensures (y - d) % m == x
  {
    var q := (x + d) / m;
    assert y - d == x - q * m;
    DivModUnique(x - q * m, m, -q, x);
  }

  /** The carry crosses from the low word into the high word. */
  lemma AddCarries()
    ensures Add(Address(0, Ones), 1) == Address(1, 0)
  {
    assert Value(Add(Address(0, Ones), 1)) == Value(Address(1, 0));
    ValueInjective(Add(Address(0, Ones), 1), Address(1, 0));
  }

  /** Adding one to the largest address wraps around to `::`, and back. */
  lemma AddWrapsAround()
    ensures Add(AllOnes, 1) == Zero
    ensures Subtract(Zero, 1) == AllOnes
  {
    ValueInjective(Add(AllOnes, 1), Zero);
    ValueInjective(Subtract(Zero, 1), AllOnes);
  }

  // ---------------------------------------------------------------------
  // Splitting the value at a bit position

  /** The bits below `2^s`, for `s <= 64`, all come from the low word. */
  lemma LowPart(a: Address, s: nat)
    requires s <= 64
    ensures Value(a) % Pow2(s) == a.low % Pow2(s)
  {
    assert W64 == Pow2(s) * Pow2(64 - s) by {
      W64IsPow2();
      Pow2Add(s, 64 - s);
    }
    DigitsMod(a.high, a.low, W64, Pow2(s), Pow2(64 - s));
  }

  /** The bits below `2^(64 + s)` are the low word and the low `s` bits of the high word. */
  lemma HighPart(a: Address, s: nat)
    ensures Value(a) % Pow2(64 + s) == (a.high % Pow2(s)) * W64 + a.low
  {
    assert Pow2(64 + s) == W64 * Pow2(s) by {
      W64IsPow2();
      Pow2Add(64, s);
    }
    DigitsModHigh(a.high, a.low, W64, Pow2(s));
  }

  /** `x & (-1L << s)` clears the low `s` bits of a word. */
  lemma AndShiftedOnes(x: Word, s: nat)
    requires s < 64
    ensures And(x, ShiftLeft(Ones, s)) == x - x % Pow2(s)
  {
    assert ShiftLeft(Ones, s) == RangeMask(64, s) by {
      ShiftLeftOnes(s);
      RangeMaskValue(64, s);
      W64IsPow2();
    }
    assert x % Pow2(64) == x by {
      W64IsPow2();
      DivModUnique(x, W64, 0, x);
    }
    AndBitRange(x, 64, s);
  }

  /** `x | (-1L >>> j)` sets the low `64 - j` bits of a word. */
  lemma OrShiftedOnes(x: Word, j: nat)
    requires j < 64
    ensures Or(x, UnsignedShiftRight(Ones, j)) == x - x % Pow2(64 - j) + Pow2(64 - j) - 1
    ensures Or(x, UnsignedShiftRight(Ones, j)) < W64
  {
    var m := UnsignedShiftRight(Ones, j);
    assert m == Pow2(64 - j) - 1 by {
      UnsignedShiftRightOnes(j);
    }
    OrLowOnes(x, 64 - j, m);
    OrWord(x, m);
  }

  // ---------------------------------------------------------------------
  // Network masks

  /**
   * `maskWithNetworkMask`: keeps the top `p` bits and clears the other
   * `128 - p`.  Prefix 0 needs its own branch because a shift by 64 is a
   * shift by 0 in Java.
   */
  function Mask(a: Address, p: nat): (r: Address)
    requires p <= 128
    ensures Value(r) == Value(a) - Value(a) % Pow2(128 - p)
  {
    if p == 128 then
      a
    else if p == 64 then
      LowPart(a, 64);
      W64IsPow2();
      Address(a.high, 0)
    else if p == 0 then
      assert Value(a) % Pow2(128) == Value(a) by {
        Pow2Of128();
        DivModUnique(Value(a), W128, 0, Value(a));
      }
      Address(0, 0)
    else if p > 64 then
      var remainingPrefixLength := p - 64;
      var low := And(a.low, ShiftLeft(Ones, 64 - remainingPrefixLength));
      MaskLowValue(a, p);
      Address(a.high, low)
    else
      var high := And(a.high, ShiftLeft(Ones, 64 - p));
      MaskHighValue(a, p);
      Address(high, 0)
  }

  /** Masking in the low word, for prefix lengths above 64. */
  lemma MaskLowValue(a: Address, p: nat)
    requires 64 < p < 128
    ensures Value(Address(a.high, And(a.low, ShiftLeft(Ones, 64 - (p - 64))))) == Value(a) - Value(a) % Pow2(128 - p)
  {
    assert 64 - (p - 64) == 128 - p;
    AndShiftedOnes(a.low, 128 - p);
    LowPart(a, 128 - p);
  }

  /** Masking in the high word, for prefix lengths from 1 to 63. */
  lemma MaskHighValue(a: Address, p: nat)
    requires 0 < p < 64
    ensures Value(Address(And(a.high, ShiftLeft(Ones, 64 - p)), 0)) == Value(a) - Value(a) % Pow2(128 - p)
  {
    assert 64 + (64 - p) == 128 - p;
    AndShiftedOnes(a.high, 64 - p);
    HighPart(a, 64 - p);
  }

  /**
   * `maximumAddressWithNetworkMask`: keeps the top `p` bits and sets the
   * other `128 - p`.  There is no prefix-0 branch: `-1L >>> 0` is all ones,
   * which is the right answer there.
   */
  function Maximum(a: Address, p: nat): (r: Address)
    requires p <= 128
    ensures Value(r) == Value(a) - Value(a) % Pow2(128 - p) + Pow2(128 - p) - 1
  {
    if p == 128 then
      a
    else if p == 64 then
      LowPart(a, 64);
      W64IsPow2();
      Address(a.high, Ones)
    else if p > 64 then
      var remainingPrefixLength := p - 64;
      MaximumLowValue(a, p);
      Address(a.high, Or(a.low, UnsignedShiftRight(Ones, remainingPrefixLength)))
    else
      MaximumHighValue(a, p);
      Address(Or(a.high, UnsignedShiftRight(Ones, p)), Ones)
  }

  /** Setting the low bits in the low word, for prefix lengths above 64. */
  lemma MaximumLowValue(a: Address, p: nat)
    requires 64 < p < 128
    ensures Or(a.low, UnsignedShiftRight(Ones, p - 64)) < W64
    ensures Value(Address(a.high, Or(a.low, UnsignedShiftRight(Ones, p - 64))))
            == Value(a) - Value(a) % Pow2(128 - p) + Pow2(128 - p) - 1
  {
    assert 64 - (p - 64) == 128 - p;
    OrShiftedOnes(a.low, p - 64);
    LowPart(a, 128 - p);
  }

  /** Setting the low bits across both words, for prefix lengths below 64. */
  lemma MaximumHighValue(a: Address, p: nat)
    requires p < 64
    ensures Or(a.high, UnsignedShiftRight(Ones, p)) < W64
    ensures Value(Address(Or(a.high, UnsignedShiftRight(Ones, p)), Ones))
            == Value(a) - Value(a) % Pow2(128 - p) + Pow2(128 - p) - 1
  {
    OrShiftedOnes(a.high, p);
    HighPart(a, 64 - p);
    assert Pow2(128 - p) == Pow2(64 - p) * W64 by {
      W64IsPow2();
      Pow2Add(64 - p, 64);
    }
  }

  /** Masking is idempotent, and the maximum of a masked address is the maximum. */
  lemma MaskIdempotent(a: Address, p: nat)
    requires p <= 128
    ensures Mask(Mask(a, p), p) == Mask(a, p)
    ensures Maximum(Mask(a, p), p) == Maximum(a, p)
  {
    RoundDownMod(Value(a), Pow2(128 - p));
    ValueInjective(Mask(Mask(a, p), p), Mask(a, p));
    ValueInjective(Maximum(Mask(a, p), p), Maximum(a, p));
  }

  /** An address lies between its masked and its maximum address. */
  lemma MaskBelowMaximum(a: Address, p: nat)
    requires p <= 128
    ensures Value(Mask(a, p)) <= Value(a) <= Value(Maximum(a, p))
  {
  }

  /** `b` masks to the same address as `a` exactly when it lies in `a`'s block. */
  lemma SameMask(a: Address, b: Address, p: nat)
    requires p <= 128
    ensures Mask(b, p) == Mask(a, p) <==> Value(Mask(a, p)) <= Value(b) <= Value(Maximum(a, p))
  {
    SameBlock(Value(a), Value(b), Pow2(128 - p));
    if Value(Mask(b, p)) == Value(Mask(a, p)) {
      ValueInjective(Mask(b, p), Mask(a, p));
    }
  }

  /** Prefix 128 changes nothing; prefix 0 spans every address. */
  lemma MaskEdges(a: Address)
    ensures Mask(a, 128) == a && Maximum(a, 128) == a
    ensures Mask(a, 0) == Zero && Maximum(a, 0) == AllOnes
  {
    Pow2Of128();
    DivModUnique(Value(a), W128, 0, Value(a));
    ValueInjective(Maximum(a, 0), AllOnes);
  }

  // ---------------------------------------------------------------------
  // Comparison

  /** `equals`: both words are equal. */
  predicate Equals(a: Address, b: Address)
  {
    a.high == b.high && a.low == b.low
  }

  /**
   * `compareTo`: unsigned comparison of the high words, then of the low
   * words.  The second `high == high` test can never succeed.
   */
  function CompareTo(a: Address, b: Address): (r: int)
    ensures r == -1 || r == 0 || r == 1
    ensures r == 0 <==> Value(a) == Value(b)
    ensures r < 0 <==> Value(a) < Value(b)
  {
    if a.high == b.high then
      if a.low == b.low then 0
      else if IsLessThanUnsigned(a.low, b.low) then -1 else 1
    else if a.high == b.high then
      0
    else
      if IsLessThanUnsigned(a.high, b.high) then -1 else 1
  }

  /** `compareTo` returns 0 exactly when `equals` holds. */
  lemma CompareToAgreesWithEquals(a: Address, b: Address)
    ensures CompareTo(a, b) == 0 <==> Equals(a, b)
    ensures Equals(a, b) <==> a == b
  {
    if Value(a) == Value(b) {
      ValueInjective(a, b);
    }
  }

  /** `compareTo` is antisymmetric. */
  lemma CompareToAntisymmetric(a: Address, b: Address)
    ensures CompareTo(a, b) == -CompareTo(b, a)
  {
  }

  // ---------------------------------------------------------------------
  // Bit counts

  /** `numberOfTrailingZeroes`: the value is a multiple of `2^r` and of no higher power. */
  function NumberOfTrailingZeroes(a: Address): (r: nat)
    ensures r <= 128
    ensures Value(a) % Pow2(r) == 0
    ensures r < 128 ==> Value(a) % Pow2(r + 1) != 0
  {
    if a.low == 0 then
      var t := NumberOfTrailingZeros(a.high);
      HighPart(a, t);
      if t < 64 then HighPart(a, t + 1); t + 64 else t + 64
    else
      var t := NumberOfTrailingZeros(a.low);
      assert t < 64 by {
        W64IsPow2();
        if t == 64 {
          DivModUnique(a.low, W64, 0, a.low);
        }
      }
      LowPart(a, t);
      LowPart(a, t + 1);
      t
  }

  /** `numberOfTrailingOnes`: the trailing zeros of the successor. */
  function NumberOfTrailingOnes(a: Address): (r: nat)
    ensures r <= 128
    ensures Value(a) % Pow2(r) == Pow2(r) - 1
    ensures r < 128 ==> Value(a) % Pow2(r + 1) != Pow2(r + 1) - 1
  {
    var plusOne := Add(a, 1);
    var r := NumberOfTrailingZeroes(plusOne);
    TrailingOnesValue(Value(a), r);
    r
  }

  lemma TrailingOnesValue(v: nat, r: nat)
    requires v < W128 && r <= 128
    requires ((v + 1) % W128) % Pow2(r) == 0
    requires r < 128 ==> ((v + 1) % W128) % Pow2(r + 1) != 0
    ensures v % Pow2(r) == Pow2(r) - 1
    ensures r < 128 ==> v % Pow2(r + 1) != Pow2(r + 1) - 1
  {
    Pow2Of128();
    if v + 1 < W128 {
      DivModUnique(v + 1, W128, 0, v + 1);
      SuccMod(v, Pow2(r));
      SuccMod(v, Pow2(r + 1));
    } else {
      DivModUnique(v + 1, W128, 1, 0);
      assert r == 128;
      DivModUnique(v, W128, 0, v);
    }
  }

  /** `numberOfLeadingZeroes`: the value fits in `128 - r` bits and not in fewer. */
  function NumberOfLeadingZeroes(a: Address): (r: nat)
    ensures r <= 128
    ensures Value(a) < Pow2(128 - r)
    ensures r < 128 ==> Value(a) >= Pow2(127 - r)
  {
    if a.high == 0 then
      NumberOfLeadingZeros(a.low) + 64
    else
      var k := NumberOfLeadingZeros(a.high);
      assert k < 64 && Pow2(128 - k) == Pow2(64 - k) * W64 && Pow2(127 - k) == Pow2(63 - k) * W64 by {
        W64IsPow2();
        Pow2Add(64 - k, 64);
        if k < 64 {
          Pow2Add(63 - k, 64);
        }
      }
      k
  }

  /** The address with every bit flipped, `(~high, ~low)`. */
  function Flip(a: Address): (r: Address)
    ensures Value(r) == MaxValue - Value(a)
  {
    Address(Not(a.high), Not(a.low))
  }

  /** `numberOfLeadingOnes`: the top `r` bits are ones and bit `127 - r` is not. */
  function NumberOfLeadingOnes(a: Address): (r: nat)
    ensures r <= 128
    ensures Value(a) >= W128 - Pow2(128 - r)
    ensures r < 128 ==> Value(a) < W128 - Pow2(127 - r)
  {
    var flipped := Flip(a);
    NumberOfLeadingZeroes(flipped)
  }

  // ---------------------------------------------------------------------
  // IPv4-mapped addresses

  /** The 16-bit field of `x` just above its low `s` bits. */
  lemma AndMaskFacts(x: Word)
    ensures And(x, 0xFFFF_0000_0000_0000) == x - x % 0x1_0000_0000_0000
    ensures And(x, 0x0000_FFFF_0000_0000) == x % 0x1_0000_0000_0000 - x % 0x1_0000_0000
  {
    Pow2Of32();
    Pow2Of48();
    assert RangeMask(64, 48) == 0xFFFF_0000_0000_0000 by {
      W64IsPow2();
      RangeMaskValue(64, 48);
    }
    assert RangeMask(48, 32) == 0x0000_FFFF_0000_0000 by {
      RangeMaskValue(48, 32);
    }
    assert x % Pow2(64) == x by {
      W64IsPow2();
      DivModUnique(x, W64, 0, x);
    }
    AndBitRange(x, 64, 48);
    AndBitRange(x, 48, 32);
  }

  /**
   * `isIPv4Mapped`: the top 80 bits are zero and the next 16 are ones, as
   * section 2.5.5.2 of RFC 4291 defines `::ffff:a.b.c.d`.
   */
  function IsIPv4Mapped(a: Address): (r: bool)
    ensures r <==> Value(a) / 0x1_0000_0000 == 0xFFFF
  {
    AndMaskFacts(a.low);
    IPv4MappedValue(a);
    a.high == 0
      && And(a.low, 0xFFFF_0000_0000_0000) == 0
      && And(a.low, 0x0000_FFFF_0000_0000) == 0x0000_FFFF_0000_0000
  }

  lemma IPv4MappedValue(a: Address)
    ensures (a.high == 0 && a.low - a.low % 0x1_0000_0000_0000 == 0
             && a.low % 0x1_0000_0000_0000 - a.low % 0x1_0000_0000 == 0x0000_FFFF_0000_0000)
            <==> Value(a) / 0x1_0000_0000 == 0xFFFF
  {
    var l := a.low;
    var t := 0x1_0000_0000;
    assert Value(a) / t == a.high * t + l / t by {
      DivModUnique(Value(a), t, a.high * t + l / t, l % t);
    }
    if l < 0x1_0000_0000_0000 {
      DivModUnique(l, 0x1_0000_0000_0000, 0, l);
      DivModBounds(l, t);
    } else {
      DivModUnique(l, 0x1_0000_0000_0000, l / 0x1_0000_0000_0000, l % 0x1_0000_0000_0000);
      DivModBounds(l, t);
    }
  }
}

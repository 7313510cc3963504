/**
 * Where the older `IPv6Address` classes differ from version 0.13.
 *
 * Version 0.5 has the same arithmetic, comparison, group extraction and
 * bit counts, but its `maskWithNetworkMask` has no prefix-0 branch.
 * Version 0.1 takes the prefix length as an `int` and rejects lengths
 * outside ]0, 128], and its `add`/`subtract` detect the carry between the
 * two words by a change of sign of the low word.
 */
module AddressLegacy {
  import opened Arith
  import opened JavaLong
  import opened Wrappers
  import opened Addresses

  // ---------------------------------------------------------------------
  // Version 0.5

  /**
   * `maskWithNetworkMask` of 0.5: the 0.13 branches without the one for
   * prefix 0.  Prefix 0 would fall into the last branch, where the shift by
   * 64 is a shift by 0, and keep the high word; the mask type of this
   * version does not produce prefix 0.
   */
  function Mask05(a: Address, p: nat): (r: Address)
    requires p <= 128
    ensures 0 < p ==> r == Mask(a, p)
    ensures p == 0 ==> r == Address(a.high, 0)
  {
    if p == 128 then
      a
    else if p == 64 then
      Address(a.high, 0)
    else if p > 64 then
      var remainingPrefixLength := p - 64;
      Address(a.high, And(a.low, ShiftLeft(Ones, 64 - remainingPrefixLength)))
    else
      AndOnes(a.high);
      Address(And(a.high, ShiftLeft(Ones, 64 - p)), 0)
  }

  /** `x & -1L == x`, and `-1L << 64` is `-1L`. */
  lemma AndOnes(x: Word)
    ensures ShiftLeft(Ones, 64) == Ones
    ensures And(x, Ones) == x
  {
    assert ShiftLeft(Ones, 64) == Ones by {
      assert Pow2(64 % 64) == 1;
      DivModUnique(Ones, W64, 0, Ones);
    }
    assert And(x, Ones) == x by {
      assert RangeMask(64, 0) == Ones by {
        W64IsPow2();
        RangeMaskValue(64, 0);
      }
      assert x % Pow2(64) == x by {
        W64IsPow2();
        DivModUnique(x, W64, 0, x);
      }
      assert x % Pow2(0) == 0;
      AndBitRange(x, 64, 0);
    }
  }

  // ---------------------------------------------------------------------
  // Version 0.1: prefix lengths as checked ints

  /** `maskWithPrefixLength`: throws for a length outside ]0, 128]. */
  function MaskWithPrefixLength(a: Address, prefixLength: int): (r: Result<Address>)
    ensures r.Success? <==> 0 < prefixLength <= 128
    ensures r.Failure? ==> r.error == IllegalArgument
    ensures r.Success? ==> r.value == Mask(a, prefixLength)
  {
    if prefixLength <= 0 || prefixLength > 128 then
      Failure(IllegalArgument)
    else
      Success(Mask05(a, prefixLength))
  }

  /** `maximumAddressWithPrefixLength`: throws for a length outside ]0, 128]. */
  function MaximumAddressWithPrefixLength(a: Address, prefixLength: int): (r: Result<Address>)
    ensures r.Success? <==> 0 < prefixLength <= 128
    ensures r.Failure? ==> r.error == IllegalArgument
    ensures r.Success? ==> r.value == Maximum(a, prefixLength)
  {
    if prefixLength <= 0 || prefixLength > 128 then
      Failure(IllegalArgument)
    else
      Success(Maximum(a, prefixLength))
  }

  // ---------------------------------------------------------------------
  // Version 0.1: carry by sign change

  /** The sign of the low word changed, which 0.1 takes for a carry or a borrow. */
  predicate SignChanged(before: Word, after: Word)
  {
    (Signed(before) < 0 && Signed(after) >= 0) || (Signed(before) >= 0 && Signed(after) < 0)
  }

  /** `add(long)` of 0.1: a sign change of the low word carries one into the high word. */
  function Add01(a: Address, value: Long): (r: Address)
    ensures r.low == Add(a, value).low
    ensures r.high == if SignChanged(a.low, r.low) then Plus(a.high, 1) else a.high
  {
    var newLowBits := Plus(a.low, value);
    if SignChanged(a.low, newLowBits) then
      Address(Plus(a.high, 1), newLowBits)
    else
      Address(a.high, newLowBits)
  }

  /** `subtract(long)` of 0.1: a sign change of the low word borrows one from the high word. */
  function Subtract01(a: Address, value: Long): (r: Address)
    ensures r.low == Subtract(a, value).low
    ensures r.high == if SignChanged(a.low, r.low) then Plus(a.high, -1) else a.high
  {
    var v: int := value;
    var newLowBits := Plus(a.low, -v);
    if SignChanged(a.low, newLowBits) then
      Address(Plus(a.high, -1), newLowBits)
    else
      Address(a.high, newLowBits)
  }

  /** Adding -1, 0 or 1 to a word gives three different words. */
  lemma PlusSmallInjective(h: Word, x: int, y: int)
    requires -1 <= x <= 1 && -1 <= y <= 1
    requires Plus(h, x) == Plus(h, y)
    ensures x == y
  {
    var q1, q2 := (h + x) / W64, (h + y) / W64;
    assert h + x - q1 * W64 == h + y - q2 * W64;
    if q1 != q2 {
      MulPos(q1 - q2, W64);
      assert (q1 - q2) * W64 == x - y;
    }
  }

  /**
   * The carry `add` puts into the high word is the floor of
   * `(low + value) / 2^64`: 1 on overflow, -1 on underflow, else 0.
   */
  lemma AddCarry(a: Address, value: Long)
    ensures -1 <= (a.low + value) / W64 <= 1
    ensures Add(a, value).high == Plus(a.high, (a.low + value) / W64)
  {
    var s := a.low + value;
    var c := if s >= W64 then 1 else if s < 0 then -1 else 0;
    DivModUnique(s, W64, c, s - c * W64);
  }

  /** The borrow `subtract` takes from the high word is the floor of `(low - value) / 2^64`. */
  lemma SubtractCarry(a: Address, value: Long)
    ensures -1 <= (a.low - value) / W64 <= 1
    ensures Subtract(a, value).high == Plus(a.high, (a.low - value) / W64)
  {
    var s := a.low - value;
    var c := if s >= W64 then 1 else if s < 0 then -1 else 0;
    DivModUnique(s, W64, c, s - c * W64);
  }

  /**
   * 0.1's `add` is right exactly when "the sign of the low word changed"
   * coincides with the true carry out of the low word.
   */
  lemma Add01Correct(a: Address, value: Long)
    ensures Add01(a, value) == Add(a, value)
        <==> (if SignChanged(a.low, Plus(a.low, value)) then 1 else 0) == (a.low + value) / W64
  {
    AddCarry(a, value);
    var flip := if SignChanged(a.low, Plus(a.low, value)) then 1 else 0;
    if Add01(a, value) == Add(a, value) {
      PlusSmallInjective(a.high, flip, (a.low + value) / W64);
    }
  }

  /** 0.1's `subtract` is right exactly when the sign change coincides with the true borrow. */
  lemma Subtract01Correct(a: Address, value: Long)
    ensures Subtract01(a, value) == Subtract(a, value)
        <==> (if SignChanged(a.low, Plus(a.low, -(value as int))) then -1 else 0) == (a.low - value) / W64
  {
    SubtractCarry(a, value);
    var v: int := value;
    var flip := if SignChanged(a.low, Plus(a.low, -v)) then -1 else 0;
    if Subtract01(a, value) == Subtract(a, value) {
      PlusSmallInjective(a.high, flip, (a.low - value) / W64);
    }
  }

  /** `::7fff:ffff:ffff:ffff + 1`: the sign changes without a carry, and 0.1 carries anyway. */
  lemma Add01Overcarries()
    ensures Add01(Address(0, MaxLong), 1) == Address(1, MaxLong + 1)
    ensures Add(Address(0, MaxLong), 1) == Address(0, MaxLong + 1)
  {
    AddCarry(Address(0, MaxLong), 1);
    DivModUnique(MaxLong + 1, W64, 0, MaxLong + 1);
  }

  /** `::1:8000:0:0:0 - 1`: the sign changes without a borrow, and 0.1 borrows anyway. */
  lemma Subtract01Overborrows()
    ensures Subtract01(Address(1, MaxLong + 1), 1) == Address(0, MaxLong)
    ensures Subtract(Address(1, MaxLong + 1), 1) == Address(1, MaxLong)
  {
    SubtractCarry(Address(1, MaxLong + 1), 1);
    DivModUnique(MaxLong, W64, 0, MaxLong);
  }

  /**
   * `numberOfTrailingOnes` of 0.1, through its own `add(1)`.  It agrees
   * with the 0.13 count: the low word of the sum is always right, and when
   * it is zero the low word was all ones, whose sign change is a true carry.
   */
  function NumberOfTrailingOnes01(a: Address): (r: nat)
    ensures r == NumberOfTrailingOnes(a)
  {
    var plusOne := Add01(a, 1);
    if plusOne.low == 0 then
      assert plusOne == Add(a, 1) by {
        TrailingOnesCarry(a);
      }
      NumberOfTrailingZeros(plusOne.high) + 64
    else
      NumberOfTrailingZeros(plusOne.low)
  }

  lemma TrailingOnesCarry(a: Address)
    requires Add(a, 1).low == 0
    ensures Add01(a, 1) == Add(a, 1)
  {
    assert a.low == Ones by {
      assert (a.low + 1) % W64 == 0;
      if a.low < Ones {
        DivModUnique(a.low + 1, W64, 0, a.low + 1);
      }
    }
    DivModUnique(a.low + 1, W64, 1, 0);
    Add01Correct(a, 1);
  }
}

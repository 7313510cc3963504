/**
 * `BitSetHelpers`: spreading the bits of two Java longs over a
 * `java.util.BitSet`, the low word at indices 0..63 and the high word at
 * 64..127.  A `BitSet` is the set of the indices whose bit is set.
 */
module BitSets {
  import opened Arith
  import opened JavaLong
  import opened Addresses

  /** `java.util.BitSet`, reduced to the operations the helpers use. */
  class BitSet {
    var bits: set<int>

    constructor ()
      ensures bits == {}
    {
      bits := {};
    }

    predicate Get(i: int)
      reads this
    {
      i in bits
    }

    method Set(i: int)
      requires i >= 0
      modifies this
      ensures bits == old(bits) + {i}
    {
      bits := bits + {i};
    }
  }

  /** The indices `offset + i` of the one bits `i < n` of `w`. */
  function SomeBits(w: Word, offset: int, n: nat): set<int>
  {
    set i | 0 <= i < n && TestBit(w, i) :: offset + i
  }

  /** The indices `offset + i` of all the one bits of `w`. */
  function WordBits(w: Word, offset: int): set<int>
  {
    SomeBits(w, offset, 64)
  }

  /** The indices of the one bits of an address, all below 128. */
  function AddressBits(a: Address): set<int>
  {
    set i | 0 <= i < 128 && TestBit(Value(a), i)
  }

  /** Bit `n` of `w` decides whether `offset + n` joins the set. */
  lemma SomeBitsStep(w: Word, offset: int, n: nat)
    ensures SomeBits(w, offset, n + 1)
         == SomeBits(w, offset, n) + (if TestBit(w, n) then {offset + n} else {})
  {
  }

  /** No bit from `k` upwards is set once `w >>> k` is zero. */
  lemma NoBitsAbove(w: Word, offset: int, k: nat)
    requires k <= 64
    requires w / Pow2(k) == 0
    ensures SomeBits(w, offset, k) == WordBits(w, offset)
  {
    forall i | k <= i < 64
      ensures !TestBit(w, i)
    {
      TestBitShift(w, k, i - k);
    }
  }

  /** Anything but zero keeps a one bit below position 64. */
  lemma BelowWordSize(w: Word, k: nat)
    requires w / Pow2(k) != 0
    ensures k < 64
  {
    if k >= 64 {
      W64IsPow2();
      Pow2Mono(64, k);
      DivModUnique(w, Pow2(k), 0, w);
    }
  }

  /**
   * `convert`: sets index `bitSetOffset + i` for every one bit `i` of
   * `value` and clears nothing.  `value % 2L` is tested on the signed value
   * and `>>>` shifts zeros in, so the loop ends after at most 64 rounds.
   */
  method Convert(value: Word, bitSetOffset: int, bits: BitSet)
    requires bitSetOffset >= 0
    modifies bits
    ensures bits.bits == old(bits.bits) + WordBits(value, bitSetOffset)
  {
    var w := value;
    var v := value;
    var index := 0;
    assert v == w / Pow2(0);
    while v != 0
      invariant 0 <= index <= 64
      invariant v == w / Pow2(index)
      invariant bits.bits == old(bits.bits) + SomeBits(w, bitSetOffset, index)
      decreases v
    {
      BelowWordSize(w, index);
      JavaRemainderLowBit(v);
      SomeBitsStep(w, bitSetOffset, index);
      if JavaRemainder(Signed(v), 2) != 0 {
        bits.Set(bitSetOffset + index);
      }
      index := index + 1;
      DivNext(w, index - 1);
      v := UnsignedShiftRight(v, 1);
    }
    NoBitsAbove(w, bitSetOffset, index);
  }

  /** `bitSetOf`: the low word at indices 0..63, the high word at 64..127. */
  method BitSetOf(lowerBits: Word, upperBits: Word) returns (bitSet: BitSet)
    ensures fresh(bitSet)
    ensures bitSet.bits == WordBits(lowerBits, 0) + WordBits(upperBits, 64)
  {
    bitSet := new BitSet();
    Convert(lowerBits, 0, bitSet);
    Convert(upperBits, 64, bitSet);
  }

  /**
   * `BitSet.valueOf(new long[]{low, high})` of the Java library, used instead
   * of `bitSetOf` by the other versions: word `k` supplies indices
   * `64 k .. 64 k + 63`.
   */
  method ValueOf(low: Word, high: Word) returns (bitSet: BitSet)
    ensures fresh(bitSet)
    ensures bitSet.bits == WordBits(low, 0) + WordBits(high, 64)
  {
    bitSet := new BitSet();
    bitSet.bits := WordBits(low, 0) + WordBits(high, 64);
  }

  /** Bit `i` of an address is bit `i` of the low word, or bit `i - 64` of the high word. */
  lemma AddressBit(a: Address, i: nat)
    requires i < 128
    ensures i < 64 ==> (TestBit(Value(a), i) <==> TestBit(a.low, i))
    ensures 64 <= i ==> (TestBit(Value(a), i) <==> TestBit(a.high, i - 64))
  {
    if i < 64 {
      assert Pow2(i) * 2 == Pow2(i + 1);
      ModDiv(Value(a), Pow2(i), 2);
      ModDiv(a.low, Pow2(i), 2);
      LowPart(a, i + 1);
    } else {
      assert Value(a) / Pow2(64) == a.high by {
        W64IsPow2();
        Digits(a.high, a.low, W64);
      }
      TestBitShift(Value(a), 64, i - 64);
    }
  }

  /** The bit set of an address' two words holds exactly the address' one bits. */
  lemma BitSetOfAddress(a: Address)
    ensures WordBits(a.low, 0) + WordBits(a.high, 64) == AddressBits(a)
  {
    forall i | 0 <= i < 128
      ensures i in WordBits(a.low, 0) + WordBits(a.high, 64) <==> TestBit(Value(a), i)
    {
      AddressBit(a, i);
      if i >= 64 {
        assert i == 64 + (i - 64);
      }
    }
  }
}

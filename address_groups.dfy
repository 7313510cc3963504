/**
 * The eight 16-bit groups of an address, as `IPv6Address.toShortArray`
 * produces them, and the search for the longest run of zero groups that
 * the compressed text form collapses into `::` (section 4.2.3 of RFC 5952).
 */
module AddressGroups {
  import opened Arith
  import opened JavaLong
  import opened AddressHelpers
  import opened Addresses

  /** Java's `short`. */
  type Short = x: int | -0x8000 <= x < 0x8000

  /** The `(short)` cast: the low 16 bits, read as two's complement. */
  function ToShort(x: int): (r: Short)
    ensures (r - x) % 0x1_0000 == 0
    ensures 0 <= x <= 0xFFFF ==> (r == 0 <==> x == 0)
  {
    var m := x % 0x1_0000;
    if m >= 0x8000 then m - 0x1_0000 else m
  }

  /** Group `i` of an address, counted from the most significant end. */
  function Group(a: Address, i: nat): (g: nat)
    requires i < 8
    ensures g <= 0xFFFF
  {
    (Value(a) / Pow2(16 * (7 - i))) % 0x1_0000
  }

  /** Group `k` of a 64-bit word, counted from the most significant end. */
  function WordGroup(w: Word, k: nat): (g: nat)
    requires k < 4
    ensures g <= 0xFFFF
  {
    (w / Pow2(16 * (3 - k))) % 0x1_0000
  }

  /** Groups 0..3 are those of the high word, 4..7 those of the low word. */
  lemma GroupOfWords(a: Address, i: nat)
    requires i < 8
    ensures i < 4 ==> Group(a, i) == WordGroup(a.high, i)
    ensures 4 <= i ==> Group(a, i) == WordGroup(a.low, i - 4)
  {
    if i < 4 {
      assert Pow2(16 * (7 - i)) == W64 * Pow2(16 * (3 - i)) by {
        W64IsPow2();
        Pow2Add(64, 16 * (3 - i));
      }
      DigitsModHigh(a.high, a.low, W64, Pow2(16 * (3 - i)));
    } else {
      var p := Pow2(16 * (7 - i));
      assert p * 0x1_0000 == Pow2(16 * (8 - i)) by {
        Pow2Of16();
        Pow2Add(16 * (7 - i), 16);
      }
      ModDiv(Value(a), p, 0x1_0000);
      ModDiv(a.low, p, 0x1_0000);
      LowPart(a, 16 * (8 - i));
    }
  }

  /** Shifting left by `a` and then right by `a * c` leaves group position `c`. */
  lemma ShiftedGroup(w: Word, a: nat, b: nat, c: nat)
    requires a > 0 && c > 0
    requires b == c * 0x1_0000 && a * b == W64
    ensures ((w * a) % W64) / (a * c) == (w / c) % 0x1_0000
  {
    assert (w * a) % W64 == (w % b) * a by {
      MulMod(w, a, b);
    }
    assert ((w % b) * a) / (a * c) == (w % b) / c by {
      MulDivCancel(w % b, a, c);
    }
    ModDiv(w, c, 0x1_0000);
  }

  /** `x >>> 112` is `x >>> 48`. */
  lemma ShiftRight112(x: Word, e: nat)
    requires e == Pow2(48)
    ensures UnsignedShiftRight(x, 16 * (8 - 1)) == x / e
  {
    var d := 16 * (8 - 1);
    assert d % 64 == 48;
  }

  /** `(w << d) >>> 112` for a left shift by `16 k`, with `a = 2^(16 k)` and `c = 2^(16 (3 - k))`. */
  lemma ShiftGroupBy(w: Word, k: nat, d: int, a: nat, b: nat, c: nat)
    requires k < 4 && d % 64 == 16 * k
    requires Pow2(16 * k) == a && Pow2(16 * (3 - k)) == c && Pow2(48) == a * c
    requires a > 0 && c > 0 && b == c * 0x1_0000 && a * b == W64
    ensures UnsignedShiftRight(ShiftLeft(w, d), 16 * (8 - 1)) == WordGroup(w, k)
  {
    var x := ShiftLeft(w, d);
    assert x == (w * a) % W64;
    var e := a * c;
    assert UnsignedShiftRight(x, 16 * (8 - 1)) == x / e by {
      ShiftRight112(x, e);
    }
    ShiftedGroup(w, a, b, c);
  }

  /** `(w << d) >>> 112` with `d = 16 k mod 64` is group `k` of the word. */
  lemma ShiftGroup(w: Word, k: nat, d: int)
    requires k < 4 && d % 64 == 16 * k
    ensures UnsignedShiftRight(ShiftLeft(w, d), 16 * (8 - 1)) == WordGroup(w, k)
  {
    Pow2Of16();
    Pow2Of32();
    Pow2Of48();
    if k == 0 {
      ShiftGroupBy(w, k, d, 1, W64, 0x1_0000_0000_0000);
    } else if k == 1 {
      ShiftGroupBy(w, k, d, 0x1_0000, 0x1_0000_0000_0000, 0x1_0000_0000);
    } else if k == 2 {
      ShiftGroupBy(w, k, d, 0x1_0000_0000, 0x1_0000_0000, 0x1_0000);
    } else {
      ShiftGroupBy(w, k, d, 0x1_0000_0000_0000, 0x1_0000, 1);
    }
  }

  /** `& 0xFFFF` keeps a value that is already a group. */
  lemma AndGroup(g: nat)
    requires g <= 0xFFFF
    ensures And(g, 0xFFFF) == g
  {
    Pow2Of16();
    assert RangeMask(16, 0) == 0xFFFF by {
      RangeMaskValue(16, 0);
    }
    AndBitRange(g, 16, 0);
    DivModUnique(g, 0x1_0000, 0, g);
  }

  /** What the loop body of `toShortArray` computes for element `i`, before the cast. */
  lemma ExtractGroup(a: Address, i: nat)
    requires i < 8
    ensures InHighRange(i) ==> And(UnsignedShiftRight(ShiftLeft(a.high, i * 16), 16 * (8 - 1)), 0xFFFF) == Group(a, i)
    ensures !InHighRange(i) ==> And(UnsignedShiftRight(ShiftLeft(a.low, i * 16), 16 * (8 - 1)), 0xFFFF) == Group(a, i)
  {
    GroupOfWords(a, i);
    if i < 4 {
      ShiftGroup(a.high, i, i * 16);
      AndGroup(WordGroup(a.high, i));
    } else {
      ShiftGroup(a.low, i - 4, i * 16);
      AndGroup(WordGroup(a.low, i - 4));
    }
  }

  /** The groups of the address, as shorts. */
  function Shorts(a: Address): (s: seq<Short>)
    ensures |s| == 8
  {
    seq(8, i requires 0 <= i < 8 => ToShort(Group(a, i)))
  }

  /**
   * `toShortArray`: element `i` is group `i`.  Both words rely on Java
   * taking shift distances modulo 64: the right shift is by 112, and the
   * left shift of the low word by 64 to 112.
   */
  method ToShortArray(a: Address) returns (shorts: array<Short>)
    ensures fresh(shorts)
    ensures shorts[..] == Shorts(a)
  {
    shorts := new Short[8];
    for i := 0 to 8
      invariant forall j :: 0 <= j < i ==> shorts[j] == ToShort(Group(a, j))
    {
      ExtractGroup(a, i);
      if InHighRange(i) {
        shorts[i] := ToShort(And(UnsignedShiftRight(ShiftLeft(a.high, i * 16), 16 * (8 - 1)), 0xFFFF));
      } else {
        shorts[i] := ToShort(And(UnsignedShiftRight(ShiftLeft(a.low, i * 16), 16 * (8 - 1)), 0xFFFF));
      }
    }
  }

  /** Packing four groups. */
  lemma Pack4(g0: nat, g1: nat, g2: nat, g3: nat)
    requires g0 <= 0xFFFF && g1 <= 0xFFFF && g2 <= 0xFFFF && g3 <= 0xFFFF
    ensures Pack([g0, g1, g2, g3]) == ((g0 * 0x1_0000 + g1) * 0x1_0000 + g2) * 0x1_0000 + g3
  {
    var g := [g0, g1, g2, g3];
    assert Pack([g0]) == g0 by {
      assert [g0][..0] == [];
    }
    assert Pack([g0, g1]) == g0 * 0x1_0000 + g1 by {
      assert [g0, g1][..1] == [g0];
    }
    assert Pack([g0, g1, g2]) == (g0 * 0x1_0000 + g1) * 0x1_0000 + g2 by {
      assert [g0, g1, g2][..2] == [g0, g1];
    }
    assert g[..3] == [g0, g1, g2];
  }

  /** A word in base 2^16. */
  lemma WordDigits(w: Word)
    ensures ((w / 0x1_0000_0000_0000 * 0x1_0000 + (w / 0x1_0000_0000) % 0x1_0000) * 0x1_0000
             + (w / 0x1_0000) % 0x1_0000) * 0x1_0000 + w % 0x1_0000 == w
  {
    var q1, q2, q3 := w / 0x1_0000, w / 0x1_0000_0000, w / 0x1_0000_0000_0000;
    assert w == q1 * 0x1_0000 + w % 0x1_0000 by {
      DivModBounds(w, 0x1_0000);
    }
    assert q1 == q2 * 0x1_0000 + q1 % 0x1_0000 by {
      DivDiv(w, 0x1_0000, 0x1_0000);
      DivModBounds(q1, 0x1_0000);
    }
    assert q2 == q3 * 0x1_0000 + q2 % 0x1_0000 by {
      DivDiv(w, 0x1_0000_0000, 0x1_0000);
      DivModBounds(q2, 0x1_0000);
    }
  }

  /** The four groups of a word pack back into the word. */
  lemma PackWordGroups(w: Word)
    ensures Pack([WordGroup(w, 0), WordGroup(w, 1), WordGroup(w, 2), WordGroup(w, 3)]) == w
  {
    var q3 := w / 0x1_0000_0000_0000;
    var g0, g1, g2, g3 := WordGroup(w, 0), WordGroup(w, 1), WordGroup(w, 2), WordGroup(w, 3);
    assert g0 == q3 by {
      Pow2Of48();
      DivModUnique(w, 0x1_0000_0000_0000, q3, w % 0x1_0000_0000_0000);
      DivModUnique(q3, 0x1_0000, 0, q3);
    }
    assert g1 == (w / 0x1_0000_0000) % 0x1_0000 by {
      Pow2Of32();
    }
    assert g2 == (w / 0x1_0000) % 0x1_0000 by {
      Pow2Of16();
    }
    assert g3 == w % 0x1_0000 by {
      assert Pow2(16 * (3 - 3)) == 1;
      DivModUnique(w, 1, w, 0);
    }
    Pack4(g0, g1, g2, g3);
    WordDigits(w);
  }

  /**
   * The groups of an address, read as unsigned values, are accepted by
   * `validateLongs` and merge back into the address.
   */
  lemma GroupsMergeBack(a: Address)
    ensures ValidGroups(seq(8, i requires 0 <= i < 8 => Group(a, i)))
    ensures Pack(seq(8, i requires 0 <= i < 8 => Group(a, i))[..4]) == a.high
    ensures Pack(seq(8, i requires 0 <= i < 8 => Group(a, i))[4..]) == a.low
  {
    var g := seq(8, i requires 0 <= i < 8 => Group(a, i));
    forall i | 0 <= i < 8
      ensures g[i] == if i < 4 then WordGroup(a.high, i) else WordGroup(a.low, i - 4)
    {
      GroupOfWords(a, i);
    }
    assert g[..4] == [WordGroup(a.high, 0), WordGroup(a.high, 1), WordGroup(a.high, 2), WordGroup(a.high, 3)];
    assert g[4..] == [WordGroup(a.low, 0), WordGroup(a.low, 1), WordGroup(a.low, 2), WordGroup(a.low, 3)];
    PackWordGroups(a.high);
    PackWordGroups(a.low);
  }

  // ---------------------------------------------------------------------
  // Runs of zero groups

  /** Length of the run of zeros in `s` starting at `i`. */
  function ZeroRun(s: seq<Short>, i: nat): (n: nat)
    ensures i <= |s| ==> i + n <= |s|
    ensures i > |s| ==> n == 0
    ensures forall j :: i <= j < i + n ==> s[j] == 0
    ensures i + n < |s| ==> s[i + n] != 0
    decreases |s| - i
  {
    if i >= |s| || s[i] != 0 then 0 else 1 + ZeroRun(s, i + 1)
  }

  /** `countConsecutiveZeroes`: the number of zeros from `offset` on. */
  method CountConsecutiveZeroes(shorts: array<Short>, offset: int) returns (count: int)
    requires 0 <= offset
    ensures count == ZeroRun(shorts[..], offset)
  {
    count := 0;
    var i := offset;
    while i < shorts.Length && shorts[i] == 0
      invariant offset <= i && count == i - offset
      invariant ZeroRun(shorts[..], offset) == count + ZeroRun(shorts[..], i)
      decreases shorts.Length - i
    {
      count := count + 1;
      i := i + 1;
    }
  }

  /**
   * `startAndLengthOfLongestRunOfZeroes`: the first of the longest runs of
   * zero groups, or `(-1, 0)` when no group is zero.
   */
  method StartAndLengthOfLongestRunOfZeroes(a: Address) returns (start: int, length: int)
    ensures forall p :: 0 <= p < 8 ==> ZeroRun(Shorts(a), p) <= length
    ensures length == 0 ==> start == -1
    ensures length > 0 ==> 0 <= start < 8 && ZeroRun(Shorts(a), start) == length
    ensures length > 0 ==> forall p :: 0 <= p < start ==> ZeroRun(Shorts(a), p) < length
  {
    var longestConsecutiveZeroes := 0;
    var longestConsecutiveZeroesPos := -1;
    var shorts := ToShortArray(a);
    ghost var s := shorts[..];
    for pos := 0 to shorts.Length
      invariant shorts[..] == s
      invariant forall p :: 0 <= p < pos ==> ZeroRun(s, p) <= longestConsecutiveZeroes
      invariant longestConsecutiveZeroes == 0 ==> longestConsecutiveZeroesPos == -1
      invariant longestConsecutiveZeroes > 0 ==>
        0 <= longestConsecutiveZeroesPos < pos
        && ZeroRun(s, longestConsecutiveZeroesPos) == longestConsecutiveZeroes
        && forall p :: 0 <= p < longestConsecutiveZeroesPos ==> ZeroRun(s, p) < longestConsecutiveZeroes
    {
      var consecutiveZeroesAtCurrentPos := CountConsecutiveZeroes(shorts, pos);
      if consecutiveZeroesAtCurrentPos > longestConsecutiveZeroes {
        longestConsecutiveZeroes := consecutiveZeroesAtCurrentPos;
        longestConsecutiveZeroesPos := pos;
      }
    }
    return longestConsecutiveZeroesPos, longestConsecutiveZeroes;
  }

  /** A run of zero groups is a run of zero shorts. */
  lemma ZeroShortIsZeroGroup(a: Address, i: nat)
    requires i < 8
    ensures Shorts(a)[i] == 0 <==> Group(a, i) == 0
  {
  }
}

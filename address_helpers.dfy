/**
 * The word-level helpers of the address class: the unsigned comparison the
 * carry detection relies on, and the validation and assembly of the eight
 * 16-bit groups an address is written as.
 */
module AddressHelpers {
  import opened Arith
  import opened JavaLong
  import opened Wrappers

  /** `isLessThanUnsigned`: signed comparison corrected when the sign bits differ. */
  function IsLessThanUnsigned(a: Word, b: Word): (r: bool)
    ensures r <==> a < b
  {
    (Signed(a) < Signed(b)) != ((Signed(a) < 0) != (Signed(b) < 0))
  }

  /** Groups 0..3 of an address live in the high word. */
  predicate InHighRange(shortNumber: int)
  {
    shortNumber >= 0 && shortNumber < 4
  }

  /** What `validateLongs` accepts: eight values, each in [0, 0xFFFF]. */
  predicate ValidGroups(longs: seq<Long>)
  {
    |longs| == 8 && forall i :: 0 <= i < |longs| ==> 0 <= longs[i] <= 0xFFFF
  }

  /** `validateLongs`: `Failure` stands for the IllegalArgumentException. */
  method ValidateLongs(longs: array<Long>) returns (r: Result<()>)
    ensures r.Success? <==> ValidGroups(longs[..])
    ensures r.Failure? ==> r.error == IllegalArgument
  {
    if longs.Length != 8 {
      return Failure(IllegalArgument);
    }
    var i := 0;
    while i < longs.Length
      invariant 0 <= i <= longs.Length
      invariant forall j :: 0 <= j < i ==> 0 <= longs[j] <= 0xFFFF
    {
      var l := longs[i];
      if l < 0 {
        return Failure(IllegalArgument);
      }
      if l > 0xFFFF {
        return Failure(IllegalArgument);
      }
      i := i + 1;
    }
    return Success(());
  }

  /** Base-2^16 value of a sequence of groups, most significant first. */
  function Pack(g: seq<int>): (r: nat)
    requires forall i :: 0 <= i < |g| ==> 0 <= g[i] <= 0xFFFF
    ensures r < Pow2(16 * |g|)
  {
    if |g| == 0 then 0
    else
      var init := g[..|g| - 1];
      PackStep(Pack(init), g[|g| - 1], |init|);
      Pack(init) * 0x1_0000 + g[|g| - 1]
  }

  lemma PackStep(p: nat, x: nat, n: nat)
    requires p < Pow2(16 * n) && x <= 0xFFFF
    ensures p * 0x1_0000 + x < Pow2(16 * (n + 1))
  {
    Pow2Of16();
    Pow2Add(16 * n, 16);
    assert p * 0x1_0000 <= (Pow2(16 * n) - 1) * 0x1_0000;
  }

  /** A product below `2^m * 2^k`. */
  lemma ScaledBelow(x: nat, m: nat, k: nat)
    requires x < Pow2(m)
    ensures x * Pow2(k) < Pow2(m + k)
  {
    Pow2Add(m, k);
    MulPos(Pow2(m) - x, Pow2(k));
  }

  /** Packing one more group. */
  lemma PackSnoc(g: seq<int>, n: nat)
    requires n < |g|
    requires forall i :: 0 <= i < |g| ==> 0 <= g[i] <= 0xFFFF
    ensures Pack(g[..n + 1]) == Pack(g[..n]) * 0x1_0000 + g[n]
  {
    assert g[..n + 1][..n] == g[..n];
  }

  /**
   * Or-ing group `g`, shifted by `d`, into the word `acc` that holds `p` in
   * the groups above position `c`: the group lands next to them.  Each
   * position is handled on its own so that every power of two is a literal.
   */
  lemma PlaceGroup(acc: Word, p: nat, g: Word, c: nat, d: int)
    requires c < 4 && g <= 0xFFFF
    requires acc == p * Pow2(16 * (4 - c))
    requires d % 64 == 16 * (3 - c)
    ensures Or(acc, ShiftLeft(g, d)) == acc + g * Pow2(16 * (3 - c))
  {
    var sh := ShiftLeft(g, d);
    if c == 0 {
      Pow2Of48();
      W64IsPow2();
      assert acc == p * W64 && d % 64 == 48;
      ShiftLeftNoWrap(g, d, 48);
      DivModOfMultiple(p, W64);
      OrDisjoint(acc, sh, 64);
    } else if c == 1 {
      Pow2Of32();
      Pow2Of48();
      assert acc == p * 0x1_0000_0000_0000 && d % 64 == 32;
      ShiftLeftNoWrap(g, d, 32);
      DivModOfMultiple(p, 0x1_0000_0000_0000);
      OrDisjoint(acc, sh, 48);
    } else if c == 2 {
      Pow2Of16();
      Pow2Of32();
      assert acc == p * 0x1_0000_0000 && d % 64 == 16;
      ShiftLeftNoWrap(g, d, 16);
      DivModOfMultiple(p, 0x1_0000_0000);
      OrDisjoint(acc, sh, 32);
    } else {
      Pow2Of16();
      assert acc == p * 0x1_0000 && d % 64 == 0;
      ShiftLeftNoWrap(g, d, 0);
      DivModOfMultiple(p, 0x1_0000);
      OrDisjoint(acc, sh, 16);
    }
  }

  /** `2^(16 (4 - c)) == 2^16 * 2^(16 (3 - c))`, written for the packed groups `q`. */
  lemma ShiftedPack(p: nat, g: nat, q: nat, c: nat)
    requires c < 4
    requires q == p * 0x1_0000 + g
    ensures p * Pow2(16 * (4 - c)) + g * Pow2(16 * (3 - c)) == q * Pow2(16 * (3 - c))
  {
    var w := Pow2(16 * (3 - c));
    assert Pow2(16 * (4 - c)) == 0x1_0000 * w by {
      Pow2Of16();
      Pow2Add(16 * (3 - c), 16);
    }
  }

  /**
   * One step of the merge loop on a word: `acc | (g << d)`, where `acc` holds
   * the groups `t[..c]` at the top and `d` puts group `c` below them.
   */
  lemma MergeWordStep(t: seq<int>, c: nat, acc: Word, d: int)
    requires c < 4 <= |t|
    requires forall i :: 0 <= i < |t| ==> 0 <= t[i] <= 0xFFFF
    requires acc == Pack(t[..c]) * Pow2(16 * (4 - c))
    requires d % 64 == 16 * (3 - c)
    ensures Or(acc, ShiftLeft(ToWord(t[c]), d)) == Pack(t[..c + 1]) * Pow2(16 * (4 - (c + 1)))
    ensures Pack(t[..c + 1]) * Pow2(16 * (4 - (c + 1))) < W64
  {
    var p, g, q := Pack(t[..c]), ToWord(t[c]), Pack(t[..c + 1]);
    assert g == t[c] by {
      DivModUnique(t[c], W64, 0, t[c]);
    }
    assert q == p * 0x1_0000 + g by {
      PackSnoc(t, c);
    }
    assert q < Pow2(16 * (c + 1)) by {
      assert |t[..c + 1]| == c + 1;
    }
    MergeWordCore(acc, p, g, q, c, d);
  }

  /** The arithmetic of one merge step, on plain numbers. */
  lemma MergeWordCore(acc: Word, p: nat, g: Word, q: nat, c: nat, d: int)
    requires c < 4 && g <= 0xFFFF
    requires acc == p * Pow2(16 * (4 - c))
    requires d % 64 == 16 * (3 - c)
    requires q == p * 0x1_0000 + g && q < Pow2(16 * (c + 1))
    ensures Or(acc, ShiftLeft(g, d)) == q * Pow2(16 * (4 - (c + 1)))
    ensures q * Pow2(16 * (4 - (c + 1))) < W64
  {
    assert 16 * (4 - (c + 1)) == 16 * (3 - c);
    var w := Pow2(16 * (3 - c));
    assert Or(acc, ShiftLeft(g, d)) == acc + g * w by {
      PlaceGroup(acc, p, g, c, d);
    }
    assert acc + g * w == q * w by {
      ShiftedPack(p, g, q, c);
    }
    assert q * w < W64 by {
      assert 16 * (c + 1) + 16 * (3 - c) == 64;
      W64IsPow2();
      ScaledBelow(q, 16 * (c + 1), 16 * (3 - c));
    }
  }

  /** The state of the merge loop after `i` groups. */
  ghost predicate MergeInvariant(s: seq<Long>, i: nat, high: Word, low: Word)
    requires ValidGroups(s) && i <= 8
  {
    if i <= 4 then high == Pack(s[..i]) * Pow2(16 * (4 - i)) && low == 0
    else high == Pack(s[..4]) && low == Pack(s[4..i]) * Pow2(16 * (8 - i))
  }

  /** The high-word half of one loop iteration. */
  lemma MergeHighStep(s: seq<Long>, i: nat, high: Word, low: Word, d: int)
    requires ValidGroups(s) && i < 4 && MergeInvariant(s, i, high, low)
    requires d == (8 - i - 1) * 16
    ensures Or(high, ShiftLeft(ToWord(s[i]), d)) < W64
    ensures MergeInvariant(s, i + 1, Or(high, ShiftLeft(ToWord(s[i]), d)), low)
  {
    assert d % 64 == 16 * (3 - i) by {
      DivModUnique(d, 64, 1, d - 64);
    }
    MergeWordStep(s, i, high, d);
  }

  /** The low groups `s[4..]` as a sequence of their own. */
  lemma LowGroups(s: seq<Long>, c: nat)
    requires ValidGroups(s) && c < 4
    ensures forall j :: 0 <= j < |s[4..]| ==> 0 <= s[4..][j] <= 0xFFFF
    ensures s[4..][..c] == s[4..4 + c] && s[4..][..c + 1] == s[4..4 + c + 1] && s[4..][c] == s[4 + c]
  {
    assert forall j :: 0 <= j < |s[4..]| ==> s[4..][j] == s[4 + j];
  }

  /** The loop state before a low-word step, in the terms of `MergeWordStep`. */
  lemma LowStepFacts(s: seq<Long>, i: nat, high: Word, low: Word, d: int)
    requires ValidGroups(s) && 4 <= i < 8 && MergeInvariant(s, i, high, low)
    requires d == (8 - i - 1) * 16
    ensures high == Pack(s[..4])
    ensures forall j :: 0 <= j < |s[4..]| ==> 0 <= s[4..][j] <= 0xFFFF
    ensures low == Pack(s[4..][..i - 4]) * Pow2(16 * (4 - (i - 4)))
    ensures d % 64 == 16 * (3 - (i - 4))
    ensures s[4..][..i - 4 + 1] == s[4..i + 1] && s[4..][i - 4] == s[i]
  {
    LowGroups(s, i - 4);
    assert high == Pack(s[..4]) by {
      if i == 4 {
        assert Pow2(16 * (4 - i)) == 1;
      }
    }
    assert 16 * (4 - (i - 4)) == 16 * (8 - i);
    if i == 4 {
      assert s[4..4] == [];
    }
    DivModUnique(d, 64, 0, d);
  }

  /** The low-word half of one loop iteration. */
  lemma MergeLowStep(s: seq<Long>, i: nat, high: Word, low: Word, d: int)
    requires ValidGroups(s) && 4 <= i < 8 && MergeInvariant(s, i, high, low)
    requires d == (8 - i - 1) * 16
    ensures Or(low, ShiftLeft(ToWord(s[i]), d)) < W64
    ensures MergeInvariant(s, i + 1, high, Or(low, ShiftLeft(ToWord(s[i]), d)))
  {
    LowStepFacts(s, i, high, low, d);
    MergeWordStep(s[4..], i - 4, low, d);
    assert 16 * (4 - (i - 4 + 1)) == 16 * (8 - (i + 1));
  }

  /**
   * `mergeLongArrayIntoIPv6Address`, called only after `validateLongs`
   * succeeded: groups 0..3 form the high word and 4..7 the low word.
   */
  method MergeLongArrayIntoAddress(longs: array<Long>) returns (high: Word, low: Word)
    requires ValidGroups(longs[..])
    ensures high == Pack(longs[..4])
    ensures low == Pack(longs[4..])
  {
    high := 0;
    low := 0;
    var i := 0;
    assert longs[..0] == [];
    while i < longs.Length
      invariant 0 <= i <= 8
      invariant MergeInvariant(longs[..], i, high, low)
    {
      var d := (longs.Length - i - 1) * 16;
      if InHighRange(i) {
        MergeHighStep(longs[..], i, high, low, d);
        high := Or(high, ShiftLeft(ToWord(longs[i]), d));
      } else {
        MergeLowStep(longs[..], i, high, low, d);
        low := Or(low, ShiftLeft(ToWord(longs[i]), d));
      }
      i := i + 1;
    }
    assert longs[4..8] == longs[4..];
  }
}

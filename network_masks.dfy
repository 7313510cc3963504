/**
 * `IPv6NetworkMask` of version 0.4: a prefix length in ]0, 128], built
 * either from the length itself or from an address that must be a
 * contiguous run of leading one bits.
 */
module NetworkMasks {
  import opened Arith
  import opened JavaLong
  import opened Wrappers
  import opened Addresses
  import opened BitSets

  /** The mask keeps only its prefix length; both constructors put it in ]0, 128]. */
  datatype NetworkMask = NetworkMask(prefixLength: int)

  /** The constructor from a prefix length. */
  function FromPrefixLength(prefixLength: int): (r: Result<NetworkMask>)
    ensures r.Success? <==> 0 < prefixLength <= 128
    ensures r.Failure? ==> r.error == IllegalArgument
    ensures r.Success? ==> r.value.prefixLength == prefixLength
  {
    if prefixLength <= 0 || prefixLength > 128 then
      Failure(IllegalArgument)
    else
      Success(NetworkMask(prefixLength))
  }

  /** No one bit below a zero bit. */
  predicate Contiguous(a: Address)
  {
    forall i, j :: 0 <= j < i < 128 && !TestBit(Value(a), i) ==> !TestBit(Value(a), j)
  }

  /** What `validateNetworkMask` accepts: bit 127 set and the ones contiguous from the top. */
  predicate IsNetworkMask(a: Address)
  {
    TestBit(Value(a), 127) && Contiguous(a)
  }

  /**
   * `validateNetworkMask`: true where the source returns normally, false
   * where it throws `IllegalArgumentException`.
   */
  method ValidateNetworkMask(a: Address) returns (valid: bool)
    ensures valid <==> IsNetworkMask(a)
  {
    var addressAsBitSet := ValueOf(a.low, a.high);
    BitSetOfAddress(a);
    ghost var v := Value(a);
    assert forall k :: 0 <= k < 128 ==> (addressAsBitSet.Get(k) <==> TestBit(v, k));
    if !addressAsBitSet.Get(127) {
      return false;
    }
    var firstZeroFound := false;
    var i := 127;
    while i >= 0 && !firstZeroFound
      invariant -1 <= i <= 127
      invariant forall k :: (if firstZeroFound then i + 1 else i) < k < 128 ==> TestBit(v, k)
      invariant firstZeroFound ==> forall k :: 0 <= k <= i + 1 ==> !TestBit(v, k)
      decreases i + 1
    {
      if !addressAsBitSet.Get(i) {
        firstZeroFound := true;
        var j := i - 1;
        while j >= 0
          invariant -1 <= j < i
          invariant forall k :: j < k <= i ==> !TestBit(v, k)
        {
          if addressAsBitSet.Get(j) {
            assert !TestBit(v, i) && TestBit(v, j);
            return false;
          }
          j := j - 1;
        }
      }
      i := i - 1;
    }
    valid := true;
  }

  /** The number with `p` leading ones in 128 bits and zeros below them. */
  function MaskValue(p: nat): (v: nat)
    requires p <= 128
    ensures v < W128
  {
    assert Pow2(128) == W128 by {
      Pow2Of128();
    }
    Pow2Mono(128 - p, 128);
    W128 - Pow2(128 - p)
  }

  lemma MaskValueIs(p: nat)
    requires p <= 128
    ensures Pow2(128) == W128
    ensures MaskValue(p) == Pow2(128) - Pow2(128 - p)
  {
    Pow2Of128();
  }

  /** `asAddress`: the address with `prefixLength` leading ones. */
  function AsAddress(m: NetworkMask): (r: Address)
    requires 0 < m.prefixLength <= 128
    ensures Value(r) == MaskValue(m.prefixLength)
  {
    var p := m.prefixLength;
    W64IsPow2();
    if p == 128 then
      Address(Ones, Ones)
    else if p == 64 then
      Address(Ones, 0)
    else if p > 64 then
      var remainingPrefixLength := p - 64;
      ShiftLeftOnes(64 - remainingPrefixLength);
      Address(Ones, ShiftLeft(Ones, 64 - remainingPrefixLength))
    else
      ShiftLeftOnes(64 - p);
      Pow2Add(64 - p, 64);
      Address(ShiftLeft(Ones, 64 - p), 0)
  }

  /** Bit `i` of `2^n - 2^k` is set exactly from index `k` upwards. */
  lemma TopOnesBits(n: nat, k: nat, i: nat)
    requires k <= n && i < n
    ensures TestBit(Pow2(n) - Pow2(k), i) <==> k <= i
  {
    var d, t, h := Pow2(i), Pow2(n - i), Pow2(n - i - 1);
    assert Pow2(n) == d * t by {
      Pow2Add(i, n - i);
    }
    assert t == 2 * h by {
      Pow2Add(1, n - i - 1);
    }
    if k <= i {
      assert Pow2(k) <= d by {
        Pow2Mono(k, i);
      }
      OddQuotient(Pow2(n) - Pow2(k), d, t, h, d - Pow2(k));
    } else {
      var u, g := Pow2(k - i), Pow2(k - i - 1);
      assert Pow2(k) == d * u by {
        Pow2Add(i, k - i);
      }
      assert u == 2 * g by {
        Pow2Add(1, k - i - 1);
      }
      EvenQuotient(Pow2(n) - Pow2(k), d, t, u, h, g);
    }
  }

  lemma OddQuotient(v: int, d: int, t: int, h: int, r: int)
    requires d > 0 && 0 <= r < d
    requires t == 2 * h
    requires v == d * t - d + r
    ensures (v / d) % 2 == 1
  {
    assert v == (t - 1) * d + r;
    DivModUnique(v, d, t - 1, r);
    DivModUnique(t - 1, 2, h - 1, 1);
  }

  lemma EvenQuotient(v: int, d: int, t: int, u: int, h: int, g: int)
    requires d > 0
    requires t == 2 * h && u == 2 * g
    requires v == d * t - d * u
    ensures (v / d) % 2 == 0
  {
    assert v == (t - u) * d;
    DivModUnique(v, d, t - u, 0);
    DivModUnique(t - u, 2, h - g, 0);
  }

  /** A number at least `2^128 - 2^k` has every bit from `k` upwards set. */
  lemma TopOnesSet(v: nat, k: nat)
    requires k <= 128
    requires MaskValue(128 - k) <= v < W128
    ensures forall i :: k <= i < 128 ==> TestBit(v, i)
  {
    MaskValueIs(128 - k);
    var m := MaskValue(128 - k);
    assert v / Pow2(k) == m / Pow2(k) by {
      Pow2Add(k, 128 - k);
      TopBlock(v, m, Pow2(k), Pow2(128 - k), Pow2(128));
    }
    SameHighBits(v, m, k);
    forall i | k <= i < 128
      ensures TestBit(v, i)
    {
      TopOnesBits(128, k, i);
    }
  }

  lemma TopBlock(v: int, m: int, d: int, t: int, n: int)
    requires d > 0 && n == d * t
    requires m == n - d && m <= v < n
    ensures v / d == t - 1 && m / d == t - 1
  {
    assert (t - 1) * d == m;
    QuotientInBlock(v, d, t - 1);
    QuotientInBlock(m, d, t - 1);
  }

  /** Below `2^128 - 2^(k-1)` and at least `2^128 - 2^k`, bit `k - 1` is clear. */
  lemma ZeroBelowTopOnes(v: nat, k: nat)
    requires 1 <= k <= 128
    requires MaskValue(128 - k) <= v < MaskValue(129 - k)
    ensures !TestBit(v, k - 1)
  {
    MaskValueIs(128 - k);
    MaskValueIs(129 - k);
    Pow2Add(k - 1, 129 - k);
    Pow2Add(1, k - 1);
    Pow2Add(1, 128 - k);
    SecondBlock(v, Pow2(k - 1), Pow2(129 - k), Pow2(128 - k), Pow2(128));
  }

  lemma SecondBlock(v: int, d: int, t: int, h: int, n: int)
    requires d > 0 && n == d * t && t == 2 * h
    requires n - 2 * d <= v < n - d
    ensures (v / d) % 2 == 0
  {
    QuotientInBlock(v, d, t - 2);
    DivModUnique(t - 2, 2, h - 1, 0);
  }

  /** The quotient of a number in the block `[q d, q d + d)`. */
  lemma QuotientInBlock(v: int, d: int, q: int)
    requires d > 0
    requires q * d <= v < q * d + d
    ensures v / d == q
  {
    DivModUnique(v, d, q, v - q * d);
  }

  /** Only `p` leading ones make `numberOfLeadingOnes` count `p`. */
  lemma LeadingOnesOfMaskValue(a: Address, p: nat)
    requires p <= 128
    requires Value(a) == MaskValue(p)
    ensures NumberOfLeadingOnes(a) == p
  {
    var r := NumberOfLeadingOnes(a);
    LeadingCount(Value(a), r, p);
  }

  /** Only `p` is a count of leading ones consistent with the value `2^128 - 2^(128 - p)`. */
  lemma LeadingCount(v: int, r: nat, p: nat)
    requires r <= 128 && p <= 128
    requires v == W128 - Pow2(128 - p)
    requires v >= W128 - Pow2(128 - r)
    requires r < 128 ==> v < W128 - Pow2(127 - r)
    ensures r == p
  {
    if r < p {
      Pow2Mono(128 - p, 127 - r);
    } else if r > p {
      Pow2Strict(128 - r, 128 - p);
    }
  }

  /** The number with `p` leading ones is a network mask, and its leading ones are `p`. */
  lemma MaskValueIsNetworkMask(a: Address, p: nat)
    requires 0 < p <= 128
    requires Value(a) == MaskValue(p)
    ensures IsNetworkMask(a) && NumberOfLeadingOnes(a) == p
  {
    LeadingOnesOfMaskValue(a, p);
    MaskValueIs(p);
    MaskValueBits(Value(a), 128 - p);
  }

  lemma MaskValueBits(v: nat, k: nat)
    requires k < 128
    requires v == Pow2(128) - Pow2(k)
    ensures TestBit(v, 127)
    ensures forall i, j :: 0 <= j < i < 128 && !TestBit(v, i) ==> !TestBit(v, j)
  {
    MaskBitsAre(v, k);
  }

  lemma MaskBitsAre(v: nat, k: nat)
    requires k <= 128
    requires v == Pow2(128) - Pow2(k)
    ensures forall i :: 0 <= i < 128 ==> (TestBit(v, i) <==> k <= i)
  {
    forall i | 0 <= i < 128
      ensures TestBit(v, i) <==> k <= i
    {
      TopOnesBits(128, k, i);
    }
  }

  /** A network mask has 1..128 leading ones and nothing else set. */
  lemma NetworkMaskShape(a: Address)
    requires IsNetworkMask(a)
    ensures 0 < NumberOfLeadingOnes(a)
    ensures Value(a) == MaskValue(NumberOfLeadingOnes(a))
  {
    var v := Value(a);
    var r := NumberOfLeadingOnes(a);
    var k := 128 - r;
    var m := MaskValue(r);
    assert r != 0 by {
      if r == 0 {
        assert v < Pow2(127) by {
          Pow2Of128();
          Pow2Add(127, 1);
        }
        HighBitsClearUnder(v, 127);
      }
    }
    assert m == Pow2(128) - Pow2(k) by {
      Pow2Of128();
    }
    TopOnesSet(v, k);
    forall i | 0 <= i < 128
      ensures TestBit(v, i) == TestBit(m, i)
    {
      TopOnesBits(128, k, i);
      if i < k {
        assert !TestBit(v, k - 1) by {
          ZeroBelowTopOnes(v, k);
        }
        if i < k - 1 {
          assert !TestBit(v, i);
        }
      }
    }
    SameBits(v, m);
  }

  /** Two 128-bit numbers with the same bits are equal. */
  lemma SameBits(x: nat, y: nat)
    requires x < W128 && y < W128
    requires forall i :: 0 <= i < 128 ==> TestBit(x, i) == TestBit(y, i)
    ensures x == y
  {
    Pow2Of128();
    HighBitsAgree(x, y, 0, 128);
    assert Pow2(0) == 1;
    DivModUnique(x, 1, x, 0);
    DivModUnique(y, 1, y, 0);
  }

  /** A number below `2^k` has bit `k` clear. */
  lemma HighBitsClearUnder(x: nat, k: nat)
    requires x < Pow2(k)
    ensures !TestBit(x, k)
  {
    DivModUnique(x, Pow2(k), 0, x);
  }

  /** The value-level constructor from an address: accepted masks get their leading ones. */
  function MaskFromAddress(a: Address): (r: Result<NetworkMask>)
    ensures r.Success? <==> IsNetworkMask(a)
    ensures r.Failure? ==> r.error == IllegalArgument
    ensures r.Success? ==> 0 < r.value.prefixLength <= 128 && AsAddress(r.value) == a
  {
    if IsNetworkMask(a) then
      var m := NetworkMask(NumberOfLeadingOnes(a));
      NetworkMaskShape(a);
      ValueInjective(AsAddress(m), a);
      Success(m)
    else
      Failure(IllegalArgument)
  }

  /** The constructor from an address: validate, then count the leading ones. */
  method FromAddress(a: Address) returns (r: Result<NetworkMask>)
    ensures r == MaskFromAddress(a)
  {
    var valid := ValidateNetworkMask(a);
    if !valid {
      return Failure(IllegalArgument);
    }
    r := Success(NetworkMask(NumberOfLeadingOnes(a)));
  }

  /** Rebuilding a mask from `asAddress` gives the same mask back. */
  lemma AsAddressRoundTrip(m: NetworkMask)
    requires 0 < m.prefixLength <= 128
    ensures MaskFromAddress(AsAddress(m)) == Success(m)
  {
    MaskValueIsNetworkMask(AsAddress(m), m.prefixLength);
  }

  /** `equals`: masks are equal when their prefix lengths are. */
  predicate Equals(m: NetworkMask, n: NetworkMask)
  {
    m.prefixLength == n.prefixLength
  }

  /** Equal masks are exactly those with equal addresses. */
  lemma EqualsByAddress(m: NetworkMask, n: NetworkMask)
    requires 0 < m.prefixLength <= 128 && 0 < n.prefixLength <= 128
    ensures Equals(m, n) <==> AsAddress(m) == AsAddress(n)
  {
    if AsAddress(m) == AsAddress(n) {
      LeadingOnesOfMaskValue(AsAddress(m), m.prefixLength);
      LeadingOnesOfMaskValue(AsAddress(n), n.prefixLength);
    }
  }
}

/**
 * `IPv6Network` in its three versions: a range `[mask(a, p), max(a, p)]`
 * together with its network address (the masked address) and its prefix
 * length `p`.  The network mask is kept as its prefix length.
 */
module Networks {
  import opened Arith
  import opened JavaLong
  import opened Wrappers
  import opened Addresses
  import opened AddressLegacy
  import opened NetworkHelpers
  import opened NetworkMasks
  import opened Ranges

  /** A network: the range it extends, its network address and its prefix length. */
  datatype Network = Network(range: AddressRange, address: Address, prefixLength: int)

  /** A well-formed network: an aligned block of `2^(128 - p)` addresses starting at its address. */
  predicate IsNetwork(n: Network)
  {
    0 <= n.prefixLength <= 128
    && n.address == n.range.first
    && Value(n.range.first) % Pow2(128 - n.prefixLength) == 0
    && Value(n.range.last) == Value(n.range.first) + Pow2(128 - n.prefixLength) - 1
  }

  /** Two addresses mask to the same address exactly when they agree above bit `128 - p`. */
  lemma MaskByQuotient(a: Address, b: Address, p: nat)
    requires p <= 128
    ensures Mask(a, p) == Mask(b, p) <==> Value(a) / Pow2(128 - p) == Value(b) / Pow2(128 - p)
  {
    var d := Pow2(128 - p);
    DivModBounds(Value(a), d);
    DivModBounds(Value(b), d);
    if Value(a) / d == Value(b) / d {
      ValueInjective(Mask(a, p), Mask(b, p));
    } else if Mask(a, p) == Mask(b, p) {
      DivModOfMultiple(Value(a) / d, d);
      DivModOfMultiple(Value(b) / d, d);
    }
  }

  // ---------------------------------------------------------------------
  // src (com.googlecode.ipv6)

  /**
   * The private constructor and `fromAddressAndMask`: the range from the
   * masked to the maximum address, and the masked address as network address.
   */
  function FromAddressAndMask(a: Address, p: nat): (n: Network)
    requires p <= 128
    ensures IsNetwork(n) && n.prefixLength == p
    ensures Valid(n.range) && Contains(n.range, a)
  {
    RoundDownMod(Value(a), Pow2(128 - p));
    MaskBelowMaximum(a, p);
    Network(AddressRange(Mask(a, p), Maximum(a, p)), Mask(a, p), p)
  }

  /** An address lies in the network of `a` exactly when it agrees with `a` on the top `p` bits. */
  lemma ContainsByTopBits(a: Address, b: Address, p: nat)
    requires p <= 128
    ensures Contains(FromAddressAndMask(a, p).range, b)
        <==> Value(b) / Pow2(128 - p) == Value(a) / Pow2(128 - p)
  {
    SameMask(a, b, p);
    MaskByQuotient(a, b, p);
  }

  /** Two host addresses give the same network exactly when they agree on the top `p` bits. */
  lemma SameNetwork(a: Address, b: Address, p: nat)
    requires p <= 128
    ensures FromAddressAndMask(a, p) == FromAddressAndMask(b, p)
        <==> Value(a) / Pow2(128 - p) == Value(b) / Pow2(128 - p)
  {
    MaskByQuotient(a, b, p);
    MaskIdempotent(a, p);
    MaskIdempotent(b, p);
  }

  /** With prefix 0 the network is `[::, ffff:...:ffff]` and contains every address. */
  lemma ZeroNetwork(a: Address, b: Address)
    ensures FromAddressAndMask(a, 0).range == AddressRange(Zero, AllOnes)
    ensures Contains(FromAddressAndMask(a, 0).range, b)
  {
    MaskEdges(a);
    ContainsByTopBits(a, b, 0);
    Pow2Of128();
    DivModUnique(Value(a), Pow2(128), 0, Value(a));
    DivModUnique(Value(b), Pow2(128), 0, Value(b));
  }

  /**
   * The network of `one` with prefix `q` contains `two` exactly when `q` is
   * at most the longest common prefix of the two addresses.
   */
  lemma SmallestNetwork(one: Address, two: Address, q: nat)
    requires q <= 128
    ensures Contains(FromAddressAndMask(one, q).range, two)
        <==> q <= CommonPrefix(Value(one), Value(two), 128)
  {
    var r := CommonPrefix(Value(one), Value(two), 128);
    ContainsByTopBits(one, two, q);
    Pow2Of128();
    HighBitsAgree(Value(two), Value(one), 128 - q, 128);
    if q > r {
      assert TestBit(Value(one), 127 - r) != TestBit(Value(two), 127 - r);
    }
  }

  /**
   * `fromTwoAddresses`: the network of the masked first address for the
   * longest common prefix; it contains both addresses and no longer prefix
   * would.
   */
  method FromTwoAddresses(one: Address, two: Address) returns (n: Network)
    ensures n == FromAddressAndMask(one, CommonPrefix(Value(one), Value(two), 128))
    ensures Contains(n.range, one) && Contains(n.range, two)
    ensures forall q: nat :: q <= 128 && Contains(FromAddressAndMask(one, q).range, two) ==> q <= n.prefixLength
  {
    var longestPrefixLength := LongestPrefixLengthValueOf(one, two);
    n := FromAddressAndMask(Mask(one, longestPrefixLength), longestPrefixLength);
    MaskIdempotent(one, longestPrefixLength);
    SmallestNetwork(one, two, longestPrefixLength);
    forall q: nat | q <= 128 && Contains(FromAddressAndMask(one, q).range, two)
      ensures q <= n.prefixLength
    {
      SmallestNetwork(one, two, q);
    }
  }

  /** `equals` of src and 0.4: equal range, equal address and equal mask. */
  predicate NetworkEquals(n: Network, m: Network)
  {
    RangeEquals(n.range, m.range) && Addresses.Equals(n.address, m.address) && n.prefixLength == m.prefixLength
  }

  // ---------------------------------------------------------------------
  // 0.4 (be.jvb.ipv6), over the 0.4 `IPv6NetworkMask`

  /**
   * `IPv6Network(address, networkMask)`: the mask's prefix lies in ]0, 128],
   * where masking without the prefix-0 branch is plain masking.
   */
  function FromMask04(a: Address, m: NetworkMask): (n: Network)
    requires 0 < m.prefixLength <= 128
    ensures n == FromAddressAndMask(a, m.prefixLength)
  {
    Network(AddressRange(Mask05(a, m.prefixLength), Maximum(a, m.prefixLength)),
            Mask05(a, m.prefixLength), m.prefixLength)
  }

  /** `IPv6Network(address, int)`: builds the mask first, so a prefix outside ]0, 128] throws. */
  function FromPrefixLength04(a: Address, prefixLength: int): (r: Result<Network>)
    ensures r.Success? <==> 0 < prefixLength <= 128
    ensures r.Failure? ==> r.error == IllegalArgument
    ensures r.Success? ==> r.value == FromAddressAndMask(a, prefixLength)
  {
    var mask := FromPrefixLength(prefixLength);
    if mask.Failure? then Failure(mask.error) else Success(FromMask04(a, mask.value))
  }

  /**
   * `IPv6Network(first, last)`: the mask of the longest common prefix, which
   * throws when the two addresses already differ in bit 127.
   */
  method FromFirstLast04(first: Address, last: Address) returns (r: Result<Network>)
    ensures r.Success? <==> CommonPrefix(Value(first), Value(last), 128) > 0
    ensures r.Failure? ==> r.error == IllegalArgument
    ensures r.Success? ==> r.value == FromMask04(first, NetworkMask(CommonPrefix(Value(first), Value(last), 128)))
    ensures r.Success? ==> Contains(r.value.range, first) && Contains(r.value.range, last)
    ensures r.Success? ==> forall q: nat :: q <= 128 && Contains(FromAddressAndMask(first, q).range, last)
                                        ==> q <= r.value.prefixLength
  {
    var longestPrefixLength := LongestPrefixLengthValueOf(first, last);
    var mask := FromPrefixLength(longestPrefixLength);
    if mask.Failure? {
      return Failure(mask.error);
    }
    var n := FromMask04(first, mask.value);
    r := Success(Network(n.range, n.range.first, mask.value.prefixLength));
    SmallestNetwork(first, last, longestPrefixLength);
    forall q: nat | q <= 128 && Contains(FromAddressAndMask(first, q).range, last)
      ensures q <= r.value.prefixLength
    {
      SmallestNetwork(first, last, q);
    }
  }

  // ---------------------------------------------------------------------
  // trunk (be.jvb.ipv6), over `maskWithPrefixLength`

  /** `IPv6Network(address, prefixLength)`: masking throws for a prefix outside ]0, 128]. */
  function FromPrefixLengthTrunk(a: Address, prefixLength: int): (r: Result<Network>)
    ensures r.Success? <==> 0 < prefixLength <= 128
    ensures r.Failure? ==> r.error == IllegalArgument
    ensures r.Success? ==> r.value == FromAddressAndMask(a, prefixLength)
  {
    var first := MaskWithPrefixLength(a, prefixLength);
    var last := MaximumAddressWithPrefixLength(a, prefixLength);
    if first.Success? && last.Success? then
      Success(Network(AddressRange(first.value, last.value), first.value, prefixLength))
    else
      Failure(IllegalArgument)
  }

  /**
   * `IPv6Network(first, last)` of trunk: masking with the longest common
   * prefix, which throws when that prefix is 0.
   */
  method FromFirstLastTrunk(first: Address, last: Address) returns (r: Result<Network>)
    ensures r.Success? <==> CommonPrefix(Value(first), Value(last), 128) > 0
    ensures r.Failure? ==> r.error == IllegalArgument
    ensures r.Success? ==> r.value == FromAddressAndMask(first, CommonPrefix(Value(first), Value(last), 128))
    ensures r.Success? ==> Contains(r.value.range, first) && Contains(r.value.range, last)
    ensures r.Success? ==> forall q: nat :: q <= 128 && Contains(FromAddressAndMask(first, q).range, last)
                                        ==> q <= r.value.prefixLength
  {
    var longestPrefixLength := LongestPrefixLengthValueOf(first, last);
    var lo := MaskWithPrefixLength(first, longestPrefixLength);
    var hi := MaximumAddressWithPrefixLength(first, longestPrefixLength);
    if lo.Failure? || hi.Failure? {
      return Failure(IllegalArgument);
    }
    r := Success(Network(AddressRange(lo.value, hi.value), lo.value, longestPrefixLength));
    SmallestNetwork(first, last, longestPrefixLength);
    forall q: nat | q <= 128 && Contains(FromAddressAndMask(first, q).range, last)
      ensures q <= r.value.prefixLength
    {
      SmallestNetwork(first, last, q);
    }
  }

  /** `equals` of trunk: equal prefix length and equal address. */
  predicate NetworkEqualsTrunk(n: Network, m: Network)
  {
    n.prefixLength == m.prefixLength && Addresses.Equals(n.address, m.address)
  }

  /** On well-formed networks both notions of equality are plain equality. */
  lemma NetworkEqualities(n: Network, m: Network)
    requires IsNetwork(n) && IsNetwork(m)
    ensures NetworkEquals(n, m) <==> n == m
    ensures NetworkEqualsTrunk(n, m) <==> n == m
  {
    CompareToAgreesWithEquals(n.address, m.address);
    CompareToAgreesWithEquals(n.range.first, m.range.first);
    CompareToAgreesWithEquals(n.range.last, m.range.last);
    if NetworkEqualsTrunk(n, m) {
      ValueInjective(n.range.last, m.range.last);
    }
  }

  /**
   * `getNetmask` of trunk: the address with `prefixLength` leading ones and
   * zeros after them, built with the same four branches as `asAddress`.
   */
  function GetNetmask(n: Network): (r: Address)
    requires 0 < n.prefixLength <= 128
    ensures IsNetworkMask(r) && NumberOfLeadingOnes(r) == n.prefixLength
    ensures forall i :: 0 <= i < 128 ==> (TestBit(Value(r), i) <==> 128 - n.prefixLength <= i)
  {
    var r := AsAddress(NetworkMask(n.prefixLength));
    MaskValueIsNetworkMask(r, n.prefixLength);
    MaskValueIs(n.prefixLength);
    MaskBitsAre(Value(r), 128 - n.prefixLength);
    r
  }

  /** `::1` and `::2` give `::/126`, as the tests of every version expect. */
  lemma TwoAddressesExample()
    ensures FromAddressAndMask(Address(0, 1), CommonPrefix(1, 2, 128)) == FromAddressAndMask(Zero, 126)
  {
    CommonPrefixExample();
    assert Pow2(2) == 4;
    SameNetwork(Address(0, 1), Zero, 126);
  }

  /** The powers of two that the 44-bit example divides by. */
  lemma Pow2Of84()
    ensures Pow2(84) == 0x10_0000_0000_0000_0000_0000
    ensures Pow2(83) == 0x8_0000_0000_0000_0000_0000
  {
    Pow2Of16();
    Pow2Of64();
    assert Pow2(3) == 8;
    Pow2Add(16, 3);
    Pow2Add(64, 19);
  }

  /**
   * `a:b:c::1:1` and `a:b::f:f` agree on their first 44 bits and give the
   * network `a:b::/44`, as the trunk network test expects.
   */
  lemma FortyFourBitsExample()
    ensures CommonPrefix(Value(Address(0x000a_000b_000c_0000, 0x0000_0000_0001_0001)),
                         Value(Address(0x000a_000b_0000_0000, 0x0000_0000_000f_000f)), 128) == 44
    ensures FromAddressAndMask(Address(0x000a_000b_000c_0000, 0x0000_0000_0001_0001), 44)
         == FromAddressAndMask(Address(0x000a_000b_0000_0000, 0), 44)
  {
    var x := Value(Address(0x000a_000b_000c_0000, 0x0000_0000_0001_0001));
    var y := Value(Address(0x000a_000b_0000_0000, 0x0000_0000_000f_000f));
    var z := Value(Address(0x000a_000b_0000_0000, 0));
    Pow2Of128();
    Pow2Of84();
    assert x / Pow2(84) == 0xa000_b000 && y / Pow2(84) == 0xa000_b000 && z / Pow2(84) == 0xa000_b000;
    assert x / Pow2(83) == 0x1_4001_6001 && y / Pow2(83) == 0x1_4001_6000;
    CommonPrefixFromQuotients(x, y, 44);
    SameNetwork(Address(0x000a_000b_000c_0000, 0x0000_0000_0001_0001), Address(0x000a_000b_0000_0000, 0), 44);
  }
}

# java-ipv6 core in Dafny

A model of the core of the java-ipv6 library: 128-bit IPv6 addresses and the
arithmetic on them, network masks and networks, address ranges, and the
address pool that hands out subnets of one prefix length from a range and
takes them back. The model follows several versions of the library side by
side, as they appear in its history:

- `IPv6Address` of releases 0.13, 0.5 and 0.1 (modules `Addresses`,
  `AddressGroups`, `AddressLegacy`);
- `IPv6AddressHelpers` of release 0.2 (module `AddressHelpers`);
- `BitSetHelpers` and `IPv6NetworkHelpers` of trunk, of `src` and of 0.1
  (modules `BitSets`, `NetworkHelpers`);
- `IPv6NetworkMask` of release 0.4 (module `NetworkMasks`);
- `IPv6Network` of `src`, 0.4 and trunk (module `Networks`);
- the trunk `IPv6AddressRange` with its iterator (module `Ranges`), the
  `TreeSet` of free ranges (module `RangeSets`) and the trunk
  `IPv6AddressPool` (module `Pools`).

Modelling choices:

- A Java `long` is its unsigned 64-bit pattern, an integer in [0, 2^64)
  (module `JavaLong`). Addition wraps modulo 2^64; shifts take their
  distance modulo 64, as Java does; `&`, `|` and `~` are defined bit by bit;
  the signed view is explicit where the source compares signs. Module
  `Arith` holds the powers of two and the division facts these rest on.
- An address is its pair of words; `Addresses.Value` reads it as one
  number below 2^128, and every operation is specified on that number.
- In 0.5, `add`, `subtract`, `maximumAddressWithNetworkMask`, `compareTo`,
  the bit counts and `toShortArray` are the same text as in 0.13, so one
  definition covers both versions; `maskWithNetworkMask` of 0.5 differs
  (it has no branch for prefix 0) and is modelled on its own.
- `BitSet` is a small class over a set of indices; the loops over bits and
  over the shorts of an address are methods with loop invariants.
- The pool, like the Java object, never changes: every operation returns
  a new pool. It is a datatype holding its bounds, its prefix length and
  its free ranges. The free-range `TreeSet` is a sorted sequence, and the
  copies the pool edits are a `RangeSet` class whose `Remove`, `Add` and
  `AddAll` change that sequence.
- Exceptions are `Failure` results (`IllegalArgument`, `NoSuchElement`);
  a `null` result is `None`.

Where a version does something its authors evidently did not intend,
the model keeps the code as written, shows the difference with a lemma,
and uses a corrected definition in the rest of the model
(see "Findings").

## Model

| member | source | states |
|---|---|---|
| Addresses.Value | tags/java-ipv6-0.13/src/main/java/com/googlecode/ipv6/IPv6Address.java:54-57 | an address stands for one number below 2^128: the high word times 2^64 plus the low word |
| Addresses.FromValue | tags/java-ipv6-0.13/src/main/java/com/googlecode/ipv6/IPv6Address.java:54-57 | every number below 2^128 is the value of an address (the word pair `fromLongs` builds) |
| Addresses.ValueInjective | tags/java-ipv6-0.13/src/main/java/com/googlecode/ipv6/IPv6Address.java:460-471 | two addresses with the same value have the same two words |
| Addresses.FromValueOfValue | tags/java-ipv6-0.13/src/main/java/com/googlecode/ipv6/IPv6Address.java:54-57 | rebuilding an address from its value gives the same address back |
| Addresses.Add | tags/java-ipv6-0.13/src/main/java/com/googlecode/ipv6/IPv6Address.java:147-177 | `add(value)` is the value plus the sign-extended delta modulo 2^128, for every delta |
| Addresses.Subtract | tags/java-ipv6-0.13/src/main/java/com/googlecode/ipv6/IPv6Address.java:185-215 | `subtract(value)` is the value minus the sign-extended delta modulo 2^128, for every delta |
| Addresses.CarryValue | tags/java-ipv6-0.13/src/main/java/com/googlecode/ipv6/IPv6Address.java:149-176 | the unsigned-comparison rule for carrying into (delta >= 0) or borrowing from (delta < 0) the high word yields the 128-bit sum modulo 2^128 |
| Addresses.AddSubtract | tags/java-ipv6-0.14/src/test/java/com/googlecode/ipv6/IPv6AddressTest.java:276-283 | subtracting a delta after adding it gives the address back, for every delta, `Integer.MIN_VALUE` included |
| Addresses.SubtractAdd | tags/java-ipv6-0.13/src/main/java/com/googlecode/ipv6/IPv6Address.java:185-215 | adding a delta after subtracting it gives the address back, for every delta |
| Addresses.AddCarries | tags/java-ipv6-0.14/src/test/java/com/googlecode/ipv6/IPv6AddressTest.java:243-246 | `::ffff:ffff:ffff:ffff + 1` is `::1:0:0:0:0`; the carry crosses into the high word |
| Addresses.AddWrapsAround | tags/java-ipv6-0.14/src/test/java/com/googlecode/ipv6/IPv6AddressTest.java:252-256 | the largest address plus one wraps to `::`, and `::` minus one wraps to the largest address |
| Addresses.Mask | tags/java-ipv6-0.13/src/main/java/com/googlecode/ipv6/IPv6Address.java:223-248 | `maskWithNetworkMask(p)` keeps the top p bits of the value and clears the low 128 - p, for every p in [0, 128] |
| Addresses.MaskLowValue | tags/java-ipv6-0.13/src/main/java/com/googlecode/ipv6/IPv6Address.java:237-242 | the branch for p above 64 clears exactly the low 128 - p bits of the low word |
| Addresses.MaskHighValue | tags/java-ipv6-0.13/src/main/java/com/googlecode/ipv6/IPv6Address.java:243-247 | the branch for p below 64 keeps the top p bits of the high word and zeroes the low word |
| Addresses.Maximum | tags/java-ipv6-0.13/src/main/java/com/googlecode/ipv6/IPv6Address.java:256-277 | `maximumAddressWithNetworkMask(p)` keeps the top p bits and sets the low 128 - p bits, for every p in [0, 128] |
| Addresses.MaximumLowValue | tags/java-ipv6-0.13/src/main/java/com/googlecode/ipv6/IPv6Address.java:266-271 | the branch for p above 64 sets exactly the low 128 - p bits |
| Addresses.MaximumHighValue | tags/java-ipv6-0.13/src/main/java/com/googlecode/ipv6/IPv6Address.java:272-276 | the branch for p below 64, prefix 0 included, sets the low bits of the high word and the whole low word |
| Addresses.MaskIdempotent | tags/java-ipv6-0.13/src/main/java/com/googlecode/ipv6/IPv6Address.java:223-277 | masking twice is masking once, and the maximum of a masked address is the maximum of the address |
| Addresses.MaskBelowMaximum | tags/java-ipv6-0.13/src/main/java/com/googlecode/ipv6/IPv6Address.java:223-277 | mask(a, p) <= a <= maximum(a, p) |
| Addresses.SameMask | tags/java-ipv6-0.13/src/main/java/com/googlecode/ipv6/IPv6Address.java:223-277 | an address masks to the same address as `a` exactly when it lies between mask(a, p) and maximum(a, p) |
| Addresses.MaskEdges | tags/java-ipv6-0.13/src/main/java/com/googlecode/ipv6/IPv6Address.java:223-248 | prefix 128 leaves the address unchanged; prefix 0 gives `::` as mask and the largest address as maximum |
| Addresses.CompareTo | tags/java-ipv6-0.13/src/main/java/com/googlecode/ipv6/IPv6Address.java:481-492 | `compareTo` returns -1, 0 or 1, and orders addresses as unsigned 128-bit numbers |
| Addresses.CompareToAgreesWithEquals | tags/java-ipv6-0.13/src/main/java/com/googlecode/ipv6/IPv6Address.java:460-492 | `compareTo` is 0 exactly when `equals` holds, and `equals` is equality of both words |
| Addresses.CompareToAntisymmetric | tags/java-ipv6-0.13/src/main/java/com/googlecode/ipv6/IPv6Address.java:481-492 | swapping the operands of `compareTo` negates the result |
| Addresses.NumberOfTrailingZeroes | tags/java-ipv6-0.13/src/main/java/com/googlecode/ipv6/IPv6Address.java:504-509 | the result r is in [0, 128], 2^r divides the value and 2^(r+1) does not (128 for `::`) |
| Addresses.NumberOfTrailingOnes | tags/java-ipv6-0.13/src/main/java/com/googlecode/ipv6/IPv6Address.java:511-518 | counted as the trailing zeros of `add(1)`, the result r is in [0, 128], the low r bits are ones and bit r is not |
| Addresses.TrailingOnesValue | tags/java-ipv6-0.13/src/main/java/com/googlecode/ipv6/IPv6Address.java:511-518 | the trailing zeros of the successor are the trailing ones of the number |
| Addresses.NumberOfLeadingZeroes | tags/java-ipv6-0.13/src/main/java/com/googlecode/ipv6/IPv6Address.java:520-525 | the result r is in [0, 128], the value fits in 128 - r bits and not in 127 - r |
| Addresses.Flip | tags/java-ipv6-0.13/src/main/java/com/googlecode/ipv6/IPv6Address.java:527-532 | the complement of both words reflects the value: its value is 2^128 - 1 minus the value |
| Addresses.NumberOfLeadingOnes | tags/java-ipv6-0.13/src/main/java/com/googlecode/ipv6/IPv6Address.java:527-532 | counted as the leading zeros of the complement, the top r bits are ones and bit 127 - r is not |
| Addresses.IsIPv4Mapped | tags/java-ipv6-0.13/src/main/java/com/googlecode/ipv6/IPv6Address.java:285-290 | true exactly when the top 80 bits are zero and the next 16 are ones (section 2.5.5.2 of RFC 4291) |
| Addresses.IPv4MappedValue | tags/java-ipv6-0.13/src/main/java/com/googlecode/ipv6/IPv6Address.java:285-290 | the two word masks of `isIPv4Mapped` test exactly that the value divided by 2^32 is 0xffff |
| Addresses.AndMaskFacts | tags/java-ipv6-0.13/src/main/java/com/googlecode/ipv6/IPv6Address.java:287-289 | the two `&` masks of `isIPv4Mapped` select the top 16 bits and the next 16 bits of the low word |
| AddressLegacy.Mask05 | tags/java-ipv6-0.5/src/main/java/com/googlecode/ipv6/IPv6Address.java:159-180 | `maskWithNetworkMask` of 0.5 equals that of 0.13 for every prefix in ]0, 128]; with prefix 0 it would keep the high word |
| AddressLegacy.AndOnes | tags/java-ipv6-0.5/src/main/java/com/googlecode/ipv6/IPv6Address.java:175-179 | a shift of -1L by 64 is a shift by 0, so the last branch with prefix 0 keeps the high word |
| AddressLegacy.MaskWithPrefixLength | tags/ipv6-0.1/src/main/java/be/jvb/ipv6/IPv6Address.java:123-147 | `maskWithPrefixLength` throws exactly for lengths outside ]0, 128], and otherwise is the 0.13 mask |
| AddressLegacy.MaximumAddressWithPrefixLength | tags/ipv6-0.1/src/main/java/be/jvb/ipv6/IPv6Address.java:155-179 | `maximumAddressWithPrefixLength` throws exactly for lengths outside ]0, 128], and otherwise is the 0.13 maximum |
| AddressLegacy.Add01 | tags/ipv6-0.1/src/main/java/be/jvb/ipv6/IPv6Address.java:83-95 | `add(long)` of 0.1 has the low word of the true sum, and its high word goes up by one exactly when the low word's sign bit changes |
| AddressLegacy.Subtract01 | tags/ipv6-0.1/src/main/java/be/jvb/ipv6/IPv6Address.java:103-115 | `subtract(long)` of 0.1 has the low word of the true difference, and its high word goes down by one exactly when the low word's sign bit changes |
| AddressLegacy.AddCarry | tags/java-ipv6-0.13/src/main/java/com/googlecode/ipv6/IPv6Address.java:147-177 | the true carry into the high word is floor((low + value) / 2^64), which is -1, 0 or 1 |
| AddressLegacy.SubtractCarry | tags/java-ipv6-0.13/src/main/java/com/googlecode/ipv6/IPv6Address.java:185-215 | the true borrow from the high word is floor((low - value) / 2^64), which is -1, 0 or 1 |
| AddressLegacy.Add01Correct | tags/ipv6-0.1/src/main/java/be/jvb/ipv6/IPv6Address.java:83-95 | 0.1's `add` is right exactly when a sign change of the low word coincides with the true carry |
| AddressLegacy.Subtract01Correct | tags/ipv6-0.1/src/main/java/be/jvb/ipv6/IPv6Address.java:103-115 | 0.1's `subtract` is right exactly when a sign change coincides with the true borrow |
| AddressLegacy.Add01Overcarries | tags/ipv6-0.1/src/main/java/be/jvb/ipv6/IPv6Address.java:85-90 | `::7fff:ffff:ffff:ffff + 1` carries into the high word in 0.1 but not in the true sum |
| AddressLegacy.Subtract01Overborrows | tags/ipv6-0.1/src/main/java/be/jvb/ipv6/IPv6Address.java:105-110 | `::1:8000:0:0:0 - 1` borrows from the high word in 0.1 but not in the true difference |
| AddressLegacy.NumberOfTrailingOnes01 | tags/ipv6-0.1/src/main/java/be/jvb/ipv6/IPv6Address.java:290-297 | 0.1's trailing-ones count equals the 0.13 count, in spite of its carry rule |
| AddressLegacy.TrailingOnesCarry | tags/ipv6-0.1/src/main/java/be/jvb/ipv6/IPv6Address.java:290-297 | whenever `add(1)` carries, 0.1's sign-change rule carries too |
| AddressHelpers.IsLessThanUnsigned | tags/ipv6-0.2/src/main/java/be/jvb/ipv6/IPv6AddressHelpers.java:106-109 | true exactly when a < b as unsigned 64-bit numbers |
| AddressHelpers.ValidateLongs | tags/ipv6-0.2/src/main/java/be/jvb/ipv6/IPv6AddressHelpers.java:22-32 | succeeds exactly for eight values each in [0, 0xFFFF]; otherwise IllegalArgumentException |
| AddressHelpers.MergeLongArrayIntoAddress | tags/ipv6-0.2/src/main/java/be/jvb/ipv6/IPv6AddressHelpers.java:34-48 | for valid groups, the high word is g0..g3 and the low word g4..g7, each a base-2^16 number |
| AddressHelpers.MergeHighStep | tags/ipv6-0.2/src/main/java/be/jvb/ipv6/IPv6AddressHelpers.java:41-42 | one `high |= g << d` step adds group i at its place, with the shift distance taken modulo 64 |
| AddressHelpers.MergeLowStep | tags/ipv6-0.2/src/main/java/be/jvb/ipv6/IPv6AddressHelpers.java:43-44 | one `low |= g << d` step adds group i at its place in the low word |
| AddressHelpers.PlaceGroup | tags/ipv6-0.2/src/main/java/be/jvb/ipv6/IPv6AddressHelpers.java:41-44 | or-ing a group shifted into the empty 16 bits below the groups already placed adds it |
| AddressGroups.ToShort | tags/java-ipv6-0.13/src/main/java/com/googlecode/ipv6/IPv6Address.java:422-424 | the `(short)` cast keeps the value modulo 2^16, and is 0 exactly for group 0 |
| AddressGroups.Group | tags/java-ipv6-0.13/src/main/java/com/googlecode/ipv6/IPv6Address.java:415-428 | a group is a 16-bit number |
| AddressGroups.GroupOfWords | tags/java-ipv6-0.5/src/main/java/com/googlecode/ipv6/IPv6Address.java:286-299 | groups 0-3 come from the high word and groups 4-7 from the low word |
| AddressGroups.ExtractGroup | tags/java-ipv6-0.13/src/main/java/com/googlecode/ipv6/IPv6Address.java:421-424 | `(word << 16i) >>> 112 & 0xFFFF` of the word `inHighRange` selects is group i |
| AddressGroups.ShiftGroup | tags/java-ipv6-0.13/src/main/java/com/googlecode/ipv6/IPv6Address.java:422-424 | shifting left by 16k and then right by 112 leaves group k of a word |
| AddressGroups.Shorts | tags/java-ipv6-0.13/src/main/java/com/googlecode/ipv6/IPv6Address.java:415-428 | the eight groups of an address, as shorts, one per group |
| AddressGroups.ToShortArray | tags/java-ipv6-0.13/src/main/java/com/googlecode/ipv6/IPv6Address.java:415-428 | a fresh array whose element i is group i from the top, as a short |
| AddressGroups.GroupsMergeBack | tags/ipv6-0.2/src/main/java/be/jvb/ipv6/IPv6AddressHelpers.java:34-48 | the eight groups of an address are valid input for the group merge and merge back into the address |
| AddressGroups.PackWordGroups | tags/ipv6-0.2/src/main/java/be/jvb/ipv6/IPv6AddressHelpers.java:34-48 | the four groups of a word, packed in base 2^16, give the word back |
| AddressGroups.ZeroRun | tags/java-ipv6-0.13/src/main/java/com/googlecode/ipv6/IPv6Address.java:448-457 | the length n of the run of zero groups at i: groups i..i+n-1 are zero and group i+n, if any, is not |
| AddressGroups.CountConsecutiveZeroes | tags/java-ipv6-0.13/src/main/java/com/googlecode/ipv6/IPv6Address.java:448-457 | `countConsecutiveZeroes(shorts, offset)` is the length of the zero run at `offset` |
| AddressGroups.StartAndLengthOfLongestRunOfZeroes | tags/java-ipv6-0.13/src/main/java/com/googlecode/ipv6/IPv6Address.java:430-446 | the result is the earliest longest run of zero groups, or [-1, 0] when there is none (section 4.2.3 of RFC 5952) |
| AddressGroups.ZeroShortIsZeroGroup | tags/java-ipv6-0.13/src/main/java/com/googlecode/ipv6/IPv6Address.java:452 | a short is zero exactly when its group is zero |
| BitSets.BitSet.constructor | trunk/src/main/java/com/googlecode/ipv6/BitSetHelpers.java:31 | a new bit set is empty |
| BitSets.BitSet.Set | trunk/src/main/java/com/googlecode/ipv6/BitSetHelpers.java:44 | `set(i)` adds index i and nothing else |
| BitSets.Convert | src/main/java/com/googlecode/ipv6/BitSetHelpers.java:21-33 | `convert` adds exactly the one bits of the value, bit i at index offset + i, clears nothing and stays in [offset, offset + 64) |
| BitSets.BitSetOf | trunk/src/main/java/com/googlecode/ipv6/BitSetHelpers.java:29-35 | `bitSetOf(lower, upper)` holds the bits of `lower` at 0..63 and those of `upper` at 64..127 |
| BitSets.ValueOf | src/main/java/com/googlecode/ipv6/IPv6NetworkHelpers.java:14-15 | `BitSet.valueOf({low, high})` has the same layout as `bitSetOf` |
| BitSets.AddressBit | trunk/src/main/java/com/googlecode/ipv6/BitSetHelpers.java:29-35 | bit i of the value is bit i of the low word below 64 and bit i - 64 of the high word above |
| BitSets.BitSetOfAddress | trunk/src/main/java/com/googlecode/ipv6/BitSetHelpers.java:29-35 | the bit set of the two words of an address is the set of one bits of its value |
| BitSets.NoBitsAbove | trunk/src/main/java/com/googlecode/ipv6/BitSetHelpers.java:40-47 | the loop may stop once `>>>` has shifted out every one bit: no later index would be set |
| NetworkHelpers.SimilarFrom | trunk/src/main/java/com/googlecode/ipv6/IPv6NetworkHelpers.java:38-47 | counting down from index n - 1, the two sets agree on the r indices counted and differ at the next |
| NetworkHelpers.CommonPrefix | trunk/src/main/java/com/googlecode/ipv6/IPv6NetworkHelpers.java:30-47 | the two numbers agree on their top r of n bits and differ at bit n - 1 - r when r < n |
| NetworkHelpers.CountLeadingSimilarBits | trunk/src/main/java/com/googlecode/ipv6/IPv6NetworkHelpers.java:38-47 | the loop from 127 down counts the indices on which the two sets agree before the first difference |
| NetworkHelpers.SimilarBits | trunk/src/main/java/com/googlecode/ipv6/IPv6NetworkHelpers.java:30-36 | on the bit sets of two numbers, counting similar indices is counting equal leading bits |
| NetworkHelpers.LongestPrefixLength | trunk/src/main/java/com/googlecode/ipv6/IPv6NetworkHelpers.java:30-36 | the result is the number of equal leading bits of the two addresses |
| NetworkHelpers.LongestPrefixLengthValueOf | src/main/java/com/googlecode/ipv6/IPv6NetworkHelpers.java:12-18 | the `BitSet.valueOf` version gives the same common prefix; the 0.1 `be.jvb` helper at tags/ipv6-0.1/src/main/java/be/jvb/ipv6/IPv6NetworkHelpers.java:12-18, which the 0.4 and trunk `be.jvb` networks import, has the same body |
| NetworkHelpers.CommonPrefixSymmetric | src/main/java/com/googlecode/ipv6/IPv6NetworkHelpers.java:20-29 | the common prefix does not depend on the order of the two addresses |
| NetworkHelpers.CommonPrefixOfAddresses | tags/ipv6-0.1/src/main/java/be/jvb/ipv6/IPv6NetworkHelpers.java:20-29 | the addresses agree on their top L bits, and L is 128 exactly for equal addresses |
| NetworkHelpers.CommonPrefixExample | trunk/src/test/java/com/googlecode/ipv6/IPv6NetworkHelpersTest.java:32-39 | `::1` and `::2` share exactly 126 leading bits |
| NetworkHelpers.CommonPrefixFromQuotients | trunk/src/main/java/com/googlecode/ipv6/IPv6NetworkHelpers.java:38-47 | the common prefix is r when the numbers agree above bit 127 - r and differ at that bit |
| NetworkMasks.FromPrefixLength | tags/ipv6-0.4/src/main/java/be/jvb/ipv6/IPv6NetworkMask.java:33-39 | the prefix-length constructor throws exactly for lengths outside ]0, 128] |
| NetworkMasks.ValidateNetworkMask | tags/ipv6-0.4/src/main/java/be/jvb/ipv6/IPv6NetworkMask.java:41-68 | the nested loops accept exactly the addresses with bit 127 set and no one bit below their first zero bit |
| NetworkMasks.MaskValueIs | tags/ipv6-0.4/src/main/java/be/jvb/ipv6/IPv6NetworkMask.java:75-94 | the mask value of prefix p is 2^128 - 2^(128 - p): p ones followed by 128 - p zeros |
| NetworkMasks.AsAddress | tags/ipv6-0.4/src/main/java/be/jvb/ipv6/IPv6NetworkMask.java:75-94 | `asAddress()` has exactly p leading ones followed by zeros |
| NetworkMasks.LeadingOnesOfMaskValue | tags/ipv6-0.4/src/main/java/be/jvb/ipv6/IPv6NetworkMask.java:21-25 | an address of p leading ones followed by zeros has p leading ones |
| NetworkMasks.MaskValueIsNetworkMask | tags/ipv6-0.4/src/main/java/be/jvb/ipv6/IPv6NetworkMask.java:41-68 | every value of p leading ones, p in ]0, 128], is accepted as a mask |
| NetworkMasks.MaskBitsAre | tags/ipv6-0.4/src/main/java/be/jvb/ipv6/IPv6NetworkMask.java:75-94 | bit i of 2^128 - 2^k is one exactly when i >= k |
| NetworkMasks.NetworkMaskShape | tags/ipv6-0.4/src/main/java/be/jvb/ipv6/IPv6NetworkMask.java:41-68 | an accepted address has at least one leading one and is the mask of its leading ones |
| NetworkMasks.MaskFromAddress | tags/ipv6-0.4/src/main/java/be/jvb/ipv6/IPv6NetworkMask.java:21-25 | the address constructor throws exactly for non-masks, and an accepted mask's `asAddress()` is the address |
| NetworkMasks.FromAddress | tags/ipv6-0.4/src/main/java/be/jvb/ipv6/IPv6NetworkMask.java:21-25 | the constructor validates and then takes `numberOfLeadingOnes` as prefix length |
| NetworkMasks.AsAddressRoundTrip | tags/ipv6-0.4/src/main/java/be/jvb/ipv6/IPv6NetworkMask.java:21-94 | rebuilding a mask from its `asAddress()` gives the same mask |
| NetworkMasks.EqualsByAddress | tags/ipv6-0.4/src/main/java/be/jvb/ipv6/IPv6NetworkMask.java:97-107 | two masks are `equals` exactly when their addresses are equal |
| Ranges.MakeRange | trunk/src/main/java/be/jvb/ipv6/IPv6AddressRange.java:20-27 | the constructor throws exactly when first is above last, and otherwise keeps both |
| Ranges.Contains | trunk/src/main/java/be/jvb/ipv6/IPv6AddressRange.java:29-32 | `contains(address)` is membership of its value in the interval |
| Ranges.ContainsRange | trunk/src/main/java/be/jvb/ipv6/IPv6AddressRange.java:34-37 | `contains(range)` is inclusion of the intervals |
| Ranges.OverlapsShared | trunk/src/main/java/be/jvb/ipv6/IPv6AddressRange.java:39-42 | `overlaps` holds exactly when the intervals share an address, and is symmetric |
| Ranges.RemoveAddress | trunk/src/main/java/be/jvb/ipv6/IPv6AddressRange.java:61-77 | 0-2 valid pieces; the range itself when the address is outside; their union is the range minus the address; two pieces are apart |
| Ranges.HeadPiece | trunk/src/main/java/be/jvb/ipv6/IPv6AddressRange.java:113-114 | when only the front is removed, the one piece from last + 1 is the rest |
| Ranges.TailPiece | trunk/src/main/java/be/jvb/ipv6/IPv6AddressRange.java:115-116 | when only the back is removed, the one piece up to first - 1 is the rest |
| Ranges.MiddlePieces | trunk/src/main/java/be/jvb/ipv6/IPv6AddressRange.java:117-119 | removing from the middle leaves the two pieces around the network, which are apart |
| Ranges.Extend | trunk/src/main/java/be/jvb/ipv6/IPv6AddressRange.java:85-93 | the extension contains the range and the address, equals the range when the address is inside, and is the interval from the smaller first to the larger last |
| Ranges.ExtendSmallest | trunk/src/main/java/be/jvb/ipv6/IPv6AddressRange.java:85-93 | any range containing the range and the address contains the extension |
| Ranges.RemoveRange | trunk/src/main/java/be/jvb/ipv6/IPv6AddressRange.java:104-121 | the range itself when the network is not contained; otherwise at most two valid pieces inside the range whose union is the range minus the network |
| Ranges.RemoveRangeEnds | trunk/src/main/java/be/jvb/ipv6/IPv6AddressRange.java:104-121 | every piece begins at the range's first or just after the network, and ends at the range's last or just before the network |
| Ranges.RangeCompareTo | trunk/src/main/java/be/jvb/ipv6/IPv6AddressRange.java:130-136 | ordering by first address, then by last address: 0 exactly for equal ranges, in -1..1 |
| Ranges.RangeCompareToConsistent | trunk/src/main/java/be/jvb/ipv6/IPv6AddressRange.java:130-150 | `compareTo` is antisymmetric and is 0 exactly when `equals` holds |
| Ranges.RangeCompareToTransitive | trunk/src/main/java/be/jvb/ipv6/IPv6AddressRange.java:130-136 | the ordering is transitive, so the free-range `TreeSet` is well defined |
| Ranges.RangeCompareToAsWritten | trunk/src/main/java/be/jvb/ipv6/IPv6AddressRange.java:130-136 | with distinct `first` objects the result is 0 whenever the firsts are equal in value, whatever the lasts |
| Ranges.RangeCompareToAsWrittenIgnoresLast | trunk/src/main/java/be/jvb/ipv6/IPv6AddressRange.java:132-133 | `[::1, ::2]` and `[::1, ::3]` compare 0 as written when their firsts are distinct objects, and -1 by value |
| Ranges.RangeIterator.constructor | trunk/src/main/java/be/jvb/ipv6/IPv6AddressRange.java:175 | the iterator starts at the range's first address |
| Ranges.RangeIterator.Next | trunk/src/main/java/be/jvb/ipv6/IPv6AddressRange.java:184-190 | with `hasNext()`, `next()` advances first and returns the new current address; otherwise throws |
| Ranges.IterateAsWritten | trunk/src/main/java/be/jvb/ipv6/IPv6AddressRange.java:173-191 | the iterator as written yields first + 1 up to last + 1 |
| Ranges.IteratorAsWrittenNeverEnds | trunk/src/main/java/be/jvb/ipv6/IPv6AddressRange.java:178-181 | when last is the largest address, `hasNext()` holds in every state and `next()` wraps to `::` |
| Ranges.AddressIterator.constructor | trunk/src/main/java/be/jvb/ipv6/IPv6AddressRange.java:175 | the intended iterator starts at first, not exhausted |
| Ranges.AddressIterator.Next | trunk/src/main/java/be/jvb/ipv6/IPv6AddressRange.java:184-190 | the intended `next()` returns the current address, and stops after last without computing last + 1 |
| Ranges.Iterate | trunk/src/main/java/be/jvb/ipv6/IPv6AddressRange.java:173-191 | the intended iterator yields first up to last, each address once and in order |
| RangeSets.Without | trunk/src/main/java/be/jvb/ipv6/IPv6AddressPool.java:180 | `remove` keeps exactly the ranges other than x, and leaves the set unchanged when x is not in it (`WithoutAt` states where the gap is) |
| RangeSets.WithoutAt | trunk/src/main/java/be/jvb/ipv6/IPv6AddressPool.java:180 | removing the range at position i leaves the ranges before and after it |
| RangeSets.Insert | trunk/src/main/java/be/jvb/ipv6/IPv6AddressPool.java:186 | `add` holds exactly the old ranges plus x, with at most one range more (`InsertBetween` states where x goes) |
| RangeSets.InsertBetween | trunk/src/main/java/be/jvb/ipv6/IPv6AddressPool.java:210-235 | adding a range whose first lies between two parts of the set puts it between them |
| RangeSets.InsertAll | trunk/src/main/java/be/jvb/ipv6/IPv6AddressPool.java:186 | `addAll` holds exactly the old ranges and the added ones, with at most that many ranges (`InsertAllBetween` states the order when they fall in one gap) |
| RangeSets.InsertAllBetween | trunk/src/main/java/be/jvb/ipv6/IPv6AddressPool.java:183-186 | adding sorted ranges that fall between two parts of the set puts them between them, in order |
| RangeSets.SplitIndex | trunk/src/main/java/be/jvb/ipv6/IPv6AddressPool.java:147-148 | `headSet` holds the ranges ordered before the network, `tailSet` the others |
| RangeSets.UnionMembers | trunk/src/main/java/be/jvb/ipv6/IPv6AddressPool.java:294-300 | an address is in the union of the ranges exactly when one of them contains it |
| RangeSets.UnionAppend | trunk/src/main/java/be/jvb/ipv6/IPv6AddressPool.java:183-186 | the union of two sequences of ranges is the union of their unions |
| RangeSets.RangeSet.constructor | trunk/src/main/java/be/jvb/ipv6/IPv6AddressPool.java:177 | the copy `new TreeSet(freeRanges)` holds the same ranges |
| RangeSets.RangeSet.Remove | trunk/src/main/java/be/jvb/ipv6/IPv6AddressPool.java:180 | `remove` takes exactly that range out |
| RangeSets.RangeSet.Add | trunk/src/main/java/be/jvb/ipv6/IPv6AddressPool.java:186 | `add` puts the range in its place in the order |
| RangeSets.RangeSet.AddAll | trunk/src/main/java/be/jvb/ipv6/IPv6AddressPool.java:186 | `addAll` adds each range in turn |
| Networks.FromAddressAndMask | src/main/java/com/googlecode/ipv6/IPv6Network.java:44-62 | an aligned network of prefix p that contains the address |
| Networks.MaskByQuotient | src/main/java/com/googlecode/ipv6/IPv6Network.java:44-50 | two addresses mask alike exactly when they agree above bit 128 - p |
| Networks.ContainsByTopBits | src/main/java/com/googlecode/ipv6/IPv6Network.java:44-50 | an address is in the network of `a` exactly when it agrees with `a` on the top p bits |
| Networks.SameNetwork | src/main/java/com/googlecode/ipv6/IPv6Network.java:59-62 | two host addresses give equal networks exactly when they agree on the top p bits |
| Networks.ZeroNetwork | src/main/java/com/googlecode/ipv6/IPv6Network.java:44-50 | with prefix 0 the network is `[::, ffff:...:ffff]` and contains every address |
| Networks.SmallestNetwork | src/main/java/com/googlecode/ipv6/IPv6Network.java:71-75 | the network of `one` with prefix q contains `two` exactly when q is at most their common prefix |
| Networks.FromTwoAddresses | src/main/java/com/googlecode/ipv6/IPv6Network.java:71-75 | `fromTwoAddresses` uses the common prefix, contains both addresses, and no longer prefix would |
| Networks.NetworkEqualities | src/main/java/com/googlecode/ipv6/IPv6Network.java:129-141 | `equals` of every version is equality of well-formed networks |
| Networks.FromMask04 | tags/ipv6-0.4/src/main/java/be/jvb/ipv6/IPv6Network.java:23-29 | the (address, mask) constructor is the masked network of the mask's prefix |
| Networks.FromPrefixLength04 | tags/ipv6-0.4/src/main/java/be/jvb/ipv6/IPv6Network.java:37-46 | the (address, int) constructor throws exactly for prefixes outside ]0, 128] |
| Networks.FromFirstLast04 | tags/ipv6-0.4/src/main/java/be/jvb/ipv6/IPv6Network.java:55-62 | the smallest network containing both addresses; it throws when they differ in bit 127 |
| Networks.FromPrefixLengthTrunk | trunk/src/main/java/be/jvb/ipv6/IPv6Network.java:23-29 | the trunk (address, prefixLength) constructor throws exactly for prefixes outside ]0, 128], else is the masked network |
| Networks.FromFirstLastTrunk | trunk/src/main/java/be/jvb/ipv6/IPv6Network.java:38-45 | the trunk (first, last) constructor builds the smallest network containing both; it throws when the common prefix is 0 |
| Networks.GetNetmask | trunk/src/main/java/be/jvb/ipv6/IPv6Network.java:117-136 | `getNetmask()` has exactly `prefixLength` leading one bits followed by zeros |
| Networks.TwoAddressesExample | trunk/src/test/java/be/jvb/ipv6/IPv6NetworkTest.java:18 | `::1` and `::2` give the network `::/126` |
| Networks.FortyFourBitsExample | trunk/src/test/java/be/jvb/ipv6/IPv6NetworkTest.java:19 | `a:b:c::1:1` and `a:b::f:f` share 44 leading bits and give the network `a:b::/44` |
| Pools.InsideByUnion | trunk/src/main/java/be/jvb/ipv6/IPv6AddressPool.java:71-74 | ranges lie inside the bounds exactly when their union does |
| Pools.AlignedBoundsMeaning | trunk/src/main/java/be/jvb/ipv6/IPv6AddressPool.java:76-89 | the alignment check holds exactly when first and last + 1 are multiples of 2^(128 - p); it fails for negative p |
| Pools.TrailingZeroesAtLeast | trunk/src/main/java/be/jvb/ipv6/IPv6AddressPool.java:80 | at least k trailing zeros means the value is a multiple of 2^k |
| Pools.TrailingOnesAtLeast | trunk/src/main/java/be/jvb/ipv6/IPv6AddressPool.java:85 | at least k trailing ones means the successor is a multiple of 2^k |
| Pools.CheckWithinBoundsMeaning | trunk/src/main/java/be/jvb/ipv6/IPv6AddressPool.java:71-74 | checking only the first free range's first and the last one's last decides that all free ranges lie inside |
| Pools.MakePool | trunk/src/main/java/be/jvb/ipv6/IPv6AddressPool.java:51-61 | the private constructor throws exactly for bad bounds, free ranges outside them or misaligned bounds |
| Pools.MakePoolInvariant | trunk/src/main/java/be/jvb/ipv6/IPv6AddressPool.java:63-69 | for sorted, non-touching free ranges the constructor succeeds exactly when they lie inside aligned bounds, and then the pool invariant holds |
| Pools.FreeWithinBounds | trunk/src/main/java/be/jvb/ipv6/IPv6AddressPool.java:63-69 | the free addresses of a pool lie within its bounds |
| Pools.NewPool | trunk/src/main/java/be/jvb/ipv6/IPv6AddressPool.java:37-41 | a new pool's free ranges are exactly `[first, last]`, and it throws exactly for bad or misaligned bounds |
| Pools.UnalignedStartRejected | trunk/src/test/java/be/jvb/ipv6/IPv6AddressPoolTest.java:22 | a /120 pool from `2001::1` to `2001::ffff:ffff` is refused, its start not being aligned |
| Pools.AutoAllocateMultiple128 | trunk/src/test/java/be/jvb/ipv6/IPv6AddressPoolTest.java:62-75 | five /128 allocations from the pool `::1`..`::5` each take the next address and leave the pool exhausted |
| Pools.NewPoolAligned | trunk/src/main/java/be/jvb/ipv6/IPv6AddressPool.java:37-41 | the free range of a new pool is made of whole subnets of its prefix |
| Pools.ExhaustedMeansNothingFree | trunk/src/main/java/be/jvb/ipv6/IPv6AddressPool.java:278-281 | `isExhausted()` holds exactly when no address is free |
| Pools.LowestFreeAddress | trunk/src/main/java/be/jvb/ipv6/IPv6AddressPool.java:100-102 | the first address of the first free range is the lowest free address |
| Pools.PoolContains | trunk/src/main/java/be/jvb/ipv6/IPv6AddressPool.java:308-311 | `contains(address)` is membership in the bounds |
| Pools.PoolContainsRange | trunk/src/main/java/be/jvb/ipv6/IPv6AddressPool.java:313-316 | `contains(range)` is inclusion in the bounds |
| Pools.PoolOverlaps | trunk/src/main/java/be/jvb/ipv6/IPv6AddressPool.java:318-321 | `overlaps` is sharing an address with the bounds |
| Pools.FindFreeRangeContaining | trunk/src/main/java/be/jvb/ipv6/IPv6AddressPool.java:144-163 | a range found is a free range that contains the network |
| Pools.OnlyBesideSplit | trunk/src/main/java/be/jvb/ipv6/IPv6AddressPool.java:150-160 | in sorted separated ranges only the last of the head set or the first of the tail set can contain the network |
| Pools.FindFreeRangeContainingComplete | trunk/src/main/java/be/jvb/ipv6/IPv6AddressPool.java:144-163 | looking beside the split finds a range exactly when some free range contains the network |
| Pools.SomeRangeContainsMeaning | trunk/src/main/java/be/jvb/ipv6/IPv6AddressPool.java:144-163 | some free range contains the network exactly when all its addresses are free |
| Pools.AllocatedRangesSpec | trunk/src/main/java/be/jvb/ipv6/IPv6AddressPool.java:177-186 | the new free ranges are the old ones with the located range replaced by its pieces, still sorted and apart, and with the network's addresses gone |
| Pools.AllocatedPool | trunk/src/main/java/be/jvb/ipv6/IPv6AddressPool.java:172-189 | allocating from the free range at i gives a valid pool with the same bounds and prefix and the network's addresses no longer free |
| Pools.AllocatedAligned | trunk/src/main/java/be/jvb/ipv6/IPv6AddressPool.java:172-189 | allocating a whole subnet keeps the free ranges made of whole subnets |
| Pools.DoAllocate | trunk/src/main/java/be/jvb/ipv6/IPv6AddressPool.java:172-189 | `doAllocate` replaces only the located range by its 0-2 pieces, keeps bounds and prefix, and frees nothing else |
| Pools.FirstSubnetFits | trunk/src/main/java/be/jvb/ipv6/IPv6AddressPool.java:100-104 | with aligned free ranges the first subnet of the first free range lies inside it |
| Pools.Allocate | trunk/src/main/java/be/jvb/ipv6/IPv6AddressPool.java:96-111 | null exactly when exhausted; otherwise allocates the subnet at the lowest free address, which then is no longer free |
| Pools.AllocateNetworkAligned | trunk/src/main/java/be/jvb/ipv6/IPv6AddressPool.java:119-142 | allocating a subnet of the pool's prefix keeps the free ranges made of whole subnets |
| Pools.AllocateNetwork | trunk/src/main/java/be/jvb/ipv6/IPv6AddressPool.java:119-142 | throws for networks outside the bounds or of another prefix; null exactly when the network is not all free; otherwise removes exactly its addresses |
| Pools.FreeRangeBefore | trunk/src/main/java/be/jvb/ipv6/IPv6AddressPool.java:244-256 | the range found ends just before the network; none is found exactly when no free range does |
| Pools.FreeRangeAfter | trunk/src/main/java/be/jvb/ipv6/IPv6AddressPool.java:261-273 | the range found starts just after the network; none is found exactly when no free range does |
| Pools.BeforeTest | trunk/src/main/java/be/jvb/ipv6/IPv6AddressPool.java:248 | the guarded test `last < all-ones && last + 1 equals first` is exactly 'ends just before' |
| Pools.AfterTest | trunk/src/main/java/be/jvb/ipv6/IPv6AddressPool.java:265 | the guarded test `first > :: && first - 1 equals last` is exactly 'starts just after' |
| Pools.FindFreeRangeBefore | trunk/src/main/java/be/jvb/ipv6/IPv6AddressPool.java:244-256 | the scanning loop returns the free range that ends just before the network, if any |
| Pools.FindFreeRangeAfter | trunk/src/main/java/be/jvb/ipv6/IPv6AddressPool.java:261-273 | the scanning loop returns the free range that starts just after the network, if any |
| Pools.NeighbourPlaces | trunk/src/main/java/be/jvb/ipv6/IPv6AddressPool.java:244-273 | for a network disjoint from the free ranges, the neighbours found sit just before and just after the network's place in the order |
| Pools.GapAt | trunk/src/main/java/be/jvb/ipv6/IPv6AddressPool.java:196-239 | a network disjoint from the free ranges lies wholly between the ranges ordered before it and those after it |
| Pools.MergeNone | trunk/src/main/java/be/jvb/ipv6/IPv6AddressPool.java:210-214 | adding the network alone puts it in its place and adds exactly its addresses |
| Pools.MergeBefore | trunk/src/main/java/be/jvb/ipv6/IPv6AddressPool.java:224-229 | appending to the range before gives one range, in the same place, with the network's addresses added |
| Pools.MergeAfter | trunk/src/main/java/be/jvb/ipv6/IPv6AddressPool.java:230-235 | prepending to the range after gives one range, in the same place, with the network's addresses added |
| Pools.MergeBoth | trunk/src/main/java/be/jvb/ipv6/IPv6AddressPool.java:217-223 | merging the two neighbours gives one range in their place, with the network's addresses added |
| Pools.DeAllocateAlone | trunk/src/main/java/be/jvb/ipv6/IPv6AddressPool.java:210-214 | with no neighbour the free ranges stay sorted and apart and gain exactly the network |
| Pools.DeAllocateBefore | trunk/src/main/java/be/jvb/ipv6/IPv6AddressPool.java:224-229 | with only a neighbour before, the free ranges stay sorted and apart and gain exactly the network |
| Pools.DeAllocateAfter | trunk/src/main/java/be/jvb/ipv6/IPv6AddressPool.java:230-235 | with only a neighbour after, the free ranges stay sorted and apart and gain exactly the network |
| Pools.DeAllocateBetween | trunk/src/main/java/be/jvb/ipv6/IPv6AddressPool.java:217-223 | with both neighbours, the free ranges stay sorted and apart and gain exactly the network |
| Pools.DeAllocatedRanges | trunk/src/main/java/be/jvb/ipv6/IPv6AddressPool.java:196-239 | for a network disjoint from the free ranges, all four cases give sorted, non-touching free ranges with exactly the network added, whole subnets kept |
| Pools.DeAllocatedPool | trunk/src/main/java/be/jvb/ipv6/IPv6AddressPool.java:196-239 | giving back a network inside the bounds that is not free yields a valid pool with the same bounds and prefix and exactly its addresses added |
| Pools.DeAllocate | trunk/src/main/java/be/jvb/ipv6/IPv6AddressPool.java:196-239 | throws for a network outside the bounds; otherwise the four-case merge; for a network not free, exactly its addresses become free again |
| Pools.FreeMeaning | trunk/src/main/java/be/jvb/ipv6/IPv6AddressPool.java:294-303 | some free range contains the network exactly when all its addresses are free |
| Pools.AnyFreeRangeContains | trunk/src/main/java/be/jvb/ipv6/IPv6AddressPool.java:294-303 | the scanning loop answers whether some free range contains the network |
| Pools.IsFree | trunk/src/main/java/be/jvb/ipv6/IPv6AddressPool.java:283-304 | throws exactly for another prefix; otherwise true exactly when all the network's addresses are free |
| Pools.FreeRangeBeforeAsWritten | trunk/src/main/java/be/jvb/ipv6/IPv6AddressPool.java:244-256 | the unguarded search (all-ones + 1 wraps to `::`) agrees with the corrected one when no free range ends at all-ones |
| Pools.FreeRangeAfterAsWritten | trunk/src/main/java/be/jvb/ipv6/IPv6AddressPool.java:261-273 | the unguarded search (`::` - 1 wraps to all-ones) agrees with the corrected one when no free range starts at `::` |
| Pools.AsWrittenBeforeAgrees | trunk/src/main/java/be/jvb/ipv6/IPv6AddressPool.java:248 | below all-ones, the unguarded test `last.add(1).equals(first)` is 'ends just before' |
| Pools.AsWrittenAfterAgrees | trunk/src/main/java/be/jvb/ipv6/IPv6AddressPool.java:265 | above `::`, the unguarded test `first.subtract(1).equals(last)` is 'starts just after' |
| Pools.DeAllocateWrapsAround | trunk/src/main/java/be/jvb/ipv6/IPv6AddressPool.java:244-273 | free `[::1, all-ones]`, give back `::/128`: as written both searches find the same range and `::` stays allocated; corrected, `::` is merged in |

## Left out

- Text forms: `fromString`, `toString`, `toLongString`, the `::` shortening of RFC 5952, the `java.net` conversions and the byte-array constructors are not part of this model; `AddressGroups.StartAndLengthOfLongestRunOfZeroes` is the part of the shortening that computes.
- `hashCode`, `iterator.remove()`, `isMulticast`, `isSiteLocal`, `isLinkLocal` and the other classification predicates are not part of this model.
- `null` arguments and the exceptions thrown for them: the model's values are never null.
- Getters and field reads (`getFirst`, `getLast`, `getHighBits`, `getLowBits`, `getPrefixLength`, `asPrefixLength`, `fromLongs`) are the datatype fields themselves.
- `getNetmask` of `src` and of 0.4 returns the network's mask object. For 0.4 that object is `NetworkMasks.NetworkMask`, whose address is `NetworkMasks.AsAddress`; the `src` mask class is not part of this model. `Networks.GetNetmask` models the trunk version, which builds the mask address.
- The trunk `be.jvb.ipv6.IPv6Address` and `IPv6NetworkMask` are not part of this model. The trunk range and pool are modelled over the 0.13 address (`add`, `subtract`, `compareTo`, the bit counts). The trunk network constructors call `maskWithPrefixLength` and `maximumAddressWithPrefixLength`, which are not in these sources; the 0.1 methods of the same name (`AddressLegacy.MaskWithPrefixLength`, `AddressLegacy.MaximumAddressWithPrefixLength`) stand in for them. Those throw for a prefix length outside ]0, 128], which is why `Allocate` fails for prefix length 0 and `FromFirstLastTrunk` fails when the common prefix is 0; the 0.13 `Mask` and `Maximum` appear only as what they return on success.
- The free-range `TreeSet` is ordered by `Ranges.RangeCompareTo`, by value. The as-written order compares `first` by reference, which can differ from it; see `Ranges.RangeCompareToAsWritten` and "Findings".
- The Java `assert` statements of `doAllocate` are not modelled; Java runs without them by default. Only its caller's guarantee holds: the range is one of the free ranges.
- Concurrency: the Java classes are immutable, so there is nothing to model.
- Ranges.IterateAsWritten: stated only for ranges whose last address is below the largest address; for the others the loop never ends, see `Ranges.IteratorAsWrittenNeverEnds`.
- Pools.DeAllocate: the pool-level guarantee (a valid pool with exactly the network's addresses added) is stated for networks none of whose addresses are free. The source does not check for a double free, and for such a network the result is stated only as what the merge computes. A double free can break `PoolInvariant`: a network lying strictly inside one free range touches no neighbour, so it is inserted beside that range and overlaps it. Every later operation requires `PoolInvariant`, so the model says nothing about a pool after a double free.
- Pools.Allocate: the guarantee that the subnet handed out starts at the lowest free address, and is wholly free, holds when the free ranges are made of whole subnets (`BlockAligned`). `NewPool` builds such pools, and `Allocate`, `AllocateNetwork` and `DeAllocate` (of a subnet of the pool's prefix length that is not free) keep it.
- Pools.FindFreeRangeBefore: models the search with the test `last < all-ones` guarding `last + 1`. The search as written is `Pools.FreeRangeBeforeAsWritten`, see "Findings".
- Pools.FindFreeRangeAfter: models the search with the test `first > ::` guarding `first - 1`. The search as written is `Pools.FreeRangeAfterAsWritten`.

## Findings

| source | as written | input that shows it | evidently intended | confidence | as-written member | corrected member |
|---|---|---|---|---|---|---|
| tags/ipv6-0.1/src/main/java/be/jvb/ipv6/IPv6Address.java:83-95 | `add(long)` carries into the high word whenever the low word changes sign | `::7fff:ffff:ffff:ffff` plus 1 gives `::1:8000:0:0:0` | `::8000:0:0:0`, carrying only on unsigned overflow as 0.13 does | not executed | AddressLegacy.Add01Overcarries | Addresses.Add |
| tags/ipv6-0.1/src/main/java/be/jvb/ipv6/IPv6Address.java:103-115 | `subtract(long)` borrows from the high word whenever the low word changes sign | `::1:8000:0:0:0` minus 1 gives `::7fff:ffff:ffff:ffff` | `::1:7fff:ffff:ffff:ffff` | not executed | AddressLegacy.Subtract01Overborrows | Addresses.Subtract |
| trunk/src/main/java/be/jvb/ipv6/IPv6AddressRange.java:130-136 | `compareTo` tests `this.first != that.first` by reference, so equal first addresses held in distinct objects are compared by `first` alone | `[::1, ::2]` and `[::1, ::3]` with distinct `::1` objects compare 0 | -1: order by first, then by last address | not executed | Ranges.RangeCompareToAsWrittenIgnoresLast | Ranges.RangeCompareTo |
| trunk/src/main/java/be/jvb/ipv6/IPv6AddressRange.java:184-190 | `next()` advances before returning, so the iteration skips the first address and yields last + 1 | `[::1, ::2]` yields `::2`, `::3` | `::1`, `::2` | not executed | Ranges.IterateAsWritten | Ranges.Iterate |
| trunk/src/main/java/be/jvb/ipv6/IPv6AddressRange.java:178-181 | `hasNext()` is `current <= last`, which always holds when last is the largest address, and `add(1)` wraps to `::` | `[ffff:...:ffff, ffff:...:ffff]` iterates without end | stop after the largest address | not executed | Ranges.IteratorAsWrittenNeverEnds | Ranges.AddressIterator.Next |
| trunk/src/main/java/be/jvb/ipv6/IPv6AddressPool.java:244-273 | the neighbour searches test `last.add(1)` and `first.subtract(1)`, which wrap around at the ends of the address space | pool of all addresses with prefix 128, free range `[::1, ffff:...:ffff]`: `deAllocate(::/128)` finds that range both before and after `::`, and `::` stays allocated | only the range after `::` is a neighbour, and `::` becomes free | not executed | Pools.DeAllocateWrapsAround | Pools.DeAllocate |

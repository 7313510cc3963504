/**
 * `IPv6AddressPool` of the trunk (`be.jvb`) version: an address range of
 * which some subnets of one prefix length are free and the others
 * allocated.  The Java object is immutable: every operation returns a new
 * pool, so a pool is a value here.  Its free ranges are a `TreeSet`,
 * modelled by the sorted sequences of `RangeSets`.
 */
module Pools {
  import opened Arith
  import opened Wrappers
  import opened Addresses
  import opened Ranges
  import opened RangeSets
  import opened Networks

  datatype Pool = Pool(underlyingRange: AddressRange, freeRanges: seq<AddressRange>, prefixLength: int)

  /** The free addresses of a pool, as numbers. */
  ghost function FreeAddresses(pool: Pool): set<nat>
  {
    Union(pool.freeRanges)
  }

  /** Every range of `rs` lies inside `bounds`. */
  predicate Inside(bounds: AddressRange, rs: seq<AddressRange>)
  {
    forall i :: 0 <= i < |rs| ==> Value(bounds.first) <= Value(rs[i].first) && Value(rs[i].last) <= Value(bounds.last)
  }

  /** For valid ranges, lying inside `bounds` is covering no address outside it. */
  lemma InsideByUnion(bounds: AddressRange, rs: seq<AddressRange>)
    requires forall i :: 0 <= i < |rs| ==> Valid(rs[i])
    ensures Inside(bounds, rs) <==> Union(rs) <= AddressesOf(bounds)
  {
    if Inside(bounds, rs) {
      forall v | v in Union(rs)
        ensures v in AddressesOf(bounds)
      {
        UnionMembers(rs, v);
      }
    }
    if Union(rs) <= AddressesOf(bounds) {
      forall i | 0 <= i < |rs|
        ensures Value(bounds.first) <= Value(rs[i].first) && Value(rs[i].last) <= Value(bounds.last)
      {
        UnionMembers(rs, Value(rs[i].first));
        UnionMembers(rs, Value(rs[i].last));
      }
    }
  }

  // ---------------------------------------------------------------------
  // Validation

  /**
   * `validateRangeIsMultipleOfSubnetsOfGivenPrefixLength`: the first address
   * ends in `128 - prefixLength` zero bits and the last in as many one bits.
   */
  predicate AlignedBounds(first: Address, last: Address, prefixLength: int)
  {
    NumberOfTrailingZeroes(first) >= 128 - prefixLength && NumberOfTrailingOnes(last) >= 128 - prefixLength
  }

  /** `x mod 2^b == 0` implies `x mod 2^a == 0` for `a <= b`. */
  lemma MultipleOfSmallerPower(x: nat, a: nat, b: nat)
    requires a <= b && x % Pow2(b) == 0
    ensures x % Pow2(a) == 0
  {
    Pow2Divides(a, b);
    ModDiv(x, Pow2(a), Pow2(b - a));
  }

  /** At least `k` trailing zero bits: a multiple of `2^k`. */
  lemma TrailingZeroesAtLeast(a: Address, k: nat)
    requires k <= 128
    ensures NumberOfTrailingZeroes(a) >= k <==> Value(a) % Pow2(k) == 0
  {
    var r := NumberOfTrailingZeroes(a);
    if r >= k {
      MultipleOfSmallerPower(Value(a), k, r);
    } else if Value(a) % Pow2(k) == 0 {
      MultipleOfSmallerPower(Value(a), r + 1, k);
    }
  }

  /** At least `k` trailing one bits: one below a multiple of `2^k`. */
  lemma TrailingOnesAtLeast(a: Address, k: nat)
    requires k <= 128
    ensures NumberOfTrailingOnes(a) >= k <==> (Value(a) + 1) % Pow2(k) == 0
  {
    var r := NumberOfTrailingOnes(a);
    SuccMod(Value(a), Pow2(r));
    SuccMod(Value(a), Pow2(k));
    if r >= k {
      MultipleOfSmallerPower(Value(a) + 1, k, r);
    } else if (Value(a) + 1) % Pow2(k) == 0 {
      SuccMod(Value(a), Pow2(r + 1));
      MultipleOfSmallerPower(Value(a) + 1, r + 1, k);
    }
  }

  /**
   * The bounds are aligned exactly when the range is a whole number of
   * blocks of `2^(128 - prefixLength)` addresses; a negative prefix length
   * is never aligned and one above 128 always is.
   */
  lemma AlignedBoundsMeaning(first: Address, last: Address, prefixLength: int)
    ensures prefixLength < 0 ==> !AlignedBounds(first, last, prefixLength)
    ensures prefixLength > 128 ==> AlignedBounds(first, last, prefixLength)
    ensures 0 <= prefixLength <= 128 ==>
              (AlignedBounds(first, last, prefixLength)
               <==> Value(first) % Pow2(128 - prefixLength) == 0 && (Value(last) + 1) % Pow2(128 - prefixLength) == 0)
  {
    if 0 <= prefixLength <= 128 {
      TrailingZeroesAtLeast(first, 128 - prefixLength);
      TrailingOnesAtLeast(last, 128 - prefixLength);
    }
  }

  /** `checkWithinBounds`: compares only the first and the last free range with the bounds. */
  predicate CheckWithinBounds(first: Address, last: Address, freeRanges: seq<AddressRange>)
    requires |freeRanges| > 0
  {
    CompareTo(freeRanges[0].first, first) >= 0 && CompareTo(freeRanges[|freeRanges| - 1].last, last) <= 0
  }

  /** For sorted free ranges the two comparisons check every range. */
  lemma CheckWithinBoundsMeaning(first: Address, last: Address, freeRanges: seq<AddressRange>)
    requires Separated(freeRanges) && |freeRanges| > 0
    ensures CheckWithinBounds(first, last, freeRanges) <==> Inside(AddressRange(first, last), freeRanges)
  {
  }

  /**
   * The private constructor: the range constructor (`first <= last`), then
   * `validateFreeRanges`, then the alignment check.
   */
  function MakePool(first: Address, last: Address, prefixLength: int, freeRanges: seq<AddressRange>): (r: Result<Pool>)
    ensures r.Success? <==> Value(first) <= Value(last)
                            && (|freeRanges| > 0 ==> CheckWithinBounds(first, last, freeRanges))
                            && AlignedBounds(first, last, prefixLength)
    ensures r.Failure? ==> r.error == IllegalArgument
    ensures r.Success? ==> r.value == Pool(AddressRange(first, last), freeRanges, prefixLength)
  {
    var underlyingRange := MakeRange(first, last);
    if underlyingRange.Failure? then
      Failure(underlyingRange.error)
    else if |freeRanges| > 0 && !CheckWithinBounds(first, last, freeRanges) then
      Failure(IllegalArgument)
    else if NumberOfTrailingZeroes(first) < 128 - prefixLength then
      Failure(IllegalArgument)
    else if NumberOfTrailingOnes(last) < 128 - prefixLength then
      Failure(IllegalArgument)
    else
      Success(Pool(underlyingRange.value, freeRanges, prefixLength))
  }

  /**
   * What every pool the constructors and the operations produce satisfies:
   * sorted, non-touching free ranges inside aligned bounds.
   */
  predicate PoolInvariant(pool: Pool)
  {
    Valid(pool.underlyingRange)
    && Separated(pool.freeRanges)
    && Inside(pool.underlyingRange, pool.freeRanges)
    && AlignedBounds(pool.underlyingRange.first, pool.underlyingRange.last, pool.prefixLength)
  }

  /** The private constructor accepts exactly the separated free ranges inside its bounds. */
  lemma MakePoolInvariant(first: Address, last: Address, prefixLength: int, freeRanges: seq<AddressRange>)
    requires Separated(freeRanges)
    ensures MakePool(first, last, prefixLength, freeRanges).Success?
            <==> Value(first) <= Value(last) && Inside(AddressRange(first, last), freeRanges)
                 && AlignedBounds(first, last, prefixLength)
    ensures MakePool(first, last, prefixLength, freeRanges).Success?
            ==> PoolInvariant(MakePool(first, last, prefixLength, freeRanges).value)
  {
    if |freeRanges| > 0 {
      CheckWithinBoundsMeaning(first, last, freeRanges);
    }
  }

  /** The free addresses of a valid pool are addresses of its range. */
  lemma FreeWithinBounds(pool: Pool)
    requires PoolInvariant(pool)
    ensures FreeAddresses(pool) <= AddressesOf(pool.underlyingRange)
  {
    InsideByUnion(pool.underlyingRange, pool.freeRanges);
  }

  /** The public constructor: a pool whose whole range is free. */
  function NewPool(first: Address, last: Address, prefixLength: int): (r: Result<Pool>)
    ensures r.Success? <==> Value(first) <= Value(last) && AlignedBounds(first, last, prefixLength)
    ensures r.Failure? ==> r.error == IllegalArgument
    ensures r.Success? ==> PoolInvariant(r.value) && r.value.underlyingRange == AddressRange(first, last)
                           && r.value.prefixLength == prefixLength
                           && r.value.freeRanges == [AddressRange(first, last)]
                           && FreeAddresses(r.value) == AddressesOf(r.value.underlyingRange)
  {
    var range := MakeRange(first, last);
    if range.Failure? then
      Failure(range.error)
    else
      UnionSingle(range.value);
      MakePoolInvariant(first, last, prefixLength, [range.value]);
      MakePool(first, last, prefixLength, [range.value])
  }

  /** `isExhausted`: no free range is left. */
  predicate IsExhausted(pool: Pool)
  {
    |pool.freeRanges| == 0
  }

  /** A pool is exhausted exactly when no address is free. */
  lemma ExhaustedMeansNothingFree(pool: Pool)
    requires PoolInvariant(pool)
    ensures IsExhausted(pool) <==> FreeAddresses(pool) == {}
  {
    if !IsExhausted(pool) {
      assert Value(pool.freeRanges[0].first) in FreeAddresses(pool);
    }
  }

  /** The first free range starts at the lowest free address. */
  lemma LowestFreeAddress(pool: Pool)
    requires PoolInvariant(pool) && !IsExhausted(pool)
    ensures Value(pool.freeRanges[0].first) in FreeAddresses(pool)
    ensures forall x :: x in FreeAddresses(pool) ==> Value(pool.freeRanges[0].first) <= x
  {
    var rs := pool.freeRanges;
    forall i | 0 <= i < |rs[1..]|
      ensures Value(rs[0].last) < Value(rs[1..][i].first)
    {
      assert rs[1..][i] == rs[i + 1];
    }
    UnionAbove(rs[1..], Value(rs[0].last));
    assert FreeAddresses(pool) == AddressesOf(rs[0]) + Union(rs[1..]);
  }

  // ---------------------------------------------------------------------
  // Delegation to the underlying range

  /** `contains(address)` */
  predicate PoolContains(pool: Pool, a: Address)
    ensures PoolContains(pool, a) <==> Value(a) in AddressesOf(pool.underlyingRange)
  {
    Contains(pool.underlyingRange, a)
  }

  /** `contains(range)` */
  predicate PoolContainsRange(pool: Pool, range: AddressRange)
    ensures Valid(range) ==> (PoolContainsRange(pool, range) <==> AddressesOf(range) <= AddressesOf(pool.underlyingRange))
  {
    ContainsRange(pool.underlyingRange, range)
  }

  /** `overlaps(range)` */
  predicate PoolOverlaps(pool: Pool, range: AddressRange)
    ensures Valid(pool.underlyingRange) && Valid(range)
            ==> (PoolOverlaps(pool, range) <==> AddressesOf(pool.underlyingRange) * AddressesOf(range) != {})
  {
    var r := Overlaps(pool.underlyingRange, range);
    assert Valid(pool.underlyingRange) && Valid(range)
           ==> (r <==> AddressesOf(pool.underlyingRange) * AddressesOf(range) != {}) by {
      if Valid(pool.underlyingRange) && Valid(range) {
        OverlapsShared(pool.underlyingRange, range);
      }
    }
    r
  }

  // ---------------------------------------------------------------------
  // Allocation

  /**
   * `findFreeRangeContaining`: the range that contains `n` can only be the
   * last range ordered before it (`headSet`) or the first one from it on
   * (`tailSet`).
   */
  function FindFreeRangeContaining(freeRanges: seq<AddressRange>, n: AddressRange): (r: Option<AddressRange>)
    requires Separated(freeRanges)
    ensures r.Some? ==> r.value in freeRanges && ContainsRange(r.value, n)
  {
    var k := SplitIndex(freeRanges, n);
    if k > 0 && ContainsRange(freeRanges[k - 1], n) then
      Some(freeRanges[k - 1])
    else if k < |freeRanges| && ContainsRange(freeRanges[k], n) then
      Some(freeRanges[k])
    else
      None
  }

  /** Some free range contains `n`. */
  predicate SomeRangeContains(freeRanges: seq<AddressRange>, n: AddressRange)
  {
    exists i :: 0 <= i < |freeRanges| && ContainsRange(freeRanges[i], n)
  }

  /** Only the ranges on either side of the split point can contain `n`. */
  lemma OnlyBesideSplit(freeRanges: seq<AddressRange>, n: AddressRange, j: nat)
    requires Separated(freeRanges) && Valid(n) && j < |freeRanges|
    ensures ContainsRange(freeRanges[j], n) ==> j + 1 == SplitIndex(freeRanges, n) || j == SplitIndex(freeRanges, n)
  {
    var k := SplitIndex(freeRanges, n);
    if j + 1 < k {
      assert RangeCompareTo(freeRanges[k - 1], n) < 0;
      assert Value(freeRanges[k - 1].first) <= Value(n.first);
      assert Value(freeRanges[j].last) + 1 < Value(freeRanges[k - 1].first);
    } else if j > k {
      assert RangeCompareTo(freeRanges[k], n) >= 0;
      assert Value(n.first) <= Value(freeRanges[k].first);
      assert Value(freeRanges[k].last) + 1 < Value(freeRanges[j].first);
    }
  }

  /** Looking only beside the split point misses no range that contains `n`. */
  lemma FindFreeRangeContainingComplete(freeRanges: seq<AddressRange>, n: AddressRange)
    requires Separated(freeRanges) && Valid(n)
    ensures FindFreeRangeContaining(freeRanges, n).Some? <==> SomeRangeContains(freeRanges, n)
  {
    var k := SplitIndex(freeRanges, n);
    var r := FindFreeRangeContaining(freeRanges, n);
    if r.Some? {
      var i :| 0 <= i < |freeRanges| && freeRanges[i] == r.value;
      assert ContainsRange(freeRanges[i], n);
    } else {
      forall i | 0 <= i < |freeRanges|
        ensures !ContainsRange(freeRanges[i], n)
      {
        OnlyBesideSplit(freeRanges, n, i);
      }
    }
  }

  /** A range that contains `n` covers all of it. */
  lemma ContainedIsFree(freeRanges: seq<AddressRange>, i: nat, n: AddressRange)
    requires i < |freeRanges| && Valid(n) && ContainsRange(freeRanges[i], n)
    ensures AddressesOf(n) <= Union(freeRanges)
  {
    forall v | v in AddressesOf(n)
      ensures v in Union(freeRanges)
    {
      assert v in AddressesOf(freeRanges[i]);
      UnionMembers(freeRanges, v);
    }
  }

  /** In separated ranges, the address after the end of a range is not free. */
  lemma AfterRangeNotFree(freeRanges: seq<AddressRange>, i: nat)
    requires Separated(freeRanges) && i < |freeRanges|
    ensures Value(freeRanges[i].last) + 1 !in Union(freeRanges)
  {
    var v := Value(freeRanges[i].last) + 1;
    forall j | 0 <= j < |freeRanges|
      ensures v !in AddressesOf(freeRanges[j])
    {
      if j < i {
        assert Value(freeRanges[j].last) + 1 < Value(freeRanges[i].first);
      } else if j > i {
        assert v < Value(freeRanges[j].first);
      }
    }
    UnionMembers(freeRanges, v);
  }

  /** A free run starting in range `i` ends in range `i`. */
  lemma FreeRunInOneRange(freeRanges: seq<AddressRange>, i: nat, n: AddressRange)
    requires Separated(freeRanges) && i < |freeRanges| && Valid(n)
    requires Value(n.first) in AddressesOf(freeRanges[i])
    requires AddressesOf(n) <= Union(freeRanges)
    ensures ContainsRange(freeRanges[i], n)
  {
    var v := Value(freeRanges[i].last) + 1;
    AfterRangeNotFree(freeRanges, i);
    assert v !in AddressesOf(n);
  }

  /**
   * For separated free ranges, some range contains `n` exactly when all of
   * `n` is free: a run of free addresses never spans two ranges.
   */
  lemma SomeRangeContainsMeaning(freeRanges: seq<AddressRange>, n: AddressRange)
    requires Separated(freeRanges) && Valid(n)
    ensures SomeRangeContains(freeRanges, n) <==> AddressesOf(n) <= Union(freeRanges)
  {
    if SomeRangeContains(freeRanges, n) {
      var i :| 0 <= i < |freeRanges| && ContainsRange(freeRanges[i], n);
      ContainedIsFree(freeRanges, i, n);
    }
    if AddressesOf(n) <= Union(freeRanges) {
      assert Value(n.first) in AddressesOf(n);
      UnionMembers(freeRanges, Value(n.first));
      var i :| 0 <= i < |freeRanges| && Value(n.first) in AddressesOf(freeRanges[i]);
      FreeRunInOneRange(freeRanges, i, n);
    }
  }

  /** The new free ranges of `doAllocate`: `from` replaced by what is left of it without `n`. */
  function AllocatedRanges(freeRanges: seq<AddressRange>, from: AddressRange, n: AddressRange): seq<AddressRange>
    requires Valid(from) && Valid(n)
  {
    InsertAll(Without(freeRanges, from), RemoveRange(from, n))
  }

  /**
   * `a + [x] + b` with `x` between the separated parts `a` and `b`: a free
   * range and its neighbours on either side.
   */
  predicate Around(a: seq<AddressRange>, x: AddressRange, b: seq<AddressRange>)
  {
    Separated(a) && Valid(x) && Separated(b) && EndsBefore(a, Value(x.first)) && StartsAfter(b, Value(x.last))
  }

  /** Every range of `a` ends at least one address before `v`. */
  predicate EndsBefore(a: seq<AddressRange>, v: int)
  {
    forall j :: 0 <= j < |a| ==> Value(a[j].last) + 1 < v
  }

  /** Every range of `b` starts at least one address after `v`. */
  predicate StartsAfter(b: seq<AddressRange>, v: int)
  {
    forall j :: 0 <= j < |b| ==> v + 1 < Value(b[j].first)
  }

  /** Every range of separated ranges sits between the ranges before and after it. */
  lemma SplitAt(freeRanges: seq<AddressRange>, i: nat)
    requires Separated(freeRanges) && i < |freeRanges|
    ensures freeRanges == freeRanges[..i] + [freeRanges[i]] + freeRanges[i + 1..]
    ensures Around(freeRanges[..i], freeRanges[i], freeRanges[i + 1..])
  {
    SeparatedSlice(freeRanges, 0, i);
    SeparatedSlice(freeRanges, i + 1, |freeRanges|);
    assert freeRanges[0..i] == freeRanges[..i];
    assert freeRanges[i + 1..|freeRanges|] == freeRanges[i + 1..];
  }

  /** The parts around a range are separated from each other too. */
  lemma AroundApart(a: seq<AddressRange>, x: AddressRange, b: seq<AddressRange>)
    requires Around(a, x, b)
    ensures forall j, k :: 0 <= j < |a| && 0 <= k < |b| ==> Value(a[j].last) + 1 < Value(b[k].first)
  {
  }

  /** Taking the middle range out of the `TreeSet` leaves the parts around it. */
  lemma WithoutMiddle(a: seq<AddressRange>, x: AddressRange, b: seq<AddressRange>)
    requires Around(a, x, b)
    ensures Without(a + [x] + b, x) == a + b
  {
    var rs := a + [x] + b;
    forall j | 0 <= j < |rs| && j != |a|
      ensures rs[j] != rs[|a|]
    {
      if j < |a| {
        assert rs[j] == a[j];
      } else {
        assert rs[j] == b[j - |a| - 1];
      }
    }
    WithoutAt(rs, |a|);
    assert rs[..|a|] == a;
    assert rs[|a| + 1..] == b;
  }

  /** The remainders of `x` without `n` lie between the parts around `x`. */
  lemma PiecesAround(a: seq<AddressRange>, x: AddressRange, b: seq<AddressRange>, n: AddressRange)
    requires Around(a, x, b) && Valid(n)
    ensures forall j, k :: 0 <= j < |a| && 0 <= k < |RemoveRange(x, n)| ==> Value(a[j].last) + 1 < Value(RemoveRange(x, n)[k].first)
    ensures forall k, j :: 0 <= k < |RemoveRange(x, n)| && 0 <= j < |b| ==> Value(RemoveRange(x, n)[k].last) + 1 < Value(b[j].first)
    ensures Separated(RemoveRange(x, n))
  {
  }

  /** The remainders of `x` without `n` go where `x` was. */
  lemma AllocatedShape(a: seq<AddressRange>, x: AddressRange, b: seq<AddressRange>, n: AddressRange)
    requires Around(a, x, b) && Valid(n)
    ensures AllocatedRanges(a + [x] + b, x, n) == a + RemoveRange(x, n) + b
  {
    var pieces := RemoveRange(x, n);
    WithoutMiddle(a, x, b);
    PiecesAround(a, x, b, n);
    InsertAllBetween(a, b, pieces);
  }

  /** Splicing the remainders in keeps the free ranges separated. */
  lemma AllocatedSeparated(a: seq<AddressRange>, x: AddressRange, b: seq<AddressRange>, n: AddressRange)
    requires Around(a, x, b) && Valid(n)
    ensures Separated(a + RemoveRange(x, n) + b)
  {
    PiecesAround(a, x, b, n);
    AroundApart(a, x, b);
    SeparatedAround(a, RemoveRange(x, n), b);
  }

  /** Set algebra: taking `n` out of the middle part only, when the outer parts miss it. */
  lemma RemoveFromMiddle<T>(a: set<T>, x: set<T>, p: set<T>, b: set<T>, n: set<T>)
    requires p == x - n && a * n == {} && b * n == {}
    ensures a + p + b == (a + x + b) - n
  {
    forall y
      ensures y in a + p + b <==> y in (a + x + b) - n
    {
      if y in a {
        assert y !in a * n;
      }
      if y in b {
        assert y !in b * n;
      }
    }
  }

  /** Addresses of ranges that end before `n` or start after it are not in `n`. */
  lemma OutsideDisjoint(a: seq<AddressRange>, b: seq<AddressRange>, n: AddressRange, lo: int, hi: int)
    requires lo <= Value(n.first) && Value(n.last) <= hi
    requires forall j :: 0 <= j < |a| ==> Value(a[j].last) < lo
    requires forall j :: 0 <= j < |b| ==> hi < Value(b[j].first)
    ensures Union(a) * AddressesOf(n) == {} && Union(b) * AddressesOf(n) == {}
  {
    UnionBelow(a, lo);
    UnionAbove(b, hi);
    assert forall v :: v in Union(a) ==> v !in AddressesOf(n);
    assert forall v :: v in Union(b) ==> v !in AddressesOf(n);
  }

  /** Splicing the remainders in frees what was free except `n`. */
  lemma AllocatedUnion(a: seq<AddressRange>, x: AddressRange, b: seq<AddressRange>, n: AddressRange)
    requires Around(a, x, b) && Valid(n)
    ensures Union(a + RemoveRange(x, n) + b)
            == Union(a + [x] + b) - (if ContainsRange(x, n) then AddressesOf(n) else {})
  {
    var pieces := RemoveRange(x, n);
    assert Union(a + [x] + b) == Union(a) + AddressesOf(x) + Union(b) by {
      UnionAround(a, [x], b);
      UnionSingle(x);
    }
    assert Union(a + pieces + b) == Union(a) + Union(pieces) + Union(b) by {
      UnionAround(a, pieces, b);
    }
    if ContainsRange(x, n) {
      OutsideDisjoint(a, b, n, Value(x.first), Value(x.last));
      RemoveFromMiddle(Union(a), AddressesOf(x), Union(pieces), Union(b), AddressesOf(n));
    } else {
      UnionSingle(x);
    }
  }

  /**
   * The new free ranges of `doAllocate`: the range allocated from is
   * replaced in place by its remainders, every other free range is kept, they
   * stay separated, and exactly the addresses of `n` stop being free.
   */
  lemma AllocatedRangesSpec(freeRanges: seq<AddressRange>, i: nat, n: AddressRange)
    requires Separated(freeRanges) && i < |freeRanges| && Valid(n)
    ensures AllocatedRanges(freeRanges, freeRanges[i], n)
            == freeRanges[..i] + RemoveRange(freeRanges[i], n) + freeRanges[i + 1..]
    ensures Separated(AllocatedRanges(freeRanges, freeRanges[i], n))
    ensures Union(AllocatedRanges(freeRanges, freeRanges[i], n))
            == Union(freeRanges) - (if ContainsRange(freeRanges[i], n) then AddressesOf(n) else {})
  {
    var a, x, b := freeRanges[..i], freeRanges[i], freeRanges[i + 1..];
    SplitAt(freeRanges, i);
    AllocatedShape(a, x, b, n);
    AllocatedSeparated(a, x, b, n);
    AllocatedUnion(a, x, b, n);
  }

  // ---------------------------------------------------------------------
  // Block alignment

  /** A range that starts and ends on a boundary between blocks of `2^(128 - p)` addresses. */
  predicate AlignedRange(x: AddressRange, p: nat)
    requires p <= 128
  {
    Value(x.first) % Pow2(128 - p) == 0 && (Value(x.last) + 1) % Pow2(128 - p) == 0
  }

  /** Every free range is aligned on the subnets the pool hands out. */
  predicate BlockAligned(freeRanges: seq<AddressRange>, p: int)
  {
    0 <= p <= 128 && forall i :: 0 <= i < |freeRanges| ==> AlignedRange(freeRanges[i], p)
  }

  lemma BlockAlignedConcat(a: seq<AddressRange>, b: seq<AddressRange>, p: nat)
    requires BlockAligned(a, p) && BlockAligned(b, p)
    ensures BlockAligned(a + b, p)
  {
    assert forall j :: 0 <= j < |a + b| ==> (a + b)[j] == if j < |a| then a[j] else b[j - |a|];
  }

  lemma BlockAlignedSlice(a: seq<AddressRange>, lo: nat, hi: nat, p: nat)
    requires BlockAligned(a, p) && lo <= hi <= |a|
    ensures BlockAligned(a[lo..hi], p)
  {
    assert forall j :: 0 <= j < hi - lo ==> a[lo..hi][j] == a[lo + j];
  }

  /** A new pool with a prefix length of at most 128 has its one free range aligned. */
  lemma NewPoolAligned(first: Address, last: Address, prefixLength: int)
    requires NewPool(first, last, prefixLength).Success? && prefixLength <= 128
    ensures BlockAligned(NewPool(first, last, prefixLength).value.freeRanges, prefixLength)
  {
    AlignedBoundsMeaning(first, last, prefixLength);
  }

  /** The next multiple of `d` after the multiple `x` is `x + d`. */
  lemma NextMultiple(x: nat, y: nat, d: nat)
    requires d > 0 && x % d == 0 && y % d == 0 && x < y
    ensures x + d <= y
  {
    DivModBounds(x, d);
    DivModBounds(y, d);
    var q := y / d - x / d;
    assert y - x == q * d;
    MulPos(q, d);
  }

  /** The multiple of `d` after a multiple of `d`. */
  lemma MultiplePlus(x: nat, d: nat)
    requires d > 0 && x % d == 0
    ensures (x + d) % d == 0
  {
    assert x == (x / d) * d;
    DivModUnique(x + d, d, x / d + 1, 0);
  }

  /** A network ends just before a block boundary. */
  lemma NetworkAligned(n: Network)
    requires IsNetwork(n)
    ensures AlignedRange(n.range, n.prefixLength)
  {
    MultiplePlus(Value(n.range.first), Pow2(128 - n.prefixLength));
  }

  /**
   * With aligned free ranges, the subnet at the start of the first free
   * range starts there and lies inside it.
   */
  lemma FirstSubnetFits(freeRanges: seq<AddressRange>, p: nat)
    requires Separated(freeRanges) && |freeRanges| > 0 && BlockAligned(freeRanges, p)
    ensures FromAddressAndMask(freeRanges[0].first, p).range.first == freeRanges[0].first
    ensures ContainsRange(freeRanges[0], FromAddressAndMask(freeRanges[0].first, p).range)
  {
    var x := freeRanges[0];
    var n := FromAddressAndMask(x.first, p);
    var d := Pow2(128 - p);
    assert AlignedRange(x, p);
    ValueInjective(n.range.first, x.first);
    NextMultiple(Value(x.first), Value(x.last) + 1, d);
  }

  /** A range that starts and ends where an aligned range or an aligned subnet does is aligned. */
  lemma AlignedEnds(y: AddressRange, x: AddressRange, n: AddressRange, p: nat)
    requires p <= 128 && AlignedRange(x, p) && AlignedRange(n, p)
    requires y.first == x.first || Value(y.first) == Value(n.last) + 1
    requires y.last == x.last || Value(y.last) + 1 == Value(n.first)
    ensures AlignedRange(y, p)
  {
  }

  /** What `remove` leaves of an aligned range without an aligned subnet is aligned. */
  lemma PiecesAligned(x: AddressRange, n: AddressRange, p: nat)
    requires Valid(x) && Valid(n) && ContainsRange(x, n) && p <= 128
    requires AlignedRange(x, p) && AlignedRange(n, p)
    ensures BlockAligned(RemoveRange(x, n), p)
  {
    var pieces := RemoveRange(x, n);
    RemoveRangeEnds(x, n);
    forall i | 0 <= i < |pieces|
      ensures AlignedRange(pieces[i], p)
    {
      AlignedEnds(pieces[i], x, n, p);
    }
  }

  /** Allocating an aligned subnet leaves aligned free ranges. */
  lemma AllocatedAligned(freeRanges: seq<AddressRange>, i: nat, n: AddressRange, p: nat)
    requires Separated(freeRanges) && i < |freeRanges| && Valid(n) && ContainsRange(freeRanges[i], n)
    requires BlockAligned(freeRanges, p) && AlignedRange(n, p)
    ensures BlockAligned(freeRanges[..i] + RemoveRange(freeRanges[i], n) + freeRanges[i + 1..], p)
  {
    PiecesAligned(freeRanges[i], n, p);
    BlockAlignedSlice(freeRanges, 0, i, p);
    BlockAlignedSlice(freeRanges, i + 1, |freeRanges|, p);
    assert freeRanges[0..i] == freeRanges[..i];
    assert freeRanges[i + 1..|freeRanges|] == freeRanges[i + 1..];
    BlockAlignedConcat(freeRanges[..i], RemoveRange(freeRanges[i], n), p);
    BlockAlignedConcat(freeRanges[..i] + RemoveRange(freeRanges[i], n), freeRanges[i + 1..], p);
  }

  // ---------------------------------------------------------------------
  // doAllocate, allocate() and allocate(network)

  /** The pool `doAllocate` builds when allocating `n` from the free range `i`. */
  lemma AllocatedPool(pool: Pool, i: nat, n: AddressRange)
    requires PoolInvariant(pool) && i < |pool.freeRanges| && Valid(n)
    ensures var made := MakePool(pool.underlyingRange.first, pool.underlyingRange.last, pool.prefixLength,
                                 AllocatedRanges(pool.freeRanges, pool.freeRanges[i], n));
            && made.Success?
            && PoolInvariant(made.value)
            && made.value.underlyingRange == pool.underlyingRange
            && made.value.prefixLength == pool.prefixLength
            && made.value.freeRanges == pool.freeRanges[..i] + RemoveRange(pool.freeRanges[i], n) + pool.freeRanges[i + 1..]
            && FreeAddresses(made.value)
               == FreeAddresses(pool) - (if ContainsRange(pool.freeRanges[i], n) then AddressesOf(n) else {})
  {
    var rs := AllocatedRanges(pool.freeRanges, pool.freeRanges[i], n);
    AllocatedRangesSpec(pool.freeRanges, i, n);
    assert Union(rs) <= Union(pool.freeRanges);
    FreeWithinBounds(pool);
    InsideByUnion(pool.underlyingRange, rs);
    MakePoolInvariant(pool.underlyingRange.first, pool.underlyingRange.last, pool.prefixLength, rs);
  }

  /** The same, for the free range `from` wherever it is. */
  lemma AllocatedPoolFrom(pool: Pool, from: AddressRange, n: AddressRange)
    requires PoolInvariant(pool) && from in pool.freeRanges && Valid(n)
    ensures var made := MakePool(pool.underlyingRange.first, pool.underlyingRange.last, pool.prefixLength,
                                 AllocatedRanges(pool.freeRanges, from, n));
            && made.Success?
            && PoolInvariant(made.value)
            && made.value.underlyingRange == pool.underlyingRange
            && made.value.prefixLength == pool.prefixLength
            && (forall i :: 0 <= i < |pool.freeRanges| && pool.freeRanges[i] == from ==>
                  made.value.freeRanges == pool.freeRanges[..i] + RemoveRange(from, n) + pool.freeRanges[i + 1..])
            && FreeAddresses(made.value)
               == FreeAddresses(pool) - (if ContainsRange(from, n) then AddressesOf(n) else {})
  {
    var i :| 0 <= i < |pool.freeRanges| && pool.freeRanges[i] == from;
    assert forall j :: 0 <= j < |pool.freeRanges| && pool.freeRanges[j] == from ==> j == i by {
      SeparatedDistinct(pool.freeRanges, i);
    }
    AllocatedPool(pool, i, n);
  }

  /**
   * `doAllocate`: the free ranges with the range allocated from replaced by
   * what `remove` leaves of it, validated again by the private constructor.
   */
  method DoAllocate(pool: Pool, toAllocate: Network, rangeToAllocateFrom: AddressRange) returns (q: Pool)
    requires PoolInvariant(pool) && IsNetwork(toAllocate) && rangeToAllocateFrom in pool.freeRanges
    ensures MakePool(pool.underlyingRange.first, pool.underlyingRange.last, pool.prefixLength,
                     AllocatedRanges(pool.freeRanges, rangeToAllocateFrom, toAllocate.range)) == Success(q)
    ensures PoolInvariant(q) && q.underlyingRange == pool.underlyingRange && q.prefixLength == pool.prefixLength
    ensures forall i :: 0 <= i < |pool.freeRanges| && pool.freeRanges[i] == rangeToAllocateFrom ==>
              q.freeRanges == pool.freeRanges[..i] + RemoveRange(rangeToAllocateFrom, toAllocate.range) + pool.freeRanges[i + 1..]
    ensures FreeAddresses(q) == FreeAddresses(pool)
              - (if ContainsRange(rangeToAllocateFrom, toAllocate.range) then AddressesOf(toAllocate.range) else {})
  {
    var newFreeRanges := new RangeSet(pool.freeRanges);
    newFreeRanges.Remove(rangeToAllocateFrom);
    var newRanges := RemoveRange(rangeToAllocateFrom, toAllocate.range);
    newFreeRanges.AddAll(newRanges);
    AllocatedPoolFrom(pool, rangeToAllocateFrom, toAllocate.range);
    q := MakePool(pool.underlyingRange.first, pool.underlyingRange.last, pool.prefixLength, newFreeRanges.elements).value;
  }

  /** Allocating a subnet of the pool's prefix length keeps aligned free ranges aligned. */
  lemma AllocateNetworkAligned(pool: Pool, i: nat, n: Network)
    requires PoolInvariant(pool) && i < |pool.freeRanges| && IsNetwork(n) && n.prefixLength == pool.prefixLength
    requires ContainsRange(pool.freeRanges[i], n.range) && BlockAligned(pool.freeRanges, pool.prefixLength)
    ensures var q := MakePool(pool.underlyingRange.first, pool.underlyingRange.last, pool.prefixLength,
                              AllocatedRanges(pool.freeRanges, pool.freeRanges[i], n.range));
            q.Success? && BlockAligned(q.value.freeRanges, pool.prefixLength)
  {
    NetworkAligned(n);
    AllocatedPool(pool, i, n.range);
    AllocatedAligned(pool.freeRanges, i, n.range, pool.prefixLength);
  }

  /**
   * `allocate()`: the subnet of the pool's prefix length at the start of the
   * first free range, or `null` when the pool is exhausted.  The network
   * constructor throws for a prefix length outside ]0, 128].
   */
  method Allocate(pool: Pool) returns (r: Result<Option<Pool>>)
    requires PoolInvariant(pool)
    ensures r == Success(None) <==> IsExhausted(pool)
    ensures r.Failure? <==> !IsExhausted(pool) && !(0 < pool.prefixLength <= 128)
    ensures r.Failure? ==> r.error == IllegalArgument
    ensures r.Success? && r.value.Some? ==>
              var n := FromAddressAndMask(pool.freeRanges[0].first, pool.prefixLength);
              PoolInvariant(r.value.value)
              && r.value.value.underlyingRange == pool.underlyingRange
              && r.value.value.prefixLength == pool.prefixLength
              && FreeAddresses(r.value.value) == FreeAddresses(pool)
                   - (if ContainsRange(pool.freeRanges[0], n.range) then AddressesOf(n.range) else {})
    ensures r.Success? && r.value.Some? && BlockAligned(pool.freeRanges, pool.prefixLength) ==>
              var n := FromAddressAndMask(pool.freeRanges[0].first, pool.prefixLength);
              Value(n.range.first) in FreeAddresses(pool)
              && (forall x :: x in FreeAddresses(pool) ==> Value(n.range.first) <= x)
              && FreeAddresses(r.value.value) == FreeAddresses(pool) - AddressesOf(n.range)
              && BlockAligned(r.value.value.freeRanges, pool.prefixLength)
  {
    if IsExhausted(pool) {
      return Success(None);
    }
    var firstFreeRange := pool.freeRanges[0];
    var allocatedNetwork := FromPrefixLengthTrunk(firstFreeRange.first, pool.prefixLength);
    if allocatedNetwork.Failure? {
      return Failure(allocatedNetwork.error);
    }
    var q := DoAllocate(pool, allocatedNetwork.value, firstFreeRange);
    r := Success(Some(q));
    if BlockAligned(pool.freeRanges, pool.prefixLength) {
      FirstSubnetFits(pool.freeRanges, pool.prefixLength);
      LowestFreeAddress(pool);
      AllocateNetworkAligned(pool, 0, allocatedNetwork.value);
    }
  }

  /**
   * `allocate(network)`: throws when the network is outside the pool or of
   * another prefix length, returns `null` when it is not (wholly) free.
   */
  method AllocateNetwork(pool: Pool, toAllocate: Network) returns (r: Result<Option<Pool>>)
    requires PoolInvariant(pool) && IsNetwork(toAllocate)
    ensures r.Failure? <==> !PoolContainsRange(pool, toAllocate.range) || toAllocate.prefixLength != pool.prefixLength
    ensures r.Failure? ==> r.error == IllegalArgument
    ensures r.Success? ==> (r.value.None? <==> !(AddressesOf(toAllocate.range) <= FreeAddresses(pool)))
    ensures r.Success? && r.value.Some? ==>
              PoolInvariant(r.value.value)
              && r.value.value.underlyingRange == pool.underlyingRange
              && r.value.value.prefixLength == pool.prefixLength
              && FreeAddresses(r.value.value) == FreeAddresses(pool) - AddressesOf(toAllocate.range)
    ensures r.Success? && r.value.Some? && BlockAligned(pool.freeRanges, pool.prefixLength) ==>
              BlockAligned(r.value.value.freeRanges, pool.prefixLength)
  {
    if !PoolContainsRange(pool, toAllocate.range) {
      return Failure(IllegalArgument);
    }
    if toAllocate.prefixLength != pool.prefixLength {
      return Failure(IllegalArgument);
    }
    var rangeToAllocateFrom := FindFreeRangeContaining(pool.freeRanges, toAllocate.range);
    FindFreeRangeContainingComplete(pool.freeRanges, toAllocate.range);
    SomeRangeContainsMeaning(pool.freeRanges, toAllocate.range);
    if rangeToAllocateFrom.None? {
      return Success(None);
    }
    var q := DoAllocate(pool, toAllocate, rangeToAllocateFrom.value);
    r := Success(Some(q));
    if BlockAligned(pool.freeRanges, pool.prefixLength) {
      ghost var i :| 0 <= i < |pool.freeRanges| && pool.freeRanges[i] == rangeToAllocateFrom.value;
      AllocateNetworkAligned(pool, i, toAllocate);
    }
  }

  // ---------------------------------------------------------------------
  // The neighbours of a network given back

  /** `freeRange` ends on the address just before `n`. */
  predicate EndsJustBefore(freeRange: AddressRange, n: AddressRange)
  {
    Value(freeRange.last) + 1 == Value(n.first)
  }

  /** `freeRange` starts on the address just after `n`. */
  predicate StartsJustAfter(freeRange: AddressRange, n: AddressRange)
  {
    Value(n.last) + 1 == Value(freeRange.first)
  }

  /** The first free range, in order, that ends just before `n`. */
  function FreeRangeBefore(freeRanges: seq<AddressRange>, n: AddressRange): (r: Option<AddressRange>)
    ensures r.Some? ==> r.value in freeRanges && EndsJustBefore(r.value, n)
    ensures r.None? <==> forall i :: 0 <= i < |freeRanges| ==> !EndsJustBefore(freeRanges[i], n)
  {
    if |freeRanges| == 0 then None
    else if EndsJustBefore(freeRanges[0], n) then Some(freeRanges[0])
    else
      assert forall i :: 0 < i < |freeRanges| ==> freeRanges[i] == freeRanges[1..][i - 1];
      FreeRangeBefore(freeRanges[1..], n)
  }

  /** The first free range, in order, that starts just after `n`. */
  function FreeRangeAfter(freeRanges: seq<AddressRange>, n: AddressRange): (r: Option<AddressRange>)
    ensures r.Some? ==> r.value in freeRanges && StartsJustAfter(r.value, n)
    ensures r.None? <==> forall i :: 0 <= i < |freeRanges| ==> !StartsJustAfter(freeRanges[i], n)
  {
    if |freeRanges| == 0 then None
    else if StartsJustAfter(freeRanges[0], n) then Some(freeRanges[0])
    else
      assert forall i :: 0 < i < |freeRanges| ==> freeRanges[i] == freeRanges[1..][i - 1];
      FreeRangeAfter(freeRanges[1..], n)
  }

  /** The test of `findFreeRangeBefore`, with `+ 1` taken only where it does not wrap. */
  lemma BeforeTest(freeRange: AddressRange, n: AddressRange)
    ensures (CompareTo(freeRange.last, AllOnes) < 0 && Addresses.Equals(Add(freeRange.last, 1), n.first))
            <==> EndsJustBefore(freeRange, n)
  {
    if CompareTo(freeRange.last, AllOnes) < 0 {
      AddOne(freeRange.last);
      CompareToAgreesWithEquals(Add(freeRange.last, 1), n.first);
    }
  }

  /** The test of `findFreeRangeAfter`, with `- 1` taken only where it does not wrap. */
  lemma AfterTest(freeRange: AddressRange, n: AddressRange)
    ensures (CompareTo(freeRange.first, Zero) > 0 && Addresses.Equals(Subtract(freeRange.first, 1), n.last))
            <==> StartsJustAfter(freeRange, n)
  {
    if CompareTo(freeRange.first, Zero) > 0 {
      SubtractOne(freeRange.first);
      CompareToAgreesWithEquals(Subtract(freeRange.first, 1), n.last);
    }
  }

  /**
   * `findFreeRangeBefore`: the loop over the free ranges, comparing
   * `last + 1` with the network's first address.  The `+ 1` is only taken
   * below the largest address, where it does not wrap around.
   */
  method FindFreeRangeBefore(freeRanges: seq<AddressRange>, network: AddressRange) returns (r: Option<AddressRange>)
    ensures r == FreeRangeBefore(freeRanges, network)
  {
    var i := 0;
    while i < |freeRanges|
      invariant 0 <= i <= |freeRanges|
      invariant FreeRangeBefore(freeRanges[i..], network) == FreeRangeBefore(freeRanges, network)
    {
      var freeRange := freeRanges[i];
      BeforeTest(freeRange, network);
      if CompareTo(freeRange.last, AllOnes) < 0 && Addresses.Equals(Add(freeRange.last, 1), network.first) {
        return Some(freeRange);
      }
      assert freeRanges[i..][1..] == freeRanges[i + 1..];
      i := i + 1;
    }
    return None;
  }

  /**
   * `findFreeRangeAfter`: the same loop comparing `first - 1` with the
   * network's last address, the `- 1` only taken above `::`.
   */
  method FindFreeRangeAfter(freeRanges: seq<AddressRange>, network: AddressRange) returns (r: Option<AddressRange>)
    ensures r == FreeRangeAfter(freeRanges, network)
  {
    var i := 0;
    while i < |freeRanges|
      invariant 0 <= i <= |freeRanges|
      invariant FreeRangeAfter(freeRanges[i..], network) == FreeRangeAfter(freeRanges, network)
    {
      var freeRange := freeRanges[i];
      AfterTest(freeRange, network);
      if CompareTo(freeRange.first, Zero) > 0 && Addresses.Equals(Subtract(freeRange.first, 1), network.last) {
        return Some(freeRange);
      }
      assert freeRanges[i..][1..] == freeRanges[i + 1..];
      i := i + 1;
    }
    return None;
  }

  /**
   * The `TreeSet` updates of `deAllocate`: add the network, or replace the
   * neighbours found by one range that also covers it.  The range
   * constructor of a merged range throws when its first address is above
   * its last.
   */
  function MergeRanges(freeRanges: seq<AddressRange>, n: AddressRange,
                       before: Option<AddressRange>, after: Option<AddressRange>): Result<seq<AddressRange>>
  {
    if before.None? && after.None? then
      Success(Insert(freeRanges, n))
    else if before.Some? && after.Some? then
      var merged := MakeRange(before.value.first, after.value.last);
      if merged.Failure? then Failure(merged.error)
      else Success(Insert(Without(Without(freeRanges, before.value), after.value), merged.value))
    else if before.Some? then
      var merged := MakeRange(before.value.first, n.last);
      if merged.Failure? then Failure(merged.error)
      else Success(Insert(Without(freeRanges, before.value), merged.value))
    else
      var merged := MakeRange(n.first, after.value.last);
      if merged.Failure? then Failure(merged.error)
      else Success(Insert(Without(freeRanges, after.value), merged.value))
  }

  // ---------------------------------------------------------------------
  // Merging a network given back with its neighbours

  /** A range's addresses are among the addresses of the ranges. */
  lemma RangeInUnion(freeRanges: seq<AddressRange>, i: nat)
    requires i < |freeRanges|
    ensures AddressesOf(freeRanges[i]) <= Union(freeRanges)
  {
    forall v | v in AddressesOf(freeRanges[i])
      ensures v in Union(freeRanges)
    {
      UnionMembers(freeRanges, v);
    }
  }

  /** Separated ranges on either side of a range make separated ranges with it. */
  lemma AroundSeparated(a: seq<AddressRange>, x: AddressRange, b: seq<AddressRange>)
    requires Around(a, x, b)
    ensures Separated(a + [x] + b)
  {
    AroundApart(a, x, b);
    SeparatedAround(a, [x], b);
  }

  /** A set inside another that shares nothing with a third shares nothing with it either. */
  lemma SubsetDisjoint<T>(a: set<T>, u: set<T>, n: set<T>)
    requires a <= u && u * n == {}
    ensures a * n == {}
  {
  }

  lemma NotInBoth<T>(a: set<T>, b: set<T>, v: T)
    requires a * b == {} || b * a == {}
    requires v in b
    ensures v !in a
  {
    assert v !in a * b;
  }

  /** Two ranges without a common address lie one entirely before the other. */
  lemma DisjointOrder(x: AddressRange, n: AddressRange)
    requires Valid(x) && Valid(n) && AddressesOf(x) * AddressesOf(n) == {}
    ensures Value(x.last) < Value(n.first) || Value(n.last) < Value(x.first)
  {
    if Value(x.first) <= Value(n.first) {
      assert Value(n.first) in AddressesOf(n);
      NotInBoth(AddressesOf(x), AddressesOf(n), Value(n.first));
    } else {
      assert Value(x.first) in AddressesOf(x);
      NotInBoth(AddressesOf(n), AddressesOf(x), Value(x.first));
    }
  }

  /**
   * When no address of `n` is free, the free ranges ordered before `n` end
   * before it and the others start after it.
   */
  lemma GapAt(freeRanges: seq<AddressRange>, n: AddressRange)
    requires Separated(freeRanges) && Valid(n) && Union(freeRanges) * AddressesOf(n) == {}
    ensures forall i :: 0 <= i < SplitIndex(freeRanges, n) ==> Value(freeRanges[i].last) < Value(n.first)
    ensures forall i :: SplitIndex(freeRanges, n) <= i < |freeRanges| ==> Value(n.last) < Value(freeRanges[i].first)
  {
    var k := SplitIndex(freeRanges, n);
    forall i | 0 <= i < |freeRanges|
      ensures Value(freeRanges[i].last) < Value(n.first) || Value(n.last) < Value(freeRanges[i].first)
    {
      RangeInUnion(freeRanges, i);
      SubsetDisjoint(AddressesOf(freeRanges[i]), Union(freeRanges), AddressesOf(n));
      DisjointOrder(freeRanges[i], n);
    }
  }

  /**
   * The free range just before `n`, when there is one, is the last one
   * ordered before it; when there is none, the ranges before `n` end at
   * least one address before it.
   */
  lemma BeforeAt(freeRanges: seq<AddressRange>, n: AddressRange, k: nat)
    requires Separated(freeRanges) && Valid(n) && k <= |freeRanges|
    requires forall i :: 0 <= i < k ==> Value(freeRanges[i].last) < Value(n.first)
    requires forall i :: k <= i < |freeRanges| ==> Value(n.last) < Value(freeRanges[i].first)
    ensures FreeRangeBefore(freeRanges, n).Some? ==> 0 < k && FreeRangeBefore(freeRanges, n).value == freeRanges[k - 1]
    ensures FreeRangeBefore(freeRanges, n).None? ==> EndsBefore(freeRanges[..k], Value(n.first))
  {
    var before := FreeRangeBefore(freeRanges, n);
    if before.Some? {
      var j :| 0 <= j < |freeRanges| && freeRanges[j] == before.value;
      assert j < k by {
        assert Valid(freeRanges[j]);
      }
      assert j + 1 == k by {
        assert Valid(freeRanges[k - 1]);
      }
    } else {
      assert forall j :: 0 <= j < k ==> freeRanges[..k][j] == freeRanges[j];
    }
  }

  /**
   * The free range just after `n`, when there is one, is the first one
   * ordered from it on; when there is none, the ranges from there on start
   * at least one address after it.
   */
  lemma AfterAt(freeRanges: seq<AddressRange>, n: AddressRange, k: nat)
    requires Separated(freeRanges) && Valid(n) && k <= |freeRanges|
    requires forall i :: 0 <= i < k ==> Value(freeRanges[i].last) < Value(n.first)
    requires forall i :: k <= i < |freeRanges| ==> Value(n.last) < Value(freeRanges[i].first)
    ensures FreeRangeAfter(freeRanges, n).Some? ==> k < |freeRanges| && FreeRangeAfter(freeRanges, n).value == freeRanges[k]
    ensures FreeRangeAfter(freeRanges, n).None? ==> StartsAfter(freeRanges[k..], Value(n.last))
  {
    var after := FreeRangeAfter(freeRanges, n);
    if after.Some? {
      var j :| 0 <= j < |freeRanges| && freeRanges[j] == after.value;
      assert k <= j by {
        assert Valid(freeRanges[j]);
      }
      assert j == k by {
        assert Valid(freeRanges[k]);
      }
    } else {
      assert forall j :: 0 <= j < |freeRanges| - k ==> freeRanges[k..][j] == freeRanges[k + j];
    }
  }

  /** Where the neighbours of `n` sit among the free ranges when none of its addresses is free. */
  lemma NeighbourPlaces(freeRanges: seq<AddressRange>, n: AddressRange) returns (k: nat)
    requires Separated(freeRanges) && Valid(n) && Union(freeRanges) * AddressesOf(n) == {}
    ensures k <= |freeRanges|
    ensures FreeRangeBefore(freeRanges, n).Some? ==> 0 < k && FreeRangeBefore(freeRanges, n).value == freeRanges[k - 1]
    ensures FreeRangeBefore(freeRanges, n).None? ==> EndsBefore(freeRanges[..k], Value(n.first))
    ensures FreeRangeAfter(freeRanges, n).Some? ==> k < |freeRanges| && FreeRangeAfter(freeRanges, n).value == freeRanges[k]
    ensures FreeRangeAfter(freeRanges, n).None? ==> StartsAfter(freeRanges[k..], Value(n.last))
  {
    k := SplitIndex(freeRanges, n);
    GapAt(freeRanges, n);
    BeforeAt(freeRanges, n, k);
    AfterAt(freeRanges, n, k);
  }

  /** No neighbour: the network goes in between as a range of its own. */
  lemma MergeNone(a: seq<AddressRange>, b: seq<AddressRange>, n: AddressRange)
    requires Around(a, n, b)
    ensures Insert(a + b, n) == a + [n] + b
    ensures Separated(a + [n] + b)
    ensures Union(a + [n] + b) == Union(a + b) + AddressesOf(n)
  {
    InsertBetween(a, b, n);
    AroundSeparated(a, n, b);
    UnionAround(a, [n], b);
    UnionSingle(n);
    UnionAppend(a, b);
  }

  /** A neighbour before: it grows to the end of the network. */
  lemma MergeBefore(a: seq<AddressRange>, x: AddressRange, b: seq<AddressRange>, n: AddressRange)
    requires Around(a, x, b) && Valid(n) && EndsJustBefore(x, n) && StartsAfter(b, Value(n.last))
    ensures Valid(AddressRange(x.first, n.last))
    ensures Insert(Without(a + [x] + b, x), AddressRange(x.first, n.last)) == a + [AddressRange(x.first, n.last)] + b
    ensures Around(a, AddressRange(x.first, n.last), b)
    ensures Union(a + [AddressRange(x.first, n.last)] + b) == Union(a + [x] + b) + AddressesOf(n)
  {
    var m := AddressRange(x.first, n.last);
    WithoutMiddle(a, x, b);
    InsertBetween(a, b, m);
    UnionAround(a, [m], b);
    UnionAround(a, [x], b);
    UnionSingle(m);
    UnionSingle(x);
    IntervalJoin(Value(x.first), Value(x.last), Value(n.last));
  }

  /** A neighbour after: it grows to the start of the network. */
  lemma MergeAfter(a: seq<AddressRange>, y: AddressRange, b: seq<AddressRange>, n: AddressRange)
    requires Around(a, y, b) && Valid(n) && StartsJustAfter(y, n) && EndsBefore(a, Value(n.first))
    ensures Valid(AddressRange(n.first, y.last))
    ensures Insert(Without(a + [y] + b, y), AddressRange(n.first, y.last)) == a + [AddressRange(n.first, y.last)] + b
    ensures Around(a, AddressRange(n.first, y.last), b)
    ensures Union(a + [AddressRange(n.first, y.last)] + b) == Union(a + [y] + b) + AddressesOf(n)
  {
    var m := AddressRange(n.first, y.last);
    WithoutMiddle(a, y, b);
    InsertBetween(a, b, m);
    UnionAround(a, [m], b);
    UnionAround(a, [y], b);
    UnionSingle(m);
    UnionSingle(y);
    IntervalJoin(Value(n.first), Value(n.last), Value(y.last));
  }

  /** Taking both neighbours out of the `TreeSet` leaves the parts around them. */
  lemma WithoutBoth(a: seq<AddressRange>, x: AddressRange, y: AddressRange, b: seq<AddressRange>)
    requires Around(a, x, [y] + b) && Around(a, y, b)
    ensures Without(Without(a + [x] + ([y] + b), x), y) == a + b
  {
    WithoutMiddle(a, x, [y] + b);
    assert a + ([y] + b) == a + [y] + b;
    WithoutMiddle(a, y, b);
  }

  /** The addresses after merging both neighbours with the network. */
  lemma UnionBoth(a: seq<AddressRange>, x: AddressRange, y: AddressRange, b: seq<AddressRange>, m: AddressRange, n: AddressRange)
    requires AddressesOf(m) == AddressesOf(x) + AddressesOf(n) + AddressesOf(y)
    ensures Union(a + [m] + b) == Union(a + [x] + ([y] + b)) + AddressesOf(n)
  {
    UnionAround(a, [m], b);
    UnionAround(a, [x], [y] + b);
    UnionAppend([y], b);
    UnionSingle(m);
    UnionSingle(x);
    UnionSingle(y);
  }

  /** Neighbours on both sides: they become one range over the network. */
  lemma MergeBoth(a: seq<AddressRange>, x: AddressRange, y: AddressRange, b: seq<AddressRange>, n: AddressRange)
    requires Around(a, x, [y] + b) && Around(a, y, b) && Valid(n) && EndsJustBefore(x, n) && StartsJustAfter(y, n)
    ensures Valid(AddressRange(x.first, y.last))
    ensures Insert(Without(Without(a + [x] + ([y] + b), x), y), AddressRange(x.first, y.last))
            == a + [AddressRange(x.first, y.last)] + b
    ensures Around(a, AddressRange(x.first, y.last), b)
    ensures Union(a + [AddressRange(x.first, y.last)] + b) == Union(a + [x] + ([y] + b)) + AddressesOf(n)
  {
    var m := AddressRange(x.first, y.last);
    WithoutBoth(a, x, y, b);
    InsertBetween(a, b, m);
    assert AddressesOf(m) == AddressesOf(x) + AddressesOf(n) + AddressesOf(y) by {
      IntervalJoin(Value(x.first), Value(x.last), Value(n.last));
      IntervalJoin(Value(x.first), Value(n.last), Value(y.last));
    }
    UnionBoth(a, x, y, b, m, n);
  }

  /** Every range of `a` ends before `w` when it ends before a smaller `v`. */
  lemma EndsBeforeLater(a: seq<AddressRange>, v: int, w: int)
    requires EndsBefore(a, v) && v <= w
    ensures EndsBefore(a, w)
  {
  }

  /** Aligned ranges around an aligned range stay aligned. */
  lemma AlignedAround(a: seq<AddressRange>, m: AddressRange, b: seq<AddressRange>, p: nat)
    requires BlockAligned(a, p) && BlockAligned(b, p) && p <= 128 && AlignedRange(m, p)
    ensures BlockAligned(a + [m] + b, p)
  {
    BlockAlignedConcat(a, [m], p);
    BlockAlignedConcat(a + [m], b, p);
  }

  /**
   * What `deAllocate` promises of its new free ranges: the merge succeeds,
   * the ranges stay separated, they cover exactly the old free addresses and
   * those of `n`, and ranges aligned on blocks of the pool's prefix length
   * stay aligned.
   */
  ghost predicate MergedWell(freeRanges: seq<AddressRange>, n: AddressRange, merged: Result<seq<AddressRange>>, p: int)
  {
    merged.Success?
    && Separated(merged.value)
    && Union(merged.value) == Union(freeRanges) + AddressesOf(n)
    && (BlockAligned(freeRanges, p) && AlignedRange(n, p) ==> BlockAligned(merged.value, p))
  }

  /** A range from the start of one aligned range to the end of another is aligned. */
  lemma AlignedJoin(x: AddressRange, y: AddressRange, p: nat)
    requires p <= 128 && AlignedRange(x, p) && AlignedRange(y, p)
    ensures AlignedRange(AddressRange(x.first, y.last), p)
  {
  }

  /** Replacing a slice of aligned ranges by an aligned range keeps them aligned. */
  lemma AlignedSplice(freeRanges: seq<AddressRange>, lo: nat, hi: nat, m: AddressRange, p: nat)
    requires lo <= hi <= |freeRanges| && BlockAligned(freeRanges, p) && AlignedRange(m, p)
    ensures BlockAligned(freeRanges[..lo] + [m] + freeRanges[hi..], p)
  {
    BlockAlignedSlice(freeRanges, 0, lo, p);
    BlockAlignedSlice(freeRanges, hi, |freeRanges|, p);
    assert freeRanges[0..lo] == freeRanges[..lo] && freeRanges[hi..|freeRanges|] == freeRanges[hi..];
    AlignedAround(freeRanges[..lo], m, freeRanges[hi..], p);
  }

  /** `deAllocate` when `n` has no free neighbour. */
  lemma DeAllocateAlone(freeRanges: seq<AddressRange>, n: AddressRange, k: nat, p: int)
    requires Separated(freeRanges) && Valid(n) && k <= |freeRanges|
    requires EndsBefore(freeRanges[..k], Value(n.first)) && StartsAfter(freeRanges[k..], Value(n.last))
    ensures MergedWell(freeRanges, n, MergeRanges(freeRanges, n, None, None), p)
  {
    var a, b := freeRanges[..k], freeRanges[k..];
    assert freeRanges == a + b;
    SeparatedSlice(freeRanges, 0, k);
    SeparatedSlice(freeRanges, k, |freeRanges|);
    assert freeRanges[0..k] == a && freeRanges[k..|freeRanges|] == b;
    MergeNone(a, b, n);
    if BlockAligned(freeRanges, p) && AlignedRange(n, p) {
      AlignedSplice(freeRanges, k, k, n, p);
    }
  }

  /** `deAllocate` when only the free range ordered just before `n`, at `i`, touches it. */
  lemma DeAllocateBefore(freeRanges: seq<AddressRange>, n: AddressRange, i: nat, p: int)
    requires Separated(freeRanges) && Valid(n) && i < |freeRanges|
    requires EndsJustBefore(freeRanges[i], n) && StartsAfter(freeRanges[i + 1..], Value(n.last))
    ensures MergedWell(freeRanges, n, MergeRanges(freeRanges, n, Some(freeRanges[i]), None), p)
  {
    var x := freeRanges[i];
    var a, b := freeRanges[..i], freeRanges[i + 1..];
    var m := AddressRange(x.first, n.last);
    SplitAt(freeRanges, i);
    MergeBefore(a, x, b, n);
    assert MergeRanges(freeRanges, n, Some(x), None) == Success(a + [m] + b);
    AroundSeparated(a, m, b);
    if BlockAligned(freeRanges, p) && AlignedRange(n, p) {
      assert AlignedRange(x, p);
      AlignedJoin(x, n, p);
      AlignedSplice(freeRanges, i, i + 1, m, p);
    }
  }

  /** `deAllocate` when only the free range ordered just after `n` touches it. */
  lemma DeAllocateAfter(freeRanges: seq<AddressRange>, n: AddressRange, k: nat, p: int)
    requires Separated(freeRanges) && Valid(n) && k < |freeRanges|
    requires StartsJustAfter(freeRanges[k], n) && EndsBefore(freeRanges[..k], Value(n.first))
    ensures MergedWell(freeRanges, n, MergeRanges(freeRanges, n, None, Some(freeRanges[k])), p)
  {
    var y := freeRanges[k];
    var a, b := freeRanges[..k], freeRanges[k + 1..];
    var m := AddressRange(n.first, y.last);
    SplitAt(freeRanges, k);
    MergeAfter(a, y, b, n);
    assert MergeRanges(freeRanges, n, None, Some(y)) == Success(a + [m] + b);
    AroundSeparated(a, m, b);
    if BlockAligned(freeRanges, p) && AlignedRange(n, p) {
      assert AlignedRange(y, p);
      AlignedJoin(n, y, p);
      AlignedSplice(freeRanges, k, k + 1, m, p);
    }
  }

  /** The two neighbours of `n` with the ranges around them. */
  lemma AroundBoth(freeRanges: seq<AddressRange>, k: nat)
    requires Separated(freeRanges) && 0 < k < |freeRanges|
    ensures freeRanges == freeRanges[..k - 1] + [freeRanges[k - 1]] + ([freeRanges[k]] + freeRanges[k + 1..])
    ensures Around(freeRanges[..k - 1], freeRanges[k - 1], [freeRanges[k]] + freeRanges[k + 1..])
    ensures Around(freeRanges[..k - 1], freeRanges[k], freeRanges[k + 1..])
  {
    var a, x, y, b := freeRanges[..k - 1], freeRanges[k - 1], freeRanges[k], freeRanges[k + 1..];
    SplitAt(freeRanges, k - 1);
    assert freeRanges[k..] == [y] + b;
    SeparatedSlice(freeRanges, k + 1, |freeRanges|);
    assert freeRanges[k + 1..|freeRanges|] == b;
    EndsBeforeLater(a, Value(x.first), Value(y.first));
  }

  /** `deAllocate` when free ranges touch `n` on both sides. */
  lemma DeAllocateBetween(freeRanges: seq<AddressRange>, n: AddressRange, k: nat, p: int)
    requires Separated(freeRanges) && Valid(n) && 0 < k < |freeRanges|
    requires EndsJustBefore(freeRanges[k - 1], n) && StartsJustAfter(freeRanges[k], n)
    ensures MergedWell(freeRanges, n, MergeRanges(freeRanges, n, Some(freeRanges[k - 1]), Some(freeRanges[k])), p)
  {
    var x, y := freeRanges[k - 1], freeRanges[k];
    var a, b := freeRanges[..k - 1], freeRanges[k + 1..];
    var m := AddressRange(x.first, y.last);
    AroundBoth(freeRanges, k);
    MergeBoth(a, x, y, b, n);
    assert MergeRanges(freeRanges, n, Some(x), Some(y)) == Success(a + [m] + b);
    AroundSeparated(a, m, b);
    if BlockAligned(freeRanges, p) && AlignedRange(n, p) {
      assert AlignedRange(x, p) && AlignedRange(y, p);
      AlignedJoin(x, y, p);
      AlignedSplice(freeRanges, k - 1, k + 1, m, p);
    }
  }

  /**
   * Giving back a network none of whose addresses is free: whatever
   * neighbours the two searches find, the merge succeeds and leaves the
   * free ranges separated, covering the old free addresses and those of
   * the network, and aligned when they were.
   */
  lemma DeAllocatedRanges(freeRanges: seq<AddressRange>, n: AddressRange, p: int)
    requires Separated(freeRanges) && Valid(n) && Union(freeRanges) * AddressesOf(n) == {}
    ensures MergedWell(freeRanges, n, MergeRanges(freeRanges, n, FreeRangeBefore(freeRanges, n), FreeRangeAfter(freeRanges, n)), p)
  {
    var k := NeighbourPlaces(freeRanges, n);
    var before, after := FreeRangeBefore(freeRanges, n), FreeRangeAfter(freeRanges, n);
    if before.None? && after.None? {
      DeAllocateAlone(freeRanges, n, k, p);
    } else if before.Some? && after.Some? {
      assert before == Some(freeRanges[k - 1]) && after == Some(freeRanges[k]);
      DeAllocateBetween(freeRanges, n, k, p);
    } else if before.Some? {
      assert before == Some(freeRanges[k - 1]) && after == None;
      DeAllocateBefore(freeRanges, n, k - 1, p);
    } else {
      assert before == None && after == Some(freeRanges[k]);
      DeAllocateAfter(freeRanges, n, k, p);
    }
  }

  // ---------------------------------------------------------------------
  // deAllocate and isFree

  /**
   * The pool `deAllocate` builds when giving back a network of the pool of
   * which no address is free: the merge succeeds, the private constructor
   * accepts it, and the free addresses gain exactly those of the network.
   */
  lemma DeAllocatedPool(pool: Pool, n: Network)
    requires PoolInvariant(pool) && IsNetwork(n) && PoolContainsRange(pool, n.range)
    requires FreeAddresses(pool) * AddressesOf(n.range) == {}
    ensures var merged := MergeRanges(pool.freeRanges, n.range,
                                      FreeRangeBefore(pool.freeRanges, n.range), FreeRangeAfter(pool.freeRanges, n.range));
            && merged.Success?
            && var made := MakePool(pool.underlyingRange.first, pool.underlyingRange.last, pool.prefixLength, merged.value);
            && made.Success?
            && PoolInvariant(made.value)
            && made.value.underlyingRange == pool.underlyingRange
            && made.value.prefixLength == pool.prefixLength
            && FreeAddresses(made.value) == FreeAddresses(pool) + AddressesOf(n.range)
            && (BlockAligned(pool.freeRanges, pool.prefixLength) && n.prefixLength == pool.prefixLength
                ==> BlockAligned(made.value.freeRanges, pool.prefixLength))
  {
    var rs := pool.freeRanges;
    DeAllocatedRanges(rs, n.range, pool.prefixLength);
    if BlockAligned(rs, pool.prefixLength) && n.prefixLength == pool.prefixLength {
      NetworkAligned(n);
    }
    var merged := MergeRanges(rs, n.range, FreeRangeBefore(rs, n.range), FreeRangeAfter(rs, n.range));
    assert Union(merged.value) <= AddressesOf(pool.underlyingRange) by {
      FreeWithinBounds(pool);
    }
    InsideByUnion(pool.underlyingRange, merged.value);
    MakePoolInvariant(pool.underlyingRange.first, pool.underlyingRange.last, pool.prefixLength, merged.value);
  }

  /**
   * `deAllocate`: throws unless the network lies within the pool; merges it
   * with the free ranges just before and after it, and validates the result
   * with the private constructor.  Giving back a network that is not (at
   * all) free adds exactly its addresses to the free ones.
   */
  method DeAllocate(pool: Pool, toDeAllocate: Network) returns (r: Result<Pool>)
    requires PoolInvariant(pool) && IsNetwork(toDeAllocate)
    ensures !PoolContainsRange(pool, toDeAllocate.range) ==> r == Failure(IllegalArgument)
    ensures PoolContainsRange(pool, toDeAllocate.range) ==>
              var merged := MergeRanges(pool.freeRanges, toDeAllocate.range,
                                        FreeRangeBefore(pool.freeRanges, toDeAllocate.range),
                                        FreeRangeAfter(pool.freeRanges, toDeAllocate.range));
              r == if merged.Failure? then Failure(merged.error)
                   else MakePool(pool.underlyingRange.first, pool.underlyingRange.last, pool.prefixLength, merged.value)
    ensures PoolContainsRange(pool, toDeAllocate.range) && FreeAddresses(pool) * AddressesOf(toDeAllocate.range) == {} ==>
              r.Success?
              && PoolInvariant(r.value)
              && r.value.underlyingRange == pool.underlyingRange
              && r.value.prefixLength == pool.prefixLength
              && FreeAddresses(r.value) == FreeAddresses(pool) + AddressesOf(toDeAllocate.range)
    ensures PoolContainsRange(pool, toDeAllocate.range) && FreeAddresses(pool) * AddressesOf(toDeAllocate.range) == {}
            && BlockAligned(pool.freeRanges, pool.prefixLength) && toDeAllocate.prefixLength == pool.prefixLength ==>
              r.Success? && BlockAligned(r.value.freeRanges, pool.prefixLength)
  {
    if !PoolContainsRange(pool, toDeAllocate.range) {
      return Failure(IllegalArgument);
    }
    var n := toDeAllocate.range;
    var freeRangeBeforeNetwork := FindFreeRangeBefore(pool.freeRanges, n);
    var freeRangeAfterNetwork := FindFreeRangeAfter(pool.freeRanges, n);
    var newFreeRanges := new RangeSet(pool.freeRanges);
    if freeRangeBeforeNetwork.None? && freeRangeAfterNetwork.None? {
      newFreeRanges.Add(n);
    } else if freeRangeBeforeNetwork.Some? && freeRangeAfterNetwork.Some? {
      newFreeRanges.Remove(freeRangeBeforeNetwork.value);
      newFreeRanges.Remove(freeRangeAfterNetwork.value);
      var merged := MakeRange(freeRangeBeforeNetwork.value.first, freeRangeAfterNetwork.value.last);
      // the network lies between the two ranges: the new range cannot be empty
      assert merged.Success?;
      newFreeRanges.Add(merged.value);
    } else if freeRangeBeforeNetwork.Some? {
      newFreeRanges.Remove(freeRangeBeforeNetwork.value);
      var merged := MakeRange(freeRangeBeforeNetwork.value.first, n.last);
      // the range before ends just before the network: the new range cannot be empty
      assert merged.Success?;
      newFreeRanges.Add(merged.value);
    } else {
      newFreeRanges.Remove(freeRangeAfterNetwork.value);
      var merged := MakeRange(n.first, freeRangeAfterNetwork.value.last);
      // the range after starts just after the network: the new range cannot be empty
      assert merged.Success?;
      newFreeRanges.Add(merged.value);
    }
    r := MakePool(pool.underlyingRange.first, pool.underlyingRange.last, pool.prefixLength, newFreeRanges.elements);
    if FreeAddresses(pool) * AddressesOf(n) == {} {
      DeAllocatedPool(pool, toDeAllocate);
    }
  }

  /** For a pool, a network is in one free range exactly when all its addresses are free. */
  lemma FreeMeaning(pool: Pool, network: Network)
    requires PoolInvariant(pool) && IsNetwork(network)
    ensures SomeRangeContains(pool.freeRanges, network.range) <==> AddressesOf(network.range) <= FreeAddresses(pool)
  {
    SomeRangeContainsMeaning(pool.freeRanges, network.range);
  }

  /**
   * `isFree`: throws for a network of another prefix length; otherwise
   * whether one free range contains it, which for the pool's separated free
   * ranges is whether all its addresses are free.
   */
  method IsFree(pool: Pool, network: Network) returns (r: Result<bool>)
    requires PoolInvariant(pool) && IsNetwork(network)
    ensures r.Failure? <==> network.prefixLength != pool.prefixLength
    ensures r.Failure? ==> r.error == IllegalArgument
    ensures r.Success? ==> (r.value <==> SomeRangeContains(pool.freeRanges, network.range))
    ensures r.Success? ==> (r.value <==> AddressesOf(network.range) <= FreeAddresses(pool))
  {
    if network.prefixLength != pool.prefixLength {
      return Failure(IllegalArgument);
    }
    var found := AnyFreeRangeContains(pool.freeRanges, network.range);
    FreeMeaning(pool, network);
    return Success(found);
  }

  /** The loop of `isFree`: is there a free range that contains `n`? */
  method AnyFreeRangeContains(freeRanges: seq<AddressRange>, n: AddressRange) returns (found: bool)
    ensures found <==> SomeRangeContains(freeRanges, n)
  {
    var i := 0;
    while i < |freeRanges|
      invariant 0 <= i <= |freeRanges|
      invariant forall j :: 0 <= j < i ==> !ContainsRange(freeRanges[j], n)
    {
      if ContainsRange(freeRanges[i], n) {
        return true;
      }
      i := i + 1;
    }
    return false;
  }

  // ---------------------------------------------------------------------
  // The neighbour searches as written

  /** The test of `findFreeRangeBefore` as written: `last.add(1)` wraps to `::` after the largest address. */
  predicate EndsJustBeforeAsWritten(freeRange: AddressRange, n: AddressRange)
  {
    Addresses.Equals(Add(freeRange.last, 1), n.first)
  }

  /** The test of `findFreeRangeAfter` as written: `first.subtract(1)` wraps to the largest address below `::`. */
  predicate StartsJustAfterAsWritten(freeRange: AddressRange, n: AddressRange)
  {
    Addresses.Equals(Subtract(freeRange.first, 1), n.last)
  }

  /** `findFreeRangeBefore` as written; away from the wrap it finds what the corrected search finds. */
  function FreeRangeBeforeAsWritten(freeRanges: seq<AddressRange>, n: AddressRange): (r: Option<AddressRange>)
    ensures r.Some? ==> r.value in freeRanges && EndsJustBeforeAsWritten(r.value, n)
    ensures (forall i :: 0 <= i < |freeRanges| ==> Value(freeRanges[i].last) < MaxValue) ==> r == FreeRangeBefore(freeRanges, n)
  {
    if |freeRanges| == 0 then None
    else
      assert Value(freeRanges[0].last) < MaxValue ==> (EndsJustBeforeAsWritten(freeRanges[0], n) <==> EndsJustBefore(freeRanges[0], n)) by {
        if Value(freeRanges[0].last) < MaxValue {
          AsWrittenBeforeAgrees(freeRanges[0], n);
        }
      }
      assert forall i :: 0 < i < |freeRanges| ==> freeRanges[i] == freeRanges[1..][i - 1];
      if EndsJustBeforeAsWritten(freeRanges[0], n) then Some(freeRanges[0])
      else FreeRangeBeforeAsWritten(freeRanges[1..], n)
  }

  /** `findFreeRangeAfter` as written; away from the wrap it finds what the corrected search finds. */
  function FreeRangeAfterAsWritten(freeRanges: seq<AddressRange>, n: AddressRange): (r: Option<AddressRange>)
    ensures r.Some? ==> r.value in freeRanges && StartsJustAfterAsWritten(r.value, n)
    ensures (forall i :: 0 <= i < |freeRanges| ==> Value(freeRanges[i].first) > 0) ==> r == FreeRangeAfter(freeRanges, n)
  {
    if |freeRanges| == 0 then None
    else
      assert Value(freeRanges[0].first) > 0 ==> (StartsJustAfterAsWritten(freeRanges[0], n) <==> StartsJustAfter(freeRanges[0], n)) by {
        if Value(freeRanges[0].first) > 0 {
          AsWrittenAfterAgrees(freeRanges[0], n);
        }
      }
      assert forall i :: 0 < i < |freeRanges| ==> freeRanges[i] == freeRanges[1..][i - 1];
      if StartsJustAfterAsWritten(freeRanges[0], n) then Some(freeRanges[0])
      else FreeRangeAfterAsWritten(freeRanges[1..], n)
  }

  lemma AsWrittenBeforeAgrees(freeRange: AddressRange, n: AddressRange)
    requires Value(freeRange.last) < MaxValue
    ensures EndsJustBeforeAsWritten(freeRange, n) <==> EndsJustBefore(freeRange, n)
  {
    AddOne(freeRange.last);
    CompareToAgreesWithEquals(Add(freeRange.last, 1), n.first);
  }

  lemma AsWrittenAfterAgrees(freeRange: AddressRange, n: AddressRange)
    requires Value(freeRange.first) > 0
    ensures StartsJustAfterAsWritten(freeRange, n) <==> StartsJustAfter(freeRange, n)
  {
    SubtractOne(freeRange.first);
    CompareToAgreesWithEquals(Subtract(freeRange.first, 1), n.last);
  }

  /**
   * The wrap-around in action: in the pool of all addresses with prefix
   * length 128, after `allocate()` has handed out `::`, the only free range
   * is `::1` to the largest address.  Giving `::/128` back, the searches as
   * written find that range both before `::` (its last address plus one
   * wraps to `::`) and after it, and the merge leaves the free ranges as
   * they were: `::` stays allocated.  The corrected searches find it only
   * after `::`, and the merge frees every address.
   */
  lemma DeAllocateWrapsAround()
    ensures var x := AddressRange(Address(0, 1), AllOnes);
            var n := AddressRange(Zero, Zero);
            && FreeRangeBeforeAsWritten([x], n) == Some(x)
            && FreeRangeAfterAsWritten([x], n) == Some(x)
            && MergeRanges([x], n, Some(x), Some(x)) == Success([x])
            && 0 !in Union([x])
            && FreeRangeBefore([x], n) == None
            && FreeRangeAfter([x], n) == Some(x)
            && MergeRanges([x], n, None, Some(x)) == Success([AddressRange(Zero, AllOnes)])
            && Union([AddressRange(Zero, AllOnes)]) == Union([x]) + AddressesOf(n)
  {
    var x := AddressRange(Address(0, 1), AllOnes);
    var n := AddressRange(Zero, Zero);
    AddWrapsAround();
    SubtractOne(x.first);
    ValueInjective(Subtract(x.first, 1), Zero);
    assert EndsJustBeforeAsWritten(x, n) && StartsJustAfterAsWritten(x, n);
    assert !EndsJustBefore(x, n) && StartsJustAfter(x, n);
    UnionSingle(x);
    UnionSingle(AddressRange(Zero, AllOnes));
    IntervalJoin(0, 0, MaxValue);
  }

  /**
   * A pool from `2001::1` to `2001::ffff:ffff` with prefix length 120 is
   * refused: its first address is not the start of a /120 subnet.
   */
  lemma UnalignedStartRejected()
    ensures NewPool(Address(0x2001_0000_0000_0000, 1), Address(0x2001_0000_0000_0000, 0xffff_ffff), 120)
         == Failure(IllegalArgument)
  {
    AlignedBoundsMeaning(Address(0x2001_0000_0000_0000, 1), Address(0x2001_0000_0000_0000, 0xffff_ffff), 120);
    assert Pow2(8) == 256;
  }

  /**
   * Allocating /128 subnets five times from the pool `::1` to `::5` hands
   * out `::1` to `::5` in turn and leaves the pool exhausted.
   */
  method AutoAllocateMultiple128() returns (pool: Pool)
    ensures PoolInvariant(pool) && IsExhausted(pool)
    ensures pool.underlyingRange == AddressRange(Address(0, 1), Address(0, 5)) && pool.prefixLength == 128
  {
    AlignedBoundsMeaning(Address(0, 1), Address(0, 5), 128);
    var made := NewPool(Address(0, 1), Address(0, 5), 128);
    pool := made.value;
    NewPoolAligned(Address(0, 1), Address(0, 5), 128);
    for i := 1 to 6
      invariant PoolInvariant(pool) && BlockAligned(pool.freeRanges, 128)
      invariant pool.underlyingRange == AddressRange(Address(0, 1), Address(0, 5)) && pool.prefixLength == 128
      invariant FreeAddresses(pool) == Interval(i, 5)
    {
      assert i in FreeAddresses(pool);
      ExhaustedMeansNothingFree(pool);
      var r := Allocate(pool);
      var n := FromAddressAndMask(pool.freeRanges[0].first, 128);
      MaskEdges(pool.freeRanges[0].first);
      assert Value(n.range.first) == i;
      assert AddressesOf(n.range) == Interval(i, i);
      pool := r.value.value;
      assert FreeAddresses(pool) == Interval(i + 1, 5);
      var stillFree := IsFree(pool, FromAddressAndMask(Address(0, i), 128));
      MaskEdges(Address(0, i));
      assert stillFree == Success(false);
    }
    assert FreeAddresses(pool) == {};
    ExhaustedMeansNothingFree(pool);
  }
}

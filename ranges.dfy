/**
 * `IPv6AddressRange` of the trunk (`be.jvb`) version: a closed interval
 * `[first, last]` of addresses.  `Addresses` gives the set of 128-bit
 * numbers a range covers; every operation is specified against it.
 */
module Ranges {
  import opened Arith
  import opened JavaLong
  import opened Wrappers
  import opened Addresses

  datatype AddressRange = AddressRange(first: Address, last: Address)

  /** The invariant the constructor establishes: `first <= last`. */
  predicate Valid(r: AddressRange)
  {
    Value(r.first) <= Value(r.last)
  }

  predicate Between(lo: int, x: int, hi: int)
  {
    lo <= x <= hi
  }

  /** The numbers from `lo` to `hi`, both included. */
  ghost function Interval(lo: int, hi: int): set<nat>
  {
    set x: nat | lo <= x <= hi && Between(lo, x, hi)
  }

  /** The addresses of a range, as numbers. */
  ghost function AddressesOf(r: AddressRange): set<nat>
  {
    Interval(Value(r.first), Value(r.last))
  }

  /** All the addresses of a list of ranges. */
  ghost function Union(rs: seq<AddressRange>): set<nat>
  {
    if |rs| == 0 then {} else AddressesOf(rs[0]) + Union(rs[1..])
  }

  lemma UnionOfTwo(x: AddressRange, y: AddressRange)
    ensures Union([x, y]) == AddressesOf(x) + AddressesOf(y)
  {
    assert [x, y][1..] == [y];
    assert [y][1..] == [];
    assert Union([y]) == AddressesOf(y) + Union([]);
  }

  /** The constructor: throws when `first > last`. */
  function MakeRange(first: Address, last: Address): (r: Result<AddressRange>)
    ensures r.Success? <==> Value(first) <= Value(last)
    ensures r.Failure? ==> r.error == IllegalArgument
    ensures r.Success? ==> Valid(r.value) && r.value.first == first && r.value.last == last
  {
    if CompareTo(first, last) > 0 then
      Failure(IllegalArgument)
    else
      Success(AddressRange(first, last))
  }

  /** `contains(address)`. */
  predicate Contains(r: AddressRange, a: Address)
    ensures Contains(r, a) <==> Value(a) in AddressesOf(r)
  {
    CompareTo(r.first, a) <= 0 && CompareTo(r.last, a) >= 0
  }

  /** `contains(range)`: both ends are contained. */
  predicate ContainsRange(r: AddressRange, s: AddressRange)
    ensures Valid(s) ==> (ContainsRange(r, s) <==> AddressesOf(s) <= AddressesOf(r))
  {
    Contains(r, s.first) && Contains(r, s.last)
  }

  /** `overlaps`: one range holds an end of the other. */
  predicate Overlaps(r: AddressRange, s: AddressRange)
  {
    Contains(r, s.first) || Contains(r, s.last) || Contains(s, r.first) || Contains(s, r.last)
  }

  /** Two ranges overlap exactly when they share an address, whichever comes first. */
  lemma OverlapsShared(r: AddressRange, s: AddressRange)
    requires Valid(r) && Valid(s)
    ensures Overlaps(r, s) <==> AddressesOf(r) * AddressesOf(s) != {}
    ensures Overlaps(r, s) == Overlaps(s, r)
  {
    if AddressesOf(r) * AddressesOf(s) != {} {
      var v :| v in AddressesOf(r) * AddressesOf(s);
      if Value(r.first) <= Value(s.first) {
        assert Value(s.first) in AddressesOf(r);
      } else {
        assert Value(r.first) in AddressesOf(s);
      }
    }
    if Overlaps(r, s) {
      if Contains(r, s.first) {
        assert Value(s.first) in AddressesOf(r) * AddressesOf(s);
      } else if Contains(r, s.last) {
        assert Value(s.last) in AddressesOf(r) * AddressesOf(s);
      } else {
        assert Value(r.first) in AddressesOf(r) * AddressesOf(s);
      }
    }
  }

  /** `a + 1` below the largest address is the next number. */
  lemma AddOne(a: Address)
    requires Value(a) < MaxValue
    ensures Value(Add(a, 1)) == Value(a) + 1
  {
    DivModUnique(Value(a) + 1, W128, 0, Value(a) + 1);
  }

  /** `a - 1` above `::` is the previous number. */
  lemma SubtractOne(a: Address)
    requires Value(a) > 0
    ensures Value(Subtract(a, 1)) == Value(a) - 1
  {
    DivModUnique(Value(a) - 1, W128, 0, Value(a) - 1);
  }

  /** Taking `[a, b]` out of `[lo, hi]` leaves the two intervals on either side. */
  lemma IntervalRemove(lo: int, a: int, b: int, hi: int)
    requires lo <= a <= b <= hi
    ensures Interval(lo, hi) - Interval(a, b) == Interval(lo, a - 1) + Interval(b + 1, hi)
    ensures Interval(lo, a - 1) * Interval(b + 1, hi) == {}
  {
  }

  lemma IntervalPoint(v: nat)
    ensures Interval(v, v) == {v}
  {
  }

  /**
   * `remove(address)`: the range itself when the address is outside, no
   * range when it was the only address, otherwise the one or two ranges
   * around it.
   */
  function RemoveAddress(r: AddressRange, a: Address): (rs: seq<AddressRange>)
    requires Valid(r)
    ensures |rs| <= 2
    ensures forall i :: 0 <= i < |rs| ==> Valid(rs[i])
    ensures !Contains(r, a) ==> rs == [r]
    ensures Union(rs) == AddressesOf(r) - {Value(a)}
    ensures |rs| == 2 ==> Value(rs[0].last) + 1 < Value(rs[1].first)
  {
    var p := AddressRange(a, a);
    assert AddressesOf(p) == {Value(a)} by {
      IntervalPoint(Value(a));
    }
    if !Contains(r, a) then
      assert AddressesOf(r) - {Value(a)} == AddressesOf(r);
      [r]
    else if Equals(a, r.first) && Equals(a, r.last) then
      assert AddressesOf(r) == {Value(a)};
      []
    else if Equals(a, r.first) then
      HeadPiece(r, p);
      [AddressRange(Add(r.first, 1), r.last)]
    else if Equals(a, r.last) then
      TailPiece(r, p);
      [AddressRange(r.first, Subtract(r.last, 1))]
    else
      MiddlePieces(r, p);
      [AddressRange(r.first, Subtract(a, 1)), AddressRange(Add(a, 1), r.last)]
  }

  /** What is left of `r` after removing its head `n`. */
  lemma HeadPiece(r: AddressRange, n: AddressRange)
    requires Valid(n) && r.first == n.first && Value(n.last) < Value(r.last)
    ensures Valid(AddressRange(Add(n.last, 1), r.last))
    ensures Union([AddressRange(Add(n.last, 1), r.last)]) == AddressesOf(r) - AddressesOf(n)
    ensures Value(r.first) < Value(Add(n.last, 1))
  {
    AddOne(n.last);
    IntervalRemove(Value(r.first), Value(n.first), Value(n.last), Value(r.last));
  }

  /** What is left of `r` after removing its tail `n`. */
  lemma TailPiece(r: AddressRange, n: AddressRange)
    requires Valid(n) && r.last == n.last && Value(r.first) < Value(n.first)
    ensures Valid(AddressRange(r.first, Subtract(n.first, 1)))
    ensures Union([AddressRange(r.first, Subtract(n.first, 1))]) == AddressesOf(r) - AddressesOf(n)
    ensures Value(Subtract(n.first, 1)) < Value(r.last)
  {
    SubtractOne(n.first);
    IntervalRemove(Value(r.first), Value(n.first), Value(n.last), Value(r.last));
  }

  /** What is left of `r` after removing `n` strictly inside it. */
  lemma MiddlePieces(r: AddressRange, n: AddressRange)
    requires Valid(n) && Value(r.first) < Value(n.first) && Value(n.last) < Value(r.last)
    ensures Valid(AddressRange(r.first, Subtract(n.first, 1)))
    ensures Valid(AddressRange(Add(n.last, 1), r.last))
    ensures Union([AddressRange(r.first, Subtract(n.first, 1)), AddressRange(Add(n.last, 1), r.last)])
         == AddressesOf(r) - AddressesOf(n)
    ensures Value(Subtract(n.first, 1)) + 1 < Value(Add(n.last, 1))
    ensures Value(r.first) <= Value(Subtract(n.first, 1)) && Value(Add(n.last, 1)) <= Value(r.last)
  {
    SubtractOne(n.first);
    AddOne(n.last);
    IntervalRemove(Value(r.first), Value(n.first), Value(n.last), Value(r.last));
    UnionOfTwo(AddressRange(r.first, Subtract(n.first, 1)), AddressRange(Add(n.last, 1), r.last));
  }

  /**
   * `extend(address)`: the range grown at its head or its tail just far
   * enough to hold the address.
   */
  function Extend(r: AddressRange, a: Address): (e: AddressRange)
    requires Valid(r)
    ensures Valid(e) && ContainsRange(e, r) && Contains(e, a)
    ensures Contains(r, a) ==> e == r
    ensures AddressesOf(e) == Interval(Min(Value(a), Value(r.first)), Max(Value(a), Value(r.last)))
  {
    if CompareTo(a, r.first) < 0 then
      AddressRange(a, r.last)
    else if CompareTo(a, r.last) > 0 then
      AddressRange(r.first, a)
    else
      r
  }

  function Min(x: int, y: int): int
  {
    if x <= y then x else y
  }

  function Max(x: int, y: int): int
  {
    if x >= y then x else y
  }

  /** No range smaller than the extension holds both the range and the address. */
  lemma ExtendSmallest(r: AddressRange, a: Address, s: AddressRange)
    requires Valid(r) && Valid(s)
    requires ContainsRange(s, r) && Contains(s, a)
    ensures ContainsRange(s, Extend(r, a))
  {
  }

  /**
   * `remove(network)`: only the network's two ends are read, so any range
   * inside this one can be removed.  A network that is not inside has no
   * effect.
   */
  function RemoveRange(r: AddressRange, n: AddressRange): (rs: seq<AddressRange>)
    requires Valid(r) && Valid(n)
    ensures |rs| <= 2
    ensures forall i :: 0 <= i < |rs| ==> Valid(rs[i])
    ensures !ContainsRange(r, n) ==> rs == [r]
    ensures ContainsRange(r, n) ==> Union(rs) == AddressesOf(r) - AddressesOf(n)
    ensures |rs| == 2 ==> Value(rs[0].last) + 1 < Value(rs[1].first)
    ensures forall i :: 0 <= i < |rs| ==> Value(r.first) <= Value(rs[i].first) && Value(rs[i].last) <= Value(r.last)
  {
    if !ContainsRange(r, n) then
      [r]
    else if r == n then
      []
    else if Equals(r.first, n.first) then
      HeadPiece(r, n);
      [AddressRange(Add(n.last, 1), r.last)]
    else if Equals(r.last, n.last) then
      TailPiece(r, n);
      [AddressRange(r.first, Subtract(n.first, 1))]
    else
      MiddlePieces(r, n);
      [AddressRange(r.first, Subtract(n.first, 1)), AddressRange(Add(n.last, 1), r.last)]
  }

  /**
   * The remainders of `remove` start where `r` starts or just after `n`,
   * and end where `r` ends or just before `n`.
   */
  lemma RemoveRangeEnds(r: AddressRange, n: AddressRange)
    requires Valid(r) && Valid(n) && ContainsRange(r, n)
    ensures forall i :: 0 <= i < |RemoveRange(r, n)| ==>
              (RemoveRange(r, n)[i].first == r.first || Value(RemoveRange(r, n)[i].first) == Value(n.last) + 1)
              && (RemoveRange(r, n)[i].last == r.last || Value(RemoveRange(r, n)[i].last) + 1 == Value(n.first))
  {
    CompareToAgreesWithEquals(r.first, n.first);
    CompareToAgreesWithEquals(r.last, n.last);
    if r != n {
      if Value(n.last) < Value(r.last) {
        AddOne(n.last);
      }
      if Value(r.first) < Value(n.first) {
        SubtractOne(n.first);
      }
    }
  }

  /** `equals`: same first and same last address. */
  predicate RangeEquals(r: AddressRange, s: AddressRange)
  {
    Equals(r.first, s.first) && Equals(r.last, s.last)
  }

  /** `compareTo` as intended: by `first`, then by `last`, both by value. */
  function RangeCompareTo(r: AddressRange, s: AddressRange): (c: int)
    ensures c == -1 || c == 0 || c == 1
    ensures c == 0 <==> r == s
    ensures c < 0 <==> Value(r.first) < Value(s.first)
                       || (Value(r.first) == Value(s.first) && Value(r.last) < Value(s.last))
  {
    CompareToAgreesWithEquals(r.first, s.first);
    CompareToAgreesWithEquals(r.last, s.last);
    if !Equals(r.first, s.first) then
      CompareTo(r.first, s.first)
    else
      CompareTo(r.last, s.last)
  }

  /** The order is antisymmetric and agrees with `equals`. */
  lemma RangeCompareToConsistent(r: AddressRange, s: AddressRange)
    ensures RangeCompareTo(r, s) == -RangeCompareTo(s, r)
    ensures RangeCompareTo(r, s) == 0 <==> RangeEquals(r, s)
  {
    CompareToAgreesWithEquals(r.first, s.first);
    CompareToAgreesWithEquals(r.last, s.last);
  }

  /** The order is transitive. */
  lemma RangeCompareToTransitive(r: AddressRange, s: AddressRange, t: AddressRange)
    requires RangeCompareTo(r, s) < 0 && RangeCompareTo(s, t) < 0
    ensures RangeCompareTo(r, t) < 0
  {
  }

  /**
   * `compareTo` as written: `this.first != that.first` compares object
   * identities.  `sameFirst` says whether both ranges hold the very same
   * `first` object, which implies equal values.
   */
  function RangeCompareToAsWritten(r: AddressRange, s: AddressRange, sameFirst: bool): (c: int)
    requires sameFirst ==> r.first == s.first
    ensures sameFirst ==> c == RangeCompareTo(r, s)
    ensures c == 0 <==> Value(r.first) == Value(s.first) && (sameFirst ==> Value(r.last) == Value(s.last))
  {
    CompareToAgreesWithEquals(r.first, s.first);
    if !sameFirst then
      CompareTo(r.first, s.first)
    else
      CompareTo(r.last, s.last)
  }

  /** Two distinct `first` objects of equal value make different ranges compare as equal. */
  lemma RangeCompareToAsWrittenIgnoresLast()
    ensures RangeCompareToAsWritten(AddressRange(Address(0, 1), Address(0, 2)),
                                    AddressRange(Address(0, 1), Address(0, 3)), false) == 0
    ensures RangeCompareTo(AddressRange(Address(0, 1), Address(0, 2)),
                           AddressRange(Address(0, 1), Address(0, 3))) == -1
  {
  }
  // ---------------------------------------------------------------------
  // Iteration

  /**
   * `Ipv6AddressRangeIterator` as written: `hasNext()` tests the current
   * address against `last`, and `next()` first advances the current
   * address and then returns it.
   */
  class RangeIterator {
    var current: Address
    const last: Address

    constructor (r: AddressRange)
      ensures current == r.first && last == r.last
    {
      current := r.first;
      last := r.last;
    }

    predicate HasNext()
      reads this
    {
      CompareTo(current, last) <= 0
    }

    method Next() returns (r: Result<Address>)
      modifies this
      ensures old(HasNext()) ==> current == Add(old(current), 1) && r == Success(current)
      ensures !old(HasNext()) ==> current == old(current) && r == Failure(NoSuchElement)
    {
      if HasNext() {
        current := Add(current, 1);
        return Success(current);
      } else {
        return Failure(NoSuchElement);
      }
    }
  }

  /**
   * Running the iterator as written to the end: it yields `first + 1`
   * up to `last + 1`, never `first`.
   */
  method IterateAsWritten(r: AddressRange) returns (xs: seq<Address>)
    requires Valid(r) && Value(r.last) < MaxValue
    ensures |xs| == Value(r.last) - Value(r.first) + 1
    ensures forall i :: 0 <= i < |xs| ==> Value(xs[i]) == Value(r.first) + i + 1
  {
    var it := new RangeIterator(r);
    xs := [];
    while it.HasNext()
      invariant it.last == r.last
      invariant Value(r.first) <= Value(it.current) <= Value(r.last) + 1
      invariant |xs| == Value(it.current) - Value(r.first)
      invariant forall i :: 0 <= i < |xs| ==> Value(xs[i]) == Value(r.first) + i + 1
      decreases Value(r.last) + 1 - Value(it.current)
    {
      AddOne(it.current);
      var x := it.Next();
      xs := xs + [x.value];
    }
  }

  /** With `last` all ones, `hasNext()` holds in every state, and `next()` wraps to `::`. */
  lemma IteratorAsWrittenNeverEnds(current: Address)
    ensures CompareTo(current, AllOnes) <= 0
    ensures current == AllOnes ==> Add(current, 1) == Zero
  {
    AddWrapsAround();
  }

  /**
   * The iterator as intended: `next()` returns the current address and
   * then moves on, and stops after `last` without computing `last + 1`.
   */
  class AddressIterator {
    var current: Address
    var exhausted: bool
    const last: Address

    constructor (r: AddressRange)
      ensures current == r.first && !exhausted && last == r.last
    {
      current := r.first;
      exhausted := false;
      last := r.last;
    }

    predicate HasNext()
      reads this
    {
      !exhausted
    }

    method Next() returns (r: Result<Address>)
      modifies this
      ensures old(exhausted) ==> r == Failure(NoSuchElement) && exhausted && current == old(current)
      ensures !old(exhausted) ==> r == Success(old(current)) && (exhausted <==> old(current) == last)
      ensures !old(exhausted) && !exhausted ==> current == Add(old(current), 1)
    {
      if exhausted {
        return Failure(NoSuchElement);
      }
      r := Success(current);
      if Equals(current, last) {
        exhausted := true;
      } else {
        current := Add(current, 1);
      }
    }
  }

  /** Running the intended iterator to the end yields every address of the range once, in order. */
  method Iterate(r: AddressRange) returns (xs: seq<Address>)
    requires Valid(r)
    ensures |xs| == Value(r.last) - Value(r.first) + 1
    ensures forall i :: 0 <= i < |xs| ==> Value(xs[i]) == Value(r.first) + i
  {
    var it := new AddressIterator(r);
    xs := [];
    while it.HasNext()
      invariant it.last == r.last
      invariant !it.exhausted ==> Value(r.first) <= Value(it.current) <= Value(r.last)
      invariant !it.exhausted ==> |xs| == Value(it.current) - Value(r.first)
      invariant it.exhausted ==> |xs| == Value(r.last) - Value(r.first) + 1
      invariant forall i :: 0 <= i < |xs| ==> Value(xs[i]) == Value(r.first) + i
      decreases if it.exhausted then 0 else Value(r.last) + 1 - Value(it.current)
    {
      CompareToAgreesWithEquals(it.current, r.last);
      if Value(it.current) < Value(r.last) {
        AddOne(it.current);
      }
      var x := it.Next();
      xs := xs + [x.value];
    }
  }
}

/**
 * The `TreeSet<IPv6AddressRange>` an address pool keeps its free ranges in,
 * as a sequence sorted by first address.  `Without`, `Insert` and
 * `InsertAll` are `remove`, `add` and `addAll`; `SplitIndex` is where
 * `headSet` ends and `tailSet` begins.
 */
module RangeSets {
  import opened Arith
  import opened Addresses
  import opened Ranges

  /**
   * Valid ranges in increasing order with at least one address between
   * neighbours: no two free ranges touch, as the pool's coalescing keeps them.
   */
  predicate Separated(rs: seq<AddressRange>)
  {
    (forall i :: 0 <= i < |rs| ==> Valid(rs[i]))
    && (forall i, j :: 0 <= i < j < |rs| ==> Value(rs[i].last) + 1 < Value(rs[j].first))
  }

  /** The two adjacent intervals `[lo, mid]` and `[mid + 1, hi]` make up `[lo, hi]`. */
  lemma IntervalJoin(lo: int, mid: int, hi: int)
    requires lo <= mid + 1 && mid <= hi
    ensures Interval(lo, mid) + Interval(mid + 1, hi) == Interval(lo, hi)
  {
  }

  // ---------------------------------------------------------------------
  // The union of a sequence of ranges

  lemma {:induction false} UnionAppend(a: seq<AddressRange>, b: seq<AddressRange>)
    ensures Union(a + b) == Union(a) + Union(b)
  {
    if |a| > 0 {
      assert (a + b)[1..] == a[1..] + b;
      UnionAppend(a[1..], b);
    } else {
      assert a + b == b;
    }
  }

  lemma UnionSingle(x: AddressRange)
    ensures Union([x]) == AddressesOf(x)
  {
    assert [x][1..] == [];
  }

  /** A number is covered exactly when one of the ranges covers it. */
  lemma {:induction false} UnionMembers(rs: seq<AddressRange>, v: nat)
    ensures v in Union(rs) <==> exists i :: 0 <= i < |rs| && v in AddressesOf(rs[i])
  {
    if |rs| > 0 {
      UnionMembers(rs[1..], v);
      if v in Union(rs[1..]) {
        var i :| 0 <= i < |rs[1..]| && v in AddressesOf(rs[1..][i]);
        assert rs[i + 1] == rs[1..][i];
      }
      if exists i :: 0 <= i < |rs| && v in AddressesOf(rs[i]) {
        var i :| 0 <= i < |rs| && v in AddressesOf(rs[i]);
        if i > 0 {
          assert rs[1..][i - 1] == rs[i];
        }
      }
    }
  }

  /** Every number covered by ranges that all end before `v` is below `v`. */
  lemma {:induction false} UnionBelow(rs: seq<AddressRange>, v: int)
    requires forall i :: 0 <= i < |rs| ==> Value(rs[i].last) < v
    ensures forall x :: x in Union(rs) ==> x < v
  {
    if |rs| > 0 {
      assert forall i :: 0 <= i < |rs[1..]| ==> rs[1..][i] == rs[i + 1];
      UnionBelow(rs[1..], v);
    }
  }

  /** Every number covered by ranges that all start after `v` is above `v`. */
  lemma {:induction false} UnionAbove(rs: seq<AddressRange>, v: int)
    requires forall i :: 0 <= i < |rs| ==> v < Value(rs[i].first)
    ensures forall x :: x in Union(rs) ==> v < x
  {
    if |rs| > 0 {
      assert forall i :: 0 <= i < |rs[1..]| ==> rs[1..][i] == rs[i + 1];
      UnionAbove(rs[1..], v);
    }
  }

  /** The union of `a + [x] + b`. */
  lemma UnionAround(a: seq<AddressRange>, x: seq<AddressRange>, b: seq<AddressRange>)
    ensures Union(a + x + b) == Union(a) + Union(x) + Union(b)
  {
    UnionAppend(a + x, b);
    UnionAppend(a, x);
  }

  // ---------------------------------------------------------------------
  // remove

  /** `TreeSet.remove(x)`: every element except `x`, order kept. */
  function Without(rs: seq<AddressRange>, x: AddressRange): (r: seq<AddressRange>)
    ensures |r| <= |rs|
    ensures x !in rs ==> r == rs
    ensures forall y :: y in r <==> y in rs && y != x
  {
    if |rs| == 0 then []
    else if rs[0] == x then Without(rs[1..], x)
    else [rs[0]] + Without(rs[1..], x)
  }

  /** Removing an element that occurs only at `i` cuts it out. */
  lemma {:induction false} WithoutAt(rs: seq<AddressRange>, i: nat)
    requires i < |rs|
    requires forall j :: 0 <= j < |rs| && j != i ==> rs[j] != rs[i]
    ensures Without(rs, rs[i]) == rs[..i] + rs[i + 1..]
  {
    if i == 0 {
      assert rs[0] !in rs[1..] by {
        forall j | 0 <= j < |rs[1..]|
          ensures rs[1..][j] != rs[0]
        {
          assert rs[1..][j] == rs[j + 1];
        }
      }
    } else {
      assert rs[1..][i - 1] == rs[i];
      forall j | 0 <= j < |rs[1..]| && j != i - 1
        ensures rs[1..][j] != rs[1..][i - 1]
      {
        assert rs[1..][j] == rs[j + 1];
      }
      WithoutAt(rs[1..], i - 1);
      assert rs[..i] == [rs[0]] + rs[1..][..i - 1];
      assert rs[i + 1..] == rs[1..][i..];
    }
  }

  /** The elements of a separated sequence are distinct. */
  lemma SeparatedDistinct(rs: seq<AddressRange>, i: nat)
    requires Separated(rs) && i < |rs|
    ensures forall j :: 0 <= j < |rs| && j != i ==> rs[j] != rs[i]
  {
  }

  /** A slice of a separated sequence is separated. */
  lemma SeparatedSlice(rs: seq<AddressRange>, lo: nat, hi: nat)
    requires Separated(rs) && lo <= hi <= |rs|
    ensures Separated(rs[lo..hi])
  {
    assert forall k :: 0 <= k < hi - lo ==> rs[lo..hi][k] == rs[lo + k];
  }

  /** Three separated sequences, each ending before the next begins, make a separated one. */
  lemma SeparatedAround(a: seq<AddressRange>, x: seq<AddressRange>, b: seq<AddressRange>)
    requires Separated(a) && Separated(x) && Separated(b)
    requires forall i, k :: 0 <= i < |a| && 0 <= k < |x| ==> Value(a[i].last) + 1 < Value(x[k].first)
    requires forall k, j :: 0 <= k < |x| && 0 <= j < |b| ==> Value(x[k].last) + 1 < Value(b[j].first)
    requires forall i, j :: 0 <= i < |a| && 0 <= j < |b| ==> Value(a[i].last) + 1 < Value(b[j].first)
    ensures Separated(a + x + b)
  {
    var s := a + x + b;
    forall p | 0 <= p < |s|
      ensures s[p] == if p < |a| then a[p] else if p < |a| + |x| then x[p - |a|] else b[p - |a| - |x|]
    {
    }
  }

  // ---------------------------------------------------------------------
  // add and addAll

  /** `TreeSet.add(x)`: `x` in its place in the order, unless an equal range is there already. */
  function Insert(rs: seq<AddressRange>, x: AddressRange): (r: seq<AddressRange>)
    ensures |r| <= |rs| + 1
    ensures forall y :: y in r <==> y in rs || y == x
  {
    if |rs| == 0 then [x]
    else if RangeCompareTo(x, rs[0]) < 0 then [x] + rs
    else if RangeCompareTo(x, rs[0]) == 0 then rs
    else [rs[0]] + Insert(rs[1..], x)
  }

  /** A range that starts after everything in `a` and before everything in `b` goes between them. */
  lemma {:induction false} InsertBetween(a: seq<AddressRange>, b: seq<AddressRange>, x: AddressRange)
    requires forall i :: 0 <= i < |a| ==> Value(a[i].first) < Value(x.first)
    requires forall j :: 0 <= j < |b| ==> Value(x.first) < Value(b[j].first)
    ensures Insert(a + b, x) == a + [x] + b
  {
    if |a| == 0 {
      assert a + b == b;
      if |b| > 0 {
        assert RangeCompareTo(x, b[0]) < 0;
      }
    } else {
      var c := a + b;
      assert Insert(a[1..] + b, x) == a[1..] + [x] + b by {
        assert forall i :: 0 <= i < |a[1..]| ==> a[1..][i] == a[i + 1];
        InsertBetween(a[1..], b, x);
      }
      assert Insert(c, x) == [a[0]] + Insert(a[1..] + b, x) by {
        assert c[0] == a[0] && c[1..] == a[1..] + b;
        assert RangeCompareTo(x, a[0]) > 0;
      }
      assert a + [x] + b == [a[0]] + (a[1..] + [x] + b);
    }
  }

  /** `TreeSet.addAll(xs)`: the elements of `xs` added one after the other. */
  function InsertAll(rs: seq<AddressRange>, xs: seq<AddressRange>): (r: seq<AddressRange>)
    ensures |r| <= |rs| + |xs|
    ensures forall y :: y in r <==> y in rs || y in xs
    decreases |xs|
  {
    if |xs| == 0 then rs else InsertAll(Insert(rs, xs[0]), xs[1..])
  }

  /** Ranges in increasing order that fit between `a` and `b` go between them, in order. */
  lemma {:induction false} InsertAllBetween(a: seq<AddressRange>, b: seq<AddressRange>, xs: seq<AddressRange>)
    requires forall i, k :: 0 <= i < |a| && 0 <= k < |xs| ==> Value(a[i].first) < Value(xs[k].first)
    requires forall j, k :: 0 <= j < |b| && 0 <= k < |xs| ==> Value(xs[k].first) < Value(b[j].first)
    requires forall k, l :: 0 <= k < l < |xs| ==> Value(xs[k].first) < Value(xs[l].first)
    ensures InsertAll(a + b, xs) == a + xs + b
    decreases |xs|
  {
    if |xs| > 0 {
      var a' := a + [xs[0]];
      InsertAllStep(a, b, xs);
      calc {
        InsertAll(a + b, xs);
        InsertAll(Insert(a + b, xs[0]), xs[1..]);
        { InsertBetween(a, b, xs[0]); }
        InsertAll(a' + b, xs[1..]);
        { InsertAllBetween(a', b, xs[1..]); }
        a' + xs[1..] + b;
        a + xs + b;
      }
    }
  }

  /** The ranges still to insert fit between the ranges with the first one added and `b`. */
  lemma InsertAllStep(a: seq<AddressRange>, b: seq<AddressRange>, xs: seq<AddressRange>)
    requires |xs| > 0
    requires forall i, k :: 0 <= i < |a| && 0 <= k < |xs| ==> Value(a[i].first) < Value(xs[k].first)
    requires forall j, k :: 0 <= j < |b| && 0 <= k < |xs| ==> Value(xs[k].first) < Value(b[j].first)
    requires forall k, l :: 0 <= k < l < |xs| ==> Value(xs[k].first) < Value(xs[l].first)
    ensures forall i :: 0 <= i < |a| ==> Value(a[i].first) < Value(xs[0].first)
    ensures forall j :: 0 <= j < |b| ==> Value(xs[0].first) < Value(b[j].first)
    ensures forall i, k :: 0 <= i < |a + [xs[0]]| && 0 <= k < |xs[1..]| ==> Value((a + [xs[0]])[i].first) < Value(xs[1..][k].first)
    ensures forall j, k :: 0 <= j < |b| && 0 <= k < |xs[1..]| ==> Value(xs[1..][k].first) < Value(b[j].first)
    ensures forall k, l :: 0 <= k < l < |xs[1..]| ==> Value(xs[1..][k].first) < Value(xs[1..][l].first)
  {
    assert forall k :: 0 <= k < |xs[1..]| ==> xs[1..][k] == xs[k + 1];
    assert forall i :: 0 <= i < |a + [xs[0]]| ==> (a + [xs[0]])[i] == if i < |a| then a[i] else xs[0];
  }

  // ---------------------------------------------------------------------
  // headSet and tailSet

  /**
   * `headSet(x)` is `rs[..k]` and `tailSet(x)` is `rs[k..]`: the ranges
   * ordered before `x` form a prefix of the sorted sequence.
   */
  function SplitIndex(rs: seq<AddressRange>, x: AddressRange): (k: nat)
    requires Separated(rs)
    ensures k <= |rs|
    ensures forall i :: 0 <= i < k ==> RangeCompareTo(rs[i], x) < 0
    ensures forall i :: k <= i < |rs| ==> RangeCompareTo(rs[i], x) >= 0
    decreases |rs|
  {
    if |rs| == 0 || RangeCompareTo(rs[|rs| - 1], x) < 0 then
      |rs|
    else
      assert Separated(rs[..|rs| - 1]);
      SplitIndex(rs[..|rs| - 1], x)
  }

  // ---------------------------------------------------------------------
  // The TreeSet object

  /** The mutable `TreeSet` `doAllocate` and `deAllocate` build the new free ranges in. */
  class RangeSet {
    var elements: seq<AddressRange>

    /** `new TreeSet<IPv6AddressRange>(freeRanges)` */
    constructor (rs: seq<AddressRange>)
      ensures elements == rs
    {
      elements := rs;
    }

    method Remove(x: AddressRange)
      modifies this
      ensures elements == Without(old(elements), x)
    {
      elements := Without(elements, x);
    }

    method Add(x: AddressRange)
      modifies this
      ensures elements == Insert(old(elements), x)
    {
      elements := Insert(elements, x);
    }

    method AddAll(xs: seq<AddressRange>)
      modifies this
      ensures elements == InsertAll(old(elements), xs)
    {
      var i := 0;
      while i < |xs|
        invariant 0 <= i <= |xs|
        invariant InsertAll(elements, xs[i..]) == InsertAll(old(elements), xs)
      {
        assert xs[i..][1..] == xs[i + 1..];
        Add(xs[i]);
        i := i + 1;
      }
      assert xs[i..] == [];
    }
  }
}

/**
 * `IPv6NetworkHelpers`: the length of the longest common prefix of two
 * addresses, counted on their bit sets from index 127 down to the first
 * index where they differ.
 */
module NetworkHelpers {
  import opened Arith
  import opened JavaLong
  import opened Addresses
  import opened BitSets

  /** How many of the indices `n - 1, n - 2, ...` the two sets agree on before the first difference. */
  function SimilarFrom(a: set<int>, b: set<int>, n: nat): (r: nat)
    ensures r <= n
    ensures forall j :: n - r <= j < n ==> (j in a <==> j in b)
    ensures r < n ==> ((n - 1 - r in a) != (n - 1 - r in b))
  {
    if n == 0 then 0
    else if (n - 1 in a) == (n - 1 in b) then 1 + SimilarFrom(a, b, n - 1)
    else 0
  }

  /** How many of the bits `n - 1, n - 2, ...` of `x` and `y` agree before the first difference. */
  function CommonPrefix(x: nat, y: nat, n: nat): (r: nat)
    ensures r <= n
    ensures forall j :: n - r <= j < n ==> TestBit(x, j) == TestBit(y, j)
    ensures r < n ==> TestBit(x, n - 1 - r) != TestBit(y, n - 1 - r)
  {
    if n == 0 then 0
    else if TestBit(x, n - 1) == TestBit(y, n - 1) then 1 + CommonPrefix(x, y, n - 1)
    else 0
  }

  /** `countLeadingSimilarBits`: the loop from index 127 down while both sets agree. */
  method CountLeadingSimilarBits(a: BitSet, b: BitSet) returns (result: int)
    ensures result == SimilarFrom(a.bits, b.bits, 128)
  {
    result := 0;
    var i := 127;
    while i >= 0 && a.Get(i) == b.Get(i)
      invariant -1 <= i <= 127 && result == 127 - i
      invariant SimilarFrom(a.bits, b.bits, 128) == result + SimilarFrom(a.bits, b.bits, i + 1)
      decreases i + 1
    {
      result := result + 1;
      i := i - 1;
    }
  }

  /** On the bit sets of two numbers, the set comparison is the bit comparison. */
  lemma {:induction false} SimilarBits(a: set<int>, b: set<int>, x: nat, y: nat, n: nat)
    requires forall j :: 0 <= j < n ==> (j in a <==> TestBit(x, j))
    requires forall j :: 0 <= j < n ==> (j in b <==> TestBit(y, j))
    ensures SimilarFrom(a, b, n) == CommonPrefix(x, y, n)
  {
    if n > 0 {
      SimilarBits(a, b, x, y, n - 1);
    }
  }

  /** `longestPrefixLength` of the trunk version, over `bitSetOf`. */
  method LongestPrefixLength(first: Address, last: Address) returns (r: int)
    ensures r == CommonPrefix(Value(first), Value(last), 128)
  {
    var firstBits := BitSetOf(first.low, first.high);
    var lastBits := BitSetOf(last.low, last.high);
    r := CountLeadingSimilarBits(firstBits, lastBits);
    BitSetOfAddress(first);
    BitSetOfAddress(last);
    SimilarBits(firstBits.bits, lastBits.bits, Value(first), Value(last), 128);
  }

  /** `longestPrefixLength` of the other versions, over `BitSet.valueOf`. */
  method LongestPrefixLengthValueOf(first: Address, last: Address) returns (r: int)
    ensures r == CommonPrefix(Value(first), Value(last), 128)
  {
    var firstBits := ValueOf(first.low, first.high);
    var lastBits := ValueOf(last.low, last.high);
    r := CountLeadingSimilarBits(firstBits, lastBits);
    BitSetOfAddress(first);
    BitSetOfAddress(last);
    SimilarBits(firstBits.bits, lastBits.bits, Value(first), Value(last), 128);
  }

  /** The common prefix does not depend on the order of the arguments. */
  lemma {:induction false} CommonPrefixSymmetric(x: nat, y: nat, n: nat)
    ensures CommonPrefix(x, y, n) == CommonPrefix(y, x, n)
  {
    if n > 0 {
      CommonPrefixSymmetric(x, y, n - 1);
    }
  }

  /**
   * Two addresses agree on their top `r` bits, `r` the common prefix, and
   * the prefix is the whole address exactly when they are equal.
   */
  lemma CommonPrefixOfAddresses(a: Address, b: Address)
    ensures Value(a) / Pow2(128 - CommonPrefix(Value(a), Value(b), 128))
         == Value(b) / Pow2(128 - CommonPrefix(Value(a), Value(b), 128))
    ensures CommonPrefix(Value(a), Value(b), 128) == 128 <==> a == b
  {
    var r := CommonPrefix(Value(a), Value(b), 128);
    Pow2Of128();
    HighBitsAgree(Value(a), Value(b), 128 - r, 128);
    if r == 128 {
      assert Pow2(0) == 1;
      ValueInjective(a, b);
    }
  }

  /** Nothing at or above bit `k` is set in a number below `2^k`. */
  lemma HighBitsClear(x: nat, k: nat, i: nat)
    requires x < Pow2(k) && k <= i
    ensures !TestBit(x, i)
  {
    Pow2Mono(k, i);
    DivModUnique(x, Pow2(i), 0, x);
  }

  /**
   * The common prefix is `r` when the numbers agree above bit `127 - r`
   * (equal quotients by `2^(128 - r)`) and differ at that bit.
   */
  lemma CommonPrefixFromQuotients(x: nat, y: nat, r: nat)
    requires r < 128 && x < Pow2(128) && y < Pow2(128)
    requires x / Pow2(128 - r) == y / Pow2(128 - r)
    requires TestBit(x, 127 - r) != TestBit(y, 127 - r)
    ensures CommonPrefix(x, y, 128) == r
  {
    HighBitsAgree(x, y, 128 - r, 128);
  }

  /** `::1` and `::2` share a /126 prefix, as the trunk tests expect. */
  lemma CommonPrefixExample()
    ensures CommonPrefix(1, 2, 128) == 126
  {
    var r := CommonPrefix(1, 2, 128);
    assert Pow2(1) == 2 && Pow2(2) == 4;
    if r < 126 {
      HighBitsClear(1, 1, 127 - r);
      HighBitsClear(2, 2, 127 - r);
    } else if r > 126 {
      assert TestBit(2, 1);
      HighBitsClear(1, 1, 1);
    }
  }
}

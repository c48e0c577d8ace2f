/** The order `InitServices` puts the records in: the priority comparison and the sort. */
module Ordering {
  import opened Services
  import opened Registry

  /** C#'s unchecked 32-bit arithmetic: the value of `x` modulo 2^32, read as a signed `int`. */
  function Wrap32(x: int): (r: int32)
    ensures -0x8000_0000 <= x < 0x8000_0000 ==> r as int == x
    ensures (r as int - x) % 0x1_0000_0000 == 0
  {
    ((x + 0x8000_0000) % 0x1_0000_0000 - 0x8000_0000) as int32
  }

  /** The comparison handed to `List.Sort`, `(a, b) => a.Item1 - b.Item1`, as written: the
      difference of the two priorities in unchecked 32-bit arithmetic. */
  function SubtractCompare(a: int32, b: int32): (r: int32)
    ensures -0x8000_0000 <= a as int - b as int < 0x8000_0000 ==> r as int == a as int - b as int
    ensures (r as int - (a as int - b as int)) % 0x1_0000_0000 == 0
  {
    Wrap32(a as int - b as int)
  }

  /** What that comparison is meant to say: negative, zero or positive as priority `a` is
      below, equal to or above priority `b`. */
  function ComparePriority(a: int32, b: int32): (r: int)
    ensures r < 0 <==> a < b
    ensures r == 0 <==> a == b
    ensures r > 0 <==> b < a
  {
    if a < b then -1 else if a == b then 0 else 1
  }

  /** When the two priorities are less than 2^31 apart the subtraction does not wrap, and the
      comparison as written agrees in sign with the intended one. */
  lemma SubtractCompareAgreesWithinRange(a: int32, b: int32)
    requires -0x8000_0000 <= a as int - b as int < 0x8000_0000
    ensures SubtractCompare(a, b) as int == a as int - b as int
    ensures SubtractCompare(a, b) < 0 <==> ComparePriority(a, b) < 0
    ensures SubtractCompare(a, b) == 0 <==> ComparePriority(a, b) == 0
  {
  }

  /** Farther apart the subtraction wraps: the comparison as written puts the lowest priority
      above 1, although it is below 1 ... */
  lemma SubtractCompareMisorders()
    ensures ComparePriority(-0x8000_0000, 1) < 0
    ensures SubtractCompare(-0x8000_0000, 1) > 0
  {
  }

  /** ... and is not even transitive: it ranks the lowest priority below 0 and 0 below 1, yet
      the lowest priority above 1. A sort given such a comparison has no order to produce. */
  lemma SubtractCompareNotTransitive()
    ensures SubtractCompare(-0x8000_0000, 0) < 0
    ensures SubtractCompare(0, 1) < 0
    ensures SubtractCompare(-0x8000_0000, 1) > 0
  {
  }

  /** The intended comparison is a total preorder, so sorting by it is well defined. */
  lemma ComparePriorityIsTotalPreorder(a: int32, b: int32, c: int32)
    ensures ComparePriority(a, a) == 0
    ensures ComparePriority(a, b) <= 0 || ComparePriority(b, a) <= 0
    ensures ComparePriority(a, b) <= 0 && ComparePriority(b, c) <= 0 ==> ComparePriority(a, c) <= 0
  {
  }

  /** Inserts `e` into a list sorted by priority, after the records whose priority does not
      exceed its own. */
  method InsertByPriority(sorted: seq<Entry>, e: Entry) returns (r: seq<Entry>)
    requires SortedByPriority(sorted)
    ensures SortedByPriority(r)
    ensures multiset(r) == multiset(sorted) + multiset{e}
  {
    var j := 0;
    while j < |sorted| && ComparePriority(sorted[j].priority, e.priority) <= 0
      invariant 0 <= j <= |sorted|
      invariant forall k :: 0 <= k < j ==> sorted[k].priority <= e.priority
    {
      j := j + 1;
    }
    assert forall k :: j <= k < |sorted| ==> e.priority <= sorted[k].priority by {
      if j < |sorted| {
        assert e.priority < sorted[j].priority;
      }
    }
    r := sorted[..j] + [e] + sorted[j..];
    InsertKeepsSorted(sorted, j, e);
    InsertAddsOne(sorted, j, e);
  }

  lemma InsertKeepsSorted(sorted: seq<Entry>, j: nat, e: Entry)
    requires SortedByPriority(sorted) && j <= |sorted|
    requires forall k :: 0 <= k < j ==> sorted[k].priority <= e.priority
    requires forall k :: j <= k < |sorted| ==> e.priority <= sorted[k].priority
    ensures SortedByPriority(sorted[..j] + [e] + sorted[j..])
  {
    var r := sorted[..j] + [e] + sorted[j..];
    assert forall k :: 0 <= k < |r| ==> r[k] == if k < j then sorted[k] else if k == j then e else sorted[k - 1];
  }

  lemma InsertAddsOne<T>(xs: seq<T>, j: nat, x: T)
    requires j <= |xs|
    ensures multiset(xs[..j] + [x] + xs[j..]) == multiset(xs) + multiset{x}
  {
    assert xs == xs[..j] + xs[j..];
  }

  /** Sorts the records by priority. Stands in for `List.Sort`, which promises a sorted
      permutation and nothing about the order of records of equal priority. */
  method SortByPriority(entries: seq<Entry>) returns (sorted: seq<Entry>)
    ensures SortedByPriority(sorted)
    ensures multiset(sorted) == multiset(entries)
  {
    sorted := [];
    for i := 0 to |entries|
      invariant SortedByPriority(sorted)
      invariant multiset(sorted) == multiset(entries[..i])
    {
      sorted := InsertByPriority(sorted, entries[i]);
      assert entries[..i + 1] == entries[..i] + [entries[i]];
    }
    assert entries[..|entries|] == entries;
  }
}

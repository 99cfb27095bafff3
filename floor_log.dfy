/**
 The check log of a floor tracker is a sequence of floor numbers in insertion order,
 duplicates retained. This module gives the meaning of the LINQ queries every version
 of the tracker runs over that sequence: `Distinct`, `Distinct().OrderBy(x => x)`,
 `Except`, `Enumerable.Range`, `GroupBy(...).OrderByDescending(Count).FirstOrDefault()` and
 `LastOrDefault`, together with the facts the trackers rely on.
 */
module FloorLog {

  /** No value occurs twice. */
  predicate NoDuplicates(s: seq<int>) {
    forall i, j :: 0 <= i < j < |s| ==> s[i] != s[j]
  }

  /** Strictly increasing, hence also free of duplicates. */
  predicate StrictlyAscending(s: seq<int>) {
    forall i, j :: 0 <= i < j < |s| ==> s[i] < s[j]
  }

  /** The set of floors that occur in `s`. */
  function Elements(s: seq<int>): set<int> {
    set x | x in s
  }

  /** How many times floor `x` was checked. */
  function Occurrences(s: seq<int>, x: int): (n: nat)
    ensures n <= |s|
    ensures n == 0 <==> x !in s
  {
    if s == [] then 0
    else (if s[0] == x then 1 else 0) + Occurrences(s[1..], x)
  }

  /** The position at which `x` was checked for the first time. */
  function FirstIndex(s: seq<int>, x: int): (k: nat)
    requires x in s
    ensures k < |s| && s[k] == x && x !in s[..k]
  {
    if s[0] == x then 0
    else
      var k := FirstIndex(s[1..], x);
      assert s[..k + 1] == [s[0]] + s[1..][..k];
      k + 1
  }

  /** The last element of `s` (`s` without it is `s[..|s| - 1]`). */
  lemma SplitLast(s: seq<int>)
    requires s != []
    ensures s == s[..|s| - 1] + [s[|s| - 1]]
  {
  }

  /**
   `Distinct()`: every floor once, in the order of its first occurrence. This is also the
   order of the groups that `GroupBy` produces.
   */
  function Distinct(s: seq<int>): (r: seq<int>)
    ensures NoDuplicates(r)
    ensures forall x :: x in r <==> x in s
    ensures forall i, j :: 0 <= i < j < |r| ==> FirstIndex(s, r[i]) < FirstIndex(s, r[j])
  {
    if s == [] then []
    else
      var init, x := s[..|s| - 1], s[|s| - 1];
      var d := Distinct(init);
      SplitLast(s);
      FirstIndexOfPrefix(init, x);
      if x in d then d else d + [x]
  }

  /** Appending a value does not move the first occurrence of a value already present. */
  lemma FirstIndexOfPrefix(init: seq<int>, x: int)
    ensures forall y :: y in init ==> FirstIndex(init + [x], y) == FirstIndex(init, y)
    ensures x !in init ==> FirstIndex(init + [x], x) == |init|
  {
    forall y | y in init
      ensures FirstIndex(init + [x], y) == FirstIndex(init, y)
    {
      var k := FirstIndex(init, y);
      FirstIndexIsFirst(init + [x], y, k);
    }
    if x !in init {
      FirstIndexIsFirst(init + [x], x, |init|);
    }
  }

  /** A position holding `x` with no `x` before it is the first index of `x`. */
  lemma FirstIndexIsFirst(s: seq<int>, x: int, k: nat)
    requires k < |s| && s[k] == x && x !in s[..k]
    ensures FirstIndex(s, x) == k
  {
  }

  /** Inserts `x` into an ascending sequence unless it is already present. */
  function Insert(s: seq<int>, x: int): (r: seq<int>)
    requires StrictlyAscending(s)
    ensures StrictlyAscending(r)
    ensures forall y :: y in r <==> y in s || y == x
    ensures |r| == if x in s then |s| else |s| + 1
  {
    if s == [] then [x]
    else if x < s[0] then
      assert forall y :: y in s ==> x < y;
      [x] + s
    else if x == s[0] then s
    else
      var t := Insert(s[1..], x);
      assert forall j :: 0 <= j < |t| ==> t[j] in t;
      assert forall y :: y in s[1..] ==> s[0] < y;
      [s[0]] + t
  }

  /** `Distinct().OrderBy(x => x)`: the floors of `s`, each once, in ascending order. */
  function DistinctAscending(s: seq<int>): (r: seq<int>)
    ensures StrictlyAscending(r)
    ensures forall x :: x in r <==> x in s
    ensures |r| <= |s|
  {
    if s == [] then []
    else
      SplitLast(s);
      Insert(DistinctAscending(s[..|s| - 1]), s[|s| - 1])
  }

  /**
   Any ascending sequence without duplicates is determined by its elements: so
   `DistinctAscending` is the only possible ascending distinct view of a log.
   */
  lemma {:induction false} AscendingIsDeterminedByElements(a: seq<int>, b: seq<int>)
    requires StrictlyAscending(a) && StrictlyAscending(b)
    requires forall x :: x in a <==> x in b
    ensures a == b
  {
    SameElementsSameLength(a, b);
    if a != [] {
      AscendingHeadsAgree(a, b);
      AscendingTailsAgree(a, b);
      AscendingIsDeterminedByElements(a[1..], b[1..]);
      assert a == [a[0]] + a[1..] && b == [b[0]] + b[1..];
    }
  }

  /** Two non-empty ascending sequences with the same elements start with their least one. */
  lemma AscendingHeadsAgree(a: seq<int>, b: seq<int>)
    requires StrictlyAscending(a) && StrictlyAscending(b)
    requires forall x :: x in a <==> x in b
    requires a != [] && b != []
    ensures a[0] == b[0]
  {
    assert a[0] in a && b[0] in b;
    var i :| 0 <= i < |b| && b[i] == a[0];
    var j :| 0 <= j < |a| && a[j] == b[0];
    assert b[0] <= b[i] && a[0] <= a[j];
  }

  /** After a common least element, the rests of two ascending sequences have the same elements. */
  lemma AscendingTailsAgree(a: seq<int>, b: seq<int>)
    requires StrictlyAscending(a) && StrictlyAscending(b)
    requires forall x :: x in a <==> x in b
    requires a != [] && b != [] && a[0] == b[0]
    ensures StrictlyAscending(a[1..]) && StrictlyAscending(b[1..])
    ensures forall x :: x in a[1..] <==> x in b[1..]
  {
    forall x | x in a[1..]
      ensures x in b[1..]
    {
      var i :| 1 <= i < |a| && a[i] == x;
      assert x in a;
      var k :| 0 <= k < |b| && b[k] == x;
      assert a[0] < x;
      assert k != 0;
      assert b[1..][k - 1] == x;
    }
    forall x | x in b[1..]
      ensures x in a[1..]
    {
      var i :| 1 <= i < |b| && b[i] == x;
      assert x in b;
      var k :| 0 <= k < |a| && a[k] == x;
      assert b[0] < x;
      assert k != 0;
      assert a[1..][k - 1] == x;
    }
  }

  /** A sequence without duplicates has as many elements as its length. */
  lemma {:induction false} DistinctCardinality(s: seq<int>)
    requires NoDuplicates(s)
    ensures |Elements(s)| == |s|
  {
    if s != [] {
      DistinctCardinality(s[1..]);
      assert Elements(s) == {s[0]} + Elements(s[1..]);
      assert s[0] !in Elements(s[1..]);
    }
  }

  /** Two duplicate-free sequences with the same elements have the same length. */
  lemma SameElementsSameLength(a: seq<int>, b: seq<int>)
    requires NoDuplicates(a) && NoDuplicates(b)
    requires forall x :: x in a <==> x in b
    ensures |a| == |b|
  {
    DistinctCardinality(a);
    DistinctCardinality(b);
    assert Elements(a) == Elements(b);
  }

  /**
   `Distinct().Count()` and the length of `Distinct().OrderBy(x => x)` agree: both are the
   number of distinct floors in the log.
   */
  lemma {:induction false} UniqueCountIsDistinctLength(s: seq<int>)
    ensures |Distinct(s)| == |DistinctAscending(s)| == |Elements(s)|
    ensures |Distinct(s)| <= |s|
  {
    var d, a := Distinct(s), DistinctAscending(s);
    DistinctCardinality(d);
    assert Elements(d) == Elements(s);
    SameElementsSameLength(d, a);
  }

  /** `Enumerable.Range(start, count)`: `count` consecutive integers starting at `start`. */
  function Range(start: int, count: nat): (r: seq<int>)
    ensures |r| == count
    ensures StrictlyAscending(r)
    ensures forall x :: x in r <==> start <= x < start + count
    ensures forall i :: 0 <= i < count ==> r[i] == start + i
  {
    var r := seq(count, i requires 0 <= i < count => start + i);
    ConsecutiveMembers(r, start);
    r
  }

  /** The members of a run of consecutive integers are the integers between its ends. */
  lemma ConsecutiveMembers(r: seq<int>, start: int)
    requires forall i :: 0 <= i < |r| ==> r[i] == start + i
    ensures forall x :: x in r <==> start <= x < start + |r|
  {
    forall x | start <= x < start + |r|
      ensures x in r
    {
      assert r[x - start] == x;
    }
  }

  /** Extending a range by one appends the next integer. */
  lemma RangeSnoc(start: int, count: nat)
    ensures Range(start, count + 1) == Range(start, count) + [start + count]
  {
  }

  /**
   `xs.Except(ys)`: the distinct elements of `xs` that are not in `ys`, in the order of
   their first occurrence in `xs`.
   */
  function Except(xs: seq<int>, ys: seq<int>): (r: seq<int>)
    ensures NoDuplicates(r)
    ensures forall x :: x in r <==> x in xs && x !in ys
  {
    if xs == [] then []
    else
      var init, x := xs[..|xs| - 1], xs[|xs| - 1];
      SplitLast(xs);
      var r := Except(init, ys);
      if x in ys || x in r then r else r + [x]
  }

  /** `Except` keeps the relative order of what it keeps: an ascending input stays ascending. */
  lemma {:induction false} ExceptKeepsAscending(xs: seq<int>, ys: seq<int>)
    requires StrictlyAscending(xs)
    ensures StrictlyAscending(Except(xs, ys))
  {
    if xs != [] {
      var init, x := xs[..|xs| - 1], xs[|xs| - 1];
      SplitLast(xs);
      ExceptKeepsAscending(init, ys);
      var r := Except(init, ys);
      assert forall y :: y in init ==> y < x;
      assert forall i :: 0 <= i < |r| ==> r[i] in r;
    }
  }

  /**
   The checked and the unchecked floors partition the floor range: when every logged
   floor lies in `[lo, lo + count)`, each floor of the range is in exactly one of
   `DistinctAscending(log)` and `Range(lo, count).Except(log)`, and nothing else is in
   either, so their lengths add up to the size of the range.
   */
  lemma {:induction false} CheckedAndUncheckedPartition(lo: int, count: nat, log: seq<int>, seen: seq<int>)
    requires forall x :: x in seen <==> x in log
    ensures (forall x :: x in log ==> lo <= x < lo + count) ==>
      forall x :: lo <= x < lo + count <==> x in DistinctAscending(log) || x in Except(Range(lo, count), seen)
    ensures forall x :: !(x in DistinctAscending(log) && x in Except(Range(lo, count), seen))
    ensures (forall x :: x in log ==> lo <= x < lo + count) ==>
      |DistinctAscending(log)| + |Except(Range(lo, count), seen)| == count
  {
    var checked, unchecked, all := DistinctAscending(log), Except(Range(lo, count), seen), Range(lo, count);
    if forall x :: x in log ==> lo <= x < lo + count {
      DistinctCardinality(checked);
      DistinctCardinality(unchecked);
      DistinctCardinality(all);
      assert Elements(checked) + Elements(unchecked) == Elements(all);
    }
    assert Elements(checked) * Elements(unchecked) == {};
  }

  /**
   `FirstOrDefault` after a stable `OrderByDescending` on the counts: the first position
   whose count is maximal.
   */
  function FirstMaximum(counts: seq<nat>): (k: nat)
    requires counts != []
    ensures k < |counts|
    ensures forall j :: 0 <= j < |counts| ==> counts[j] <= counts[k]
    ensures forall j :: 0 <= j < k ==> counts[j] < counts[k]
  {
    if |counts| == 1 then 0
    else
      var k := FirstMaximum(counts[1..]);
      if counts[0] >= counts[k + 1] then 0 else k + 1
  }

  /**
   `GroupBy(f => f).OrderByDescending(g => g.Count()).Select(g => g.Key).FirstOrDefault()`:
   0 for an empty log; otherwise a floor checked most often and, among the floors checked
   equally often, the one checked first.
   */
  function MostChecked(s: seq<int>): (r: int)
    ensures s == [] ==> r == 0
    ensures s != [] ==> r in s
    ensures forall x :: x in s ==> Occurrences(s, x) <= Occurrences(s, r)
    ensures forall x :: x in s && Occurrences(s, x) == Occurrences(s, r) ==> FirstIndex(s, r) <= FirstIndex(s, x)
  {
    if s == [] then 0
    else
      var keys := Distinct(s);
      assert s[0] in keys;
      var k := FirstMaximum(GroupCounts(s, keys));
      FirstLargestGroup(s, keys, k);
      keys[k]
  }

  /** The size of the group of each key. */
  function GroupCounts(s: seq<int>, keys: seq<int>): (counts: seq<nat>)
    ensures |counts| == |keys|
    ensures forall i :: 0 <= i < |keys| ==> counts[i] == Occurrences(s, keys[i])
  {
    seq(|keys|, i requires 0 <= i < |keys| => Occurrences(s, keys[i]))
  }

  /**
   The key of the first largest group, in the group order of `GroupBy`, is a floor checked
   most often and, among those, the one checked first.
   */
  lemma FirstLargestGroup(s: seq<int>, keys: seq<int>, k: nat)
    requires keys == Distinct(s) && k < |keys|
    requires forall j :: 0 <= j < |keys| ==> GroupCounts(s, keys)[j] <= GroupCounts(s, keys)[k]
    requires forall j :: 0 <= j < k ==> GroupCounts(s, keys)[j] < GroupCounts(s, keys)[k]
    ensures keys[k] in s
    ensures forall x :: x in s ==> Occurrences(s, x) <= Occurrences(s, keys[k])
    ensures forall x :: x in s && Occurrences(s, x) == Occurrences(s, keys[k]) ==> FirstIndex(s, keys[k]) <= FirstIndex(s, x)
  {
    var counts := GroupCounts(s, keys);
    forall x | x in s
      ensures Occurrences(s, x) <= Occurrences(s, keys[k])
      ensures Occurrences(s, x) == Occurrences(s, keys[k]) ==> FirstIndex(s, keys[k]) <= FirstIndex(s, x)
    {
      var j :| 0 <= j < |keys| && keys[j] == x;
      assert counts[j] == Occurrences(s, x);
      if Occurrences(s, x) == Occurrences(s, keys[k]) && j != k {
        assert k < j;
      }
    }
  }

  /**
   The two properties of `MostChecked` pin its value down: any floor of the log that is
   checked most often and first among those is the one it returns.
   */
  lemma MostCheckedIsUnique(s: seq<int>, f: int)
    requires f in s
    requires forall x :: x in s ==> Occurrences(s, x) <= Occurrences(s, f)
    requires forall x :: x in s && Occurrences(s, x) == Occurrences(s, f) ==> FirstIndex(s, f) <= FirstIndex(s, x)
    ensures MostChecked(s) == f
  {
    var m := MostChecked(s);
    assert Occurrences(s, m) == Occurrences(s, f);
    assert FirstIndex(s, m) == FirstIndex(s, f);
  }

  /** `LastOrDefault()`: the most recently logged floor, or 0 for an empty log. */
  function LastOrDefault(s: seq<int>): (f: int)
    ensures s == [] ==> f == 0
    ensures s != [] ==> f in s
  {
    if s == [] then 0 else s[|s| - 1]
  }

  /** The last checked floor is the one appended last, duplicates included. */
  lemma LastAfterAppend(s: seq<int>, f: int)
    ensures LastOrDefault(s + [f]) == f
  {
  }
}

/** Day 1: two columns of location ids; the answer is the total distance
    between the columns once both are sorted. */
module Day01 {
  import opened Common

  /** The pairs carried by the lines the line pattern matched, in order. */
  function Matched(lines: seq<Option<(nat, nat)>>): seq<(nat, nat)> {
    if lines == [] then []
    else (if lines[0].Some? then [lines[0].value] else []) + Matched(lines[1..])
  }

  /** The two columns: one entry each per matching line; a line that does
      not match the pattern contributes to neither. */
  function Columns(lines: seq<Option<(nat, nat)>>): (r: (seq<nat>, seq<nat>))
    ensures |r.0| == |r.1| == |Matched(lines)|
    ensures forall i :: 0 <= i < |r.0| ==> (r.0[i], r.1[i]) == Matched(lines)[i]
  {
    if lines == [] then ([], [])
    else
      var rest := Columns(lines[1..]);
      if lines[0].Some? then ([lines[0].value.0] + rest.0, [lines[0].value.1] + rest.1)
      else rest
  }

  predicate Sorted(s: seq<nat>) {
    forall i, j :: 0 <= i < j < |s| ==> s[i] <= s[j]
  }

  function Insert(v: nat, s: seq<nat>): (r: seq<nat>)
    requires Sorted(s)
    ensures Sorted(r)
    ensures multiset(r) == multiset(s) + multiset{v}
    ensures |r| == |s| + 1
  {
    if s == [] || v <= s[0] then [v] + s
    else
      var t := Insert(v, s[1..]);
      HeadBelow(s, v, t);
      ConsSorted(s[0], t);
      assert s == [s[0]] + s[1..];
      [s[0]] + t
  }

  /** The smallest element of a sorted sequence stays below whatever the
      rest, with a larger value added, is rearranged into. */
  lemma HeadBelow(s: seq<nat>, v: nat, t: seq<nat>)
    requires Sorted(s) && s != [] && s[0] < v
    requires multiset(t) == multiset(s[1..]) + multiset{v}
    ensures forall k :: 0 <= k < |t| ==> s[0] <= t[k]
  {
    forall k | 0 <= k < |t|
      ensures s[0] <= t[k]
    {
      assert t[k] in multiset(t);
      if t[k] != v {
        assert t[k] in multiset(s[1..]);
        var m :| 0 <= m < |s[1..]| && s[1..][m] == t[k];
        assert s[1 + m] == t[k];
      }
    }
  }

  lemma ConsSorted(x: nat, t: seq<nat>)
    requires Sorted(t) && forall k :: 0 <= k < |t| ==> x <= t[k]
    ensures Sorted([x] + t)
  {
    var r := [x] + t;
    forall i, j | 0 <= i < j < |r|
      ensures r[i] <= r[j]
    {
      assert r[j] == t[j - 1];
      if i > 0 {
        assert r[i] == t[i - 1];
      }
    }
  }

  /** `Vec::sort`: an ascending permutation of the input. */
  function Sort(s: seq<nat>): (r: seq<nat>)
    ensures Sorted(r)
    ensures multiset(r) == multiset(s)
    ensures |r| == |s|
  {
    if s == [] then []
    else
      assert s == [s[0]] + s[1..];
      Insert(s[0], Sort(s[1..]))
  }

  /** Σᵢ |a[i] − b[i]| over the common indices. */
  function SumOfDifferences(a: seq<nat>, b: seq<nat>): nat
    requires |a| == |b|
  {
    if a == [] then 0 else AbsDiff(a[0], b[0]) + SumOfDifferences(a[1..], b[1..])
  }

  function PartOne(left: seq<nat>, right: seq<nat>): nat
    requires |left| == |right|
  {
    SumOfDifferences(Sort(left), Sort(right))
  }

  /** There is only one sorted arrangement of a multiset. */
  lemma {:induction false} SortedUnique(a: seq<nat>, b: seq<nat>)
    requires Sorted(a) && Sorted(b) && multiset(a) == multiset(b)
    ensures a == b
    decreases |a|
  {
    assert |a| == |multiset(a)| == |multiset(b)| == |b|;
    if a != [] {
      SameFirst(a, b);
      TailMultiset(a);
      TailMultiset(b);
      SortedUnique(a[1..], b[1..]);
      assert a == [a[0]] + a[1..];
      assert b == [b[0]] + b[1..];
    }
  }

  /** Two sorted arrangements of one multiset start with the same,
      smallest, element. */
  lemma SameFirst(a: seq<nat>, b: seq<nat>)
    requires Sorted(a) && Sorted(b) && multiset(a) == multiset(b) && a != [] && b != []
    ensures a[0] == b[0]
  {
    assert a[0] in multiset(b);
    assert b[0] in multiset(a);
    var i :| 0 <= i < |b| && b[i] == a[0];
    var j :| 0 <= j < |a| && a[j] == b[0];
    assert b[0] <= b[i] && a[0] <= a[j];
  }

  lemma TailMultiset(a: seq<nat>)
    requires a != []
    ensures multiset(a[1..]) == multiset(a) - multiset{a[0]}
  {
    assert a == [a[0]] + a[1..];
  }

  lemma {:induction false} SortOfPermutation(a: seq<nat>, b: seq<nat>)
    requires multiset(a) == multiset(b)
    ensures Sort(a) == Sort(b)
  {
    SortedUnique(Sort(a), Sort(b));
  }

  /** The answer does not depend on the order of either column. */
  lemma PermutationInvariant(l1: seq<nat>, l2: seq<nat>, r1: seq<nat>, r2: seq<nat>)
    requires |l1| == |r1| && multiset(l1) == multiset(l2) && multiset(r1) == multiset(r2)
    ensures |l2| == |r2| && PartOne(l1, r1) == PartOne(l2, r2)
  {
    assert |l1| == |multiset(l1)| == |l2|;
    assert |r1| == |multiset(r1)| == |r2|;
    SortOfPermutation(l1, l2);
    SortOfPermutation(r1, r2);
  }

  lemma {:induction false} SumOfDifferencesSymmetric(a: seq<nat>, b: seq<nat>)
    requires |a| == |b|
    ensures SumOfDifferences(a, b) == SumOfDifferences(b, a)
  {
    if a != [] {
      SumOfDifferencesSymmetric(a[1..], b[1..]);
    }
  }

  /** Swapping the two columns gives the same answer. */
  lemma ColumnsSymmetric(left: seq<nat>, right: seq<nat>)
    requires |left| == |right|
    ensures PartOne(left, right) == PartOne(right, left)
  {
    SumOfDifferencesSymmetric(Sort(left), Sort(right));
  }

  lemma {:induction false} SumOfDifferencesSelf(a: seq<nat>)
    ensures SumOfDifferences(a, a) == 0
  {
    if a != [] {
      SumOfDifferencesSelf(a[1..]);
    }
  }

  /** Two columns holding the same numbers are at distance zero. */
  lemma SameNumbersZero(left: seq<nat>, right: seq<nat>)
    requires multiset(left) == multiset(right)
    ensures |left| == |right| && PartOne(left, right) == 0
  {
    assert |left| == |multiset(left)| == |right|;
    SortOfPermutation(left, right);
    SumOfDifferencesSelf(Sort(left));
  }

  /** The converse: a total distance of zero means the two columns hold
      the same numbers, in whatever order. */
  lemma {:induction false} ZeroOnlyForSameNumbers(left: seq<nat>, right: seq<nat>)
    requires |left| == |right| && PartOne(left, right) == 0
    ensures multiset(left) == multiset(right)
  {
    ZeroMeansEqual(Sort(left), Sort(right));
  }

  lemma {:induction false} ZeroMeansEqual(a: seq<nat>, b: seq<nat>)
    requires |a| == |b| && SumOfDifferences(a, b) == 0
    ensures a == b
  {
    if a != [] {
      ZeroMeansEqual(a[1..], b[1..]);
      assert a == [a[0]] + a[1..];
      assert b == [b[0]] + b[1..];
    }
  }
}

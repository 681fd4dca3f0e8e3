/** Day 7: can a line's numbers, combined left to right with `+` and `*`,
    reach its target? */
module Day07 {

  /** `recursive_explore`: prune once the running value passes the target. */
  function Explore(target: nat, current: nat, remaining: seq<nat>): bool
    decreases |remaining|
  {
    if current > target then false
    else if |remaining| > 0 then
      Explore(target, current + remaining[0], remaining[1..])
        || Explore(target, current * remaining[0], remaining[1..])
    else current == target
  }

  /** The reference: every value a left-to-right choice of operators yields. */
  ghost function Values(current: nat, rest: seq<nat>): set<nat>
    decreases |rest|
  {
    if rest == [] then {current}
    else Values(current + rest[0], rest[1..]) + Values(current * rest[0], rest[1..])
  }

  ghost predicate Positive(s: seq<nat>) {
    forall i :: 0 <= i < |s| ==> s[i] >= 1
  }

  /** With positive numbers neither operator decreases the running value. */
  lemma {:induction false} ValuesAtLeast(current: nat, rest: seq<nat>, v: nat)
    requires Positive(rest) && v in Values(current, rest)
    ensures v >= current
    decreases |rest|
  {
    if rest != [] {
      var x := rest[0];
      assert Positive(rest[1..]);
      assert current * x >= current by {
        assert current * x == current * (x - 1) + current;
      }
      if v in Values(current + x, rest[1..]) {
        ValuesAtLeast(current + x, rest[1..], v);
      } else {
        ValuesAtLeast(current * x, rest[1..], v);
      }
    }
  }

  /** Whatever the numbers, a successful search found a real combination. */
  lemma {:induction false} ExploreSound(target: nat, current: nat, remaining: seq<nat>)
    requires Explore(target, current, remaining)
    ensures target in Values(current, remaining)
    decreases |remaining|
  {
    if remaining != [] {
      if Explore(target, current + remaining[0], remaining[1..]) {
        ExploreSound(target, current + remaining[0], remaining[1..]);
      } else {
        ExploreSound(target, current * remaining[0], remaining[1..]);
      }
    }
  }

  /** With positive numbers, the pruning loses nothing. */
  lemma {:induction false} ExploreComplete(target: nat, current: nat, remaining: seq<nat>)
    requires Positive(remaining) && target in Values(current, remaining)
    ensures Explore(target, current, remaining)
    decreases |remaining|
  {
    ValuesAtLeast(current, remaining, target);
    if remaining != [] {
      var x := remaining[0];
      assert Positive(remaining[1..]);
      if target in Values(current + x, remaining[1..]) {
        ExploreComplete(target, current + x, remaining[1..]);
      } else {
        ExploreComplete(target, current * x, remaining[1..]);
      }
    }
  }

  /** The search decides exactly whether the target is reachable. */
  lemma {:induction false} ExploreMeans(target: nat, current: nat, remaining: seq<nat>)
    requires Positive(remaining)
    ensures Explore(target, current, remaining) <==> target in Values(current, remaining)
  {
    if Explore(target, current, remaining) {
      ExploreSound(target, current, remaining);
    } else if target in Values(current, remaining) {
      ExploreComplete(target, current, remaining);
    }
  }

  /** A zero breaks the pruning: 1 * 0 reaches 0, but 1 > 0 is cut at once. */
  lemma ZeroDefeatsPruning()
    ensures 0 in Values(1, [0]) && !Explore(0, 1, [0])
  {
    assert Values(1, [0]) == Values(1, []) + Values(0, []);
  }

  /** A line is its target followed by at least one number. */
  predicate WellFormed(line: seq<nat>) {
    |line| >= 2
  }

  function Calibrated(line: seq<nat>): bool
    requires WellFormed(line)
  {
    Explore(line[0], line[1], line[2..])
  }

  /** `part_one`: the sum of the targets of the lines that can be made. */
  function PartOne(lines: seq<seq<nat>>): nat
    requires forall i :: 0 <= i < |lines| ==> WellFormed(lines[i])
  {
    if lines == [] then 0
    else (if Calibrated(lines[0]) then lines[0][0] else 0) + PartOne(lines[1..])
  }

  /** The reference answer: the targets some operator choice reaches. */
  ghost function Reachable(lines: seq<seq<nat>>): nat
    requires forall i :: 0 <= i < |lines| ==> WellFormed(lines[i])
  {
    if lines == [] then 0
    else
      assert WellFormed(lines[0]);
      (if lines[0][0] in Values(lines[0][1], lines[0][2..]) then lines[0][0] else 0) + Reachable(lines[1..])
  }

  lemma {:induction false} PartOneReachable(lines: seq<seq<nat>>)
    requires forall i :: 0 <= i < |lines| ==> WellFormed(lines[i]) && Positive(lines[i][2..])
    ensures PartOne(lines) == Reachable(lines)
  {
    if lines != [] {
      ExploreMeans(lines[0][0], lines[0][1], lines[0][2..]);
      PartOneReachable(lines[1..]);
    }
  }

  /** Lines are scored independently: the answer adds up over batches. */
  lemma {:induction false} PartOneAppend(a: seq<seq<nat>>, b: seq<seq<nat>>)
    requires forall i :: 0 <= i < |a| ==> WellFormed(a[i])
    requires forall i :: 0 <= i < |b| ==> WellFormed(b[i])
    ensures forall i :: 0 <= i < |a + b| ==> WellFormed((a + b)[i])
    ensures PartOne(a + b) == PartOne(a) + PartOne(b)
  {
    if a == [] {
      assert a + b == b;
    } else {
      assert (a + b)[1..] == a[1..] + b;
      PartOneAppend(a[1..], b);
    }
  }

  const SampleFirst: seq<seq<nat>> := [[190, 10, 19], [3267, 81, 40, 27], [83, 17, 5]]
  const SampleMiddle: seq<seq<nat>> := [[156, 15, 6], [7290, 6, 8, 6, 15], [161011, 16, 10, 13]]
  const SampleLast: seq<seq<nat>> := [[192, 17, 8, 14], [21037, 9, 7, 18, 13], [292, 11, 6, 16, 20]]

  /** The nine lines of the test module's sample. */
  const SampleLines: seq<seq<nat>> := SampleFirst + SampleMiddle + SampleLast

  lemma SampleFirstSum()
    ensures PartOne(SampleFirst) == 3457
  {
    assert Calibrated([190, 10, 19]) && Calibrated([3267, 81, 40, 27]);
    assert !Calibrated([83, 17, 5]);
  }

  lemma SampleMiddleSum()
    ensures PartOne(SampleMiddle) == 0
  {
    assert !Calibrated([156, 15, 6]);
    assert !Calibrated([7290, 6, 8, 6, 15]);
    assert !Calibrated([161011, 16, 10, 13]);
  }

  lemma SampleLastSum()
    ensures PartOne(SampleLast) == 292
  {
    assert !Calibrated([192, 17, 8, 14]);
    assert !Calibrated([21037, 9, 7, 18, 13]);
    assert Calibrated([292, 11, 6, 16, 20]);
  }

  /** 190, 3267 and 292 can be made; the other six lines cannot. */
  lemma Sample()
    ensures PartOne(SampleLines) == 3749
  {
    SampleWellFormed();
    PartOneAppend(SampleFirst, SampleMiddle);
    PartOneAppend(SampleFirst + SampleMiddle, SampleLast);
    SampleFirstSum();
    SampleMiddleSum();
    SampleLastSum();
  }

  lemma SampleWellFormed()
    ensures forall i :: 0 <= i < |SampleFirst| ==> WellFormed(SampleFirst[i])
    ensures forall i :: 0 <= i < |SampleMiddle| ==> WellFormed(SampleMiddle[i])
    ensures forall i :: 0 <= i < |SampleLast| ==> WellFormed(SampleLast[i])
  {
  }
}

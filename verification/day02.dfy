/** Day 2: reports of levels. A report is safe when the levels move in one
    direction by steps of 1 to 3; part two tolerates one bad level. */
module Day02 {
  import opened Common

  // ---------------------------------------------------------------------
  // Part one

  /** The reference definition of a safe report: strictly monotone with
      every step between 1 and 3. */
  ghost predicate Safe(r: seq<int>) {
    || (forall k :: 1 <= k < |r| ==> 1 <= r[k] - r[k - 1] <= 3)
    || (forall k :: 1 <= k < |r| ==> 1 <= r[k - 1] - r[k] <= 3)
  }

  /** The inner loop of `part_one` from index `k`: every level must move in
      the direction of the first step, by 1 to 3. */
  predicate ScanOne(r: seq<int>, increasing: bool, k: nat)
    requires 1 <= k <= |r|
    decreases |r| - k
  {
    if k == |r| then true
    else
      var diff := if r[k] < r[k - 1] then r[k - 1] - r[k] else r[k] - r[k - 1];
      var hasIncreased := r[k] > r[k - 1];
      if increasing != hasIncreased then false
      else if diff == 0 || diff > 3 then false
      else ScanOne(r, increasing, k + 1)
  }

  /** Whether `part_one` counts a report (the report has at least two levels,
      since `report[1]` is read unconditionally). */
  predicate SafeOne(r: seq<int>)
    requires |r| >= 2
  {
    ScanOne(r, r[1] > r[0], 1)
  }

  /** Reports `part_one` reads: empty ones are skipped, a one-level report
      would index past its end. */
  ghost predicate Readable(reports: seq<seq<int>>) {
    forall i :: 0 <= i < |reports| ==> |reports[i]| != 1
  }

  function PartOne(reports: seq<seq<int>>): (n: nat)
    requires Readable(reports)
    ensures n <= |reports|
  {
    if reports == [] then 0
    else
      (if |reports[0]| >= 2 && SafeOne(reports[0]) then 1 else 0) + PartOne(reports[1..])
  }

  lemma {:induction false} ScanOneMeans(r: seq<int>, increasing: bool, k: nat)
    requires 1 <= k <= |r|
    ensures ScanOne(r, increasing, k) <==>
      forall m :: k <= m < |r| ==>
        if increasing then 1 <= r[m] - r[m - 1] <= 3 else 1 <= r[m - 1] - r[m] <= 3
    decreases |r| - k
  {
    if k < |r| {
      ScanOneMeans(r, increasing, k + 1);
    }
  }

  /** `part_one`'s test is exactly the reference definition of safety. */
  lemma SafeOneIsSafe(r: seq<int>)
    requires |r| >= 2
    ensures SafeOne(r) <==> Safe(r)
  {
    ScanOneMeans(r, r[1] > r[0], 1);
  }

  // ---------------------------------------------------------------------
  // Part two

  /** `delta`: the step into level `i`, skipping the problem level `p`. */
  function Delta(r: seq<int>, i: nat, p: Option<nat>): int
    requires 1 <= i < |r|
    requires p.Some? && i == p.value ==> i + 1 < |r|
    requires p.Some? && i - 1 == p.value ==> i >= 2
  {
    match p
    case Some(q) =>
      if i == q then r[i + 1] - r[i - 1]
      else if i - 1 == q then r[i] - r[i - 2]
      else r[i] - r[i - 1]
    case None => r[i] - r[i - 1]
  }

  predicate IsDeltaIncreasing(r: seq<int>, i: nat, p: Option<nat>)
    requires 1 <= i < |r|
    requires p.Some? && i == p.value ==> i + 1 < |r|
    requires p.Some? && i - 1 == p.value ==> i >= 2
  {
    Delta(r, i, p) > 0
  }

  predicate IsDeltaInvalid(r: seq<int>, i: nat, direction: Option<bool>, p: Option<nat>)
    requires 1 <= i < |r|
    requires p.Some? && i == p.value ==> i + 1 < |r|
    requires p.Some? && i - 1 == p.value ==> i >= 2
  {
    var d := Delta(r, i, p);
    var directionFactor := match direction
      case Some(up) => up == IsDeltaIncreasing(r, i, p)
      case None => true;
    !directionFactor || d == 0 || Abs(d) > 3
  }

  /** The problem index is behind the scan position; when it is the level
      just behind, it is not the first level. */
  predicate ProblemBehind(i: nat, p: Option<nat>) {
    p.Some? ==> p.value < i && (p.value == i - 1 ==> p.value >= 1)
  }

  /** The loop of `part_two` from index `i`, with the problem index found so
      far. */
  predicate ScanTwo(r: seq<int>, i: nat, direction: Option<bool>, p: Option<nat>)
    requires 1 <= i <= |r|
    requires ProblemBehind(i, p)
    decreases |r| - i
  {
    if i == |r| then true
    else if IsDeltaInvalid(r, i, direction, p) then
      if p.Some? then false  // a second mistake
      else if i + 1 < |r| && IsDeltaInvalid(r, i + 1, direction, Some(i)) then
        // still invalid when skipping level i: try skipping level i - 1
        if i > 1 && IsDeltaInvalid(r, i - 1, direction, Some(i - 1)) then false
        else ScanTwo(r, i + 1, direction, Some(i - 1))
      else ScanTwo(r, i + 1, direction, Some(i))
    else ScanTwo(r, i + 1, direction, p)
  }

  /** Whether `part_two` counts a report. */
  predicate SafeTwo(r: seq<int>) {
    if |r| < 3 then |r| > 0
    else
      // with exactly three levels any single removal keeps a direction
      var directionMatters := |r| > 3;
      var increasing :=
        if !directionMatters then false
        else if IsDeltaIncreasing(r, 1, None) == IsDeltaIncreasing(r, 2, None) then IsDeltaIncreasing(r, 1, None)
        else IsDeltaIncreasing(r, 3, None);
      var direction := if directionMatters then Some(increasing) else None;
      ScanTwo(r, 1, direction, None)
  }

  function PartTwo(reports: seq<seq<int>>): (n: nat)
    ensures n <= |reports|
  {
    if reports == [] then 0
    else (if SafeTwo(reports[0]) then 1 else 0) + PartTwo(reports[1..])
  }

  /** Short reports: one or two levels always count, an empty one never. */
  lemma ShortReports(r: seq<int>)
    requires |r| < 3
    ensures SafeTwo(r) <==> |r| > 0
  {
  }

  /** `r` without the level at index `p`. */
  function Remove(r: seq<int>, p: nat): (s: seq<int>)
    requires p < |r|
    ensures |s| == |r| - 1
  {
    r[..p] + r[p + 1..]
  }

  /** With a problem index `p`, `delta` is the step of the report with level
      `p` removed: at `i = p` the step into the level after it, at `i = p + 1`
      the same step again, elsewhere the step at the matching position. */
  lemma DeltaSkipsProblem(r: seq<int>, i: nat, p: nat)
    requires 1 <= i < |r| && p < |r|
    requires i == p ==> i + 1 < |r|
    requires i - 1 == p ==> i >= 2
    ensures var s := Remove(r, p);
      var j := if i <= p then i else i - 1;
      1 <= j < |s| && Delta(r, i, Some(p)) == s[j] - s[j - 1]
  {
  }

  /** Once a problem index is set, the next invalid step rejects the report. */
  lemma {:induction false} SecondProblemRejects(r: seq<int>, i: nat, direction: Option<bool>, p: nat)
    requires 1 <= i < |r| && ProblemBehind(i, Some(p))
    requires IsDeltaInvalid(r, i, direction, Some(p))
    ensures !ScanTwo(r, i, direction, Some(p))
  {
  }

  lemma {:induction false} ScanTwoAcceptsSafe(r: seq<int>, i: nat, direction: Option<bool>)
    requires 1 <= i <= |r|
    requires forall m :: 1 <= m < |r| ==> !IsDeltaInvalid(r, m, direction, None)
    ensures ScanTwo(r, i, direction, None)
    decreases |r| - i
  {
    if i < |r| {
      ScanTwoAcceptsSafe(r, i + 1, direction);
    }
  }

  /** Every report part one accepts, part two accepts too. */
  lemma SafeOneImpliesSafeTwo(r: seq<int>)
    requires |r| >= 2 && SafeOne(r)
    ensures SafeTwo(r)
  {
    SafeOneIsSafe(r);
    if |r| >= 3 {
      var up := r[1] > r[0];
      ScanOneMeans(r, up, 1);
      var direction := if |r| > 3 then Some(up) else None;
      assert forall m :: 1 <= m < |r| ==> !IsDeltaInvalid(r, m, direction, None);
      ScanTwoAcceptsSafe(r, 1, direction);
    }
  }

  lemma {:induction false} PartOneAtMostPartTwo(reports: seq<seq<int>>)
    requires Readable(reports)
    ensures PartOne(reports) <= PartTwo(reports)
  {
    if reports != [] {
      if |reports[0]| >= 2 && SafeOne(reports[0]) {
        SafeOneImpliesSafeTwo(reports[0]);
      }
      PartOneAtMostPartTwo(reports[1..]);
    }
  }

  // ---------------------------------------------------------------------
  // The examples of the test module

  lemma PartOneSample()
    ensures PartOne([[7, 6, 4, 2, 1], [1, 2, 7, 8, 9], [9, 7, 6, 2, 1],
                     [1, 3, 2, 4, 5], [8, 6, 4, 4, 1], [1, 3, 6, 7, 9]]) == 2
  {
    var reports := [[7, 6, 4, 2, 1], [1, 2, 7, 8, 9], [9, 7, 6, 2, 1],
                    [1, 3, 2, 4, 5], [8, 6, 4, 4, 1], [1, 3, 6, 7, 9]];
    assert SafeOne(reports[0]);
    assert !SafeOne(reports[1]);
    assert !SafeOne(reports[2]);
    assert !SafeOne(reports[3]);
    assert !SafeOne(reports[4]);
    assert SafeOne(reports[5]);
  }

  lemma PartTwoSample()
    ensures PartTwo([[7, 6, 4, 2, 1], [1, 2, 7, 8, 9], [9, 7, 6, 2, 1],
                     [1, 3, 2, 4, 5], [8, 6, 4, 4, 1], [1, 3, 6, 7, 9]]) == 4
  {
    var reports := [[7, 6, 4, 2, 1], [1, 2, 7, 8, 9], [9, 7, 6, 2, 1],
                    [1, 3, 2, 4, 5], [8, 6, 4, 4, 1], [1, 3, 6, 7, 9]];
    assert SafeTwo(reports[0]);
    assert !SafeTwo(reports[1]);
    assert !SafeTwo(reports[2]);
    assert SafeTwo(reports[3]);
    assert SafeTwo(reports[4]);
    assert SafeTwo(reports[5]);
  }

  lemma PartTwoRemovals()
    ensures PartTwo([[1, 0, 4, 5]]) == 1
    ensures PartTwo([[3, 2, 6, 1]]) == 1
    ensures PartTwo([[0, 4, 6, 8]]) == 1
    ensures PartTwo([[1, 2, 3, 4, 5, 6, 1]]) == 1
  {
    assert SafeTwo([1, 0, 4, 5]);
    assert SafeTwo([3, 2, 6, 1]);
    assert SafeTwo([0, 4, 6, 8]);
    assert SafeTwo([1, 2, 3, 4, 5, 6, 1]);
  }
}

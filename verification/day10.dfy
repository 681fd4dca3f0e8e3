/** Day 10: hiking trails on a topographic map climb from height 0 to height
    9 one step at a time; part one counts the distinct summits reachable
    from each trailhead, part two the distinct trails. */
module Day10 {
  import opened Common

  // ---------------------------------------------------------------------
  // Parsing

  /** One line of digits; `None` where `to_digit(...).expect(...)` panics. */
  function DigitRow(line: string): (r: Option<seq<nat>>)
    ensures r.Some? ==> |r.value| == |line| && forall i :: 0 <= i < |line| ==> r.value[i] <= 9
    ensures r.Some? <==> forall i :: 0 <= i < |line| ==> IsDigit(line[i])
    ensures r.Some? ==> forall i :: 0 <= i < |line| ==> r.value[i] == (line[i] - '0') as nat
  {
    if forall i :: 0 <= i < |line| ==> IsDigit(line[i]) then
      Some(seq(|line|, i requires 0 <= i < |line| => (line[i] - '0') as nat))
    else None
  }

  /** The non-empty lines, each read as digits: row `y` holds the digits of
      the `y`th non-empty line, and reading fails exactly when some
      non-empty line has a character that is not a digit. */
  function ParseLines(lines: seq<string>): (r: Option<seq<seq<nat>>>)
    ensures r.Some? <==> forall l :: l in lines && l != [] ==> DigitRow(l).Some?
    ensures r.Some? ==> |r.value| == |NonEmpty(lines)|
    ensures r.Some? ==> forall y :: 0 <= y < |r.value| ==> DigitRow(NonEmpty(lines)[y]) == Some(r.value[y])
    ensures r.Some? ==> |r.value| <= |lines|
    ensures r.Some? ==> forall y :: 0 <= y < |r.value| ==> |r.value[y]| > 0
    ensures r.Some? ==> forall y, x :: 0 <= y < |r.value| && 0 <= x < |r.value[y]| ==> r.value[y][x] <= 9
  {
    NonEmptyCons(lines);
    if lines == [] then Some([])
    else
      match ParseLines(lines[1..])
      case None => None
      case Some(rest) =>
        if lines[0] == [] then Some(rest)
        else
          match DigitRow(lines[0])
          case None => None
          case Some(row) => Some([row] + rest)
  }

  /** `parse_input`. */
  function ParseInput(file: string): Option<seq<seq<nat>>> {
    ParseLines(Split(file, '\n'))
  }

  // ---------------------------------------------------------------------
  // Trails

  /** A map as the searches need it: rectangular, with heights 0 to 9. */
  ghost predicate Topographic(m: seq<seq<nat>>) {
    Rectangular(m) && forall y, x :: 0 <= y < |m| && 0 <= x < |m[y]| ==> m[y][x] <= 9
  }

  /** `p` to `q` is one step of a trail: a neighbour, exactly one higher. */
  predicate Climbs(m: seq<seq<nat>>, p: Point, q: Point) {
    InGrid(m, p) && InGrid(m, q) && Adjacent(p, q) && At(m, q) == At(m, p) + 1
  }

  /** The reference: a trail from `path[0]` to a summit of height 9. */
  ghost predicate Trail(m: seq<seq<nat>>, path: seq<Point>) {
    && |path| >= 1
    && (forall i :: 0 <= i < |path| ==> InGrid(m, path[i]))
    && (forall i :: 0 <= i < |path| - 1 ==> Climbs(m, path[i], path[i + 1]))
    && At(m, path[|path| - 1]) == 9
  }

  /** The four guarded neighbour tests of the searches, in source order. */
  predicate Left(m: seq<seq<nat>>, p: Point)
    requires Topographic(m) && InGrid(m, p)
  {
    p.x > 0 && m[p.y][p.x - 1] == At(m, p) + 1
  }

  predicate Right(m: seq<seq<nat>>, p: Point)
    requires Topographic(m) && InGrid(m, p)
  {
    p.x < |m[0]| - 1 && m[p.y][p.x + 1] == At(m, p) + 1
  }

  predicate Above(m: seq<seq<nat>>, p: Point)
    requires Topographic(m) && InGrid(m, p)
  {
    p.y > 0 && m[p.y - 1][p.x] == At(m, p) + 1
  }

  predicate Below(m: seq<seq<nat>>, p: Point)
    requires Topographic(m) && InGrid(m, p)
  {
    p.y < |m| - 1 && m[p.y + 1][p.x] == At(m, p) + 1
  }

  /** `find_trailheads_nonunique`: the number of trails from `p`. */
  function Rating(m: seq<seq<nat>>, p: Point): nat
    requires Topographic(m) && InGrid(m, p)
    decreases 9 - At(m, p)
  {
    if At(m, p) == 9 then 1
    else
      (if Left(m, p) then Rating(m, Point(p.x - 1, p.y)) else 0)
      + (if Right(m, p) then Rating(m, Point(p.x + 1, p.y)) else 0)
      + (if Above(m, p) then Rating(m, Point(p.x, p.y - 1)) else 0)
      + (if Below(m, p) then Rating(m, Point(p.x, p.y + 1)) else 0)
  }

  /** `find_trailheads`: the summits reachable from `p`. */
  function Summits(m: seq<seq<nat>>, p: Point): (r: set<Point>)
    requires Topographic(m) && InGrid(m, p)
    ensures forall q :: q in r ==> InGrid(m, q) && At(m, q) == 9
    decreases 9 - At(m, p)
  {
    if At(m, p) == 9 then {p}
    else
      (if Left(m, p) then Summits(m, Point(p.x - 1, p.y)) else {})
      + (if Right(m, p) then Summits(m, Point(p.x + 1, p.y)) else {})
      + (if Above(m, p) then Summits(m, Point(p.x, p.y - 1)) else {})
      + (if Below(m, p) then Summits(m, Point(p.x, p.y + 1)) else {})
  }

  /** The guarded tests pick out exactly the climbing neighbours. */
  lemma ClimbCases(m: seq<seq<nat>>, p: Point, q: Point)
    requires Topographic(m) && InGrid(m, p)
    ensures Climbs(m, p, q) <==>
      || (Left(m, p) && q == Point(p.x - 1, p.y))
      || (Right(m, p) && q == Point(p.x + 1, p.y))
      || (Above(m, p) && q == Point(p.x, p.y - 1))
      || (Below(m, p) && q == Point(p.x, p.y + 1))
  {
    AdjacentMeans(p, q);
    assert |m[p.y]| == |m[0]|;
    if p.y > 0 { assert |m[p.y - 1]| == |m[0]|; }
    if p.y < |m| - 1 { assert |m[p.y + 1]| == |m[0]|; }
  }

  /** Below the summit height, a summit found comes through a climbing
      neighbour. */
  lemma {:induction false} SummitsStep(m: seq<seq<nat>>, p: Point, q: Point) returns (n: Point)
    requires Topographic(m) && InGrid(m, p) && At(m, p) != 9 && q in Summits(m, p)
    ensures Climbs(m, p, n) && q in Summits(m, n)
  {
    if Left(m, p) && q in Summits(m, Point(p.x - 1, p.y)) {
      n := Point(p.x - 1, p.y);
    } else if Right(m, p) && q in Summits(m, Point(p.x + 1, p.y)) {
      n := Point(p.x + 1, p.y);
    } else if Above(m, p) && q in Summits(m, Point(p.x, p.y - 1)) {
      n := Point(p.x, p.y - 1);
    } else {
      n := Point(p.x, p.y + 1);
    }
    ClimbCases(m, p, n);
  }

  /** A climbing step in front of a trail is a trail. */
  lemma Extend(m: seq<seq<nat>>, p: Point, rest: seq<Point>)
    requires Trail(m, rest) && Climbs(m, p, rest[0])
    ensures Trail(m, [p] + rest)
  {
    var path := [p] + rest;
    assert forall i :: 1 <= i < |path| ==> path[i] == rest[i - 1];
  }

  /** Every summit found ends a trail from `p`. */
  lemma {:induction false} SummitsSound(m: seq<seq<nat>>, p: Point, q: Point)
    requires Topographic(m) && InGrid(m, p) && q in Summits(m, p)
    ensures exists path :: Trail(m, path) && path[0] == p && path[|path| - 1] == q
    decreases 9 - At(m, p)
  {
    if At(m, p) == 9 {
      var path := [p];
      assert Trail(m, path) && path[0] == p && path[|path| - 1] == q;
    } else {
      var n := SummitsStep(m, p, q);
      SummitsSound(m, n, q);
      var rest :| Trail(m, rest) && rest[0] == n && rest[|rest| - 1] == q;
      Extend(m, p, rest);
      var path := [p] + rest;
      assert Trail(m, path) && path[0] == p && path[|path| - 1] == q;
    }
  }

  /** Every trail from `p` ends at a summit found. */
  lemma {:induction false} SummitsComplete(m: seq<seq<nat>>, path: seq<Point>)
    requires Topographic(m) && Trail(m, path)
    ensures path[|path| - 1] in Summits(m, path[0])
    decreases |path|
  {
    var p := path[0];
    if |path| == 1 {
    } else {
      assert Climbs(m, p, path[1]);
      ClimbCases(m, p, path[1]);
      var rest := path[1..];
      assert Trail(m, rest) by {
        forall i | 0 <= i < |rest| - 1
          ensures Climbs(m, rest[i], rest[i + 1])
        {
          assert Climbs(m, path[i + 1], path[i + 2]);
        }
      }
      SummitsComplete(m, rest);
    }
  }

  /** The summits found from `p` are exactly the ends of its trails. */
  lemma {:induction false} SummitsMeans(m: seq<seq<nat>>, p: Point, q: Point)
    requires Topographic(m) && InGrid(m, p)
    ensures q in Summits(m, p) <==> exists path :: Trail(m, path) && path[0] == p && path[|path| - 1] == q
  {
    if q in Summits(m, p) {
      SummitsSound(m, p, q);
    }
    if exists path :: Trail(m, path) && path[0] == p && path[|path| - 1] == q {
      var path :| Trail(m, path) && path[0] == p && path[|path| - 1] == q;
      SummitsComplete(m, path);
    }
  }

  lemma UnionCard<T>(a: set<T>, b: set<T>)
    ensures |a + b| <= |a| + |b|
  {
    assert |a + b| == |a| + |b| - |a * b|;
  }

  lemma Bound4<T>(a: set<T>, b: set<T>, c: set<T>, e: set<T>, ra: nat, rb: nat, rc: nat, re: nat)
    requires |a| <= ra && |b| <= rb && |c| <= rc && |e| <= re
    ensures |a + b + c + e| <= ra + rb + rc + re
  {
    UnionCard(a, b);
    UnionCard(a + b, c);
    UnionCard(a + b + c, e);
  }

  lemma HeightBound(m: seq<seq<nat>>, q: Point)
    requires Topographic(m) && InGrid(m, q)
    ensures At(m, q) <= 9
  {
  }

  /** Distinct summits never outnumber distinct trails. */
  lemma SummitsAtMostRating(m: seq<seq<nat>>, p: Point)
    requires Topographic(m) && InGrid(m, p)
    ensures |Summits(m, p)| <= Rating(m, p)
  {
    HeightBound(m, p);
    SummitsAtMostRatingFrom(m, p, 9 - At(m, p));
  }

  /** The same, by induction on the height `h` still to climb. */
  lemma {:induction false} SummitsAtMostRatingFrom(m: seq<seq<nat>>, p: Point, h: nat)
    requires Topographic(m) && InGrid(m, p) && At(m, p) + h == 9
    ensures |Summits(m, p)| <= Rating(m, p)
    decreases h, 1
  {
    if h != 0 {
      var l, r, u, d := Point(p.x - 1, p.y), Point(p.x + 1, p.y), Point(p.x, p.y - 1), Point(p.x, p.y + 1);
      var a := if Left(m, p) then Summits(m, l) else {};
      var b := if Right(m, p) then Summits(m, r) else {};
      var c := if Above(m, p) then Summits(m, u) else {};
      var e := if Below(m, p) then Summits(m, d) else {};
      var ra := if Left(m, p) then Rating(m, l) else 0;
      var rb := if Right(m, p) then Rating(m, r) else 0;
      var rc := if Above(m, p) then Rating(m, u) else 0;
      var re := if Below(m, p) then Rating(m, d) else 0;
      SummitsUnfold(m, p);
      RatingUnfold(m, p);
      NeighbourBounds(m, p, h);
      Bound4(a, b, c, e, ra, rb, rc, re);
    }
  }

  lemma SummitsUnfold(m: seq<seq<nat>>, p: Point)
    requires Topographic(m) && InGrid(m, p) && At(m, p) != 9
    ensures Summits(m, p) ==
      (if Left(m, p) then Summits(m, Point(p.x - 1, p.y)) else {})
      + (if Right(m, p) then Summits(m, Point(p.x + 1, p.y)) else {})
      + (if Above(m, p) then Summits(m, Point(p.x, p.y - 1)) else {})
      + (if Below(m, p) then Summits(m, Point(p.x, p.y + 1)) else {})
  {
  }

  lemma RatingUnfold(m: seq<seq<nat>>, p: Point)
    requires Topographic(m) && InGrid(m, p) && At(m, p) != 9
    ensures Rating(m, p) ==
      (if Left(m, p) then Rating(m, Point(p.x - 1, p.y)) else 0)
      + (if Right(m, p) then Rating(m, Point(p.x + 1, p.y)) else 0)
      + (if Above(m, p) then Rating(m, Point(p.x, p.y - 1)) else 0)
      + (if Below(m, p) then Rating(m, Point(p.x, p.y + 1)) else 0)
  {
  }

  /** The bound for each neighbour a trail climbs to. */
  lemma {:induction false} NeighbourBounds(m: seq<seq<nat>>, p: Point, h: nat)
    requires Topographic(m) && InGrid(m, p) && At(m, p) + h == 9 && h != 0
    ensures Left(m, p) ==> |Summits(m, Point(p.x - 1, p.y))| <= Rating(m, Point(p.x - 1, p.y))
    ensures Right(m, p) ==> |Summits(m, Point(p.x + 1, p.y))| <= Rating(m, Point(p.x + 1, p.y))
    ensures Above(m, p) ==> |Summits(m, Point(p.x, p.y - 1))| <= Rating(m, Point(p.x, p.y - 1))
    ensures Below(m, p) ==> |Summits(m, Point(p.x, p.y + 1))| <= Rating(m, Point(p.x, p.y + 1))
    decreases h, 0
  {
    if Left(m, p) { SummitsAtMostRatingFrom(m, Point(p.x - 1, p.y), h - 1); }
    if Right(m, p) { SummitsAtMostRatingFrom(m, Point(p.x + 1, p.y), h - 1); }
    if Above(m, p) { SummitsAtMostRatingFrom(m, Point(p.x, p.y - 1), h - 1); }
    if Below(m, p) { SummitsAtMostRatingFrom(m, Point(p.x, p.y + 1), h - 1); }
  }

  // ---------------------------------------------------------------------
  // Scores

  /** The score `part_one` (distinct summits) or `part_two` (trails) adds
      for cell `p`: something only at a trailhead, height 0. */
  function Score(m: seq<seq<nat>>, p: Point, distinct: bool): nat
    requires Topographic(m) && InGrid(m, p)
  {
    if At(m, p) != 0 then 0
    else if distinct then |Summits(m, p)| else Rating(m, p)
  }

  function RowScore(m: seq<seq<nat>>, y: nat, x: nat, distinct: bool): nat
    requires Topographic(m) && y < |m| && x <= |m[y]|
    decreases |m[y]| - x
  {
    if x == |m[y]| then 0 else Score(m, Point(x, y), distinct) + RowScore(m, y, x + 1, distinct)
  }

  /** The nested loops of `part_one` / `part_two` from row `y`. */
  function MapScore(m: seq<seq<nat>>, y: nat, distinct: bool): nat
    requires Topographic(m) && y <= |m|
    decreases |m| - y
  {
    if y == |m| then 0 else RowScore(m, y, 0, distinct) + MapScore(m, y + 1, distinct)
  }

  /** `part_one`; `None` when a character is not a digit. The map must be
      rectangular, as the searches index every row with the first row's
      width. */
  function PartOne(file: string): Option<nat>
    requires ParseInput(file).Some? ==> Rectangular(ParseInput(file).value)
  {
    match ParseInput(file)
    case None => None
    case Some(m) => Some(MapScore(m, 0, true))
  }

  function PartTwo(file: string): Option<nat>
    requires ParseInput(file).Some? ==> Rectangular(ParseInput(file).value)
  {
    match ParseInput(file)
    case None => None
    case Some(m) => Some(MapScore(m, 0, false))
  }

  lemma {:induction false} RowScoreAtMost(m: seq<seq<nat>>, y: nat, x: nat)
    requires Topographic(m) && y < |m| && x <= |m[y]|
    ensures RowScore(m, y, x, true) <= RowScore(m, y, x, false)
    decreases |m[y]| - x
  {
    if x < |m[y]| {
      SummitsAtMostRating(m, Point(x, y));
      RowScoreAtMost(m, y, x + 1);
    }
  }

  lemma {:induction false} MapScoreAtMost(m: seq<seq<nat>>, y: nat)
    requires Topographic(m) && y <= |m|
    ensures MapScore(m, y, true) <= MapScore(m, y, false)
    decreases |m| - y
  {
    if y < |m| {
      RowScoreAtMost(m, y, 0);
      MapScoreAtMost(m, y + 1);
    }
  }

  /** Part one never exceeds part two. */
  lemma PartOneAtMostPartTwo(file: string)
    requires ParseInput(file).Some? && Rectangular(ParseInput(file).value)
    ensures PartOne(file).value <= PartTwo(file).value
  {
    MapScoreAtMost(ParseInput(file).value, 0);
  }

  /** A summit is a trail of its own. */
  lemma {:induction false} SummitAlone(m: seq<seq<nat>>, p: Point)
    requires Topographic(m) && InGrid(m, p) && At(m, p) == 9
    ensures Rating(m, p) == 1 && Summits(m, p) == {p}
  {
  }

  // ---------------------------------------------------------------------
  // The test module's strip

  /** A row with no trailhead from column `x` on scores nothing. */
  lemma {:induction false} NoTrailheads(m: seq<seq<nat>>, y: nat, x: nat, distinct: bool)
    requires Topographic(m) && y < |m| && x <= |m[y]|
    requires forall i :: x <= i < |m[y]| ==> m[y][i] != 0
    ensures RowScore(m, y, x, distinct) == 0
    decreases |m[y]| - x
  {
    if x < |m[y]| {
      NoTrailheads(m, y, x + 1, distinct);
    }
  }

  const Nines: seq<nat> := seq(11, _ => 9)

  /** 9 0 1 2 ... 9 */
  const Ramp: seq<nat> := [9] + seq(10, i requires 0 <= i => i as nat)

  /** "99999999999", "90123456789", "99999999999": one trail up the middle
      row, which ends next to three summits. */
  const Strip: seq<seq<nat>> := [Nines, Ramp, Nines]

  lemma StripTopographic()
    ensures Topographic(Strip)
  {
    assert forall x :: 1 <= x < 11 ==> Ramp[x] == x - 1;
  }

  /** Along the ramp every cell below 8 climbs only to its right; the 8
      reaches three nines. */
  lemma {:induction false} StripClimb(k: nat)
    requires 1 <= k <= 9
    ensures Topographic(Strip) && Summits(Strip, Point(k, 1)) == {Point(10, 1), Point(9, 0), Point(9, 2)}
    ensures Topographic(Strip) && Rating(Strip, Point(k, 1)) == 3
    decreases 10 - k
  {
    StripTopographic();
    assert Ramp[k] == k - 1 && Ramp[k + 1] == k && Ramp[k - 1] == (if k == 1 then 9 else k - 2);
    assert Nines[k] == 9;
    var p := Point(k, 1);
    assert !Left(Strip, p) && Right(Strip, p);
    assert Above(Strip, p) <==> k == 9;
    assert Below(Strip, p) <==> k == 9;
    SummitsUnfold(Strip, p);
    RatingUnfold(Strip, p);
    if k < 9 {
      StripClimb(k + 1);
    } else {
      assert Summits(Strip, Point(10, 1)) == {Point(10, 1)};
      assert Summits(Strip, Point(9, 0)) == {Point(9, 0)};
      assert Summits(Strip, Point(9, 2)) == {Point(9, 2)};
    }
  }

  lemma {:induction false} StripScore(distinct: bool)
    ensures Topographic(Strip) && MapScore(Strip, 0, distinct) == 3
  {
    StripTopographic();
    StripClimb(1);
    assert forall i :: 0 <= i < 11 ==> Nines[i] == 9;
    assert forall i :: 2 <= i < 11 ==> Ramp[i] == i - 1;
    NoTrailheads(Strip, 0, 0, distinct);
    NoTrailheads(Strip, 2, 0, distinct);
    NoTrailheads(Strip, 1, 2, distinct);
    assert |{Point(10, 1), Point(9, 0), Point(9, 2)}| == 3;
    assert Score(Strip, Point(1, 1), distinct) == 3;
    assert RowScore(Strip, 1, 1, distinct) == 3;
    assert RowScore(Strip, 1, 0, distinct) == 3;
    assert MapScore(Strip, 2, distinct) == 0;
  }
}

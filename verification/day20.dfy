/** Day 20: a single-lane racetrack from 'S' to 'E' through a walled grid.
    The track is followed step by step; a cheat jumps from an earlier cell
    of the track to a later one at most two cells away, and the answer is
    the number of such jumps that save at least `n` steps. */
module Day20 {
  import opened Common

  // ---------------------------------------------------------------------
  // Finding the start

  /** The first column at or after `x` of `row` holding `c`. */
  function FirstIn(row: string, c: char, x: nat): (r: Option<nat>)
    ensures r.Some? ==> x <= r.value < |row| && row[r.value] == c
    ensures r.Some? ==> forall k :: x <= k < r.value ==> row[k] != c
    ensures r.None? ==> forall k :: x <= k < |row| ==> row[k] != c
    decreases |row| - x
  {
    if x >= |row| then None
    else if row[x] == c then Some(x)
    else FirstIn(row, c, x + 1)
  }

  /** `p` comes no later than `q` in reading order, row by row. */
  predicate NotAfter(p: Point, q: Point) {
    p.y < q.y || (p.y == q.y && p.x <= q.x)
  }

  /** The search for 'S' from row `y` on, rows top to bottom and each row
      left to right, stopping at the first one. */
  function FindStartFrom(grid: seq<string>, y: nat): (r: Option<Point>)
    ensures r.Some? ==> r.value.y >= y && InGrid(grid, r.value) && At(grid, r.value) == 'S'
    ensures r.Some? ==> forall p :: InGrid(grid, p) && p.y >= y && At(grid, p) == 'S' ==> NotAfter(r.value, p)
    ensures r.None? <==> forall p :: InGrid(grid, p) && p.y >= y ==> At(grid, p) != 'S'
    decreases |grid| - y
  {
    if y >= |grid| then None
    else match FirstIn(grid[y], 'S', 0)
      case Some(x) => Some(Point(x, y))
      case None =>
        var r := FindStartFrom(grid, y + 1);
        assert forall p :: InGrid(grid, p) && p.y == y ==> At(grid, p) != 'S';
        r
  }

  // ---------------------------------------------------------------------
  // Following the track

  /** A cell the walker may enter: inside the grid and not a wall. The
      source tests against the width of the first row, which is the same
      test on a rectangular grid. */
  predicate Open(grid: seq<string>, q: Point) {
    InGrid(grid, q) && At(grid, q) != '#'
  }

  /** Direction `d` is tried and taken: it does not reverse the previous
      direction (except on the first step) and leads to an open cell. */
  predicate Allowed(grid: seq<string>, pos: Point, previous: nat, first: bool, d: nat)
    requires d < 4
  {
    (first || d != (previous + 2) % 4) && Open(grid, Neighbour(pos, d))
  }

  /** The `for` loop over the directions from `d` on: the first one allowed. */
  function Choose(grid: seq<string>, pos: Point, previous: nat, first: bool, d: nat): (r: Option<nat>)
    requires d <= 4
    ensures r.Some? ==> d <= r.value < 4 && Allowed(grid, pos, previous, first, r.value)
    ensures r.Some? ==> forall e :: d <= e < r.value ==> !Allowed(grid, pos, previous, first, e)
    ensures r.None? ==> forall e :: d <= e < 4 ==> !Allowed(grid, pos, previous, first, e)
    decreases 4 - d
  {
    if d == 4 then None
    else if Allowed(grid, pos, previous, first, d) then Some(d)
    else Choose(grid, pos, previous, first, d + 1)
  }

  /** Stepping in direction `d` and then in the opposite one comes back. */
  lemma NeighbourBack(p: Point, d: nat)
    requires d < 4
    ensures Neighbour(Neighbour(p, d), (d + 2) % 4) == p
  {
  }

  /** Different directions lead to different cells. */
  lemma NeighbourInjective(p: Point, d: nat, e: nat)
    requires d < 4 && e < 4 && d != e
    ensures Neighbour(p, d) != Neighbour(p, e)
  {
  }

  /** Consecutive cells are orthogonally adjacent. */
  ghost predicate Steps(t: seq<Point>) {
    forall i, j :: 0 <= i && j == i + 1 && j < |t| ==> Adjacent(t[i], t[j])
  }

  /** What the walker's path is: every cell open, consecutive cells
      orthogonally adjacent, no step straight back to the cell before, and
      no 'E' before the last cell. */
  ghost predicate Track(grid: seq<string>, t: seq<Point>) {
    && (forall k :: 0 <= k < |t| ==> Open(grid, t[k]))
    && (forall k :: 0 <= k < |t| - 1 ==> At(grid, t[k]) != 'E')
    && Steps(t)
    && (forall i, j :: 0 <= i && j == i + 2 && j < |t| ==> t[i] != t[j])
  }

  /** The `while` loop: stop on 'E', otherwise move in the first allowed
      direction. `None` when the fuel runs out or at a dead end, where the
      source would loop forever. */
  function Walk(grid: seq<string>, pos: Point, previous: nat, track: seq<Point>, fuel: nat): (r: Option<seq<Point>>)
    requires previous < 4 && track != [] && Last(track) == pos && Track(grid, track)
    requires |track| >= 2 ==> Neighbour(pos, (previous + 2) % 4) == track[|track| - 2]
    ensures r.Some? ==> |track| <= |r.value| && r.value[..|track|] == track
    ensures r.Some? ==> Track(grid, r.value) && At(grid, Last(r.value)) == 'E'
    decreases fuel
  {
    if At(grid, pos) == 'E' then Some(track)
    else if fuel == 0 then None
    else match Choose(grid, pos, previous, |track| == 1, 0)
      case None => None
      case Some(d) =>
        var q := Neighbour(pos, d);
        TrackSnoc(grid, track, pos, previous, d);
        NeighbourBack(pos, d);
        var r := Walk(grid, q, d, track + [q], fuel - 1);
        assert r.Some? ==> r.value[..|track|] == (track + [q])[..|track|];
        r
  }

  /** One allowed step extends a track. */
  lemma TrackSnoc(grid: seq<string>, track: seq<Point>, pos: Point, previous: nat, d: nat)
    requires previous < 4 && d < 4 && track != [] && Last(track) == pos && Track(grid, track)
    requires |track| >= 2 ==> Neighbour(pos, (previous + 2) % 4) == track[|track| - 2]
    requires At(grid, pos) != 'E' && Allowed(grid, pos, previous, |track| == 1, d)
    ensures Track(grid, track + [Neighbour(pos, d)])
  {
    var t := track + [Neighbour(pos, d)];
    if |track| >= 2 {
      NeighbourInjective(pos, d, (previous + 2) % 4);
    }
    assert forall i, j :: 0 <= i && j == i + 2 && j < |t| - 1 ==> t[i] == track[i] && t[j] == track[j];
  }

  /** `find_racetrack`: the cells from 'S' to the first 'E' reached. `None`
      for an empty grid, a missing start (the "Start point not found"
      panic), a dead end or exhausted fuel. */
  function Racetrack(grid: seq<string>, fuel: nat): (r: Option<seq<Point>>)
    requires Rectangular(grid)
    ensures r.Some? ==> r.value != [] && Track(grid, r.value) && At(grid, Last(r.value)) == 'E'
    ensures r.Some? ==> At(grid, r.value[0]) == 'S'
    ensures (forall p :: InGrid(grid, p) ==> At(grid, p) != 'S') ==> r.None?
  {
    if grid == [] then None
    else match FindStartFrom(grid, 0)
      case None => None
      case Some(start) =>
        var r := Walk(grid, start, 0, [start], fuel);
        assert r.Some? ==> r.value[..1] == [start];
        r
  }

  // ---------------------------------------------------------------------
  // Counting cheats, as written

  /** A cheat may join two track cells at most two apart. */
  predicate Close(track: seq<Point>, j: nat, i: nat)
    requires j < |track| && i < |track|
  {
    Manhattan(track[j], track[i]) <= 2
  }

  /** The inner loop: the starts `j < m` close to the end cell `i`. */
  function StartsBefore(track: seq<Point>, i: nat, m: nat): (r: nat)
    requires i < |track| && m <= |track|
    ensures r <= m
  {
    if m == 0 then 0
    else StartsBefore(track, i, m - 1) + (if Close(track, m - 1, i) then 1 else 0)
  }

  /** The outer loop over the end cells `i` from `from` on, each paired with
      the starts more than `n` places before it. */
  function CheatsFrom(n: nat, track: seq<Point>, from: nat): nat
    requires n <= from
    decreases |track| - from
  {
    if from >= |track| then 0
    else StartsBefore(track, from, from - n) + CheatsFrom(n, track, from + 1)
  }

  /** `find_cheats_of_at_least`. */
  function Cheats(n: nat, track: seq<Point>): (r: nat)
    ensures |track| <= n ==> r == 0
  {
    CheatsFrom(n, track, n)
  }

  lemma {:induction false} StartsBeforeMonotone(track: seq<Point>, i: nat, m: nat, m': nat)
    requires i < |track| && m <= m' <= |track|
    ensures StartsBefore(track, i, m) <= StartsBefore(track, i, m')
    decreases m' - m
  {
    if m < m' {
      StartsBeforeMonotone(track, i, m, m' - 1);
    }
  }

  lemma {:induction false} CheatsFromMonotone(n: nat, track: seq<Point>, from: nat)
    requires n + 1 <= from
    ensures CheatsFrom(n + 1, track, from) <= CheatsFrom(n, track, from)
    decreases |track| - from
  {
    if from < |track| {
      StartsBeforeMonotone(track, from, from - n - 1, from - n);
      CheatsFromMonotone(n, track, from + 1);
    }
  }

  /** Raising the threshold never raises the count. */
  lemma {:induction false} CheatsMonotone(n: nat, n': nat, track: seq<Point>)
    requires n <= n'
    ensures Cheats(n', track) <= Cheats(n, track)
    decreases n' - n
  {
    if n < n' {
      CheatsMonotone(n, n' - 1, track);
      CheatsFromMonotone(n' - 1, track, n');
      if n' - 1 < |track| {
        assert CheatsFrom(n' - 1, track, n' - 1) == StartsBefore(track, n' - 1, 0) + CheatsFrom(n' - 1, track, n');
      }
    }
  }

  // ---------------------------------------------------------------------
  // Counting cheats by the time they save

  /** Jumping from cell `j` to the later cell `i` skips `i - j` steps of the
      track and costs the jump's own length. */
  function Saving(track: seq<Point>, j: nat, i: nat): int
    requires j < |track| && i < |track|
  {
    (i - j) - Manhattan(track[j], track[i])
  }

  predicate GoodCheat(n: nat, track: seq<Point>, j: nat, i: nat)
    requires j < |track| && i < |track|
  {
    j < i && Close(track, j, i) && Saving(track, j, i) >= n
  }

  /** The starts `j < m` of cheats into `i` saving at least `n`. */
  function GoodStarts(n: nat, track: seq<Point>, i: nat, m: nat): nat
    requires i < |track| && m <= |track|
  {
    if m == 0 then 0
    else GoodStarts(n, track, i, m - 1) + (if GoodCheat(n, track, m - 1, i) then 1 else 0)
  }

  function GoodFrom(n: nat, track: seq<Point>, from: nat): nat
    decreases |track| - from
  {
    if from >= |track| then 0
    else GoodStarts(n, track, from, from) + GoodFrom(n, track, from + 1)
  }

  /** The number of cheats that save at least `n` steps, which is what the
      source's comment promises. */
  function CheatsSaving(n: nat, track: seq<Point>): nat {
    GoodFrom(n, track, 0)
  }

  /** The cheats themselves: start and end index along the track. */
  ghost function CheatSet(n: nat, track: seq<Point>, from: nat): set<(nat, nat)> {
    set j: nat, i: nat | j < i < |track| && from <= i && GoodCheat(n, track, j, i) :: (j, i)
  }

  ghost function RowSet(n: nat, track: seq<Point>, i: nat, m: nat): set<(nat, nat)>
    requires i < |track| && m <= |track|
  {
    set j: nat | j < m && GoodCheat(n, track, j, i) :: (j, i)
  }

  lemma {:induction false} RowCount(n: nat, track: seq<Point>, i: nat, m: nat)
    requires i < |track| && m <= |track|
    ensures GoodStarts(n, track, i, m) == |RowSet(n, track, i, m)|
    decreases m
  {
    if m == 0 {
      assert RowSet(n, track, i, m) == {};
    } else {
      RowCount(n, track, i, m - 1);
      if GoodCheat(n, track, m - 1, i) {
        assert RowSet(n, track, i, m) == RowSet(n, track, i, m - 1) + {(m - 1, i)};
      } else {
        assert RowSet(n, track, i, m) == RowSet(n, track, i, m - 1);
      }
    }
  }

  lemma {:induction false} GoodFromCount(n: nat, track: seq<Point>, from: nat)
    ensures GoodFrom(n, track, from) == |CheatSet(n, track, from)|
    decreases |track| - from
  {
    if from >= |track| {
      assert CheatSet(n, track, from) == {};
    } else {
      GoodFromCount(n, track, from + 1);
      RowCount(n, track, from, from);
      CheatSetSplit(n, track, from);
    }
  }

  /** The cheats ending at `from` or later are those ending at `from` and
      those ending later. */
  lemma CheatSetSplit(n: nat, track: seq<Point>, from: nat)
    requires from < |track|
    ensures CheatSet(n, track, from) == RowSet(n, track, from, from) + CheatSet(n, track, from + 1)
    ensures RowSet(n, track, from, from) !! CheatSet(n, track, from + 1)
  {
    var all, row, rest := CheatSet(n, track, from), RowSet(n, track, from, from), CheatSet(n, track, from + 1);
    forall c | c in all
      ensures c in row + rest
    {
      var (j, i) := c;
      if i == from {
        assert c in row;
      } else {
        assert c in rest;
      }
    }
    forall c | c in row + rest
      ensures c in all
    {
      var (j, i) := c;
      assert from <= i < |track| && j < i && GoodCheat(n, track, j, i);
    }
  }

  /** The corrected count is the number of distinct cheats that save at
      least `n` steps. */
  lemma CheatsSavingMeans(n: nat, track: seq<Point>)
    ensures CheatsSaving(n, track) == |CheatSet(n, track, 0)|
    ensures forall c :: c in CheatSet(n, track, 0) ==> c.0 < c.1 < |track| && Saving(track, c.0, c.1) >= n
  {
    GoodFromCount(n, track, 0);
  }

  // ---------------------------------------------------------------------
  // When the two counts agree

  /** Track cells are distinct. */
  ghost predicate Distinct(track: seq<Point>) {
    forall i, j :: 0 <= i < j < |track| ==> track[i] != track[j]
  }

  /** Along a track, the distance between two cells has the parity of the
      number of steps between them. */
  lemma {:induction false} Parity(track: seq<Point>, j: nat, i: nat)
    requires Steps(track) && j <= i < |track|
    ensures (track[i].x + track[i].y - track[j].x - track[j].y - (i - j)) % 2 == 0
    decreases i - j
  {
    if j < i {
      Parity(track, j, i - 1);
      assert Adjacent(track[i - 1], track[i]);
    }
  }

  lemma ManhattanParity(p: Point, q: Point)
    ensures (Manhattan(p, q) - (q.x + q.y - p.x - p.y)) % 2 == 0
  {
  }

  /** For even thresholds the loop bounds are right: a start more than `n`
      places back at distance two saves at least `n`, because distance and
      step count have the same parity. */
  lemma GoodIffCounted(n: nat, track: seq<Point>, j: nat, i: nat)
    requires Steps(track) && Distinct(track) && n % 2 == 0 && j < i < |track|
    ensures GoodCheat(n, track, j, i) <==> (n < i - j && Close(track, j, i))
  {
    Parity(track, j, i);
    ManhattanParity(track[j], track[i]);
    assert track[j] != track[i];
    assert Manhattan(track[j], track[i]) != 0;
  }

  /** Below the source's bound every close start is a good cheat. */
  lemma {:induction false} RowBelow(n: nat, track: seq<Point>, i: nat, m: nat)
    requires Steps(track) && Distinct(track) && n % 2 == 0 && i < |track| && n + m <= i
    ensures GoodStarts(n, track, i, m) == StartsBefore(track, i, m)
    decreases m
  {
    if m > 0 {
      RowBelow(n, track, i, m - 1);
      GoodIffCounted(n, track, m - 1, i);
    }
  }

  /** From the source's bound on no start is a good cheat. */
  lemma {:induction false} RowAbove(n: nat, track: seq<Point>, i: nat, m: nat)
    requires Steps(track) && Distinct(track) && n % 2 == 0 && i < |track| && m <= i
    ensures GoodStarts(n, track, i, m) == if i < n then 0 else GoodStarts(n, track, i, if m < i - n then m else i - n)
    decreases m
  {
    if m > 0 && (i < n || i - n < m) {
      RowAbove(n, track, i, m - 1);
      GoodIffCounted(n, track, m - 1, i);
    }
  }

  lemma {:induction false} RowAgrees(n: nat, track: seq<Point>, i: nat)
    requires Steps(track) && Distinct(track) && n % 2 == 0 && i < |track|
    ensures GoodStarts(n, track, i, i) == if i < n then 0 else StartsBefore(track, i, i - n)
  {
    RowAbove(n, track, i, i);
    if n <= i {
      RowBelow(n, track, i, i - n);
    }
  }

  lemma {:induction false} FromAgrees(n: nat, track: seq<Point>, from: nat)
    requires Steps(track) && Distinct(track) && n % 2 == 0
    ensures GoodFrom(n, track, from) == if from <= n then CheatsFrom(n, track, n) else CheatsFrom(n, track, from)
    decreases |track| - from
  {
    if from < |track| {
      FromAgrees(n, track, from + 1);
      RowAgrees(n, track, from);
    }
  }

  /** With an even threshold on a track that never revisits a cell, the
      loops of the source count exactly the cheats saving at least `n`. */
  lemma EvenThresholdAgrees(n: nat, track: seq<Point>)
    requires Steps(track) && Distinct(track) && n % 2 == 0
    ensures Cheats(n, track) == CheatsSaving(n, track)
  {
    FromAgrees(n, track, 0);
  }

  /** With an odd threshold the source also counts jumps of two cells over
      `n + 1` steps, which save only `n - 1`. Three cells in a straight line
      (the grid "S.E") show it for `n = 1`: the source counts one cheat,
      and that cheat saves nothing. */
  lemma OddThresholdOvercounts(track: seq<Point>)
    requires |track| == 3 && Manhattan(track[0], track[2]) == 2
    requires Manhattan(track[0], track[1]) == 1 && Manhattan(track[1], track[2]) == 1
    ensures Cheats(1, track) == 1 && CheatsSaving(1, track) == 0
    ensures Saving(track, 0, 2) == 0
  {
    ThreeCounted(track);
    ThreeSaved(track);
  }

  lemma ThreeCounted(track: seq<Point>)
    requires |track| == 3 && Manhattan(track[0], track[2]) == 2
    ensures Cheats(1, track) == 1
  {
    assert StartsBefore(track, 2, 1) == 1;
    assert CheatsFrom(1, track, 3) == 0;
    assert CheatsFrom(1, track, 2) == 1;
  }

  lemma ThreeSaved(track: seq<Point>)
    requires |track| == 3 && Manhattan(track[0], track[2]) == 2 && Manhattan(track[1], track[2]) == 1
    requires Manhattan(track[0], track[1]) == 1
    ensures CheatsSaving(1, track) == 0
  {
    assert !GoodCheat(1, track, 0, 2) && !GoodCheat(1, track, 1, 2) && !GoodCheat(1, track, 0, 1);
    assert GoodStarts(1, track, 2, 1) == 0;
    assert GoodStarts(1, track, 2, 2) == 0;
    assert GoodStarts(1, track, 1, 1) == 0;
    assert GoodStarts(1, track, 0, 0) == 0;
    assert GoodFrom(1, track, 3) == 0;
    assert GoodFrom(1, track, 2) == 0;
    assert GoodFrom(1, track, 1) == 0;
    assert GoodFrom(1, track, 0) == 0;
  }

  // ---------------------------------------------------------------------
  // Part one

  /** `part_one`: the lines of the file are the grid. `None` covers the
      panics, a dead end, exhausted fuel and a ragged grid, which the model
      does not follow. */
  function PartOne(file: string, n: nat, fuel: nat): Option<nat> {
    var grid := Lines(file);
    if !RectangularRows(grid) then None
    else match Racetrack(grid, fuel)
      case None => None
      case Some(track) => Some(Cheats(n, track))
  }

  /** Part one with the corrected count. */
  function PartOneIntended(file: string, n: nat, fuel: nat): Option<nat> {
    var grid := Lines(file);
    if !RectangularRows(grid) then None
    else match Racetrack(grid, fuel)
      case None => None
      case Some(track) => Some(CheatsSaving(n, track))
  }

  /** A compiled check that every row is as long as the first. */
  predicate RectangularRows(grid: seq<string>)
    ensures RectangularRows(grid) <==> Rectangular(grid)
  {
    forall y :: 0 <= y < |grid| ==> |grid[y]| == |grid[0]|
  }

  /** On a track that never revisits a cell, part one as written and as
      intended agree for every even threshold (20 and 100 included). */
  lemma PartOneAgrees(file: string, n: nat, fuel: nat)
    requires n % 2 == 0
    requires Rectangular(Lines(file)) && Racetrack(Lines(file), fuel).Some? ==> Distinct(Racetrack(Lines(file), fuel).value)
    ensures PartOne(file, n, fuel) == PartOneIntended(file, n, fuel)
  {
    var grid := Lines(file);
    if RectangularRows(grid) && Racetrack(grid, fuel).Some? {
      var track := Racetrack(grid, fuel).value;
      EvenThresholdAgrees(n, track);
    }
  }
}

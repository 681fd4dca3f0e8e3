/** Day 8: antennas of the same frequency create antinodes on the line
    through them; count the distinct antinode cells inside the map. */
module Day08 {
  import opened Common

  // ---------------------------------------------------------------------
  // Parsing and antennas

  /** `parse_input`: the non-empty lines, each as often as it occurs; their
      order, which gives the `y` coordinates, is the file's (`RowsRead`). */
  function ParseInput(data: string): (grid: seq<string>)
    ensures forall i :: 0 <= i < |grid| ==> grid[i] != [] && '\n' !in grid[i]
    ensures multiset(grid) == multiset(Split(data, '\n'))[[] := 0]
  {
    NonEmpty(Split(data, '\n'))
  }

  /** A map written one row per line is read back row for row. */
  lemma RowsRead(rows: seq<string>)
    requires forall y :: 0 <= y < |rows| ==> rows[y] != [] && '\n' !in rows[y]
    ensures ParseInput(Join(rows + [[]], '\n')) == rows
  {
    NonEmptyLines(rows);
  }

  /** The antenna cells (anything but `.`) of `row` from column `x`. */
  function RowCells(row: string, y: int, x: nat): (r: seq<(char, Point)>)
    requires x <= |row|
    ensures forall k :: 0 <= k < |r| ==> r[k].1.y == y && x <= r[k].1.x < |row|
    ensures forall k :: 0 <= k < |r| ==> row[r[k].1.x] == r[k].0 != '.'
    ensures forall i, j :: 0 <= i < j < |r| ==> r[i].1 != r[j].1
    decreases |row| - x
  {
    if x == |row| then []
    else (if row[x] != '.' then [(row[x], Point(x, y))] else []) + RowCells(row, y, x + 1)
  }

  /** Every antenna cell from row `y` on, in row-major order. */
  function GridCells(grid: seq<string>, y: nat): (r: seq<(char, Point)>)
    requires y <= |grid|
    ensures forall k :: 0 <= k < |r| ==> InGrid(grid, r[k].1) && y <= r[k].1.y
    ensures forall k :: 0 <= k < |r| ==> At(grid, r[k].1) == r[k].0 != '.'
    ensures forall i, j :: 0 <= i < j < |r| ==> r[i].1 != r[j].1
    decreases |grid| - y
  {
    if y == |grid| then []
    else
      var row := RowCells(grid[y], y, 0);
      var rest := GridCells(grid, y + 1);
      var r := row + rest;
      assert forall k :: 0 <= k < |row| ==> r[k] == row[k];
      assert forall k :: |row| <= k < |r| ==> r[k] == rest[k - |row|];
      r
  }

  lemma {:induction false} RowCellsComplete(row: string, y: int, x: nat, x': nat)
    requires x <= x' < |row| && row[x'] != '.'
    ensures (row[x'], Point(x', y)) in RowCells(row, y, x)
    decreases |row| - x
  {
    if x < x' {
      RowCellsComplete(row, y, x + 1, x');
    }
  }

  /** Every antenna cell is listed. */
  lemma {:induction false} GridCellsComplete(grid: seq<string>, y: nat, p: Point)
    requires y <= p.y && InGrid(grid, p) && At(grid, p) != '.'
    ensures (At(grid, p), p) in GridCells(grid, y)
    decreases |grid| - y
  {
    if y == p.y {
      RowCellsComplete(grid[y], y, 0, p.x);
    } else {
      GridCellsComplete(grid, y + 1, p);
    }
  }

  /** The reference grouping: the positions of frequency `c`, in order. */
  function Of(cells: seq<(char, Point)>, c: char): seq<Point> {
    if cells == [] then []
    else (if cells[0].0 == c then [cells[0].1] else []) + Of(cells[1..], c)
  }

  lemma {:induction false} OfSnoc(cells: seq<(char, Point)>, last: (char, Point), c: char)
    ensures Of(cells + [last], c) == Of(cells, c) + (if last.0 == c then [last.1] else [])
  {
    if cells == [] {
      assert [] + [last] == [last];
    } else {
      var head := if cells[0].0 == c then [cells[0].1] else [];
      assert (cells + [last])[0] == cells[0] && (cells + [last])[1..] == cells[1..] + [last];
      assert Of(cells + [last], c) == head + Of(cells[1..] + [last], c);
      OfSnoc(cells[1..], last, c);
      Regroup(head, Of(cells[1..], c), if last.0 == c then [last.1] else []);
    }
  }

  lemma {:induction false} OfNone(cells: seq<(char, Point)>, c: char)
    requires forall n :: 0 <= n < |cells| ==> cells[n].0 != c
    ensures Of(cells, c) == []
  {
    if cells != [] {
      OfNone(cells[1..], c);
    }
  }

  lemma {:induction false} OfMembers(cells: seq<(char, Point)>, c: char, p: Point)
    ensures p in Of(cells, c) <==> (c, p) in cells
  {
    if cells != [] {
      OfMembers(cells[1..], c, p);
      assert cells == [cells[0]] + cells[1..];
    }
  }

  /** Distinct cells give distinct positions within one frequency. */
  lemma {:induction false} OfDistinct(cells: seq<(char, Point)>, c: char)
    requires forall i, j :: 0 <= i < j < |cells| ==> cells[i].1 != cells[j].1
    ensures forall i, j :: 0 <= i < j < |Of(cells, c)| ==> Of(cells, c)[i] != Of(cells, c)[j]
  {
    if cells != [] {
      var rest := cells[1..];
      OfDistinct(rest, c);
      if cells[0].0 == c {
        var o := Of(cells, c);
        assert o == [cells[0].1] + Of(rest, c);
        forall i, j | 0 <= i < j < |o|
          ensures o[i] != o[j]
        {
          if i == 0 {
            OfMembers(rest, c, o[j]);
            var n :| 0 <= n < |rest| && rest[n] == (c, o[j]);
            assert cells[n + 1].1 == o[j];
          }
        }
      }
    }
  }

  /** `find_antennas`: the cells folded, in order, into a map from each
      frequency to its positions. */
  function Group(cells: seq<(char, Point)>): (r: map<char, seq<Point>>)
    ensures forall c :: c in r <==> exists n :: 0 <= n < |cells| && cells[n].0 == c
    ensures forall c :: c in r ==> r[c] == Of(cells, c)
  {
    if cells == [] then map[]
    else
      var prefix := cells[..|cells| - 1];
      var last := cells[|cells| - 1];
      var m := Group(prefix);
      assert cells == prefix + [last];
      var r := m[last.0 := (if last.0 in m then m[last.0] else []) + [last.1]];
      assert forall c :: c in r ==> r[c] == Of(cells, c) by {
        forall c | c in r
          ensures r[c] == Of(cells, c)
        {
          OfSnoc(prefix, last, c);
          if c !in m {
            OfNone(prefix, c);
          }
        }
      }
      assert forall c :: c in r <==> exists n :: 0 <= n < |cells| && cells[n].0 == c by {
        forall c
          ensures c in r <==> exists n :: 0 <= n < |cells| && cells[n].0 == c
        {
          if c in m {
            var n :| 0 <= n < |prefix| && prefix[n].0 == c;
            assert cells[n].0 == c;
          }
          if exists n :: 0 <= n < |cells| && cells[n].0 == c {
            var n :| 0 <= n < |cells| && cells[n].0 == c;
            if n < |prefix| {
              assert prefix[n].0 == c;
            }
          }
        }
      }
      r
  }

  function FindAntennas(grid: seq<string>): map<char, seq<Point>> {
    Group(GridCells(grid, 0))
  }

  /** Each frequency lists exactly the cells holding it. */
  lemma FindAntennasMeans(grid: seq<string>, c: char, p: Point)
    requires c in FindAntennas(grid)
    ensures p in FindAntennas(grid)[c] <==> InGrid(grid, p) && At(grid, p) == c
  {
    var cells := GridCells(grid, 0);
    OfMembers(cells, c, p);
    if InGrid(grid, p) && At(grid, p) == c {
      assert c != '.' by {
        var n :| 0 <= n < |cells| && cells[n].0 == c;
      }
      GridCellsComplete(grid, 0, p);
    }
  }

  // ---------------------------------------------------------------------
  // Antinodes

  predicate InBox(p: Point, w: int, h: int) {
    0 <= p.x < w && 0 <= p.y < h
  }

  /** `find_antinode_single`: one step beyond each antenna, if on the map. */
  function AntinodeSingle(a1: Point, a2: Point, w: int, h: int): (r: seq<Point>)
    ensures |r| <= 2
    ensures forall p :: p in r <==>
      InBox(p, w, h) && (p == Point(2 * a1.x - a2.x, 2 * a1.y - a2.y) || p == Point(2 * a2.x - a1.x, 2 * a2.y - a1.y))
  {
    var dx := a2.x - a1.x;
    var dy := a2.y - a1.y;
    var first := Point(a1.x - dx, a1.y - dy);
    var second := Point(a2.x + dx, a2.y + dy);
    (if InBox(first, w, h) then [first] else []) + (if InBox(second, w, h) then [second] else [])
  }

  /** The point `k` steps of `d` from `p`. */
  function Along(p: Point, d: Point, k: int): Point {
    Point(p.x + k * d.x, p.y + k * d.y)
  }

  /** How many more steps of `d` can stay on the map; falls at every step. */
  function Room(p: Point, d: Point, w: int, h: int): int {
    if d.x > 0 then w - p.x
    else if d.x < 0 then p.x + 1
    else if d.y > 0 then h - p.y
    else p.y + 1
  }

  /** One loop of `find_antinodes_multiple`: `p`, `p + d`, `p + 2d`, ...
      while on the map. */
  function Ray(p: Point, d: Point, w: int, h: int): (r: seq<Point>)
    requires d != Point(0, 0)
    ensures forall k :: 0 <= k < |r| ==> r[k] == Along(p, d, k) && InBox(r[k], w, h)
    ensures !InBox(Along(p, d, |r|), w, h)
    decreases if InBox(p, w, h) then Room(p, d, w, h) else 0
  {
    if !InBox(p, w, h) then
      assert Along(p, d, 0) == p;
      []
    else
      var q := Point(p.x + d.x, p.y + d.y);
      var rest := Ray(q, d, w, h);
      var r := [p] + rest;
      assert forall k :: 1 <= k < |r| ==> r[k] == rest[k - 1];
      AlongStep(p, d, |rest|);
      assert forall k :: 1 <= k < |r| ==> r[k] == Along(p, d, k) by {
        forall k | 1 <= k < |r|
          ensures r[k] == Along(p, d, k)
        {
          AlongStep(p, d, k - 1);
        }
      }
      r
  }

  lemma AlongStep(p: Point, d: Point, k: int)
    ensures Along(Point(p.x + d.x, p.y + d.y), d, k) == Along(p, d, k + 1)
  {
    assert (k + 1) * d.x == k * d.x + d.x;
    assert (k + 1) * d.y == k * d.y + d.y;
  }

  /** `m·d` lies between 0 and `k·d` for `0 <= m <= k`. */
  lemma Between(m: int, k: int, d: int)
    requires 0 <= m <= k
    ensures if d >= 0 then 0 <= m * d <= k * d else k * d <= m * d <= 0
  {
    if d >= 0 {
      assert k * d == m * d + (k - m) * d;
      assert (k - m) * d >= 0;
      assert m * d >= 0;
    } else {
      assert k * d == m * d + (k - m) * d;
      assert (k - m) * d <= 0;
      assert m * d <= 0;
    }
  }

  /** Once the ray leaves the map it never comes back: the map is convex. */
  lemma {:induction false} RayComplete(p: Point, d: Point, w: int, h: int, k: int)
    requires d != Point(0, 0) && InBox(p, w, h)
    requires 0 <= k && InBox(Along(p, d, k), w, h)
    ensures k < |Ray(p, d, w, h)|
  {
    var m := |Ray(p, d, w, h)|;
    if m <= k {
      Between(m, k, d.x);
      Between(m, k, d.y);
    }
  }

  /** A ray from a point on the map starts with that point. */
  lemma {:induction false} RayStart(p: Point, d: Point, w: int, h: int)
    requires d != Point(0, 0)
    ensures InBox(p, w, h) ==> p in Ray(p, d, w, h)
  {
    if InBox(p, w, h) {
      RayComplete(p, d, w, h, 0);
      assert Along(p, d, 0) == p;
    }
  }

  /** `q` is `p + i·d` for some `i >= 0`. */
  ghost predicate OnRay(p: Point, d: Point, q: Point) {
    exists i :: 0 <= i && q == Along(p, d, i)
  }

  /** A ray from a point on the map holds exactly the on-map points
      `p + i·d`, `i >= 0`. */
  lemma {:induction false} RayMeans(p: Point, d: Point, w: int, h: int, q: Point)
    requires d != Point(0, 0) && InBox(p, w, h)
    ensures q in Ray(p, d, w, h) <==> InBox(q, w, h) && OnRay(p, d, q)
  {
    var r := Ray(p, d, w, h);
    if q in r {
      var i :| 0 <= i < |r| && r[i] == q;
      assert q == Along(p, d, i);
    }
    if InBox(q, w, h) && exists i :: 0 <= i && q == Along(p, d, i) {
      var i :| 0 <= i && q == Along(p, d, i);
      RayComplete(p, d, w, h, i);
      assert r[i] == q;
    }
  }

  /** The step from `a1` to `a2`. */
  function Gap(a1: Point, a2: Point): Point {
    Point(a2.x - a1.x, a2.y - a1.y)
  }

  function Neg(d: Point): Point {
    Point(-d.x, -d.y)
  }

  /** `find_antinodes_multiple`: the ray back from `a1` and the ray on from
      `a2`, each starting at the antenna itself. */
  function AntinodesMultiple(a1: Point, a2: Point, w: int, h: int): (r: seq<Point>)
    requires a1 != a2
    ensures forall p :: p in r ==> InBox(p, w, h)
    ensures InBox(a1, w, h) ==> a1 in r
    ensures InBox(a2, w, h) ==> a2 in r
  {
    var d := Gap(a1, a2);
    assert d != Point(0, 0) && Neg(d) != Point(0, 0);
    var back := Ray(a1, Neg(d), w, h);
    var on := Ray(a2, d, w, h);
    assert InBox(a1, w, h) ==> a1 in back by {
      RayStart(a1, Neg(d), w, h);
    }
    assert InBox(a2, w, h) ==> a2 in on by {
      RayStart(a2, d, w, h);
    }
    back + on
  }

  /** The points of `find_antinodes_multiple` are exactly the on-map points
      `a1 - i·d` and `a2 + i·d`, `i >= 0`, where `d` is the step from `a1` to
      `a2`. */
  lemma AntinodesMultipleMeans(a1: Point, a2: Point, w: int, h: int, p: Point)
    requires a1 != a2 && InBox(a1, w, h) && InBox(a2, w, h)
    ensures p in AntinodesMultiple(a1, a2, w, h) <==>
      InBox(p, w, h) && (OnRay(a1, Neg(Gap(a1, a2)), p) || OnRay(a2, Gap(a1, a2), p))
  {
    RayMeans(a1, Neg(Gap(a1, a2)), w, h, p);
    RayMeans(a2, Gap(a1, a2), w, h, p);
  }

  /** Both single antinodes are among the multiple ones (one step out). */
  lemma SingleWithinMultiple(a1: Point, a2: Point, w: int, h: int, p: Point)
    requires a1 != a2 && InBox(a1, w, h) && InBox(a2, w, h)
    requires p in AntinodeSingle(a1, a2, w, h)
    ensures p in AntinodesMultiple(a1, a2, w, h)
  {
    var d := Gap(a1, a2);
    AntinodesMultipleMeans(a1, a2, w, h, p);
    if p == Point(2 * a1.x - a2.x, 2 * a1.y - a2.y) {
      assert p == Along(a1, Neg(d), 1);
    } else {
      assert p == Along(a2, d, 1);
    }
  }

  // ---------------------------------------------------------------------
  // Counting

  /** Antenna lists as `find_antennas` produces them: distinct positions on
      the map. */
  ghost predicate ValidAntennas(m: map<char, seq<Point>>, w: int, h: int) {
    forall c :: c in m ==>
      (forall i, j :: 0 <= i < j < |m[c]| ==> m[c][i] != m[c][j])
      && (forall i :: 0 <= i < |m[c]| ==> InBox(m[c][i], w, h))
  }

  function Nodes(a1: Point, a2: Point, w: int, h: int, multiple: bool): seq<Point>
    requires a1 != a2
  {
    if multiple then AntinodesMultiple(a1, a2, w, h) else AntinodeSingle(a1, a2, w, h)
  }

  /** The cells `either_part` marks: the antinodes of every pair of antennas
      of one frequency, taken in list order (`i < j`). */
  function Antinodes(m: map<char, seq<Point>>, w: int, h: int, multiple: bool): (r: set<Point>)
    requires ValidAntennas(m, w, h)
    ensures forall p :: p in r ==> InBox(p, w, h)
  {
    set c, i, j, p | c in m && 0 <= i < j < |m[c]| && p in Nodes(m[c][i], m[c][j], w, h, multiple) :: p
  }

  /** A non-empty map whose rows all have as many cells as there are rows;
      the marking array is indexed `[x][y]`, so it must be square. */
  ghost predicate Square(grid: seq<string>) {
    |grid| > 0 && forall y :: 0 <= y < |grid| ==> |grid[y]| == |grid|
  }

  lemma AntennasValid(grid: seq<string>)
    requires Square(grid)
    ensures ValidAntennas(FindAntennas(grid), |grid[0]|, |grid|)
  {
    var cells := GridCells(grid, 0);
    var m := FindAntennas(grid);
    forall c | c in m
      ensures (forall i, j :: 0 <= i < j < |m[c]| ==> m[c][i] != m[c][j])
      ensures (forall i :: 0 <= i < |m[c]| ==> InBox(m[c][i], |grid[0]|, |grid|))
    {
      OfDistinct(cells, c);
      forall i | 0 <= i < |m[c]|
        ensures InBox(m[c][i], |grid[0]|, |grid|)
      {
        OfMembers(cells, c, m[c][i]);
      }
    }
  }

  function EitherPart(grid: seq<string>, multiple: bool): nat
    requires Square(grid)
  {
    AntennasValid(grid);
    |Antinodes(FindAntennas(grid), |grid[0]|, |grid|, multiple)|
  }

  function PartOne(data: string): nat
    requires Square(ParseInput(data))
  {
    EitherPart(ParseInput(data), false)
  }

  function PartTwo(data: string): nat
    requires Square(ParseInput(data))
  {
    EitherPart(ParseInput(data), true)
  }

  /** Every single antinode is also a resonant one, so part one never
      exceeds part two. */
  lemma PartOneAtMostPartTwo(data: string)
    requires Square(ParseInput(data))
    ensures PartOne(data) <= PartTwo(data)
  {
    var grid := ParseInput(data);
    var w, h := |grid[0]|, |grid|;
    AntennasValid(grid);
    var m := FindAntennas(grid);
    var single := Antinodes(m, w, h, false);
    var multi := Antinodes(m, w, h, true);
    forall p | p in single
      ensures p in multi
    {
      var c, i, j :| c in m && 0 <= i < j < |m[c]| && p in Nodes(m[c][i], m[c][j], w, h, false);
      SingleWithinMultiple(m[c][i], m[c][j], w, h, p);
      assert p in Nodes(m[c][i], m[c][j], w, h, true);
    }
    SubsetCard(single, multi);
  }
}

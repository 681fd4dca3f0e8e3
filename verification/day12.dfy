/** Day 12: a garden of plants, one character per plot. A region is a
    connected patch of one plant; its price is its area times its
    perimeter, and the answer is the total price of all regions. Regions are
    found by a recursive flood fill that marks plots in a shared mask. */
module Day12 {
  import opened Common

  /** `parse_input`: the non-empty lines, as rows of characters, each as
      often as it occurs; their order, which gives the `y` coordinates, is
      the file's (`RowsRead`). */
  function ParseInput(file: string): (grid: seq<string>)
    ensures forall y :: 0 <= y < |grid| ==> grid[y] != [] && grid[y] in Split(file, '\n')
    ensures forall l :: l in Split(file, '\n') && l != [] ==> l in grid
    ensures multiset(grid) == multiset(Split(file, '\n'))[[] := 0]
  {
    NonEmpty(Split(file, '\n'))
  }

  /** A garden written one row per line is read back row for row. */
  lemma RowsRead(rows: seq<string>)
    requires forall y :: 0 <= y < |rows| ==> rows[y] != [] && '\n' !in rows[y]
    ensures ParseInput(Join(rows + [[]], '\n')) == rows
  {
    NonEmptyLines(rows);
  }

  // ---------------------------------------------------------------------
  // Plots and neighbours

  ghost function Cells(grid: seq<string>): set<Point> {
    set y, x | 0 <= y < |grid| && 0 <= x < |grid[y]| :: Point(x, y)
  }

  lemma InCells(grid: seq<string>, p: Point)
    ensures p in Cells(grid) <==> InGrid(grid, p)
  {
    if InGrid(grid, p) {
      assert Point(p.x, p.y) == p;
    }
  }

  /** The `directions` of `fill_region`: left, right, up, down, each only
      when it stays on the grid. */
  function Neighbours(grid: seq<string>, p: Point): (r: seq<Point>)
    requires Rectangular(grid) && InGrid(grid, p)
    ensures forall i :: 0 <= i < |r| ==> InGrid(grid, r[i])
    ensures forall q :: q in r <==> InGrid(grid, q) && Adjacent(p, q)
  {
    assert forall q :: Adjacent(p, q) <==>
      q == Point(p.x - 1, p.y) || q == Point(p.x + 1, p.y) || q == Point(p.x, p.y - 1) || q == Point(p.x, p.y + 1)
    by {
      forall q {
        AdjacentMeans(p, q);
      }
    }
    (if p.x > 0 then [Point(p.x - 1, p.y)] else [])
    + (if p.x < |grid[p.y]| - 1 then [Point(p.x + 1, p.y)] else [])
    + (if p.y > 0 then [Point(p.x, p.y - 1)] else [])
    + (if p.y < |grid| - 1 then [Point(p.x, p.y + 1)] else [])
  }

  /** How many of the listed plots grow `plant`. */
  function SameCount(grid: seq<string>, plant: char, dirs: seq<Point>): nat
    requires forall i :: 0 <= i < |dirs| ==> InGrid(grid, dirs[i])
  {
    if dirs == [] then 0
    else (if At(grid, dirs[0]) == plant then 1 else 0) + SameCount(grid, plant, dirs[1..])
  }

  /** The fence segments around one plot: one per side that does not face
      a plot of the same plant. */
  function Fences(grid: seq<string>, c: Point): int
    requires Rectangular(grid) && InGrid(grid, c)
  {
    4 - SameCount(grid, At(grid, c), Neighbours(grid, c))
  }

  /** The perimeter of a set of plots: the sum of their fences. */
  ghost function Sides(grid: seq<string>, s: set<Point>): int
    requires Rectangular(grid) && s <= Cells(grid)
    decreases s
  {
    if s == {} then 0
    else
      var c :| c in s;
      InCells(grid, c);
      Fences(grid, c) + Sides(grid, s - {c})
  }

  lemma {:induction false} SidesRemove(grid: seq<string>, s: set<Point>, c: Point)
    requires Rectangular(grid) && s <= Cells(grid) && c in s
    ensures InGrid(grid, c) && Sides(grid, s) == Fences(grid, c) + Sides(grid, s - {c})
    decreases s
  {
    InCells(grid, c);
    var d :| d in s && InGrid(grid, d) && Sides(grid, s) == Fences(grid, d) + Sides(grid, s - {d});
    if d != c {
      SidesRemove(grid, s - {d}, c);
      SidesRemove(grid, s - {c}, d);
      assert s - {d} - {c} == s - {c} - {d};
    }
  }

  /** The perimeter of two disjoint sets of plots is the sum of theirs. */
  lemma {:induction false} SidesUnion(grid: seq<string>, a: set<Point>, b: set<Point>)
    requires Rectangular(grid) && a <= Cells(grid) && b <= Cells(grid) && a * b == {}
    ensures Sides(grid, a + b) == Sides(grid, a) + Sides(grid, b)
    decreases a
  {
    if a == {} {
      assert a + b == b;
    } else {
      var c :| c in a;
      assert c !in b by {
        assert c !in a * b;
      }
      RemoveFromUnion(a, b, c);
      SidesRemove(grid, a + b, c);
      SidesRemove(grid, a, c);
      SidesUnion(grid, a - {c}, b);
    }
  }

  lemma RemoveFromUnion<T>(a: set<T>, b: set<T>, c: T)
    requires c !in b
    ensures (a + b) - {c} == (a - {c}) + b
  {
  }

  // ---------------------------------------------------------------------
  // The flood fill

  /** The mask after a fill, and the area and perimeter it reports. */
  datatype Region = Region(mask: set<Point>, area: int, perimeter: int)

  /** Marking a fresh plot brings the measure of the fill down. */
  lemma Shrinks(c: set<Point>, a: set<Point>, b: set<Point>, p: Point)
    requires a <= b && p in c && p in b && p !in a
    ensures |c - b| < |c - a|
  {
    var big, small := c - a, c - b;
    assert small <= big && p in big - small;
    assert big == small + (big - small);
    assert |big - small| >= 1;
  }

  /** `fill_region`: mark `p`, then look at its neighbours in order. */
  function FillRegion(plant: char, grid: seq<string>, mask: set<Point>, p: Point): (r: Region)
    requires Rectangular(grid) && mask <= Cells(grid)
    requires InGrid(grid, p) && p !in mask
    ensures mask + {p} <= r.mask <= Cells(grid)
    decreases |Cells(grid) - mask|, 0, 0
  {
    InCells(grid, p);
    Shrinks(Cells(grid), mask, mask + {p}, p);
    var d := FillDirs(plant, grid, mask + {p}, Neighbours(grid, p));
    Region(d.mask, 1 + d.area, 4 + d.perimeter)
  }

  /** The `for` loop over the directions: each neighbour first takes one
      fence segment away, gives it back if it grows another plant, and is
      filled in turn if it grows the same plant and is still unmarked. */
  function FillDirs(plant: char, grid: seq<string>, mask: set<Point>, dirs: seq<Point>): (r: Region)
    requires Rectangular(grid) && mask <= Cells(grid)
    requires forall i :: 0 <= i < |dirs| ==> InGrid(grid, dirs[i])
    ensures mask <= r.mask <= Cells(grid)
    decreases |Cells(grid) - mask|, 1, |dirs|
  {
    if dirs == [] then Region(mask, 0, 0)
    else
      var q := dirs[0];
      if At(grid, q) != plant then
        var b := FillDirs(plant, grid, mask, dirs[1..]);
        Region(b.mask, b.area, b.perimeter - 1 + 1)
      else if q !in mask then
        var a := FillRegion(plant, grid, mask, q);
        InCells(grid, q);
        Shrinks(Cells(grid), mask, a.mask, q);
        var b := FillDirs(plant, grid, a.mask, dirs[1..]);
        Region(b.mask, a.area + b.area, a.perimeter + b.perimeter - 1)
      else
        var b := FillDirs(plant, grid, mask, dirs[1..]);
        Region(b.mask, b.area, b.perimeter - 1)
  }

  // ---------------------------------------------------------------------
  // What a fill reports

  /** The area is the number of plots the fill marked, and the perimeter
      is the sum of their fences. */
  lemma {:induction false} RegionCounts(plant: char, grid: seq<string>, mask: set<Point>, p: Point)
    requires Rectangular(grid) && mask <= Cells(grid)
    requires InGrid(grid, p) && p !in mask && At(grid, p) == plant
    ensures var r := FillRegion(plant, grid, mask, p);
      r.area == |r.mask - mask| && r.perimeter == Sides(grid, r.mask - mask)
    decreases |Cells(grid) - mask|, 0, 0, 0
  {
    InCells(grid, p);
    Shrinks(Cells(grid), mask, mask + {p}, p);
    var dirs := Neighbours(grid, p);
    var d := FillDirs(plant, grid, mask + {p}, dirs);
    DirsCounts(plant, grid, mask + {p}, dirs);
    var r := d.mask - mask;
    assert r - {p} == d.mask - (mask + {p});
    assert r == (r - {p}) + {p};
    SidesRemove(grid, r, p);
  }

  lemma {:induction false} DirsCounts(plant: char, grid: seq<string>, mask: set<Point>, dirs: seq<Point>)
    requires Rectangular(grid) && mask <= Cells(grid)
    requires forall i :: 0 <= i < |dirs| ==> InGrid(grid, dirs[i])
    ensures var r := FillDirs(plant, grid, mask, dirs);
      r.area == |r.mask - mask| && r.perimeter + SameCount(grid, plant, dirs) == Sides(grid, r.mask - mask)
    decreases |Cells(grid) - mask|, 1, |dirs|, 1
  {
    if dirs != [] {
      var q := dirs[0];
      if At(grid, q) != plant || q in mask {
        DirsCounts(plant, grid, mask, dirs[1..]);
      } else {
        DirsCountsFill(plant, grid, mask, dirs);
      }
    }
  }

  /** The case of `DirsCounts` where the first neighbour starts a fill. */
  lemma {:induction false} DirsCountsFill(plant: char, grid: seq<string>, mask: set<Point>, dirs: seq<Point>)
    requires Rectangular(grid) && mask <= Cells(grid)
    requires forall i :: 0 <= i < |dirs| ==> InGrid(grid, dirs[i])
    requires dirs != [] && At(grid, dirs[0]) == plant && dirs[0] !in mask
    ensures var r := FillDirs(plant, grid, mask, dirs);
      r.area == |r.mask - mask| && r.perimeter + SameCount(grid, plant, dirs) == Sides(grid, r.mask - mask)
    decreases |Cells(grid) - mask|, 1, |dirs|, 0
  {
    var q := dirs[0];
    var a := FillRegion(plant, grid, mask, q);
    InCells(grid, q);
    Shrinks(Cells(grid), mask, a.mask, q);
    RegionCounts(plant, grid, mask, q);
    DirsCounts(plant, grid, a.mask, dirs[1..]);
    var b := FillDirs(plant, grid, a.mask, dirs[1..]);
    SplitGrowth(mask, a.mask, b.mask);
    SidesUnion(grid, a.mask - mask, b.mask - a.mask);
  }

  /** What two nested growths of a mask marked, taken together. */
  lemma SplitGrowth<T>(mask: set<T>, middle: set<T>, last: set<T>)
    requires mask <= middle <= last
    ensures last - mask == (middle - mask) + (last - middle)
    ensures (middle - mask) * (last - middle) == {}
    ensures |last - mask| == |middle - mask| + |last - middle|
  {
    assert last - mask == (middle - mask) + (last - middle);
  }

  /** Every plot a fill marks grows `plant`, and every same-plant
      neighbour of such a plot ends up marked. */
  lemma {:induction false} RegionShape(plant: char, grid: seq<string>, mask: set<Point>, p: Point)
    requires Rectangular(grid) && mask <= Cells(grid)
    requires InGrid(grid, p) && p !in mask && At(grid, p) == plant
    ensures var r := FillRegion(plant, grid, mask, p);
      (forall c :: c in r.mask - mask ==> InGrid(grid, c) && At(grid, c) == plant)
      && (forall c, q :: c in r.mask - mask && InGrid(grid, q) && Adjacent(c, q) && At(grid, q) == plant ==> q in r.mask)
    decreases |Cells(grid) - mask|, 0, 0
  {
    InCells(grid, p);
    Shrinks(Cells(grid), mask, mask + {p}, p);
    var dirs := Neighbours(grid, p);
    DirsShape(plant, grid, mask + {p}, dirs);
    var r := FillRegion(plant, grid, mask, p);
    forall c, q | c in r.mask - mask && InGrid(grid, q) && Adjacent(c, q) && At(grid, q) == plant
      ensures q in r.mask
    {
      if c == p {
        assert q in dirs;
      }
    }
  }

  lemma {:induction false} DirsShape(plant: char, grid: seq<string>, mask: set<Point>, dirs: seq<Point>)
    requires Rectangular(grid) && mask <= Cells(grid)
    requires forall i :: 0 <= i < |dirs| ==> InGrid(grid, dirs[i])
    ensures var r := FillDirs(plant, grid, mask, dirs);
      (forall c :: c in r.mask - mask ==> InGrid(grid, c) && At(grid, c) == plant)
      && (forall c, q :: c in r.mask - mask && InGrid(grid, q) && Adjacent(c, q) && At(grid, q) == plant ==> q in r.mask)
      && (forall q :: q in dirs && At(grid, q) == plant ==> q in r.mask)
    decreases |Cells(grid) - mask|, 1, |dirs|
  {
    if dirs != [] {
      var q := dirs[0];
      assert forall x :: x in dirs ==> x == q || x in dirs[1..];
      if At(grid, q) != plant || q in mask {
        DirsShape(plant, grid, mask, dirs[1..]);
      } else {
        var a := FillRegion(plant, grid, mask, q);
        InCells(grid, q);
        Shrinks(Cells(grid), mask, a.mask, q);
        RegionShape(plant, grid, mask, q);
        DirsShape(plant, grid, a.mask, dirs[1..]);
      }
    }
  }

  /** A path through `s`, one orthogonal step at a time. */
  ghost predicate Walk(s: set<Point>, path: seq<Point>) {
    |path| >= 1
    && (forall i :: 0 <= i < |path| ==> path[i] in s)
    && (forall i, j :: 0 <= i && j == i + 1 && j < |path| ==> Adjacent(path[i], path[j]))
  }

  ghost predicate Linked(s: set<Point>, a: Point, c: Point) {
    exists path :: Walk(s, path) && path[0] == a && path[|path| - 1] == c
  }

  lemma LinkedSelf(s: set<Point>, a: Point)
    requires a in s
    ensures Linked(s, a, a)
  {
    assert Walk(s, [a]);
  }

  lemma LinkedGrow(s: set<Point>, t: set<Point>, a: Point, c: Point)
    requires s <= t && Linked(s, a, c)
    ensures Linked(t, a, c)
  {
    var path :| Walk(s, path) && path[0] == a && path[|path| - 1] == c;
    assert Walk(t, path);
  }

  lemma LinkedPrepend(s: set<Point>, a: Point, b: Point, c: Point)
    requires a in s && Adjacent(a, b) && Linked(s, b, c)
    ensures Linked(s, a, c)
  {
    var path :| Walk(s, path) && path[0] == b && path[|path| - 1] == c;
    var longer := [a] + path;
    assert forall i :: 1 <= i < |longer| ==> longer[i] == path[i - 1];
    assert longer[1] == b;
    assert Walk(s, longer);
  }

  /** Every plot of `s` is joined to `root` inside `s`. */
  ghost predicate FromOne(s: set<Point>, root: Point) {
    forall c {:trigger Linked(s, root, c)} :: c in s ==> Linked(s, root, c)
  }

  /** Every plot of `s` is joined inside `s` to one of `roots`. */
  ghost predicate FromSome(s: set<Point>, roots: seq<Point>) {
    forall c {:trigger LinkedToSome(s, roots, c)} :: c in s ==> LinkedToSome(s, roots, c)
  }

  ghost predicate LinkedToSome(s: set<Point>, roots: seq<Point>, c: Point) {
    exists i :: 0 <= i < |roots| && Linked(s, roots[i], c)
  }

  /** Marking `p` in front of plots joined to its neighbours joins them all to `p`. */
  lemma LinkStart(p: Point, dirs: seq<Point>, inner: set<Point>)
    requires forall i :: 0 <= i < |dirs| ==> Adjacent(p, dirs[i])
    requires FromSome(inner, dirs)
    ensures FromOne(inner + {p}, p)
  {
    var outer := inner + {p};
    forall c | c in outer
      ensures Linked(outer, p, c)
    {
      if c == p {
        LinkedSelf(outer, p);
      } else {
        assert LinkedToSome(inner, dirs, c);
        var i :| 0 <= i < |dirs| && Linked(inner, dirs[i], c);
        LinkedGrow(inner, outer, dirs[i], c);
        LinkedPrepend(outer, p, dirs[i], c);
      }
    }
  }

  /** Skipping the first root keeps the rest of the roots in play. */
  lemma LinkSkip(dirs: seq<Point>, s: set<Point>)
    requires dirs != [] && FromSome(s, dirs[1..])
    ensures FromSome(s, dirs)
  {
    forall c | c in s
      ensures LinkedToSome(s, dirs, c)
    {
      assert LinkedToSome(s, dirs[1..], c);
      var i :| 0 <= i < |dirs[1..]| && Linked(s, dirs[1..][i], c);
      assert Linked(s, dirs[i + 1], c);
    }
  }

  /** The plots of the first root's fill and of the later roots' fills. */
  lemma LinkJoin(dirs: seq<Point>, first: set<Point>, second: set<Point>)
    requires dirs != [] && FromOne(first, dirs[0]) && FromSome(second, dirs[1..])
    ensures FromSome(first + second, dirs)
  {
    var s := first + second;
    forall c | c in s
      ensures LinkedToSome(s, dirs, c)
    {
      if c in first {
        assert Linked(first, dirs[0], c);
        LinkedGrow(first, s, dirs[0], c);
      } else {
        assert LinkedToSome(second, dirs[1..], c);
        var i :| 0 <= i < |dirs[1..]| && Linked(second, dirs[1..][i], c);
        LinkedGrow(second, s, dirs[i + 1], c);
      }
    }
  }

  /** Every plot a fill marks is joined to its start through marked plots. */
  lemma {:induction false} RegionLinked(plant: char, grid: seq<string>, mask: set<Point>, p: Point)
    requires Rectangular(grid) && mask <= Cells(grid)
    requires InGrid(grid, p) && p !in mask
    ensures var r := FillRegion(plant, grid, mask, p);
      FromOne(r.mask - mask, p)
    decreases |Cells(grid) - mask|, 0, 0
  {
    InCells(grid, p);
    Shrinks(Cells(grid), mask, mask + {p}, p);
    var dirs := Neighbours(grid, p);
    DirsLinked(plant, grid, mask + {p}, dirs);
    var d := FillDirs(plant, grid, mask + {p}, dirs);
    assert forall i :: 0 <= i < |dirs| ==> dirs[i] in dirs;
    LinkStart(p, dirs, d.mask - (mask + {p}));
    assert d.mask - (mask + {p}) + {p} == d.mask - mask;
  }

  lemma {:induction false} DirsLinked(plant: char, grid: seq<string>, mask: set<Point>, dirs: seq<Point>)
    requires Rectangular(grid) && mask <= Cells(grid)
    requires forall i :: 0 <= i < |dirs| ==> InGrid(grid, dirs[i])
    ensures var r := FillDirs(plant, grid, mask, dirs);
      FromSome(r.mask - mask, dirs)
    decreases |Cells(grid) - mask|, 1, |dirs|
  {
    if dirs != [] {
      var q := dirs[0];
      var r := FillDirs(plant, grid, mask, dirs);
      if At(grid, q) != plant || q in mask {
        DirsLinked(plant, grid, mask, dirs[1..]);
        LinkSkip(dirs, r.mask - mask);
      } else {
        var a := FillRegion(plant, grid, mask, q);
        InCells(grid, q);
        Shrinks(Cells(grid), mask, a.mask, q);
        RegionLinked(plant, grid, mask, q);
        DirsLinked(plant, grid, a.mask, dirs[1..]);
        var b := FillDirs(plant, grid, a.mask, dirs[1..]);
        assert r.mask == b.mask;
        LinkJoin(dirs, a.mask - mask, b.mask - a.mask);
        assert r.mask - mask == (a.mask - mask) + (b.mask - a.mask);
      }
    }
  }

  // ---------------------------------------------------------------------
  // Regions

  /** Every same-plant neighbour of a plot in `s` is in `s`. */
  ghost predicate Closed(grid: seq<string>, s: set<Point>) {
    forall c, q :: c in s && InGrid(grid, c) && InGrid(grid, q) && Adjacent(c, q) && At(grid, q) == At(grid, c) ==> q in s
  }

  /** Every plot of `s` grows the plant of `root` and is joined to it
      inside `s`. */
  ghost predicate Rooted(grid: seq<string>, s: set<Point>, root: Point) {
    root in s && InGrid(grid, root) && FromOne(s, root)
    && forall c :: c in s ==> InGrid(grid, c) && At(grid, c) == At(grid, root)
  }

  /** A region: plots of one plant, joined through each other, with no
      same-plant neighbour left outside. */
  ghost predicate Component(grid: seq<string>, s: set<Point>) {
    s <= Cells(grid) && Closed(grid, s) && exists root :: Rooted(grid, s, root)
  }

  /** Adding plots of one plant whose same-plant neighbours are all marked
      to a closed mask leaves both the addition and the new mask closed. */
  lemma ClosedStep(grid: seq<string>, mask: set<Point>, full: set<Point>, plant: char)
    requires Closed(grid, mask) && mask <= full
    requires forall c :: c in full - mask ==> InGrid(grid, c) && At(grid, c) == plant
    requires forall c, q :: c in full - mask && InGrid(grid, q) && Adjacent(c, q) && At(grid, q) == plant ==> q in full
    ensures Closed(grid, full - mask) && Closed(grid, full)
  {
    var s := full - mask;
    forall c, q | c in s && InGrid(grid, c) && InGrid(grid, q) && Adjacent(c, q) && At(grid, q) == At(grid, c)
      ensures q in s
    {
      if q in mask {
        assert Adjacent(q, c);
      }
    }
  }

  /** Filling from an unmarked plot when the marked plots are closed marks
      exactly one whole region, and reports its area and perimeter. */
  lemma {:induction false} FillComponent(grid: seq<string>, mask: set<Point>, p: Point)
    requires Rectangular(grid) && mask <= Cells(grid) && Closed(grid, mask)
    requires InGrid(grid, p) && p !in mask
    ensures var r := FillRegion(At(grid, p), grid, mask, p);
      Component(grid, r.mask - mask) && Closed(grid, r.mask)
      && r.area == |r.mask - mask| && r.perimeter == Sides(grid, r.mask - mask)
  {
    var plant := At(grid, p);
    var r := FillRegion(plant, grid, mask, p);
    var s := r.mask - mask;
    RegionCounts(plant, grid, mask, p);
    RegionShape(plant, grid, mask, p);
    RegionLinked(plant, grid, mask, p);
    ClosedStep(grid, mask, r.mask, plant);
    assert Rooted(grid, s, p);
  }

  /** The union of the regions found so far. */
  ghost function Union(regions: seq<set<Point>>): set<Point> {
    if regions == [] then {} else Union(regions[..|regions| - 1]) + regions[|regions| - 1]
  }

  lemma {:induction false} UnionHolds(regions: seq<set<Point>>, i: nat)
    requires i < |regions|
    ensures regions[i] <= Union(regions)
    decreases |regions|
  {
    if i < |regions| - 1 {
      UnionHolds(regions[..|regions| - 1], i);
    }
  }

  /** The price of a list of regions: area times perimeter, summed. */
  ghost function Price(grid: seq<string>, regions: seq<set<Point>>): int
    requires Rectangular(grid)
    requires forall i :: 0 <= i < |regions| ==> regions[i] <= Cells(grid)
  {
    if regions == [] then 0
    else
      var last := regions[|regions| - 1];
      Price(grid, regions[..|regions| - 1]) + |last| * Sides(grid, last)
  }

  /** The regions found so far: disjoint, whole, and marked. */
  ghost predicate Found(grid: seq<string>, mask: set<Point>, regions: seq<set<Point>>) {
    Rectangular(grid) && mask <= Cells(grid) && Closed(grid, mask)
    && mask == Union(regions)
    && (forall i :: 0 <= i < |regions| ==> Component(grid, regions[i]))
    && (forall i, j :: 0 <= i < |regions| && 0 <= j < |regions| && i != j ==> regions[i] * regions[j] == {})
  }

  /** Adding a freshly filled region keeps the bookkeeping right. */
  lemma {:induction false} FoundGrows(grid: seq<string>, mask: set<Point>, regions: seq<set<Point>>, next: set<Point>)
    requires Found(grid, mask, regions)
    requires Component(grid, next) && next * mask == {} && Closed(grid, mask + next)
    ensures Found(grid, mask + next, regions + [next])
    ensures Price(grid, regions + [next]) == Price(grid, regions) + |next| * Sides(grid, next)
  {
    var longer := regions + [next];
    assert longer[..|longer| - 1] == regions;
    forall i | 0 <= i < |regions|
      ensures regions[i] * next == {}
    {
      UnionHolds(regions, i);
    }
  }

  /** `part_one`: scan the plots row by row; each unmarked plot starts a
      new region, whose price is added. The regions found partition the
      garden into its plant components. */
  method PartOne(file: string) returns (price: int, regions: seq<set<Point>>)
    requires Rectangular(ParseInput(file))
    ensures var grid := ParseInput(file);
      (forall i :: 0 <= i < |regions| ==> Component(grid, regions[i]))
      && (forall i, j :: 0 <= i < |regions| && 0 <= j < |regions| && i != j ==> regions[i] * regions[j] == {})
      && Union(regions) == Cells(grid)
      && price == Price(grid, regions)
  {
    var grid := ParseInput(file);
    var mask: set<Point> := {};
    price, regions := 0, [];
    var y := 0;
    while y < |grid|
      invariant 0 <= y <= |grid|
      invariant Found(grid, mask, regions) && price == Price(grid, regions)
      invariant Scanned(grid, mask, y, 0)
    {
      mask, regions, price := ScanRow(grid, y, mask, regions, price);
      y := y + 1;
    }
    ScannedAll(grid, mask);
  }

  /** The inner loop of `part_one`, over the plots of row `y`. */
  method ScanRow(grid: seq<string>, y: nat, mask0: set<Point>, regions0: seq<set<Point>>, price0: int)
    returns (mask: set<Point>, regions: seq<set<Point>>, price: int)
    requires y < |grid| && Found(grid, mask0, regions0) && price0 == Price(grid, regions0)
    requires Scanned(grid, mask0, y, 0)
    ensures Found(grid, mask, regions) && price == Price(grid, regions)
    ensures Scanned(grid, mask, y + 1, 0)
  {
    mask, regions, price := mask0, regions0, price0;
    var x := 0;
    while x < |grid[y]|
      invariant 0 <= x <= |grid[y]|
      invariant Found(grid, mask, regions) && price == Price(grid, regions)
      invariant Scanned(grid, mask, y, x)
    {
      mask, regions, price := ScanPlot(grid, y, x, mask, regions, price);
      x := x + 1;
    }
    ScannedRow(grid, mask, y);
  }

  /** The body of the inner loop: fill from an unmarked plot, skip a
      marked one. */
  method ScanPlot(grid: seq<string>, y: nat, x: nat, mask0: set<Point>, regions0: seq<set<Point>>, price0: int)
    returns (mask: set<Point>, regions: seq<set<Point>>, price: int)
    requires y < |grid| && x < |grid[y]| && Found(grid, mask0, regions0) && price0 == Price(grid, regions0)
    requires Scanned(grid, mask0, y, x)
    ensures Found(grid, mask, regions) && price == Price(grid, regions)
    ensures Scanned(grid, mask, y, x + 1)
  {
    mask, regions, price := mask0, regions0, price0;
    if Point(x, y) !in mask {
      var r := FillRegion(grid[y][x], grid, mask, Point(x, y));
      Visit(grid, mask, regions, y, x);
      price := price + r.area * r.perimeter;
      regions := regions + [r.mask - mask];
      mask := r.mask;
    } else {
      ScannedNext(grid, mask, y, x);
    }
  }

  /** One plot of the scan that starts a new region. */
  lemma {:induction false} Visit(grid: seq<string>, mask: set<Point>, regions: seq<set<Point>>, y: nat, x: nat)
    requires Found(grid, mask, regions) && Scanned(grid, mask, y, x)
    requires InGrid(grid, Point(x, y)) && Point(x, y) !in mask
    ensures var r := FillRegion(grid[y][x], grid, mask, Point(x, y));
      Found(grid, r.mask, regions + [r.mask - mask])
      && Price(grid, regions + [r.mask - mask]) == Price(grid, regions) + r.area * r.perimeter
      && Scanned(grid, r.mask, y, x + 1)
  {
    var r := FillRegion(grid[y][x], grid, mask, Point(x, y));
    var next := r.mask - mask;
    FillComponent(grid, mask, Point(x, y));
    FoundGrows(grid, mask, regions, next);
    Regrow(mask, r.mask);
    ScannedGrows(grid, mask, r.mask, y, x);
    ScannedNext(grid, r.mask, y, x);
  }

  /** A mask and what was added to it make up the grown mask. */
  lemma Regrow<T>(mask: set<T>, grown: set<T>)
    requires mask <= grown
    ensures mask + (grown - mask) == grown
  {
  }

  /** Every plot before column `x` of row `y`, in reading order, is marked. */
  ghost predicate Scanned(grid: seq<string>, mask: set<Point>, y: nat, x: nat) {
    (forall y', x' :: 0 <= y' < y && y' < |grid| && 0 <= x' < |grid[y']| ==> Point(x', y') in mask)
    && (y < |grid| ==> forall x' :: 0 <= x' < x && x' < |grid[y]| ==> Point(x', y) in mask)
  }

  lemma ScannedGrows(grid: seq<string>, mask: set<Point>, more: set<Point>, y: nat, x: nat)
    requires Scanned(grid, mask, y, x) && mask <= more
    ensures Scanned(grid, more, y, x)
  {
  }

  lemma ScannedNext(grid: seq<string>, mask: set<Point>, y: nat, x: nat)
    requires Scanned(grid, mask, y, x) && Point(x, y) in mask
    ensures Scanned(grid, mask, y, x + 1)
  {
  }

  lemma ScannedRow(grid: seq<string>, mask: set<Point>, y: nat)
    requires y < |grid| && Scanned(grid, mask, y, |grid[y]|)
    ensures Scanned(grid, mask, y + 1, 0)
  {
  }

  lemma ScannedAll(grid: seq<string>, mask: set<Point>)
    requires Scanned(grid, mask, |grid|, 0) && mask <= Cells(grid)
    ensures mask == Cells(grid)
  {
    forall p | p in Cells(grid)
      ensures p in mask
    {
      InCells(grid, p);
    }
  }

  /** A plot next to another plant is a region on its own, fenced on all
      four sides. */
  lemma ExampleApart()
    ensures FillRegion('A', ["AB"], {}, Point(0, 0)) == Region({Point(0, 0)}, 1, 4)
  {
    assert Neighbours(["AB"], Point(0, 0)) == [Point(1, 0)];
    InCells(["AB"], Point(0, 0));
  }
}

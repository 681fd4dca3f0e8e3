/** Day 6: a guard walks a grid, turning right at every obstacle; the answer
    is the number of distinct cells the guard stands on before leaving. */
module Day06 {
  import opened Common

  /** `parse_data`: one row of characters per line. */
  function ParseData(data: string): (grid: seq<string>)
    ensures |grid| >= 1
    ensures Join(grid, '\n') == data
  {
    JoinSplit(data, '\n');
    Split(data, '\n')
  }

  /** The headings in turning order: up, right, down, left. */
  function Heading(k: nat): Point
    requires k < 4
  {
    if k == 0 then Point(0, -1)
    else if k == 1 then Point(1, 0)
    else if k == 2 then Point(0, 1)
    else Point(-1, 0)
  }

  /** Each heading is a unit step. */
  lemma HeadingUnit(k: nat)
    requires k < 4
    ensures Manhattan(Heading(k), Point(0, 0)) == 1
  {
  }

  /** `DIRECTIONS[turns % 4]`. */
  function Direction(turns: nat): Point {
    Heading(turns % 4)
  }

  function Add(p: Point, d: Point): Point {
    Point(p.x + d.x, p.y + d.y)
  }

  function Sub(p: Point, d: Point): Point {
    Point(p.x - d.x, p.y - d.y)
  }

  /** Each turn is a quarter turn to the right. */
  lemma TurnRight(turns: nat)
    ensures var d := Direction(turns); Direction(turns + 1) == Point(-d.y, d.x)
  {
    ModStep(turns);
    HeadingTurn(turns % 4);
  }

  /** The next heading in turning order is a quarter turn to the right. */
  lemma {:induction false} HeadingTurn(k: nat)
    requires k < 4
    ensures Heading(if k == 3 then 0 else k + 1) == Point(-Heading(k).y, Heading(k).x)
  {
  }

  lemma ModStep(t: nat)
    ensures (t + 1) % 4 == if t % 4 == 3 then 0 else t % 4 + 1
  {
  }

  /** Cells the guard may stand on: inside the grid and not an obstacle. */
  predicate Open(grid: seq<string>, p: Point) {
    InGrid(grid, p) && At(grid, p) != '#'
  }

  ghost function OpenCells(grid: seq<string>): set<Point> {
    set y, x | 0 <= y < |grid| && 0 <= x < |grid[y]| && grid[y][x] != '#' :: Point(x, y)
  }

  /** The first `^` in row-major order, searched from row `y`. */
  function FindStart(grid: seq<string>, y: nat): (r: Option<Point>)
    requires y <= |grid|
    ensures r.Some? ==> InGrid(grid, r.value) && At(grid, r.value) == '^' && y <= r.value.y
    ensures r.Some? ==> forall x :: 0 <= x < r.value.x ==> grid[r.value.y][x] != '^'
    ensures r.Some? ==> forall k :: y <= k < r.value.y ==> '^' !in grid[k]
    ensures r.None? <==> forall k :: y <= k < |grid| ==> '^' !in grid[k]
    decreases |grid| - y
  {
    if y == |grid| then None
    else if '^' in grid[y] then Some(Point(IndexOf(grid[y], '^'), y))
    else FindStart(grid, y + 1)
  }

  /** The `while` loop of `part_one`: the guard at `pos`, facing
      `Direction(turns)`, with `fuel` iterations left before the cap. */
  function Walk(grid: seq<string>, pos: Point, turns: nat, mask: set<Point>, fuel: nat): (r: set<Point>)
    requires Rectangular(grid) && |grid| > 0
    requires forall p :: p in mask ==> Open(grid, p)
    ensures mask <= r
    ensures forall p :: p in r ==> Open(grid, p)
    decreases fuel
  {
    var width := |grid[0]|;
    if !(0 <= pos.x < width && 0 <= pos.y < |grid|) || fuel == 0 then mask
    else if At(grid, pos) == '#' then
      // step back off the obstacle and turn right
      Walk(grid, Sub(pos, Direction(turns)), turns + 1, mask, fuel - 1)
    else
      Walk(grid, Add(pos, Direction(turns)), turns, mask + {pos}, fuel - 1)
  }

  /** The iteration cap of the walk. */
  const Cap: nat := 999_999_999

  /** The cells `part_one` marks: the start and every cell walked on. */
  function Visited(grid: seq<string>): (r: set<Point>)
    requires Rectangular(grid) && |grid| > 0
    requires FindStart(grid, 0).Some?
    ensures FindStart(grid, 0).value in r
    ensures forall p :: p in r ==> Open(grid, p)
  {
    var start := FindStart(grid, 0).value;
    Walk(grid, start, 0, {start}, Cap)
  }

  /** `part_one`: the grid must be rectangular and hold a guard. */
  function PartOne(data: string): (n: nat)
    requires Rectangular(ParseData(data))
    requires FindStart(ParseData(data), 0).Some?
  {
    |Visited(ParseData(data))|
  }

  /** The answer lies between one and the number of open cells. */
  lemma PartOneBounds(data: string)
    requires Rectangular(ParseData(data))
    requires FindStart(ParseData(data), 0).Some?
    ensures 1 <= PartOne(data) <= |OpenCells(ParseData(data))|
  {
    var grid := ParseData(data);
    var r := Visited(grid);
    var start := FindStart(grid, 0).value;
    assert {start} <= r;
    assert r <= OpenCells(grid) by {
      forall p | p in r
        ensures p in OpenCells(grid)
      {
        assert Open(grid, p);
      }
    }
    SubsetCard(r, OpenCells(grid));
  }

  /** A walk with no fuel left marks nothing more. */
  lemma {:induction false} NoFuelNoMarks(grid: seq<string>, pos: Point, turns: nat, mask: set<Point>)
    requires Rectangular(grid) && |grid| > 0
    requires forall p :: p in mask ==> Open(grid, p)
    ensures Walk(grid, pos, turns, mask, 0) == mask
  {
  }

  /** A lone guard steps straight off the grid. */
  lemma AloneGrid()
    ensures ParseData("^") == ["^"]
    ensures FindStart(["^"], 0) == Some(Point(0, 0))
  {
  }

  lemma AloneWalk()
    ensures Walk(["^"], Point(0, 0), 0, {Point(0, 0)}, Cap) == {Point(0, 0)}
  {
    var grid := ["^"];
    assert Direction(0) == Point(0, -1);
    assert At(grid, Point(0, 0)) == '^';
    assert Walk(grid, Point(0, -1), 0, {Point(0, 0)}, Cap - 1) == {Point(0, 0)};
    assert {Point(0, 0)} + {Point(0, 0)} == {Point(0, 0)};
  }

  lemma ExampleAlone()
    ensures PartOne("^") == 1
  {
    AloneGrid();
    AloneWalk();
  }
}

/** Day 15: a robot in a warehouse follows a list of moves. Moving into a
    wall does nothing, moving into free floor steps there, and moving into a
    box pushes the whole line of boxes in front of it if the line ends in
    free floor. Part one is the sum of the boxes' GPS coordinates
    (`x + 100 y`) after all moves. */
module Day15 {
  import opened Common

  datatype Dir = Left | Up | Right | Down

  /** `get_direction_vector`. */
  function Vector(d: Dir): (v: (int, int))
    ensures Abs(v.0) + Abs(v.1) == 1
  {
    match d
    case Left => (-1, 0)
    case Right => (1, 0)
    case Up => (0, -1)
    case Down => (0, 1)
  }

  /** `get_move`: one step in direction `d`. A step off the top or left edge
      wraps to a huge `usize` in the source; here it leaves the grid. */
  function Move(p: Point, d: Dir): (q: Point)
    ensures Adjacent(p, q)
  {
    Point(p.x + Vector(d).0, p.y + Vector(d).1)
  }

  // ---------------------------------------------------------------------
  // Parsing

  /** One move character; anything else is "Bad direction". */
  function DirOf(c: char): (r: Option<Dir>)
    ensures r.Some? <==> c == '<' || c == '^' || c == '>' || c == 'v'
  {
    match c
    case '<' => Some(Left)
    case '^' => Some(Up)
    case '>' => Some(Right)
    case 'v' => Some(Down)
    case _ => None
  }

  function ParseDirs(s: string): (r: Option<seq<Dir>>)
    ensures r.Some? <==> forall i :: 0 <= i < |s| ==> DirOf(s[i]).Some?
    ensures r.Some? ==> |r.value| == |s| && forall i :: 0 <= i < |s| ==> DirOf(s[i]) == Some(r.value[i])
  {
    if s == [] then Some([])
    else if DirOf(s[0]).None? then None
    else
      match ParseDirs(s[1..])
      case None =>
        assert exists i :: 1 <= i < |s| && DirOf(s[i]).None? by {
          var i :| 0 <= i < |s[1..]| && DirOf(s[1..][i]).None?;
          assert DirOf(s[i + 1]).None?;
        }
        None
      case Some(ds) => Some([DirOf(s[0]).value] + ds)
  }

  /** The index of the first empty line, which ends the warehouse map. */
  function FirstEmpty(lines: seq<string>): (k: nat)
    ensures k <= |lines|
    ensures forall i :: 0 <= i < k ==> lines[i] != []
    ensures k < |lines| ==> lines[k] == []
  {
    if lines == [] || lines[0] == [] then 0 else 1 + FirstEmpty(lines[1..])
  }

  /** The move lines, trimmed and run together; empty lines add nothing.
      Lines without whitespace are simply run together. */
  function MoveText(lines: seq<string>): (r: string)
    ensures forall c :: c in r <==> exists i :: 0 <= i < |lines| && c in Trim(lines[i])
    ensures (forall i, j :: 0 <= i < |lines| && 0 <= j < |lines[i]| ==> !IsSpace(lines[i][j])) ==> r == Concat(lines)
  {
    if lines == [] then []
    else
      var rest := MoveText(lines[1..]);
      assert lines == [lines[0]] + lines[1..];
      MoveTextMembers(lines[0], lines[1..], rest);
      MoveTextPlain(lines[0], lines[1..], rest);
      Trim(lines[0]) + rest
  }

  /** One more line in front adds exactly the characters of its trimmed
      text to the moves. */
  lemma MoveTextMembers(head: string, tail: seq<string>, rest: string)
    requires forall c :: c in rest <==> exists i :: 0 <= i < |tail| && c in Trim(tail[i])
    ensures forall c :: c in Trim(head) + rest <==> exists i :: 0 <= i < |[head] + tail| && c in Trim(([head] + tail)[i])
  {
    var lines := [head] + tail;
    forall c | c in Trim(head) + rest
      ensures exists i :: 0 <= i < |lines| && c in Trim(lines[i])
    {
      if c in Trim(head) {
        assert c in Trim(lines[0]);
      } else {
        var i :| 0 <= i < |tail| && c in Trim(tail[i]);
        assert c in Trim(lines[i + 1]);
      }
    }
    forall c | exists i :: 0 <= i < |lines| && c in Trim(lines[i])
      ensures c in Trim(head) + rest
    {
      var i :| 0 <= i < |lines| && c in Trim(lines[i]);
      if i > 0 {
        assert c in Trim(tail[i - 1]);
      }
    }
  }

  /** Lines without whitespace are run together unchanged, one more line
      in front included. */
  lemma MoveTextPlain(head: string, tail: seq<string>, rest: string)
    requires (forall i, j :: 0 <= i < |tail| && 0 <= j < |tail[i]| ==> !IsSpace(tail[i][j])) ==> rest == Concat(tail)
    ensures var lines := [head] + tail;
      (forall i, j :: 0 <= i < |lines| && 0 <= j < |lines[i]| ==> !IsSpace(lines[i][j])) ==> Trim(head) + rest == Concat(lines)
  {
    var lines := [head] + tail;
    if forall i, j :: 0 <= i < |lines| && 0 <= j < |lines[i]| ==> !IsSpace(lines[i][j]) {
      assert forall j :: 0 <= j < |head| ==> !IsSpace(lines[0][j]);
      forall i, j | 0 <= i < |tail| && 0 <= j < |tail[i]|
        ensures !IsSpace(tail[i][j])
      {
        assert tail[i] == lines[i + 1];
      }
    }
  }

  /** The reference: lines run together as they are. */
  function Concat(lines: seq<string>): string {
    if lines == [] then [] else lines[0] + Concat(lines[1..])
  }

  /** The moves of two blocks of lines are the first block's followed by
      the second's: order and repetition are kept. */
  lemma {:induction false} MoveTextAppend(a: seq<string>, b: seq<string>)
    ensures MoveText(a + b) == MoveText(a) + MoveText(b)
    decreases |a|
  {
    if a == [] {
      assert a + b == b;
    } else {
      assert (a + b)[0] == a[0] && (a + b)[1..] == a[1..] + b;
      MoveTextAppend(a[1..], b);
    }
  }

  lemma {:induction false} ConcatMembers(lines: seq<string>, c: char)
    requires c in Concat(lines)
    ensures exists i, j :: 0 <= i < |lines| && 0 <= j < |lines[i]| && lines[i][j] == c
    decreases |lines|
  {
    if c !in lines[0] {
      ConcatMembers(lines[1..], c);
      var i, j :| 0 <= i < |lines| - 1 && 0 <= j < |lines[1..][i]| && lines[1..][i][j] == c;
      assert lines[i + 1][j] == c;
    } else {
      var j :| 0 <= j < |lines[0]| && lines[0][j] == c;
    }
  }

  /** A map row widened with floor to the width of the first row. */
  function Pad(row: string, width: nat): (r: string)
    requires |row| <= width
    ensures |r| == width
    ensures forall x :: 0 <= x < width ==> r[x] == if x < |row| then row[x] else '.'
  {
    row + seq(width - |row|, _ => '.')
  }

  /** The trimmed map rows. */
  function Rows(lines: seq<string>): (rows: seq<string>)
    ensures |rows| == FirstEmpty(lines)
    ensures forall y :: 0 <= y < |rows| ==> rows[y] == Trim(lines[y])
  {
    var k := FirstEmpty(lines);
    seq(k, y requires 0 <= y < k => Trim(lines[y]))
  }

  /** Every row widened to `width`. */
  function PadAll(rows: seq<string>, width: nat): (grid: seq<seq<char>>)
    requires forall y :: 0 <= y < |rows| ==> |rows[y]| <= width
    ensures |grid| == |rows|
    ensures forall y :: 0 <= y < |rows| ==> grid[y] == Pad(rows[y], width)
  {
    if rows == [] then [] else [Pad(rows[0], width)] + PadAll(rows[1..], width)
  }

  /** The map rows of a file: the trimmed lines before the first empty one. */
  function MapRows(file: string): seq<string> {
    Rows(Split(file, '\n'))
  }

  /** The move characters of a file: the trimmed lines after the first
      empty one, run together. */
  function MoveChars(file: string): string {
    var lines := Split(file, '\n');
    var k := FirstEmpty(lines);
    if k < |lines| then MoveText(lines[k + 1..]) else []
  }

  /** `parse_input`. `None` where the source panics: a move character that
      is not one of `<^>v`, no map rows at all (`rows[0]`), or a map row
      longer than the first one (an out-of-range write). Shorter rows are
      filled up with floor. */
  function ParseInput(file: string): (r: Option<(seq<seq<char>>, seq<Dir>)>)
    ensures var rows := MapRows(file);
      r.Some? <==> (&& |rows| > 0
                    && (forall y :: 0 <= y < |rows| ==> |rows[y]| <= |rows[0]|)
                    && forall i :: 0 <= i < |MoveChars(file)| ==> DirOf(MoveChars(file)[i]).Some?)
    ensures r.Some? ==> var rows := MapRows(file);
      var grid := r.value.0;
      && |grid| == |rows| && Rectangular(grid)
      && forall y, x :: 0 <= y < |grid| && 0 <= x < |grid[y]| ==>
           |grid[y]| == |rows[0]| && grid[y][x] == if x < |rows[y]| then rows[y][x] else '.'
    ensures r.Some? ==> (&& |r.value.1| == |MoveChars(file)|
                         && forall i :: 0 <= i < |r.value.1| ==> DirOf(MoveChars(file)[i]) == Some(r.value.1[i]))
  {
    var rows := MapRows(file);
    match ParseDirs(MoveChars(file))
    case None => None
    case Some(dirs) =>
      if rows == [] || exists y :: 0 <= y < |rows| && |rows[y]| > |rows[0]| then None
      else
        Some((PadAll(rows, |rows[0]|), dirs))
  }

  /** A warehouse written out row by row, then a blank line, then lines of
      moves, is read back as that grid and those moves in order. */
  lemma FileRead(rows: seq<string>, moves: seq<string>)
    requires |rows| > 0 && forall y :: 0 <= y < |rows| ==> rows[y] != [] && |rows[y]| == |rows[0]|
    requires forall y, x :: 0 <= y < |rows| && 0 <= x < |rows[y]| ==> !IsSpace(rows[y][x])
    requires forall i, j :: 0 <= i < |moves| && 0 <= j < |moves[i]| ==> DirOf(moves[i][j]).Some?
    ensures var file := Join(rows + [[]] + moves, '\n');
      && MapRows(file) == rows
      && MoveChars(file) == Concat(moves)
      && ParseInput(file).Some?
      && ParseInput(file).value.0 == rows
      && ParseDirs(Concat(moves)) == Some(ParseInput(file).value.1)
  {
    var file := Join(rows + [[]] + moves, '\n');
    FileSections(rows, moves);
    var text := Concat(moves);
    forall i | 0 <= i < |text|
      ensures DirOf(text[i]).Some?
    {
      ConcatMembers(moves, text[i]);
    }
    var grid := PadAll(rows, |rows[0]|);
    forall y | 0 <= y < |rows|
      ensures grid[y] == rows[y]
    {
      assert Pad(rows[y], |rows[0]|) == rows[y];
    }
    assert grid == rows;
    ParsedAs(file, rows, text);
  }

  /** Once the two sections are known, `parse_input` pads nothing on a
      rectangular map. */
  lemma ParsedAs(file: string, rows: seq<string>, text: string)
    requires MapRows(file) == rows && MoveChars(file) == text
    requires |rows| > 0 && forall y :: 0 <= y < |rows| ==> |rows[y]| == |rows[0]|
    requires forall i :: 0 <= i < |text| ==> DirOf(text[i]).Some?
    requires PadAll(rows, |rows[0]|) == rows
    ensures ParseInput(file).Some? && ParseInput(file).value.0 == rows
    ensures ParseDirs(text) == Some(ParseInput(file).value.1)
  {
  }

  /** The file splits into the map rows and the move lines. */
  lemma FileSections(rows: seq<string>, moves: seq<string>)
    requires |rows| > 0 && forall y :: 0 <= y < |rows| ==> rows[y] != []
    requires forall y, x :: 0 <= y < |rows| && 0 <= x < |rows[y]| ==> !IsSpace(rows[y][x])
    requires forall i, j :: 0 <= i < |moves| && 0 <= j < |moves[i]| ==> DirOf(moves[i][j]).Some?
    ensures var file := Join(rows + [[]] + moves, '\n');
      MapRows(file) == rows && MoveChars(file) == Concat(moves)
  {
    var lines := rows + [[]] + moves;
    FileLines(rows, moves);
    BlankAfterRows(rows, moves);
    assert lines[..|rows|] == rows;
    RowsRead(rows, lines);
    assert lines[|rows| + 1..] == moves;
    assert forall i, j :: 0 <= i < |moves| && 0 <= j < |moves[i]| ==> !IsSpace(moves[i][j]);
  }

  lemma BlankAfterRows(rows: seq<string>, moves: seq<string>)
    requires forall y :: 0 <= y < |rows| ==> rows[y] != []
    ensures FirstEmpty(rows + [[]] + moves) == |rows|
  {
    var lines := rows + [[]] + moves;
    assert lines[|rows|] == [];
    assert forall y :: 0 <= y < |rows| ==> lines[y] == rows[y];
  }

  lemma RowsRead(rows: seq<string>, lines: seq<string>)
    requires FirstEmpty(lines) == |rows| && lines[..|rows|] == rows
    requires forall y, x :: 0 <= y < |rows| && 0 <= x < |rows[y]| ==> !IsSpace(rows[y][x])
    ensures Rows(lines) == rows
  {
    forall y | 0 <= y < |rows|
      ensures Rows(lines)[y] == rows[y]
    {
      assert lines[y] == rows[y];
      assert forall x :: 0 <= x < |rows[y]| ==> !IsSpace(rows[y][x]);
    }
  }

  lemma FileLines(rows: seq<string>, moves: seq<string>)
    requires forall y, x :: 0 <= y < |rows| && 0 <= x < |rows[y]| ==> !IsSpace(rows[y][x])
    requires forall i, j :: 0 <= i < |moves| && 0 <= j < |moves[i]| ==> DirOf(moves[i][j]).Some?
    ensures Split(Join(rows + [[]] + moves, '\n'), '\n') == rows + [[]] + moves
  {
    var lines := rows + [[]] + moves;
    forall i | 0 <= i < |lines|
      ensures '\n' !in lines[i]
    {
      if i < |rows| {
        assert lines[i] == rows[i];
        assert forall x :: 0 <= x < |rows[i]| ==> !IsSpace(rows[i][x]);
      } else if i > |rows| {
        assert lines[i] == moves[i - |rows| - 1];
        assert forall x :: 0 <= x < |lines[i]| ==> DirOf(lines[i][x]).Some?;
      }
    }
    SplitJoin(lines, '\n');
  }

  // ---------------------------------------------------------------------
  // Moving

  datatype State = State(grid: seq<seq<char>>, robot: Point)

  /** `q` lies on the ray from `p` in direction `d` (possibly `p` itself). */
  predicate Beyond(p: Point, q: Point, d: Dir) {
    match d
    case Left => q.y == p.y && q.x <= p.x
    case Right => q.y == p.y && q.x >= p.x
    case Up => q.x == p.x && q.y <= p.y
    case Down => q.x == p.x && q.y >= p.y
  }

  /** How many cells remain from `p` to the edge of the grid in direction `d`. */
  function Reach(grid: seq<seq<char>>, p: Point, d: Dir): (n: nat)
    requires InGrid(grid, p)
    ensures n >= 1
  {
    match d
    case Left => p.x + 1
    case Right => |grid[p.y]| - p.x
    case Up => p.y + 1
    case Down => |grid| - p.y
  }

  /** The crawler of `push_box`: from `p`, skip boxes in direction `d` and
      stop on the first cell that is not a box. `None` where the crawler
      leaves the grid (an out-of-range read in the source). */
  function Crawl(grid: seq<seq<char>>, p: Point, d: Dir): (r: Option<Point>)
    ensures r.Some? ==> InGrid(grid, r.value) && At(grid, r.value) != 'O' && Beyond(p, r.value, d)
    ensures r.Some? && InGrid(grid, p) && At(grid, p) == 'O' ==> r.value != p
    decreases if InGrid(grid, p) then Reach(grid, p, d) else 0
  {
    if !InGrid(grid, p) then None
    else if At(grid, p) == 'O' then Crawl(grid, Move(p, d), d)
    else Some(p)
  }

  /** `push_box`: where the line of boxes starting at `p` ends, or `None`
      for a wall behind it. The outer `None` is a panic. */
  function PushBox(grid: seq<seq<char>>, p: Point, d: Dir): (r: Option<Option<Point>>)
    ensures r.Some? && r.value.Some? ==> InGrid(grid, r.value.value) && At(grid, r.value.value) !in "#O"
    ensures r.Some? && r.value.None? ==> exists q :: Beyond(p, q, d) && InGrid(grid, q) && At(grid, q) == '#'
  {
    match Crawl(grid, p, d)
    case None => None
    case Some(q) => if At(grid, q) == '#' then Some(None) else Some(Some(q))
  }

  /** The cell `k` steps from `p` in direction `d`, that is `p + k·d`. */
  function Ahead(p: Point, d: Dir, k: nat): (q: Point)
    ensures Beyond(p, q, d)
  {
    match d
    case Left => Point(p.x - k, p.y)
    case Right => Point(p.x + k, p.y)
    case Up => Point(p.x, p.y - k)
    case Down => Point(p.x, p.y + k)
  }

  /** The first `k` cells of the ray from `p` along `d` are boxes inside the grid. */
  predicate BoxRun(grid: seq<seq<char>>, p: Point, d: Dir, k: nat) {
    forall j :: 0 <= j < k ==> InGrid(grid, Ahead(p, d, j)) && At(grid, Ahead(p, d, j)) == 'O'
  }

  /** A step first and `k` steps after it is `k + 1` steps. */
  lemma AheadMove(p: Point, d: Dir, k: nat)
    ensures Ahead(Move(p, d), d, k) == Ahead(p, d, k + 1)
  {
  }

  /** A box at `p` followed by a run of `k` boxes is a run of `k + 1`. */
  lemma BoxRunCons(grid: seq<seq<char>>, p: Point, d: Dir, k: nat)
    requires InGrid(grid, p) && At(grid, p) == 'O' && BoxRun(grid, Move(p, d), d, k)
    ensures BoxRun(grid, p, d, k + 1)
  {
    forall j | 0 <= j < k + 1
      ensures InGrid(grid, Ahead(p, d, j)) && At(grid, Ahead(p, d, j)) == 'O'
    {
      if j > 0 {
        AheadMove(p, d, j - 1);
      }
    }
  }

  /** The crawl returns the first cell of the ray that is not a box, having
      passed only boxes, and `None` exactly when the run of boxes from `p`
      runs off the grid. The returned `k` counts the boxes skipped. */
  lemma {:induction false} CrawlMeans(grid: seq<seq<char>>, p: Point, d: Dir) returns (k: nat)
    ensures BoxRun(grid, p, d, k)
    ensures InGrid(grid, Ahead(p, d, k)) ==>
      At(grid, Ahead(p, d, k)) != 'O' && Crawl(grid, p, d) == Some(Ahead(p, d, k))
    ensures !InGrid(grid, Ahead(p, d, k)) ==> Crawl(grid, p, d) == None
    decreases if InGrid(grid, p) then Reach(grid, p, d) else 0
  {
    assert Ahead(p, d, 0) == p;
    if InGrid(grid, p) && At(grid, p) == 'O' {
      var k' := CrawlMeans(grid, Move(p, d), d);
      k := k' + 1;
      BoxRunCons(grid, p, d, k');
      AheadMove(p, d, k');
    } else {
      k := 0;
    }
  }

  /** `push_box` finds the end of the line of boxes starting at `p`: it
      panics when the line runs off the grid, refuses when a wall ends it,
      and otherwise answers the free cell that ends it. */
  lemma PushBoxMeans(grid: seq<seq<char>>, p: Point, d: Dir) returns (k: nat)
    ensures BoxRun(grid, p, d, k)
    ensures PushBox(grid, p, d).None? <==> !InGrid(grid, Ahead(p, d, k))
    ensures PushBox(grid, p, d) == Some(None) <==>
      InGrid(grid, Ahead(p, d, k)) && At(grid, Ahead(p, d, k)) == '#'
    ensures PushBox(grid, p, d) == Some(Some(Ahead(p, d, k))) <==>
      InGrid(grid, Ahead(p, d, k)) && At(grid, Ahead(p, d, k)) !in "#O"
    ensures PushBox(grid, p, d).Some? && PushBox(grid, p, d).value.Some? ==>
      PushBox(grid, p, d).value.value == Ahead(p, d, k)
  {
    k := CrawlMeans(grid, p, d);
  }

  /** The robot steps onto the floor at `n`: its old cell becomes floor. */
  function Walk(s: State, n: Point): (t: State)
    requires InGrid(s.grid, s.robot) && InGrid(s.grid, n)
  {
    State(Set(Set(s.grid, s.robot, '.'), n, '@'), n)
  }

  /** The robot pushes: it takes the box cell `n`, leaves floor behind, and
      the box line gains a box at its free end `e`. */
  function Shove(s: State, n: Point, e: Point): (t: State)
    requires InGrid(s.grid, s.robot) && InGrid(s.grid, n) && InGrid(s.grid, e)
  {
    State(Set(Set(Set(s.grid, n, '@'), s.robot, '.'), e, 'O'), n)
  }

  /** One instruction of `part_one`. `None` where the source panics: reading
      or writing outside the grid, or facing a character other than wall,
      floor or box. */
  function Step(s: State, d: Dir): Option<State> {
    var n := Move(s.robot, d);
    if !InGrid(s.grid, n) then None
    else if At(s.grid, n) == '#' then Some(s)
    else if At(s.grid, n) == '.' then
      if !InGrid(s.grid, s.robot) then None
      else Some(Walk(s, n))
    else if At(s.grid, n) == 'O' then
      match PushBox(s.grid, n, d)
      case None => None
      case Some(None) => Some(s)
      case Some(Some(e)) =>
        if !InGrid(s.grid, s.robot) then None
        else Some(Shove(s, n, e))
    else None
  }

  /** All instructions in order. */
  function Run(s: State, dirs: seq<Dir>): Option<State>
    decreases |dirs|
  {
    if dirs == [] then Some(s)
    else
      match Step(s, dirs[0])
      case None => None
      case Some(t) => Run(t, dirs[1..])
  }

  // ---------------------------------------------------------------------
  // Invariants

  /** A warehouse of walls, floor, boxes and one robot, which sits at `robot`. */
  ghost predicate WellFormed(s: State) {
    && Rectangular(s.grid)
    && InGrid(s.grid, s.robot)
    && (forall p :: InGrid(s.grid, p) ==> At(s.grid, p) in "#.O@")
    && (forall p :: InGrid(s.grid, p) ==> (At(s.grid, p) == '@' <==> p == s.robot))
  }

  /** The whole border is wall. */
  ghost predicate Walled(grid: seq<seq<char>>) {
    && |grid| > 0
    && Rectangular(grid)
    && forall p :: InGrid(grid, p) && (p.x == 0 || p.y == 0 || p.y == |grid| - 1 || p.x == |grid[0]| - 1) ==>
         At(grid, p) == '#'
  }

  /** Same shape, and walls exactly where they were. */
  ghost predicate SameWalls(g: seq<seq<char>>, h: seq<seq<char>>) {
    && |g| == |h|
    && (forall y :: 0 <= y < |g| ==> |g[y]| == |h[y]|)
    && forall p :: InGrid(g, p) ==> (At(g, p) == '#' <==> At(h, p) == '#')
  }

  /** The positions of the boxes. */
  ghost function Boxes(grid: seq<seq<char>>): (b: set<Point>)
    ensures forall p :: p in b <==> InGrid(grid, p) && At(grid, p) == 'O'
  {
    set y, x | 0 <= y < |grid| && 0 <= x < |grid[y]| && grid[y][x] == 'O' :: Point(x, y)
  }

  /** Inside a walled grid, a cell that is not wall has all four neighbours. */
  lemma Inside(grid: seq<seq<char>>, p: Point, d: Dir)
    requires Walled(grid) && InGrid(grid, p) && At(grid, p) != '#'
    ensures InGrid(grid, Move(p, d))
  {
  }

  /** In a walled grid the crawler always stops inside. */
  lemma {:induction false} CrawlWalled(grid: seq<seq<char>>, p: Point, d: Dir)
    requires Walled(grid) && InGrid(grid, p)
    ensures Crawl(grid, p, d).Some?
    decreases Reach(grid, p, d)
  {
    if At(grid, p) == 'O' {
      Inside(grid, p, d);
      CrawlWalled(grid, Move(p, d), d);
    }
  }

  /** Cell by cell, what `Walk` leaves behind. */
  lemma WalkCells(s: State, n: Point)
    requires InGrid(s.grid, s.robot) && InGrid(s.grid, n) && n != s.robot
    ensures SameShape(s.grid, Walk(s, n).grid)
    ensures forall p :: InGrid(s.grid, p) ==>
      At(Walk(s, n).grid, p) == if p == n then '@' else if p == s.robot then '.' else At(s.grid, p)
  {
  }

  /** Cell by cell, what `Shove` leaves behind. */
  lemma ShoveCells(s: State, n: Point, e: Point)
    requires InGrid(s.grid, s.robot) && InGrid(s.grid, n) && InGrid(s.grid, e)
    requires n != s.robot && e != s.robot && e != n
    ensures SameShape(s.grid, Shove(s, n, e).grid)
    ensures forall p :: InGrid(s.grid, p) ==>
      At(Shove(s, n, e).grid, p) == if p == n then '@' else if p == s.robot then '.' else if p == e then 'O' else At(s.grid, p)
  {
  }

  ghost predicate SameShape(g: seq<seq<char>>, h: seq<seq<char>>) {
    |g| == |h| && forall y :: 0 <= y < |g| ==> |g[y]| == |h[y]|
  }

  /** An edit that only touches non-wall cells, writes floor, box or robot
      there, and puts the one robot at `t.robot` keeps a well-formed walled
      warehouse well formed and walled. */
  lemma EditKeeps(s: State, t: State)
    requires WellFormed(s) && Walled(s.grid)
    requires SameShape(s.grid, t.grid) && InGrid(s.grid, t.robot)
    requires forall p :: InGrid(s.grid, p) && At(s.grid, p) == '#' ==> At(t.grid, p) == '#'
    requires forall p :: InGrid(s.grid, p) && At(s.grid, p) != '#' ==> At(t.grid, p) in ".O@"
    requires forall p :: InGrid(s.grid, p) ==> (At(t.grid, p) == '@' <==> p == t.robot)
    ensures WellFormed(t) && SameWalls(s.grid, t.grid) && Walled(t.grid)
  {
    assert forall p :: InGrid(t.grid, p) ==> InGrid(s.grid, p);
  }

  /** Stepping onto floor keeps the warehouse well formed. */
  lemma WalkKeeps(s: State, d: Dir)
    requires WellFormed(s) && Walled(s.grid)
    requires InGrid(s.grid, Move(s.robot, d)) && At(s.grid, Move(s.robot, d)) == '.'
    ensures var t := Walk(s, Move(s.robot, d)); WellFormed(t) && SameWalls(s.grid, t.grid) && Walled(t.grid)
  {
    var n := Move(s.robot, d);
    WalkCells(s, n);
    EditKeeps(s, Walk(s, n));
  }

  /** A successful push keeps the warehouse well formed. */
  lemma {:induction false} ShoveKeeps(s: State, d: Dir, e: Point)
    requires WellFormed(s) && Walled(s.grid)
    requires InGrid(s.grid, Move(s.robot, d)) && At(s.grid, Move(s.robot, d)) == 'O'
    requires Crawl(s.grid, Move(s.robot, d), d) == Some(e) && At(s.grid, e) != '#'
    ensures e != s.robot && e != Move(s.robot, d) && At(s.grid, e) == '.'
    ensures var t := Shove(s, Move(s.robot, d), e); WellFormed(t) && SameWalls(s.grid, t.grid) && Walled(t.grid)
  {
    var n := Move(s.robot, d);
    assert e != s.robot by {
      assert Beyond(n, e, d);
    }
    ShoveCells(s, n, e);
    EditKeeps(s, Shove(s, n, e));
  }

  /** One instruction on a well-formed walled warehouse never panics, keeps
      it well formed with the walls in place, and moves the robot at most one
      cell in the given direction; if the robot stays, nothing changes. */
  lemma StepKeeps(s: State, d: Dir)
    requires WellFormed(s) && Walled(s.grid)
    ensures Step(s, d).Some?
    ensures var t := Step(s, d).value;
      && WellFormed(t) && SameWalls(s.grid, t.grid) && Walled(t.grid)
      && (t.robot == s.robot || t.robot == Move(s.robot, d))
      && (t.robot == s.robot ==> t == s)
  {
    var n := Move(s.robot, d);
    StepCases(s, d);
    if At(s.grid, n) == 'O' {
      var e := Crawl(s.grid, n, d).value;
      if At(s.grid, e) != '#' {
        ShoveKeeps(s, d, e);
      }
    } else if At(s.grid, n) == '.' {
      WalkKeeps(s, d);
    }
  }

  /** The cases of one instruction on a well-formed walled warehouse: the
      cell ahead is wall, floor or box, and the instruction stays, walks
      or pushes accordingly. */
  lemma StepCases(s: State, d: Dir)
    requires WellFormed(s) && Walled(s.grid)
    ensures var n := Move(s.robot, d);
      && InGrid(s.grid, n) && n != s.robot && At(s.grid, n) in "#.O"
      && (At(s.grid, n) == '#' ==> Step(s, d) == Some(s))
      && (At(s.grid, n) == '.' ==> Step(s, d) == Some(Walk(s, n)))
      && (At(s.grid, n) == 'O' ==>
            && Crawl(s.grid, n, d).Some?
            && (At(s.grid, Crawl(s.grid, n, d).value) == '#' ==> Step(s, d) == Some(s))
            && (At(s.grid, Crawl(s.grid, n, d).value) != '#' ==> Step(s, d) == Some(Shove(s, n, Crawl(s.grid, n, d).value))))
  {
    var n := Move(s.robot, d);
    Inside(s.grid, s.robot, d);
    assert At(s.grid, n) != '@';
    if At(s.grid, n) == 'O' {
      CrawlWalled(s.grid, n, d);
    }
  }

  /** A push moves exactly one box: the one next to the robot disappears and
      one appears on the free cell at the end of the line. */
  lemma {:induction false} ShoveMovesOneBox(s: State, d: Dir, e: Point)
    requires WellFormed(s) && Walled(s.grid)
    requires InGrid(s.grid, Move(s.robot, d)) && At(s.grid, Move(s.robot, d)) == 'O'
    requires Crawl(s.grid, Move(s.robot, d), d) == Some(e) && At(s.grid, e) != '#'
    ensures Boxes(Shove(s, Move(s.robot, d), e).grid) == Boxes(s.grid) - {Move(s.robot, d)} + {e}
  {
    ShoveKeeps(s, d, e);
    ShoveCells(s, Move(s.robot, d), e);
  }

  /** The GPS sum changes by the difference of the two cells' weights. */
  lemma {:induction false} ShoveGPS(s: State, d: Dir, e: Point)
    requires WellFormed(s) && Walled(s.grid)
    requires InGrid(s.grid, Move(s.robot, d)) && At(s.grid, Move(s.robot, d)) == 'O'
    requires Crawl(s.grid, Move(s.robot, d), d) == Some(e) && At(s.grid, e) != '#'
    ensures GPS(Shove(s, Move(s.robot, d), e).grid) == GPS(s.grid) - Weight(Move(s.robot, d)) + Weight(e)
  {
    var n := Move(s.robot, d);
    ShoveKeeps(s, d, e);
    var g1 := Set(s.grid, n, '@');
    var g2 := Set(g1, s.robot, '.');
    GPSSet(s.grid, n, '@');
    GPSSet(g1, s.robot, '.');
    assert At(g2, e) == '.';
    GPSSet(g2, e, 'O');
  }

  /** Stepping onto floor leaves the boxes where they are. */
  lemma WalkKeepsBoxes(s: State, d: Dir)
    requires WellFormed(s)
    requires InGrid(s.grid, Move(s.robot, d)) && At(s.grid, Move(s.robot, d)) == '.'
    ensures var t := Walk(s, Move(s.robot, d)); Boxes(t.grid) == Boxes(s.grid) && GPS(t.grid) == GPS(s.grid)
  {
    var n := Move(s.robot, d);
    GPSSet(s.grid, s.robot, '.');
    GPSSet(Set(s.grid, s.robot, '.'), n, '@');
    WalkCells(s, n);
  }

  /** The number of boxes never changes. */
  lemma StepKeepsBoxCount(s: State, d: Dir)
    requires WellFormed(s) && Walled(s.grid)
    ensures Step(s, d).Some? && |Boxes(Step(s, d).value.grid)| == |Boxes(s.grid)|
  {
    var n := Move(s.robot, d);
    StepCases(s, d);
    if At(s.grid, n) == 'O' {
      var e := Crawl(s.grid, n, d).value;
      if At(s.grid, e) != '#' {
        ShoveMovesOneBox(s, d, e);
        var b := Boxes(s.grid);
        assert n in b && e !in b;
        assert |b - {n}| == |b| - 1;
      }
    } else if At(s.grid, n) == '.' {
      WalkKeepsBoxes(s, d);
    }
  }

  /** A whole run on a well-formed walled warehouse never panics, keeps the
      walls and the number of boxes, and ends well formed. */
  lemma {:induction false} RunKeeps(s: State, dirs: seq<Dir>)
    requires WellFormed(s) && Walled(s.grid)
    ensures Run(s, dirs).Some?
    ensures var t := Run(s, dirs).value;
      WellFormed(t) && SameWalls(s.grid, t.grid) && |Boxes(t.grid)| == |Boxes(s.grid)|
    decreases |dirs|
  {
    if dirs != [] {
      StepKeeps(s, dirs[0]);
      StepKeepsBoxCount(s, dirs[0]);
      var t := Step(s, dirs[0]).value;
      RunKeeps(t, dirs[1..]);
    }
  }

  // ---------------------------------------------------------------------
  // GPS coordinates

  function Weight(p: Point): int {
    p.x + 100 * p.y
  }

  /** The GPS sum of the boxes in one row, row index `y`. */
  function RowGPS(row: seq<char>, y: int): int {
    if row == [] then 0
    else RowGPS(row[..|row| - 1], y) + (if row[|row| - 1] == 'O' then Weight(Point(|row| - 1, y)) else 0)
  }

  /** The sum of `x + 100 y` over all boxes. */
  function GPS(grid: seq<seq<char>>): int {
    if grid == [] then 0 else GPS(grid[..|grid| - 1]) + RowGPS(grid[|grid| - 1], |grid| - 1)
  }

  lemma {:induction false} RowGPSSet(row: seq<char>, y: int, x: nat, c: char)
    requires x < |row|
    ensures RowGPS(row[x := c], y) == RowGPS(row, y)
      - (if row[x] == 'O' then Weight(Point(x, y)) else 0) + (if c == 'O' then Weight(Point(x, y)) else 0)
  {
    var n := |row| - 1;
    if x < n {
      assert row[x := c][..n] == row[..n][x := c];
      RowGPSSet(row[..n], y, x, c);
    } else {
      assert row[x := c][..n] == row[..n];
    }
  }

  /** Overwriting one cell changes the GPS sum by that cell's contribution. */
  lemma {:induction false} GPSSet(grid: seq<seq<char>>, p: Point, c: char)
    requires InGrid(grid, p)
    ensures GPS(Set(grid, p, c)) == GPS(grid)
      - (if At(grid, p) == 'O' then Weight(p) else 0) + (if c == 'O' then Weight(p) else 0)
  {
    var n := |grid| - 1;
    var g := Set(grid, p, c);
    if p.y < n {
      assert g[..n] == Set(grid[..n], p, c);
      GPSSet(grid[..n], p, c);
    } else {
      assert g[..n] == grid[..n];
      RowGPSSet(grid[n], n, p.x, c);
    }
  }

  // ---------------------------------------------------------------------
  // Part one

  /** The index of the first `c` in `row`. */
  function Find(row: seq<char>, c: char): (r: Option<nat>)
    ensures r.Some? ==> r.value < |row| && row[r.value] == c && c !in row[..r.value]
    ensures r.None? <==> c !in row
  {
    if row == [] then None
    else if row[0] == c then Some(0)
    else match Find(row[1..], c)
      case None => None
      case Some(i) =>
        assert row[..i + 1] == [row[0]] + row[1..][..i];
        Some(i + 1)
  }

  /** The first robot in reading order, from row `y` on. */
  function FindFrom(grid: seq<seq<char>>, y: nat): (r: Option<Point>)
    ensures r.Some? ==> InGrid(grid, r.value) && At(grid, r.value) == '@' && y <= r.value.y
    ensures r.None? <==> forall p :: InGrid(grid, p) && y <= p.y ==> At(grid, p) != '@'
    decreases |grid| - y
  {
    if y >= |grid| then None
    else match Find(grid[y], '@')
      case Some(x) => Some(Point(x, y))
      case None =>
        var r := FindFrom(grid, y + 1);
        assert forall p :: InGrid(grid, p) && p.y == y ==> At(grid, p) != '@' by {
          forall p | InGrid(grid, p) && p.y == y
            ensures At(grid, p) != '@'
          {
            assert grid[y][p.x] in grid[y];
          }
        }
        r
  }

  /** The robot's starting place: the first `@` in reading order, or the
      origin when there is none (the initial value in the source). */
  function FindRobot(grid: seq<seq<char>>): (r: Point)
    ensures (exists p :: InGrid(grid, p) && At(grid, p) == '@') ==> InGrid(grid, r) && At(grid, r) == '@'
    ensures (forall p :: InGrid(grid, p) ==> At(grid, p) != '@') ==> r == Point(0, 0)
  {
    match FindFrom(grid, 0)
    case None => Point(0, 0)
    case Some(p) => p
  }

  /** `part_one`: parse, find the robot, follow every instruction, and add
      up the GPS coordinates of the boxes. `None` where the source panics. */
  function PartOne(file: string): Option<int> {
    match ParseInput(file)
    case None => None
    case Some((grid, dirs)) =>
      match Run(State(grid, FindRobot(grid)), dirs)
      case None => None
      case Some(t) => Some(GPS(t.grid))
  }

  /** A grid of walls, floor, boxes and exactly one robot, with the robot
      where `FindRobot` looks for it, is well formed. */
  lemma StartWellFormed(grid: seq<seq<char>>)
    requires Rectangular(grid)
    requires forall p :: InGrid(grid, p) ==> At(grid, p) in "#.O@"
    requires exists p :: InGrid(grid, p) && At(grid, p) == '@'
    requires forall p, q :: InGrid(grid, p) && InGrid(grid, q) && At(grid, p) == '@' && At(grid, q) == '@' ==> p == q
    ensures WellFormed(State(grid, FindRobot(grid)))
  {
  }

  /** On a walled warehouse of walls, floor, boxes and exactly one robot the
      puzzle never panics, and the answer is the GPS sum of a warehouse with
      the same walls and as many boxes as at the start. */
  lemma {:induction false} PartOneDefined(file: string, grid: seq<seq<char>>, dirs: seq<Dir>)
    requires ParseInput(file) == Some((grid, dirs))
    requires Walled(grid)
    requires forall p :: InGrid(grid, p) ==> At(grid, p) in "#.O@"
    requires exists p :: InGrid(grid, p) && At(grid, p) == '@'
    requires forall p, q :: InGrid(grid, p) && InGrid(grid, q) && At(grid, p) == '@' && At(grid, q) == '@' ==> p == q
    ensures Run(State(grid, FindRobot(grid)), dirs).Some?
    ensures var t := Run(State(grid, FindRobot(grid)), dirs).value;
      && SameWalls(grid, t.grid) && |Boxes(t.grid)| == |Boxes(grid)| && PartOne(file) == Some(GPS(t.grid))
  {
    StartWellFormed(grid);
    RunKeeps(State(grid, FindRobot(grid)), dirs);
  }
}

/** Day 18: bytes fall onto a square memory grid and block cells. Part one
    is the length of a shortest route from the top-left corner to the
    bottom-right one after the first few bytes; part two is the first byte
    after which no route exists. The search is a FIFO queue of
    (cell, path) entries with a table of the shortest path length recorded
    per cell; an entry whose length does not improve on the table is
    discarded. */
module Day18 {
  import opened Common

  // ---------------------------------------------------------------------
  // Input

  /** One line `x,y`: the first two comma-separated fields as numbers.
      Further fields are ignored; a missing or malformed field panics. */
  function ParseLine(line: string): (r: Option<Point>)
    ensures r.Some? <==> var fields := Split(line, ',');
      && |fields| >= 2
      && |fields[0]| > 0 && (forall i :: 0 <= i < |fields[0]| ==> IsDigit(fields[0][i]))
      && |fields[1]| > 0 && (forall i :: 0 <= i < |fields[1]| ==> IsDigit(fields[1][i]))
    ensures r.Some? ==> r.value.x >= 0 && r.value.y >= 0
    ensures r.Some? ==> ParseNat(Split(line, ',')[0]) == Some(r.value.x) && ParseNat(Split(line, ',')[1]) == Some(r.value.y)
  {
    var fields := Split(line, ',');
    if |fields| < 2 then None
    else match (ParseNat(fields[0]), ParseNat(fields[1]))
      case (Some(x), Some(y)) => Some(Point(x, y))
      case _ => None
  }

  /** The parsed lines, in order; `None` if any line fails. */
  function ParseLines(lines: seq<string>): (r: Option<seq<Point>>)
    ensures r.Some? <==> forall k :: 0 <= k < |lines| ==> ParseLine(lines[k]).Some?
    ensures r.Some? ==> |r.value| == |lines|
    ensures r.Some? ==> forall k :: 0 <= k < |lines| ==> ParseLine(lines[k]) == Some(r.value[k])
  {
    if lines == [] then Some([])
    else match (ParseLine(lines[0]), ParseLines(lines[1..]))
      case (Some(p), Some(rest)) => Some([p] + rest)
      case (None, _) => None
      case (_, None) =>
        assert forall k :: 0 <= k < |lines| - 1 ==> lines[1..][k] == lines[k + 1];
        None
  }

  /** `parse_input`: the non-empty lines of the file, each parsed. */
  function ParseInput(file: string): Option<seq<Point>> {
    ParseLines(NonEmpty(Split(file, '\n')))
  }

  /** `format!("{x},{y}")`. */
  function Format(p: Point): string
    requires p.x >= 0 && p.y >= 0
  {
    Join([Decimal(p.x), Decimal(p.y)], ',')
  }

  /** A reported coordinate reads back as the same line of input. */
  lemma FormatParses(p: Point)
    requires p.x >= 0 && p.y >= 0
    ensures ParseLine(Format(p)) == Some(p)
  {
    SplitJoin([Decimal(p.x), Decimal(p.y)], ',');
    ParseDecimal(p.x);
    ParseDecimal(p.y);
  }

  /** Fields after the second are never read: a reported coordinate
      followed by anything after a comma still reads back. */
  lemma FormatParsesAhead(p: Point, rest: string)
    requires p.x >= 0 && p.y >= 0
    ensures ParseLine(Format(p) + [','] + rest) == Some(p)
  {
    var dx, dy := Decimal(p.x), Decimal(p.y);
    assert ',' !in dx && ',' !in dy by {
      assert forall i :: 0 <= i < |dx| ==> IsDigit(dx[i]);
      assert forall i :: 0 <= i < |dy| ==> IsDigit(dy[i]);
    }
    assert [dx, dy][1..] == [dy];
    assert Join([dy], ',') == dy;
    assert Join([dx, dy], ',') == dx + [','] + Join([dy], ',');
    assert Format(p) == dx + [','] + dy;
    assert Format(p) + [','] + rest == dx + [','] + (dy + [','] + rest);
    SplitFirst(dx, dy + [','] + rest, ',');
    SplitFirst(dy, rest, ',');
    ParseDecimal(p.x);
    ParseDecimal(p.y);
  }

  // ---------------------------------------------------------------------
  // The grid

  ghost predicate Square<T>(grid: seq<seq<T>>) {
    forall y :: 0 <= y < |grid| ==> |grid[y]| == |grid|
  }

  /** Every byte lands inside a `width` by `width` grid. */
  predicate Fits(bytes: seq<Point>, width: nat) {
    forall k :: 0 <= k < |bytes| ==> 0 <= bytes[k].x < width && 0 <= bytes[k].y < width
  }

  /** `fill_grid`: a `width` by `width` grid, blocked exactly where a byte fell. */
  function FillGrid(bytes: seq<Point>, width: nat): (g: seq<seq<bool>>)
    requires Fits(bytes, width)
    ensures |g| == width && Square(g)
    decreases |bytes|
  {
    if bytes == [] then seq(width, _ => seq(width, _ => false))
    else Set(FillGrid(bytes[..|bytes| - 1], width), bytes[|bytes| - 1], true)
  }

  /** A cell of the filled grid is blocked exactly when some byte fell on it. */
  lemma {:induction false} FillGridMeans(bytes: seq<Point>, width: nat)
    requires Fits(bytes, width)
    ensures var g := FillGrid(bytes, width);
      forall p :: InGrid(g, p) ==> (At(g, p) <==> p in bytes)
    decreases |bytes|
  {
    if bytes != [] {
      var prefix := bytes[..|bytes| - 1];
      FillGridMeans(prefix, width);
      assert bytes == prefix + [bytes[|bytes| - 1]];
    }
  }

  /** A cell a route may step onto: inside the grid and not blocked. */
  predicate Open(grid: seq<seq<bool>>, p: Point) {
    InGrid(grid, p) && !At(grid, p)
  }

  /** The bottom-right cell, the goal of every route. */
  function Corner(grid: seq<seq<bool>>): Point {
    Point(|grid| - 1, |grid| - 1)
  }


  /** A route from the top-left cell: it starts at (0, 0), which is never
      checked, and every later cell is open and next to the one before. */
  ghost predicate Route(grid: seq<seq<bool>>, path: seq<Point>)
    ensures Route(grid, path) ==> path != []
    decreases |path|
  {
    if |path| <= 1 then path == [Point(0, 0)]
    else
      var prefix := path[..|path| - 1];
      Route(grid, prefix) && Open(grid, Last(path)) && Adjacent(Last(prefix), Last(path))
  }

  /** The corner can be reached at all. */
  ghost predicate Reachable(grid: seq<seq<bool>>) {
    exists path :: Route(grid, path) && Last(path) == Corner(grid)
  }

  lemma {:induction false} RouteSnoc(grid: seq<seq<bool>>, path: seq<Point>, n: Point)
    requires Route(grid, path) && Open(grid, n) && Adjacent(Last(path), n)
    ensures Route(grid, path + [n]) && Last(path + [n]) == n
  {
    assert (path + [n])[..|path|] == path;
  }

  // ---------------------------------------------------------------------
  // The search

  /** A queued entry: the cell and the path that reached it. */
  datatype Entry = Entry(p: Point, path: seq<Point>)

  /** The search state: the queue, the recorded path length per cell (a
      missing cell stands for `usize::MAX`), and the last path recorded at
      the corner (empty if none). */
  datatype State = State(queue: seq<Entry>, rec: map<Point, nat>, shortest: seq<Point>)

  /** Append the open neighbours of `e`, in direction order from `i` on,
      each with its path extended by that cell. */
  function PushFrom(grid: seq<seq<bool>>, e: Entry, i: nat, queue: seq<Entry>): seq<Entry>
    requires i <= 4
    decreases 4 - i
  {
    if i == 4 then queue
    else
      var n := Neighbour(e.p, i);
      PushFrom(grid, e, i + 1, if Open(grid, n) then queue + [Entry(n, e.path + [n])] else queue)
  }

  /** One pass of the loop: pop the front entry; discard it unless its path
      is shorter than the length recorded for its cell; otherwise record the
      length, keep the path if the cell is the corner, and queue the open
      neighbours. */
  function Visit(grid: seq<seq<bool>>, s: State): (r: State)
    requires s.queue != []
  {
    var e := s.queue[0];
    if e.p in s.rec && s.rec[e.p] <= |e.path| then s.(queue := s.queue[1..])
    else
      State(PushFrom(grid, e, 0, s.queue[1..]), s.rec[e.p := |e.path|],
            if e.p == Corner(grid) then e.path else s.shortest)
  }

  /** Recorded lengths only go down, and a recorded cell stays recorded. */
  lemma VisitShrinks(grid: seq<seq<bool>>, s: State)
    requires s.queue != []
    ensures var r := Visit(grid, s);
      forall c :: c in s.rec ==> c in r.rec && r.rec[c] <= s.rec[c]
  {
  }

  /** The loop until the queue is empty. The source has no bound on the
      number of passes; `fuel` stands in for it and `None` means it ran out. */
  function Loop(grid: seq<seq<bool>>, s: State, fuel: nat): (r: Option<State>)
    ensures r.Some? ==> r.value.queue == []
    decreases fuel
  {
    if s.queue == [] then Some(s)
    else if fuel == 0 then None
    else Loop(grid, Visit(grid, s), fuel - 1)
  }

  /** The state before the first pass: (0, 0) queued with the path [(0, 0)]. */
  function Init(): State {
    State([Entry(Point(0, 0), [Point(0, 0)])], map[], [])
  }

  /** `find_shortest_path`: the path kept for the corner, empty if the
      corner was never recorded. */
  function FindShortestPath(grid: seq<seq<bool>>, fuel: nat): (r: Option<seq<Point>>)
    requires |grid| >= 1 && Square(grid)
  {
    match Loop(grid, Init(), fuel)
    case None => None
    case Some(s) => Some(s.shortest)
  }

  // ---------------------------------------------------------------------
  // Soundness: every queued path and the kept path are routes

  /** Every entry of the queue carries a route that ends at its cell. */
  ghost predicate Routes(grid: seq<seq<bool>>, q: seq<Entry>)
    decreases |q|
  {
    q == [] || (Route(grid, q[0].path) && Last(q[0].path) == q[0].p && Routes(grid, q[1..]))
  }

  lemma {:induction false} RoutesAppend(grid: seq<seq<bool>>, a: seq<Entry>, b: seq<Entry>)
    ensures Routes(grid, a + b) <==> Routes(grid, a) && Routes(grid, b)
    decreases |a|
  {
    if a == [] {
      assert a + b == b;
    } else {
      assert (a + b)[1..] == a[1..] + b;
      RoutesAppend(grid, a[1..], b);
    }
  }

  /** Extending a route to its cell by one open neighbour gives routes only. */
  lemma {:induction false} PushRoutes(grid: seq<seq<bool>>, e: Entry, i: nat, queue: seq<Entry>)
    requires i <= 4 && Routes(grid, queue) && Route(grid, e.path) && Last(e.path) == e.p
    ensures Routes(grid, PushFrom(grid, e, i, queue))
    decreases 4 - i
  {
    if i < 4 {
      var n := Neighbour(e.p, i);
      if Open(grid, n) {
        RouteSnoc(grid, e.path, n);
        assert Routes(grid, [Entry(n, e.path + [n])]);
        RoutesAppend(grid, queue, [Entry(n, e.path + [n])]);
      }
      PushRoutes(grid, e, i + 1, if Open(grid, n) then queue + [Entry(n, e.path + [n])] else queue);
    }
  }

  ghost predicate Sound(grid: seq<seq<bool>>, s: State) {
    Routes(grid, s.queue) && Kept(grid, s)
  }

  /** The corner facts of `Sound`. */
  ghost predicate Kept(grid: seq<seq<bool>>, s: State) {
    (Corner(grid) in s.rec <==> s.shortest != []) &&
    (s.shortest != [] ==>
      Route(grid, s.shortest) && Last(s.shortest) == Corner(grid) && s.rec[Corner(grid)] == |s.shortest|)
  }

  lemma {:induction false} VisitKept(grid: seq<seq<bool>>, s: State, e: Entry)
    requires s.queue != [] && e == s.queue[0] && Kept(grid, s) && Route(grid, e.path) && Last(e.path) == e.p
    ensures Kept(grid, Visit(grid, s))
  {
  }

  lemma VisitSound(grid: seq<seq<bool>>, s: State)
    requires s.queue != [] && Sound(grid, s)
    ensures Sound(grid, Visit(grid, s))
  {
    var e := s.queue[0];
    if !(e.p in s.rec && s.rec[e.p] <= |e.path|) {
      PushRoutes(grid, e, 0, s.queue[1..]);
    }
    VisitKept(grid, s, e);
  }

  /** A pass of a loop that has not finished. */
  lemma LoopStep(grid: seq<seq<bool>>, s: State, fuel: nat, last: State) returns (next: State)
    requires s.queue != [] && Loop(grid, s, fuel) == Some(last)
    ensures fuel >= 1 && next == Visit(grid, s) && Loop(grid, next, fuel - 1) == Some(last)
  {
    next := Visit(grid, s);
  }

  /** Whatever one pass preserves, the whole loop preserves. */
  lemma {:induction false} LoopKeeps(grid: seq<seq<bool>>, inv: State -> bool, s: State, fuel: nat, last: State)
    requires forall t: State {:trigger Visit(grid, t)} :: t.queue != [] && inv(t) ==> inv(Visit(grid, t))
    requires inv(s) && Loop(grid, s, fuel) == Some(last)
    ensures inv(last)
    decreases fuel
  {
    if s.queue != [] {
      var next := LoopStep(grid, s, fuel, last);
      LoopKeeps(grid, inv, next, fuel - 1, last);
    }
  }

  lemma {:induction false} LoopSound(grid: seq<seq<bool>>, s: State, fuel: nat, last: State)
    requires Sound(grid, s) && Loop(grid, s, fuel) == Some(last)
    ensures Sound(grid, last)
  {
    forall t: State {:trigger Visit(grid, t)} | t.queue != [] && Sound(grid, t)
      ensures Sound(grid, Visit(grid, t))
    {
      VisitSound(grid, t);
    }
    LoopKeeps(grid, t => Sound(grid, t), s, fuel, last);
  }

  // ---------------------------------------------------------------------
  // Completeness: every route is matched by a recorded length

  /** Some entry for cell `n` with a path of at most `len` cells is queued. */
  ghost predicate Queued(q: seq<Entry>, n: Point, len: nat)
    decreases |q|
  {
    q != [] && ((q[0].p == n && |q[0].path| <= len) || Queued(q[1..], n, len))
  }

  lemma {:induction false} QueuedAppend(a: seq<Entry>, b: seq<Entry>, n: Point, len: nat)
    ensures Queued(a + b, n, len) <==> Queued(a, n, len) || Queued(b, n, len)
    decreases |a|
  {
    if a == [] {
      assert a + b == b;
    } else {
      assert (a + b)[1..] == a[1..] + b;
      QueuedAppend(a[1..], b, n, len);
    }
  }

  /** Pushing keeps what was queued and queues every open neighbour in the
      remaining directions with one more cell than the popped path. */
  lemma {:induction false} PushQueued(grid: seq<seq<bool>>, e: Entry, i: nat, queue: seq<Entry>, n: Point, len: nat)
    requires i <= 4
    ensures Queued(queue, n, len) ==> Queued(PushFrom(grid, e, i, queue), n, len)
    ensures (exists j :: i <= j < 4 && n == Neighbour(e.p, j)) && Open(grid, n) && |e.path| + 1 <= len ==>
              Queued(PushFrom(grid, e, i, queue), n, len)
    decreases 4 - i
  {
    if i < 4 {
      var m := Neighbour(e.p, i);
      var q := if Open(grid, m) then queue + [Entry(m, e.path + [m])] else queue;
      QueuedAppend(queue, [Entry(m, e.path + [m])], n, len);
      assert Queued(queue, n, len) ==> Queued(q, n, len);
      assert m == n && Open(grid, n) && |e.path| + 1 <= len ==> Queued(q, n, len);
      PushQueued(grid, e, i + 1, q, n, len);
    }
  }

  /** Cell `n` already has a length of at most `len` recorded, or an entry
      of at most that length is queued for it. */
  ghost predicate Pending(s: State, n: Point, len: nat) {
    (n in s.rec && s.rec[n] <= len) || Queued(s.queue, n, len)
  }

  /** Every recorded cell has offered each open neighbour one more step,
      and the start cell is covered with length 1. */
  ghost predicate Closed(grid: seq<seq<bool>>, s: State) {
    Pending(s, Point(0, 0), 1) && forall c, n :: Offered(grid, s, c, n)
  }

  /** Recorded cell `c` has offered its open neighbour `n` one more step. */
  ghost predicate Offered(grid: seq<seq<bool>>, s: State, c: Point, n: Point) {
    c in s.rec && Open(grid, n) && Adjacent(c, n) ==> Pending(s, n, s.rec[c] + 1)
  }

  /** A pass keeps every pending fact: what the front entry promised is now
      recorded, and the rest of the queue survives. */
  lemma PendingKept(grid: seq<seq<bool>>, s: State, n: Point, len: nat)
    requires s.queue != [] && Pending(s, n, len)
    ensures Pending(Visit(grid, s), n, len)
  {
    var e := s.queue[0];
    if !(e.p in s.rec && s.rec[e.p] <= |e.path|) {
      PushQueued(grid, e, 0, s.queue[1..], n, len);
    }
  }

  lemma VisitClosed(grid: seq<seq<bool>>, s: State)
    requires s.queue != [] && Closed(grid, s)
    ensures Closed(grid, Visit(grid, s))
  {
    var r := Visit(grid, s);
    PendingKept(grid, s, Point(0, 0), 1);
    forall c, n
      ensures Offered(grid, r, c, n)
    {
      VisitClosedAt(grid, s, c, n);
    }
  }

  /** One recorded cell after a pass has offered its open neighbour `n`
      one more step. */
  lemma VisitClosedAt(grid: seq<seq<bool>>, s: State, c: Point, n: Point)
    requires s.queue != [] && Closed(grid, s)
    ensures Offered(grid, Visit(grid, s), c, n)
  {
    var e := s.queue[0];
    var r := Visit(grid, s);
    if c in r.rec && Open(grid, n) && Adjacent(c, n) {
      if c in s.rec && r.rec[c] == s.rec[c] {
        assert Offered(grid, s, c, n);
        PendingKept(grid, s, n, s.rec[c] + 1);
      } else {
        assert c == e.p && r.rec[c] == |e.path|;
        NeighbourCovers(c, n);
        PushQueued(grid, e, 0, s.queue[1..], n, r.rec[c] + 1);
      }
    }
  }

  lemma {:induction false} LoopClosed(grid: seq<seq<bool>>, s: State, fuel: nat, last: State)
    requires Closed(grid, s) && Loop(grid, s, fuel) == Some(last)
    ensures Closed(grid, last)
  {
    forall t: State {:trigger Visit(grid, t)} | t.queue != [] && Closed(grid, t)
      ensures Closed(grid, Visit(grid, t))
    {
      VisitClosed(grid, t);
    }
    LoopKeeps(grid, t => Closed(grid, t), s, fuel, last);
  }

  /** Once the queue is empty, every route ends on a recorded cell whose
      length is at most the route's. */
  lemma {:induction false} RouteRecorded(grid: seq<seq<bool>>, s: State, path: seq<Point>)
    requires s.queue == [] && Closed(grid, s) && Route(grid, path)
    ensures Last(path) in s.rec && s.rec[Last(path)] <= |path|
    decreases |path|
  {
    if |path| > 1 {
      RouteRecorded(grid, s, path[..|path| - 1]);
      assert Offered(grid, s, path[|path| - 2], Last(path));
    }
  }

  /** What the search promises once it finishes: the kept path is a route
      to the corner, it is empty exactly when no route exists, and no route
      is shorter. */
  lemma {:induction false} FindShortestPathCorrect(grid: seq<seq<bool>>, fuel: nat)
    requires |grid| >= 1 && Square(grid) && FindShortestPath(grid, fuel).Some?
    ensures var path := FindShortestPath(grid, fuel).value;
      (path != [] ==> Route(grid, path) && Last(path) == Corner(grid)) &&
      (path == [] <==> !Reachable(grid)) &&
      (forall other :: Route(grid, other) && Last(other) == Corner(grid) ==> |path| <= |other|)
  {
    var s := Loop(grid, Init(), fuel).value;
    assert Routes(grid, Init().queue);
    assert Queued(Init().queue, Point(0, 0), 1);
    LoopSound(grid, Init(), fuel, s);
    LoopClosed(grid, Init(), fuel, s);
    forall other | Route(grid, other) && Last(other) == Corner(grid)
      ensures s.shortest != [] && |s.shortest| <= |other|
    {
      RouteRecorded(grid, s, other);
    }
  }

  // ---------------------------------------------------------------------
  // Part one

  /** `len` is the number of cells on a shortest route to the corner. */
  ghost predicate Shortest(grid: seq<seq<bool>>, len: nat) {
    (exists path :: Route(grid, path) && Last(path) == Corner(grid) && |path| == len) &&
    (forall other :: Route(grid, other) && Last(other) == Corner(grid) ==> len <= |other|)
  }

  /** `part_one`: parse, drop the first `fallen` bytes, search, and count
      the steps of the path (`len - 1`). `None` stands for every panic of
      the source (a malformed line, fewer bytes than `fallen`, a byte
      outside the grid, an empty grid, the `len - 1` underflow when the
      corner is unreachable) and for running out of fuel. */
  function PartOne(file: string, width: nat, fallen: nat, fuel: nat): Option<nat> {
    match ParseInput(file)
    case None => None
    case Some(bytes) => StepsAfter(bytes, width, fallen, fuel)
  }

  /** Part one on already parsed bytes. */
  function StepsAfter(bytes: seq<Point>, width: nat, fallen: nat, fuel: nat): Option<nat> {
    if fallen > |bytes| || !Fits(bytes[..fallen], width) || width == 0 then None
    else
      var found := FindShortestPath(FillGrid(bytes[..fallen], width), fuel);
      if found.None? || found.value == [] then None else Some(|found.value| - 1)
  }

  /** Once the search finishes, part one answers exactly when the corner is
      reachable, and its answer is the step count of a shortest route. */
  lemma {:induction false} PartOneMeans(file: string, bytes: seq<Point>, width: nat, fallen: nat, fuel: nat)
    requires ParseInput(file) == Some(bytes) && 1 <= width && fallen <= |bytes| && Fits(bytes[..fallen], width)
    requires FindShortestPath(FillGrid(bytes[..fallen], width), fuel).Some?
    ensures var grid := FillGrid(bytes[..fallen], width);
      (PartOne(file, width, fallen, fuel).Some? <==> Reachable(grid)) &&
      (forall n :: PartOne(file, width, fallen, fuel) == Some(n) ==> Shortest(grid, n + 1))
  {
    var grid := FillGrid(bytes[..fallen], width);
    var path := FindShortestPath(grid, fuel).value;
    var answer := PartOne(file, width, fallen, fuel);
    PartOneAnswer(file, bytes, width, fallen, fuel, grid, path);
    StepCountMeans(grid, fuel, path);
    AnswerMeans(grid, path, answer);
  }

  /** The step count of a path found for `grid`, read as an answer. */
  lemma AnswerMeans(grid: seq<seq<bool>>, path: seq<Point>, answer: Option<nat>)
    requires answer == if path == [] then None else Some(|path| - 1)
    requires (path != [] <==> Reachable(grid)) && (path != [] ==> Shortest(grid, |path|))
    ensures answer.Some? <==> Reachable(grid)
    ensures forall n :: answer == Some(n) ==> Shortest(grid, n + 1)
  {
  }

  /** Part one reads its answer off the path the search returns. */
  lemma {:induction false} PartOneAnswer(file: string, bytes: seq<Point>, width: nat, fallen: nat, fuel: nat, grid: seq<seq<bool>>, path: seq<Point>)
    requires ParseInput(file) == Some(bytes) && 1 <= width && fallen <= |bytes| && Fits(bytes[..fallen], width)
    requires grid == FillGrid(bytes[..fallen], width) && FindShortestPath(grid, fuel) == Some(path)
    ensures PartOne(file, width, fallen, fuel) == if path == [] then None else Some(|path| - 1)
  {
    assert PartOne(file, width, fallen, fuel) == StepsAfter(bytes, width, fallen, fuel);
  }

  /** The path's step count is present exactly for a reachable corner and is then minimal. */
  lemma StepCountMeans(grid: seq<seq<bool>>, fuel: nat, path: seq<Point>)
    requires |grid| >= 1 && Square(grid) && FindShortestPath(grid, fuel) == Some(path)
    ensures path != [] <==> Reachable(grid)
    ensures path != [] ==> Shortest(grid, |path|)
  {
    FindShortestPathCorrect(grid, fuel);
    if path != [] {
      assert Route(grid, path) && Last(path) == Corner(grid);
    }
  }

  // ---------------------------------------------------------------------
  // Part two

  /** The grid after the first `count` bytes fell. */
  ghost predicate CutAfter(bytes: seq<Point>, width: nat, count: nat) {
    count <= |bytes| && Fits(bytes[..count], width) && !Reachable(FillGrid(bytes[..count], width))
  }

  ghost predicate OpenAfter(bytes: seq<Point>, width: nat, count: nat) {
    count <= |bytes| && Fits(bytes[..count], width) && Reachable(FillGrid(bytes[..count], width))
  }

  /** The loop of `part_two` from byte `i` on, with `path` the current
      shortest path: block the byte; when it lies on the path, search again
      and stop at the first byte that leaves no path. The grid after byte
      `i` is the one the first `i + 1` bytes fill. `None` is the final panic,
      a byte outside the grid, or running out of fuel. */
  function Blocker(bytes: seq<Point>, width: nat, i: nat, path: seq<Point>, fuel: nat): (r: Option<nat>)
    requires 1 <= width && i <= |bytes| && Fits(bytes[..i], width)
    ensures r.Some? ==> i <= r.value < |bytes| && 0 <= bytes[r.value].x < width && 0 <= bytes[r.value].y < width
    decreases |bytes| - i
  {
    if i == |bytes| then None
    else if !(0 <= bytes[i].x < width && 0 <= bytes[i].y < width) then None
    else
      FitsSnoc(bytes, width, i);
      if bytes[i] !in path then Blocker(bytes, width, i + 1, path, fuel)
      else
        var found := FindShortestPath(FillGrid(bytes[..i + 1], width), fuel);
        if found.None? then None
        else if found.value == [] then Some(i)
        else Blocker(bytes, width, i + 1, found.value, fuel)
  }

  /** One more byte inside the grid keeps the prefix inside it. */
  lemma FitsSnoc(bytes: seq<Point>, width: nat, i: nat)
    requires i < |bytes| && Fits(bytes[..i], width) && 0 <= bytes[i].x < width && 0 <= bytes[i].y < width
    ensures Fits(bytes[..i + 1], width)
  {
    assert forall k :: 0 <= k < i ==> bytes[..i + 1][k] == bytes[..i][k];
  }

  /** `part_two`: the first byte past `fallen` after which the corner cannot
      be reached, as `x,y`. */
  function PartTwo(file: string, width: nat, fallen: nat, fuel: nat): Option<string> {
    match ParseInput(file)
    case None => None
    case Some(bytes) =>
      if fallen > |bytes| || !Fits(bytes[..fallen], width) || width == 0 then None
      else match FindShortestPath(FillGrid(bytes[..fallen], width), fuel)
        case None => None
        case Some(path) =>
          match Blocker(bytes, width, fallen, path, fuel)
          case None => None
          case Some(k) => Some(Format(bytes[k]))
  }

  /** A route stays a route when no cell of it becomes blocked. */
  lemma {:induction false} RouteKept(g1: seq<seq<bool>>, g2: seq<seq<bool>>, path: seq<Point>)
    requires Route(g1, path)
    requires forall p :: p in path && Open(g1, p) ==> Open(g2, p)
    ensures Route(g2, path)
    decreases |path|
  {
    if |path| > 1 {
      var prefix := path[..|path| - 1];
      assert forall p :: p in prefix ==> p in path;
      RouteKept(g1, g2, prefix);
      assert Last(path) in path;
    }
  }

  /** One more byte that misses `path` leaves it a route. */
  lemma {:induction false} MissedByte(bytes: seq<Point>, width: nat, i: nat, path: seq<Point>)
    requires i < |bytes| && Fits(bytes[..i + 1], width) && bytes[i] !in path
    requires Route(FillGrid(bytes[..i], width), path)
    ensures Route(FillGrid(bytes[..i + 1], width), path)
  {
    var g1, g2 := FillGrid(bytes[..i], width), FillGrid(bytes[..i + 1], width);
    FillGridMeans(bytes[..i], width);
    FillGridMeans(bytes[..i + 1], width);
    forall p | p in path && Open(g1, p)
      ensures Open(g2, p)
    {
      assert p !in bytes[..i];
      assert bytes[..i + 1] == bytes[..i] + [bytes[i]];
    }
    RouteKept(g1, g2, path);
  }

  /** A reported byte is the first one that cuts the corner off: the
      corner is reachable before every byte from `i` up to it, and not
      after it. */
  lemma {:induction false} BlockerFirst(bytes: seq<Point>, width: nat, i: nat, path: seq<Point>, fuel: nat, k: nat)
    requires 1 <= width && i <= |bytes| && Fits(bytes[..i], width)
    requires path == [] || (Route(FillGrid(bytes[..i], width), path) && Last(path) == Corner(FillGrid(bytes[..i], width)))
    requires Blocker(bytes, width, i, path, fuel) == Some(k)
    ensures i <= k < |bytes| && CutAfter(bytes, width, k + 1)
    ensures forall j :: i <= j <= k ==> OpenAfter(bytes, width, j)
    decreases |bytes| - i
  {
    BlockerUnfold(bytes, width, i, path, fuel, k);
    if path == [] {
      NoPathNoBlocker(bytes, width, i, fuel);
      assert false;
    }
    OpenBefore(bytes, width, i, path);
    if bytes[i] in path {
      var next := FindShortestPath(FillGrid(bytes[..i + 1], width), fuel).value;
      SearchAfter(bytes, width, i, fuel);
      if next != [] {
        BlockerFirst(bytes, width, i + 1, next, fuel, k);
        OpenFrom(bytes, width, i, k);
      } else {
        assert k == i;
        OpenFrom(bytes, width, i, k);
      }
    } else {
      MissedByte(bytes, width, i, path);
      BlockerFirst(bytes, width, i + 1, path, fuel, k);
      OpenFrom(bytes, width, i, k);
    }
  }

  /** Reachable before byte `i` and before each later one up to `k` is
      reachable before each of them from `i` on. */
  lemma OpenFrom(bytes: seq<Point>, width: nat, i: nat, k: nat)
    requires OpenAfter(bytes, width, i)
    requires forall j :: i + 1 <= j <= k ==> OpenAfter(bytes, width, j)
    ensures forall j :: i <= j <= k ==> OpenAfter(bytes, width, j)
  {
  }

  /** A route to the corner before byte `i` means the corner is reachable
      then. */
  lemma {:induction false} OpenBefore(bytes: seq<Point>, width: nat, i: nat, path: seq<Point>)
    requires i <= |bytes| && Fits(bytes[..i], width)
    requires Route(FillGrid(bytes[..i], width), path) && Last(path) == Corner(FillGrid(bytes[..i], width))
    ensures OpenAfter(bytes, width, i)
  {
  }

  /** The search after byte `i`, when it finishes, returns either nothing
      for a cut-off corner or a route to the corner. */
  lemma SearchAfter(bytes: seq<Point>, width: nat, i: nat, fuel: nat)
    requires 1 <= width && i < |bytes| && Fits(bytes[..i + 1], width)
    requires FindShortestPath(FillGrid(bytes[..i + 1], width), fuel).Some?
    ensures var grid := FillGrid(bytes[..i + 1], width);
      var next := FindShortestPath(grid, fuel).value;
      (next == [] ==> CutAfter(bytes, width, i + 1)) &&
      (next != [] ==> Route(grid, next) && Last(next) == Corner(grid))
  {
    FindShortestPathCorrect(FillGrid(bytes[..i + 1], width), fuel);
  }

  /** One step of `Blocker` that reports `k`: the byte is inside the grid,
      and either it misses the path and the rest reports `k`, or the search
      after it finishes and either finds nothing (then `k` is this byte) or
      a new path from which the rest reports `k`. */
  lemma BlockerUnfold(bytes: seq<Point>, width: nat, i: nat, path: seq<Point>, fuel: nat, k: nat)
    requires 1 <= width && i <= |bytes| && Fits(bytes[..i], width)
    requires Blocker(bytes, width, i, path, fuel) == Some(k)
    ensures i < |bytes| && 0 <= bytes[i].x < width && 0 <= bytes[i].y < width && Fits(bytes[..i + 1], width)
    ensures bytes[i] !in path ==> Blocker(bytes, width, i + 1, path, fuel) == Some(k)
    ensures bytes[i] in path ==>
      var found := FindShortestPath(FillGrid(bytes[..i + 1], width), fuel);
      found.Some? && (found.value == [] ==> k == i) &&
      (found.value != [] ==> Blocker(bytes, width, i + 1, found.value, fuel) == Some(k))
  {
    FitsSnoc(bytes, width, i);
  }

  /** With no current path the loop never searches again and reports nothing. */
  lemma {:induction false} NoPathNoBlocker(bytes: seq<Point>, width: nat, i: nat, fuel: nat)
    requires 1 <= width && i <= |bytes| && Fits(bytes[..i], width)
    ensures Blocker(bytes, width, i, [], fuel) == None
    decreases |bytes| - i
  {
    if i < |bytes| && 0 <= bytes[i].x < width && 0 <= bytes[i].y < width {
      FitsSnoc(bytes, width, i);
      NoPathNoBlocker(bytes, width, i + 1, fuel);
    }
  }

  /** The converse of `BlockerFirst`: from a route to the corner before
      byte `i`, the loop reports a byte whenever the corner is cut off after
      some later byte `j`, provided every search it may start finishes. */
  lemma {:induction false} BlockerComplete(bytes: seq<Point>, width: nat, i: nat, path: seq<Point>, fuel: nat, j: nat)
    requires 1 <= width && i < j && CutAfter(bytes, width, j) && Fits(bytes[..i], width)
    requires Route(FillGrid(bytes[..i], width), path) && Last(path) == Corner(FillGrid(bytes[..i], width))
    requires forall m :: i < m <= j && Fits(bytes[..m], width) ==> FindShortestPath(FillGrid(bytes[..m], width), fuel).Some?
    ensures Blocker(bytes, width, i, path, fuel).Some?
    decreases j - i
  {
    assert bytes[..j][i] == bytes[i];
    FitsSnoc(bytes, width, i);
    var next := path;
    if bytes[i] in path {
      SearchAfter(bytes, width, i, fuel);
      next := FindShortestPath(FillGrid(bytes[..i + 1], width), fuel).value;
      if next == [] {
        return;
      }
    } else {
      MissedByte(bytes, width, i, path);
    }
    OpenBefore(bytes, width, i + 1, next);
    assert i + 1 < j;
    BlockerComplete(bytes, width, i + 1, next, fuel, j);
  }

  /** Part two reports, as a line of the input format, the first byte past
      `fallen` after which the corner is cut off. */
  lemma PartTwoMeans(file: string, bytes: seq<Point>, width: nat, fallen: nat, fuel: nat, answer: string)
    requires ParseInput(file) == Some(bytes) && PartTwo(file, width, fallen, fuel) == Some(answer)
    ensures exists k :: FirstCut(bytes, width, fallen, k, answer)
  {
    var grid := FillGrid(bytes[..fallen], width);
    var path := FindShortestPath(grid, fuel).value;
    FindShortestPathCorrect(grid, fuel);
    var k := Blocker(bytes, width, fallen, path, fuel).value;
    BlockerFirst(bytes, width, fallen, path, fuel, k);
    assert answer == Format(bytes[k]);
    FormatParses(bytes[k]);
    assert FirstCut(bytes, width, fallen, k, answer);
  }

  /** `answer` is written as byte `k`, the first byte from `fallen` on
      after which the corner is cut off. */
  ghost predicate FirstCut(bytes: seq<Point>, width: nat, fallen: nat, k: nat, answer: string) {
    && fallen <= k < |bytes| && ParseLine(answer) == Some(bytes[k])
    && CutAfter(bytes, width, k + 1)
    && (forall j :: fallen <= j <= k ==> OpenAfter(bytes, width, j))
  }

  /** Once every search finishes, part two answers whenever the corner is
      reachable after `fallen` bytes and cut off after some later number
      `j` of bytes, and its answer is the first cutting byte, which comes
      before byte `j`. So its final panic is reached only when no byte cuts
      the corner off. */
  lemma {:induction false} PartTwoComplete(file: string, bytes: seq<Point>, width: nat, fallen: nat, fuel: nat, j: nat) returns (answer: string)
    requires ParseInput(file) == Some(bytes) && 1 <= width
    requires OpenAfter(bytes, width, fallen) && fallen < j && CutAfter(bytes, width, j)
    requires forall m :: fallen <= m <= j && Fits(bytes[..m], width) ==> FindShortestPath(FillGrid(bytes[..m], width), fuel).Some?
    ensures PartTwo(file, width, fallen, fuel) == Some(answer)
    ensures exists k: nat :: k < j && FirstCut(bytes, width, fallen, k, answer)
  {
    var grid := FillGrid(bytes[..fallen], width);
    FindShortestPathCorrect(grid, fuel);
    var path := FindShortestPath(grid, fuel).value;
    BlockerComplete(bytes, width, fallen, path, fuel, j);
    answer := PartTwoAt(file, bytes, width, fallen, fuel, path);
    PartTwoMeans(file, bytes, width, fallen, fuel, answer);
    var k :| FirstCut(bytes, width, fallen, k, answer);
    CutBeyond(bytes, width, fallen, k, answer, j);
  }

  /** Part two once the first search found `path` and the loop reported a byte. */
  lemma PartTwoAt(file: string, bytes: seq<Point>, width: nat, fallen: nat, fuel: nat, path: seq<Point>) returns (answer: string)
    requires ParseInput(file) == Some(bytes) && 1 <= width && fallen <= |bytes| && Fits(bytes[..fallen], width)
    requires FindShortestPath(FillGrid(bytes[..fallen], width), fuel) == Some(path)
    requires Blocker(bytes, width, fallen, path, fuel).Some?
    ensures PartTwo(file, width, fallen, fuel) == Some(answer)
    ensures answer == Format(bytes[Blocker(bytes, width, fallen, path, fuel).value])
  {
    answer := Format(bytes[Blocker(bytes, width, fallen, path, fuel).value]);
  }

  /** The first cutting byte comes before any number of bytes that cuts. */
  lemma CutBeyond(bytes: seq<Point>, width: nat, fallen: nat, k: nat, answer: string, j: nat)
    requires FirstCut(bytes, width, fallen, k, answer) && fallen <= j && CutAfter(bytes, width, j)
    ensures k < j
  {
    assert !OpenAfter(bytes, width, j);
  }
}

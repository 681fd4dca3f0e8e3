/** Day 16: a reindeer race through a maze. Moving one tile costs 1 and
    every quarter turn costs 1000. The solver is a label-correcting search:
    a FIFO queue of (position, direction, score) entries and a map from
    (x, y, direction) to the best score recorded so far; a neighbour is
    recorded and queued whenever it is open and its score improves. Part
    one is the best score recorded at the end tile. */
module Day16 {
  import opened Common

  /** The iteration ceiling of the search loop. */
  const Cap: nat := 999_999

  /** `i64::MAX`, the answer when the end tile was never reached. */
  const I64Max: int := 0x7FFF_FFFF_FFFF_FFFF

  /** `DIRECTIONS`: east, south, west, north. */
  function Direction(i: nat): (v: (int, int))
    requires i < 4
    ensures Abs(v.0) + Abs(v.1) == 1
  {
    [(1, 0), (0, 1), (-1, 0), (0, -1)][i]
  }

  function Min(a: int, b: int): int {
    if a <= b then a else b
  }

  /** The number of quarter turns charged for moving in direction `i` when
      facing `d`, as the source computes it: `min(|i - (4 - d)|, |i - d|)`. */
  function Turns(d: nat, i: nat): nat {
    Min(AbsDiff(i, 4 - d), AbsDiff(i, d))
  }

  /** The cost of one move: 1 for the tile and 1000 per quarter turn. */
  function TurnCost(d: nat, i: nat): (c: nat)
    ensures c >= 1
    ensures c == 1 <==> Turns(d, i) == 0
  {
    1 + 1000 * Turns(d, i)
  }

  /** Quarter turns counted around the compass: `min(|i - d|, 4 - |i - d|)`. */
  function TurnsIntended(d: nat, i: nat): nat
    requires d < 4 && i < 4
  {
    Min(AbsDiff(i, d), 4 - AbsDiff(i, d))
  }

  /** The move cost with the intended turn count. */
  function TurnCostIntended(d: nat, i: nat): (c: nat)
    requires d < 4 && i < 4
    ensures c >= 1
    ensures c == 1 <==> d == i
  {
    1 + 1000 * TurnsIntended(d, i)
  }

  /** The cost charged by the search: as written, or as intended. */
  function Cost(intended: bool, d: nat, i: nat): (c: nat)
    ensures c >= 1
  {
    if intended && d < 4 && i < 4 then TurnCostIntended(d, i) else TurnCost(d, i)
  }

  /** As written, turning around costs two turns on the east-west axis but
      none at all on the north-south axis: from south (1) to north (3) and
      back the count is `|3 - (4 - 1)| = 0`. */
  lemma TurnCostAsWritten()
    ensures Turns(0, 2) == 2 && Turns(2, 0) == 2
    ensures Turns(1, 3) == 0 && Turns(3, 1) == 0
    ensures TurnCost(1, 3) == 1 && TurnCostIntended(1, 3) == 2001
  {
  }

  /** The intended count in closed form: none for the same direction, one
      for directions of different parity, two for opposite ones. */
  lemma TurnsIntendedClosed(d: nat, i: nat)
    requires d < 4 && i < 4
    ensures TurnsIntended(d, i) == if d == i then 0 else if (d + i) % 2 == 1 then 1 else 2
  {
  }

  /** The direction a quarter turn clockwise from `d` (east, south, west,
      north in index order). */
  function Clockwise(d: nat): (r: nat)
    requires d < 4
    ensures r < 4
  {
    if d == 3 then 0 else d + 1
  }

  /** The intended count: none straight on, one for a quarter turn either
      way, two for turning around, whatever the heading; it is symmetric
      and unchanged by rotating both directions. */
  lemma TurnsIntendedMeans(d: nat, i: nat)
    requires d < 4 && i < 4
    ensures TurnsIntended(d, i) == TurnsIntended(i, d)
    ensures TurnsIntended(d, i) == TurnsIntended(Clockwise(d), Clockwise(i))
    ensures i == d <==> TurnsIntended(d, i) == 0
    ensures i == Clockwise(d) || d == Clockwise(i) <==> TurnsIntended(d, i) == 1
    ensures i == Clockwise(Clockwise(d)) <==> TurnsIntended(d, i) == 2
  {
    TurnsIntendedClosed(d, i);
    TurnsIntendedClosed(i, d);
    TurnsIntendedClosed(Clockwise(d), Clockwise(i));
  }

  /** The two counts agree whenever the heading is east or west. */
  lemma TurnsAgreeEastWest(d: nat, i: nat)
    requires (d == 0 || d == 2) && i < 4
    ensures Turns(d, i) == TurnsIntended(d, i)
  {
  }

  // ---------------------------------------------------------------------
  // The maze

  /** `find_start_and_end` for one marker: the last occurrence in reading
      order, or `(usize::MAX, usize::MAX)` read back as `i32`, that is
      `(-1, -1)`, when there is none. */
  function FindLast(grid: seq<string>, c: char): (p: Point)
    ensures InGrid(grid, p) ==> At(grid, p) == c
    ensures !InGrid(grid, p) ==> p == Point(-1, -1) && forall q :: InGrid(grid, q) ==> At(grid, q) != c
    ensures InGrid(grid, p) ==> forall q :: InGrid(grid, q) && At(grid, q) == c ==> q.y < p.y || (q.y == p.y && q.x <= p.x)
    decreases |grid|
  {
    if grid == [] then Point(-1, -1)
    else
      var y := |grid| - 1;
      match LastIn(grid[y], c)
      case Some(x) => Point(x, y)
      case None =>
        var p := FindLast(grid[..y], c);
        assert forall q :: InGrid(grid, q) && q.y == y ==> At(grid, q) != c by {
          forall q | InGrid(grid, q) && q.y == y
            ensures At(grid, q) != c
          {
            assert grid[y][q.x] in grid[y];
          }
        }
        assert forall q :: InGrid(grid, q) && q.y < y ==> InGrid(grid[..y], q) && At(grid[..y], q) == At(grid, q);
        p
  }

  /** The index of the last `c` in `row`. */
  function LastIn(row: string, c: char): (r: Option<nat>)
    ensures r.Some? ==> r.value < |row| && row[r.value] == c && c !in row[r.value + 1..]
    ensures r.None? <==> c !in row
  {
    if row == [] then None
    else if row[|row| - 1] == c then Some(|row| - 1)
    else
      var r := LastIn(row[..|row| - 1], c);
      assert row == row[..|row| - 1] + [row[|row| - 1]];
      r
  }

  /** The tile one step from `p` in direction `i` is inside the map (as
      measured by the first row and the number of rows) and not a wall. */
  predicate Open(grid: seq<string>, p: Point)
    requires Rectangular(grid)
  {
    |grid| > 0 && 0 <= p.x < |grid[0]| && 0 <= p.y < |grid| && grid[p.y][p.x] != '#'
  }

  function Next(p: Point, i: nat): Point
    requires i < 4
  {
    Point(p.x + Direction(i).0, p.y + Direction(i).1)
  }

  // ---------------------------------------------------------------------
  // The search

  /** A queue entry: a position, the direction it was entered in, and the
      score of getting there. */
  datatype Entry = Entry(p: Point, dir: nat, score: nat)

  /** The key of the recorded-score map. */
  function Key(p: Point, i: nat): (int, int, nat) {
    (p.x, p.y, i)
  }

  /** One direction of the inner loop: record and queue the neighbour if it
      is open and its score is new or strictly better. */
  function Expand(grid: seq<string>, intended: bool, e: Entry, i: nat,
                  queue: seq<Entry>, best: map<(int, int, nat), nat>): (r: (seq<Entry>, map<(int, int, nat), nat>))
    requires Rectangular(grid) && i < 4
  {
    var q := Next(e.p, i);
    var c := e.score + Cost(intended, e.dir, i);
    var k := Key(q, i);
    if Open(grid, q) && (k !in best || best[k] > c) then (queue + [Entry(q, i, c)], best[k := c])
    else (queue, best)
  }

  /** Directions `i` to 3, in order: the inner `for` loop. */
  function ExpandFrom(grid: seq<string>, intended: bool, e: Entry, i: nat,
                      queue: seq<Entry>, best: map<(int, int, nat), nat>): (r: (seq<Entry>, map<(int, int, nat), nat>))
    requires Rectangular(grid) && i <= 4
    decreases 4 - i
  {
    if i == 4 then (queue, best)
    else
      var next := Expand(grid, intended, e, i, queue, best);
      ExpandFrom(grid, intended, e, i + 1, next.0, next.1)
  }

  /** The outer loop from iteration `it` on: stop on an empty queue or at
      the ceiling. Returns the queue it stops with, the recorded scores and
      the iteration count. */
  function Loop(grid: seq<string>, intended: bool, queue: seq<Entry>,
                best: map<(int, int, nat), nat>, it: nat): (r: (seq<Entry>, map<(int, int, nat), nat>, nat))
    requires Rectangular(grid)
    ensures it <= Cap ==> r.2 <= Cap
    ensures r.2 >= it
    decreases Cap - it, 0
  {
    if queue == [] || it >= Cap then (queue, best, it)
    else Resume(grid, intended, Pass(grid, intended, queue, best), it + 1)
  }

  /** The outer loop picked up again from the queue and scores a pass
      left behind. */
  function Resume(grid: seq<string>, intended: bool, next: (seq<Entry>, map<(int, int, nat), nat>), it: nat): (r: (seq<Entry>, map<(int, int, nat), nat>, nat))
    requires Rectangular(grid) && it <= Cap
    ensures r.2 <= Cap
    ensures r.2 >= it
    decreases Cap - it, 1
  {
    Loop(grid, intended, next.0, next.1, it)
  }

  /** One pass of the outer loop: pop the front entry and try its four
      neighbours in order. */
  function Pass(grid: seq<string>, intended: bool, queue: seq<Entry>,
                best: map<(int, int, nat), nat>): (r: (seq<Entry>, map<(int, int, nat), nat>))
    requires Rectangular(grid) && queue != []
  {
    ExpandFrom(grid, intended, queue[0], 0, queue[1..], best)
  }

  /** A property of the queue and the scores that one pass keeps. */
  ghost predicate Preserves(grid: seq<string>, intended: bool, inv: (seq<Entry>, map<(int, int, nat), nat>) -> bool)
    requires Rectangular(grid)
  {
    forall q, b {:trigger inv(q, b), Pass(grid, intended, q, b)} ::
      q != [] && inv(q, b) ==> inv(Pass(grid, intended, q, b).0, Pass(grid, intended, q, b).1)
  }

  lemma PreservesStep(grid: seq<string>, intended: bool, inv: (seq<Entry>, map<(int, int, nat), nat>) -> bool,
                      queue: seq<Entry>, best: map<(int, int, nat), nat>)
    requires Rectangular(grid) && Preserves(grid, intended, inv)
    requires queue != [] && inv(queue, best)
    ensures inv(Pass(grid, intended, queue, best).0, Pass(grid, intended, queue, best).1)
  {
  }

  /** The outer loop keeps any property of the queue and the scores that
      one pass keeps. */
  lemma {:induction false} LoopKeeps(grid: seq<string>, intended: bool,
                                      inv: (seq<Entry>, map<(int, int, nat), nat>) -> bool,
                                      queue: seq<Entry>, best: map<(int, int, nat), nat>, it: nat)
    requires Rectangular(grid) && Preserves(grid, intended, inv) && inv(queue, best)
    ensures inv(Loop(grid, intended, queue, best, it).0, Loop(grid, intended, queue, best, it).1)
    decreases Cap - it
  {
    if queue != [] && it < Cap {
      var next := LoopGoes(grid, intended, queue, best, it);
      PreservesStep(grid, intended, inv, queue, best);
      LoopKeeps(grid, intended, inv, next.0, next.1, it + 1);
    } else {
      LoopStops(grid, intended, queue, best, it);
    }
  }

  /** A loop that stops below the ceiling stops because its queue ran dry. */
  lemma {:induction false} LoopEmpties(grid: seq<string>, intended: bool,
                                        queue: seq<Entry>, best: map<(int, int, nat), nat>, it: nat)
    requires Rectangular(grid)
    ensures Loop(grid, intended, queue, best, it).2 < Cap ==> Loop(grid, intended, queue, best, it).0 == []
    decreases Cap - it
  {
    if queue != [] && it < Cap {
      var next := LoopGoes(grid, intended, queue, best, it);
      LoopEmpties(grid, intended, next.0, next.1, it + 1);
    } else {
      LoopStops(grid, intended, queue, best, it);
    }
  }

  /** Below the ceiling and with a non-empty queue, the loop does one pass
      and carries on. */
  lemma LoopGoes(grid: seq<string>, intended: bool, queue: seq<Entry>, best: map<(int, int, nat), nat>, it: nat)
      returns (next: (seq<Entry>, map<(int, int, nat), nat>))
    requires Rectangular(grid) && queue != [] && it < Cap
    ensures next == Pass(grid, intended, queue, best)
    ensures Loop(grid, intended, queue, best, it) == Loop(grid, intended, next.0, next.1, it + 1)
  {
    next := Pass(grid, intended, queue, best);
  }

  /** On an empty queue or at the ceiling, the loop hands back the scores
      and the count unchanged. */
  lemma LoopStops(grid: seq<string>, intended: bool, queue: seq<Entry>, best: map<(int, int, nat), nat>, it: nat)
    requires Rectangular(grid) && (queue == [] || it >= Cap)
    ensures Loop(grid, intended, queue, best, it) == (queue, best, it)
  {
  }

  /** The search from `S`, facing east with score 0. */
  function Search(grid: seq<string>, intended: bool): (r: (seq<Entry>, map<(int, int, nat), nat>, nat))
    requires Rectangular(grid)
    ensures r.2 <= Cap
  {
    Loop(grid, intended, [Entry(FindLast(grid, 'S'), 0, 0)], map[], 0)
  }

  /** The smallest score recorded at `end` over the four directions, or
      `i64::MAX` if none is. */
  function MinAtEnd(best: map<(int, int, nat), nat>, end: Point): (r: int)
    ensures r == I64Max <==> forall i :: 0 <= i < 4 ==> Key(end, i) !in best || best[Key(end, i)] >= I64Max
    ensures r != I64Max ==> exists i :: 0 <= i < 4 && Key(end, i) in best && best[Key(end, i)] == r
    ensures forall i :: 0 <= i < 4 && Key(end, i) in best ==> r <= best[Key(end, i)]
  {
    MinFrom(best, end, 0)
  }

  function MinFrom(best: map<(int, int, nat), nat>, end: Point, i: nat): (r: int)
    requires i <= 4
    ensures r <= I64Max
    ensures r == I64Max <==> forall j :: i <= j < 4 ==> Key(end, j) !in best || best[Key(end, j)] >= I64Max
    ensures r != I64Max ==> exists j :: i <= j < 4 && Key(end, j) in best && best[Key(end, j)] == r
    ensures forall j :: i <= j < 4 && Key(end, j) in best ==> r <= best[Key(end, j)]
    decreases 4 - i
  {
    if i == 4 then I64Max
    else
      var rest := MinFrom(best, end, i + 1);
      if Key(end, i) in best then Min(rest, best[Key(end, i)]) else rest
  }

  /** `part_one` with the turn count as written or as intended: `None` for an empty maze
      (the source reads `grid[0]`). */
  function Solve(grid: seq<string>, intended: bool): (r: Option<int>)
    requires Rectangular(grid)
  {
    if grid == [] then None
    else Some(MinAtEnd(Search(grid, intended).1, FindLast(grid, 'E')))
  }

  /** `part_one`, as written. */
  function PartOne(file: string): Option<int>
    requires Rectangular(NonEmpty(Split(file, '\n')))
  {
    Solve(NonEmpty(Split(file, '\n')), false)
  }

  /** `part_one` with the intended turn count. */
  function PartOneIntended(file: string): Option<int>
    requires Rectangular(NonEmpty(Split(file, '\n')))
  {
    Solve(NonEmpty(Split(file, '\n')), true)
  }

  // ---------------------------------------------------------------------
  // What the search records

  /** Scores only go down and recorded keys stay recorded. */
  ghost predicate Improves(m: map<(int, int, nat), nat>, m': map<(int, int, nat), nat>) {
    forall k :: k in m ==> k in m' && m'[k] <= m[k]
  }

  /** The score of following `moves` from `start` facing east, or `None` if
      a move leaves the map or runs into a wall. */
  ghost function Walk(grid: seq<string>, intended: bool, start: Point, moves: seq<nat>): Option<Entry>
    requires Rectangular(grid)
  {
    if moves == [] then Some(Entry(start, 0, 0))
    else
      match Walk(grid, intended, start, moves[..|moves| - 1])
      case None => None
      case Some(e) =>
        var i := moves[|moves| - 1];
        if i < 4 && Open(grid, Next(e.p, i)) then Some(Entry(Next(e.p, i), i, e.score + Cost(intended, e.dir, i)))
        else None
  }

  /** An entry is the end of some walk from `start`. */
  ghost predicate Achievable(grid: seq<string>, intended: bool, start: Point, e: Entry)
    requires Rectangular(grid)
  {
    exists moves :: Walk(grid, intended, start, moves) == Some(e)
  }

  /** Everything queued is a real walk from `start`. */
  ghost predicate QueueSound(grid: seq<string>, intended: bool, start: Point, queue: seq<Entry>)
    requires Rectangular(grid)
  {
    forall j :: 0 <= j < |queue| ==> Achievable(grid, intended, start, queue[j])
  }

  /** Every recorded key names a direction and an open tile, and its score
      is positive and the score of a real walk from `start`. */
  ghost predicate BestSound(grid: seq<string>, intended: bool, start: Point, best: map<(int, int, nat), nat>)
    requires Rectangular(grid)
  {
    forall k :: k in best ==>
      && k.2 < 4
      && best[k] >= 1
      && Open(grid, Point(k.0, k.1))
      && Achievable(grid, intended, start, Entry(Point(k.0, k.1), k.2, best[k]))
  }

  ghost predicate Sound(grid: seq<string>, intended: bool, start: Point,
                        queue: seq<Entry>, best: map<(int, int, nat), nat>)
    requires Rectangular(grid)
  {
    QueueSound(grid, intended, start, queue) && BestSound(grid, intended, start, best)
  }

  /** Extending a walk by one open move. */
  lemma {:induction false} WalkSnoc(grid: seq<string>, intended: bool, start: Point, moves: seq<nat>, e: Entry, i: nat)
    requires Rectangular(grid) && i < 4
    requires Walk(grid, intended, start, moves) == Some(e) && Open(grid, Next(e.p, i))
    ensures Walk(grid, intended, start, moves + [i]) == Some(Entry(Next(e.p, i), i, e.score + Cost(intended, e.dir, i)))
  {
    assert (moves + [i])[..|moves|] == moves;
  }

  /** An achievable entry followed by one open move is achievable. */
  lemma AchievableStep(grid: seq<string>, intended: bool, start: Point, e: Entry, i: nat)
    requires Rectangular(grid) && i < 4
    requires Achievable(grid, intended, start, e) && Open(grid, Next(e.p, i))
    ensures Achievable(grid, intended, start, Entry(Next(e.p, i), i, e.score + Cost(intended, e.dir, i)))
  {
    var moves :| Walk(grid, intended, start, moves) == Some(e);
    WalkSnoc(grid, intended, start, moves, e, i);
  }

  lemma QueueSnoc(grid: seq<string>, intended: bool, start: Point, queue: seq<Entry>, ne: Entry)
    requires Rectangular(grid)
    requires QueueSound(grid, intended, start, queue) && Achievable(grid, intended, start, ne)
    ensures QueueSound(grid, intended, start, queue + [ne])
  {
    var nq := queue + [ne];
    forall j | 0 <= j < |nq|
      ensures Achievable(grid, intended, start, nq[j])
    {
      if j < |queue| {
        assert nq[j] == queue[j];
      }
    }
  }

  lemma BestUpdate(grid: seq<string>, intended: bool, start: Point, best: map<(int, int, nat), nat>,
                   p: Point, i: nat, c: nat)
    requires Rectangular(grid)
    requires BestSound(grid, intended, start, best)
    requires i < 4 && c >= 1 && Open(grid, p)
    requires Achievable(grid, intended, start, Entry(p, i, c))
    ensures BestSound(grid, intended, start, best[Key(p, i) := c])
  {
    var nb := best[Key(p, i) := c];
    forall kk | kk in nb
      ensures kk.2 < 4 && nb[kk] >= 1 && Open(grid, Point(kk.0, kk.1))
      ensures Achievable(grid, intended, start, Entry(Point(kk.0, kk.1), kk.2, nb[kk]))
    {
      if kk == Key(p, i) {
        assert Entry(Point(kk.0, kk.1), kk.2, nb[kk]) == Entry(p, i, c);
      } else {
        assert nb[kk] == best[kk];
      }
    }
  }

  /** What one direction of the inner loop does to the queue and the map. */
  lemma ExpandShape(grid: seq<string>, intended: bool, e: Entry, i: nat, queue: seq<Entry>, best: map<(int, int, nat), nat>)
    requires Rectangular(grid) && i < 4
    ensures var r := Expand(grid, intended, e, i, queue, best);
      var q := Next(e.p, i);
      var c := e.score + Cost(intended, e.dir, i);
      if Open(grid, q) && (Key(q, i) !in best || best[Key(q, i)] > c)
      then r.0 == queue + [Entry(q, i, c)] && r.1 == best[Key(q, i) := c]
      else r.0 == queue && r.1 == best
  {
  }

  lemma ExpandSound(grid: seq<string>, intended: bool, start: Point, e: Entry, i: nat,
                    queue: seq<Entry>, best: map<(int, int, nat), nat>)
    requires Rectangular(grid) && i < 4
    requires Achievable(grid, intended, start, e) && Sound(grid, intended, start, queue, best)
    ensures var r := Expand(grid, intended, e, i, queue, best);
      Sound(grid, intended, start, r.0, r.1) && Improves(best, r.1)
  {
    var r := Expand(grid, intended, e, i, queue, best);
    ExpandShape(grid, intended, e, i, queue, best);
    var q := Next(e.p, i);
    var c := e.score + Cost(intended, e.dir, i);
    var k := Key(q, i);
    if Open(grid, q) && (k !in best || best[k] > c) {
      AchievableStep(grid, intended, start, e, i);
      QueueSnoc(grid, intended, start, queue, Entry(q, i, c));
      BestUpdate(grid, intended, start, best, q, i, c);
      ImprovesUpdate(best, Key(q, i), c);
      SoundTransfer(grid, intended, start, best, r, queue + [Entry(q, i, c)], best[Key(q, i) := c]);
    } else {
      SoundTransfer(grid, intended, start, best, r, queue, best);
    }
  }

  /** Soundness and improvement carried over to an equal state. */
  lemma SoundTransfer(grid: seq<string>, intended: bool, start: Point, best: map<(int, int, nat), nat>,
                      r: (seq<Entry>, map<(int, int, nat), nat>), queue: seq<Entry>, scores: map<(int, int, nat), nat>)
    requires Rectangular(grid) && r.0 == queue && r.1 == scores
    requires Sound(grid, intended, start, queue, scores) && Improves(best, scores)
    ensures Sound(grid, intended, start, r.0, r.1) && Improves(best, r.1)
  {
  }

  /** Recording a new key, or a lower score for an old one, only improves. */
  lemma ImprovesUpdate(m: map<(int, int, nat), nat>, k: (int, int, nat), v: nat)
    requires k !in m || m[k] >= v
    ensures Improves(m, m[k := v])
  {
  }

  lemma {:induction false} ExpandFromSound(grid: seq<string>, intended: bool, start: Point, e: Entry, i: nat,
                                            queue: seq<Entry>, best: map<(int, int, nat), nat>)
    requires Rectangular(grid) && i <= 4
    requires Achievable(grid, intended, start, e) && Sound(grid, intended, start, queue, best)
    ensures var r := ExpandFrom(grid, intended, e, i, queue, best);
      Sound(grid, intended, start, r.0, r.1) && Improves(best, r.1)
    decreases 4 - i
  {
    if i < 4 {
      var next := Expand(grid, intended, e, i, queue, best);
      ExpandSound(grid, intended, start, e, i, queue, best);
      ExpandFromSound(grid, intended, start, e, i + 1, next.0, next.1);
      ImprovesTrans(best, next.1, ExpandFrom(grid, intended, e, i + 1, next.0, next.1).1);
    }
  }

  lemma QueueTail(grid: seq<string>, intended: bool, start: Point, queue: seq<Entry>)
    requires Rectangular(grid) && queue != []
    requires QueueSound(grid, intended, start, queue)
    ensures Achievable(grid, intended, start, queue[0]) && QueueSound(grid, intended, start, queue[1..])
  {
    forall j | 0 <= j < |queue| - 1
      ensures Achievable(grid, intended, start, queue[1..][j])
    {
      assert queue[1..][j] == queue[j + 1];
    }
  }

  lemma ImprovesTrans(a: map<(int, int, nat), nat>, b: map<(int, int, nat), nat>, c: map<(int, int, nat), nat>)
    requires Improves(a, b) && Improves(b, c)
    ensures Improves(a, c)
  {
  }

  /** One pass keeps everything sound and only lowers scores below those
      of `best`. */
  lemma PassSound(grid: seq<string>, intended: bool, start: Point, best: map<(int, int, nat), nat>,
                  queue: seq<Entry>, scores: map<(int, int, nat), nat>)
    requires Rectangular(grid) && queue != []
    requires Sound(grid, intended, start, queue, scores) && Improves(best, scores)
    ensures var next := Pass(grid, intended, queue, scores);
      Sound(grid, intended, start, next.0, next.1) && Improves(best, next.1)
  {
    QueueTail(grid, intended, start, queue);
    ExpandFromSound(grid, intended, start, queue[0], 0, queue[1..], scores);
    ImprovesTrans(best, scores, Pass(grid, intended, queue, scores).1);
  }

  /** The loop keeps everything sound and only lowers scores. */
  lemma LoopSound(grid: seq<string>, intended: bool, start: Point,
                  queue: seq<Entry>, best: map<(int, int, nat), nat>, it: nat)
    requires Rectangular(grid)
    requires Sound(grid, intended, start, queue, best)
    ensures BestSound(grid, intended, start, Loop(grid, intended, queue, best, it).1)
    ensures Improves(best, Loop(grid, intended, queue, best, it).1)
  {
    var inv := (q: seq<Entry>, b: map<(int, int, nat), nat>) =>
      Sound(grid, intended, start, q, b) && Improves(best, b);
    forall q, b | q != [] && inv(q, b)
      ensures inv(Pass(grid, intended, q, b).0, Pass(grid, intended, q, b).1)
    {
      PassSound(grid, intended, start, best, q, b);
    }
    LoopKeeps(grid, intended, inv, queue, best, it);
  }

  /** Every score the search records at a tile is the score of an actual
      walk from `S` to that tile, ending in the recorded direction, and is
      at least 1. */
  lemma {:induction false} SearchSound(grid: seq<string>, intended: bool)
    requires Rectangular(grid)
    ensures BestSound(grid, intended, FindLast(grid, 'S'), Search(grid, intended).1)
  {
    var start := FindLast(grid, 'S');
    assert Walk(grid, intended, start, []) == Some(Entry(start, 0, 0));
    LoopSound(grid, intended, start, [Entry(start, 0, 0)], map[], 0);
  }

  /** Some walk from `S` ends on `E` with the given score. */
  ghost predicate ReachesEnd(grid: seq<string>, intended: bool, score: int)
    requires Rectangular(grid)
  {
    exists moves, e :: Walk(grid, intended, FindLast(grid, 'S'), moves) == Some(e) && e.p == FindLast(grid, 'E') && e.score == score
  }

  /** The answer of `part_one` is either `i64::MAX` (the end was never
      reached) or the score of an actual walk from `S` to `E`. */
  lemma SolveSound(grid: seq<string>, intended: bool)
    requires Rectangular(grid) && grid != []
    ensures var r := Solve(grid, intended).value;
      r == I64Max || (r >= 1 && ReachesEnd(grid, intended, r))
  {
    SearchSound(grid, intended);
    var best := Search(grid, intended).1;
    var end := FindLast(grid, 'E');
    var start := FindLast(grid, 'S');
    var r := MinAtEnd(best, end);
    assert Solve(grid, intended).value == r;
    if r != I64Max {
      var i :| 0 <= i < 4 && Key(end, i) in best && best[Key(end, i)] == r;
      var k := Key(end, i);
      assert Achievable(grid, intended, start, Entry(Point(k.0, k.1), k.2, best[k]));
      var moves :| Walk(grid, intended, start, moves) == Some(Entry(Point(k.0, k.1), k.2, best[k]));
      assert Walk(grid, intended, start, moves) == Some(Entry(end, i, r));
    }
  }

  // ---------------------------------------------------------------------
  // What the search misses: nothing, when the queue runs dry

  /** Every open neighbour of `e` is recorded with a score no worse than
      reaching it through `e`. */
  ghost predicate Relaxed(grid: seq<string>, intended: bool, e: Entry, best: map<(int, int, nat), nat>)
    requires Rectangular(grid)
  {
    forall i :: 0 <= i < 4 && Open(grid, Next(e.p, i)) ==>
      Key(Next(e.p, i), i) in best && best[Key(Next(e.p, i), i)] <= e.score + Cost(intended, e.dir, i)
  }

  /** The entry a recorded key currently stands for. */
  function Current(k: (int, int, nat), best: map<(int, int, nat), nat>): (e: Entry)
    requires k in best
    ensures Key(e.p, e.dir) == k && e.score == best[k]
  {
    Entry(Point(k.0, k.1), k.2, best[k])
  }

  /** An entry still waits in the queue or has already been relaxed. */
  ghost predicate Settled(grid: seq<string>, intended: bool, e: Entry, queue: seq<Entry>, best: map<(int, int, nat), nat>)
    requires Rectangular(grid)
  {
    e in queue || Relaxed(grid, intended, e, best)
  }

  /** The loop's completeness invariant: the start entry and every
      recorded key's current entry are settled. */
  ghost predicate Complete(grid: seq<string>, intended: bool, start: Point, queue: seq<Entry>, best: map<(int, int, nat), nat>)
    requires Rectangular(grid)
  {
    && Settled(grid, intended, Entry(start, 0, 0), queue, best)
    && forall k {:trigger Current(k, best)} :: k in best ==> Settled(grid, intended, Current(k, best), queue, best)
  }

  /** With the queue empty: all of them are relaxed. */
  ghost predicate Done(grid: seq<string>, intended: bool, start: Point, best: map<(int, int, nat), nat>)
    requires Rectangular(grid)
  {
    && Relaxed(grid, intended, Entry(start, 0, 0), best)
    && forall k {:trigger Current(k, best)} :: k in best ==> Relaxed(grid, intended, Current(k, best), best)
  }

  lemma RelaxedImproves(grid: seq<string>, intended: bool, e: Entry, best: map<(int, int, nat), nat>, best': map<(int, int, nat), nat>)
    requires Rectangular(grid)
    requires Relaxed(grid, intended, e, best) && Improves(best, best')
    ensures Relaxed(grid, intended, e, best')
  {
  }

  /** The inner loop from direction `i` keeps the old queue as a prefix
      and only lowers scores. */
  lemma {:induction false} ExpandFromPrefix(grid: seq<string>, intended: bool, e: Entry, i: nat,
                                             queue: seq<Entry>, best: map<(int, int, nat), nat>)
    requires Rectangular(grid) && i <= 4
    ensures var r := ExpandFrom(grid, intended, e, i, queue, best);
      |queue| <= |r.0| && r.0[..|queue|] == queue && Improves(best, r.1)
    decreases 4 - i
  {
    if i < 4 {
      var next := Expand(grid, intended, e, i, queue, best);
      ExpandShape(grid, intended, e, i, queue, best);
      ExpandFromPrefix(grid, intended, e, i + 1, next.0, next.1);
      var r := ExpandFrom(grid, intended, e, i + 1, next.0, next.1);
      assert r.0[..|next.0|][..|queue|] == r.0[..|queue|];
      ImprovesTrans(best, next.1, r.1);
    }
  }

  /** Every key whose score the inner loop changes has its new entry
      queued. */
  lemma {:induction false} ExpandFromQueued(grid: seq<string>, intended: bool, e: Entry, i: nat,
                                             queue: seq<Entry>, best: map<(int, int, nat), nat>)
    requires Rectangular(grid) && i <= 4
    ensures var r := ExpandFrom(grid, intended, e, i, queue, best);
      forall k :: k in r.1 && (k !in best || r.1[k] != best[k]) ==> Current(k, r.1) in r.0
    decreases 4 - i
  {
    if i < 4 {
      var next := Expand(grid, intended, e, i, queue, best);
      ExpandShape(grid, intended, e, i, queue, best);
      ExpandFromQueued(grid, intended, e, i + 1, next.0, next.1);
      ExpandFromPrefix(grid, intended, e, i + 1, next.0, next.1);
      var r := ExpandFrom(grid, intended, e, i + 1, next.0, next.1);
      forall k | k in r.1 && (k !in best || r.1[k] != best[k])
        ensures Current(k, r.1) in r.0
      {
        if k in next.1 && r.1[k] == next.1[k] {
          var q := Next(e.p, i);
          assert k == Key(q, i);
          assert Current(k, r.1) == next.0[|queue|] == r.0[..|next.0|][|queue|];
        }
      }
    }
  }

  /** After the inner loop from direction `i`, directions `i` to 3 of `e`
      are relaxed. */
  lemma {:induction false} ExpandFromRelaxes(grid: seq<string>, intended: bool, e: Entry, i: nat,
                                              queue: seq<Entry>, best: map<(int, int, nat), nat>)
    requires Rectangular(grid) && i <= 4
    ensures var r := ExpandFrom(grid, intended, e, i, queue, best);
      forall j :: i <= j < 4 && Open(grid, Next(e.p, j)) ==>
        Key(Next(e.p, j), j) in r.1 && r.1[Key(Next(e.p, j), j)] <= e.score + Cost(intended, e.dir, j)
    decreases 4 - i
  {
    if i < 4 {
      var next := Expand(grid, intended, e, i, queue, best);
      var r := ExpandFrom(grid, intended, e, i + 1, next.0, next.1);
      assert ExpandFrom(grid, intended, e, i, queue, best) == r;
      ExpandFromRelaxes(grid, intended, e, i + 1, next.0, next.1);
      ExpandFromPrefix(grid, intended, e, i + 1, next.0, next.1);
      forall j | i <= j < 4 && Open(grid, Next(e.p, j))
        ensures Key(Next(e.p, j), j) in r.1 && r.1[Key(Next(e.p, j), j)] <= e.score + Cost(intended, e.dir, j)
      {
        if j == i {
          ExpandRelaxes(grid, intended, e, i, queue, best);
          ImprovesAt(next.1, r.1, Key(Next(e.p, i), i));
        }
      }
    }
  }

  /** One direction of the inner loop leaves its open neighbour recorded
      with a score no worse than reaching it through `e`. */
  lemma ExpandRelaxes(grid: seq<string>, intended: bool, e: Entry, i: nat,
                      queue: seq<Entry>, best: map<(int, int, nat), nat>)
    requires Rectangular(grid) && i < 4 && Open(grid, Next(e.p, i))
    ensures var r := Expand(grid, intended, e, i, queue, best);
      Key(Next(e.p, i), i) in r.1 && r.1[Key(Next(e.p, i), i)] <= e.score + Cost(intended, e.dir, i)
  {
  }

  lemma ImprovesAt(m: map<(int, int, nat), nat>, m': map<(int, int, nat), nat>, k: (int, int, nat))
    requires Improves(m, m') && k in m
    ensures k in m' && m'[k] <= m[k]
  {
  }

  /** A settled entry stays settled through one pass of the outer loop. */
  lemma SettledStep(grid: seq<string>, intended: bool, t: Entry, queue: seq<Entry>, best: map<(int, int, nat), nat>,
                    r: (seq<Entry>, map<(int, int, nat), nat>))
    requires Rectangular(grid) && queue != []
    requires Settled(grid, intended, t, queue, best)
    requires |queue| - 1 <= |r.0| && r.0[..|queue| - 1] == queue[1..]
    requires Improves(best, r.1) && Relaxed(grid, intended, queue[0], r.1)
    ensures Settled(grid, intended, t, r.0, r.1)
  {
    if Relaxed(grid, intended, t, best) {
      RelaxedImproves(grid, intended, t, best, r.1);
    } else if t != queue[0] {
      var j :| 0 <= j < |queue| && queue[j] == t;
      assert r.0[j - 1] == queue[1..][j - 1] == t;
    }
  }

  /** One pass of the outer loop keeps the completeness invariant. */
  lemma CompleteStep(grid: seq<string>, intended: bool, start: Point, queue: seq<Entry>, best: map<(int, int, nat), nat>)
    requires Rectangular(grid) && queue != []
    requires Complete(grid, intended, start, queue, best)
    ensures var r := ExpandFrom(grid, intended, queue[0], 0, queue[1..], best);
      Complete(grid, intended, start, r.0, r.1)
  {
    var r := ExpandFrom(grid, intended, queue[0], 0, queue[1..], best);
    ExpandFromPrefix(grid, intended, queue[0], 0, queue[1..], best);
    ExpandFromQueued(grid, intended, queue[0], 0, queue[1..], best);
    ExpandFromRelaxes(grid, intended, queue[0], 0, queue[1..], best);
    assert Relaxed(grid, intended, queue[0], r.1);
    SettledStep(grid, intended, Entry(start, 0, 0), queue, best, r);
    forall k | k in r.1
      ensures Settled(grid, intended, Current(k, r.1), r.0, r.1)
    {
      if k in best && r.1[k] == best[k] {
        assert Current(k, r.1) == Current(k, best);
        SettledStep(grid, intended, Current(k, best), queue, best, r);
      }
    }
  }

  /** A loop that stops below the ceiling has emptied its queue, and then
      everything it recorded is relaxed. */
  lemma LoopComplete(grid: seq<string>, intended: bool, start: Point,
                     queue: seq<Entry>, best: map<(int, int, nat), nat>, it: nat)
    requires Rectangular(grid)
    requires Complete(grid, intended, start, queue, best)
    ensures Loop(grid, intended, queue, best, it).2 < Cap ==> Done(grid, intended, start, Loop(grid, intended, queue, best, it).1)
  {
    var inv := (q: seq<Entry>, b: map<(int, int, nat), nat>) => Complete(grid, intended, start, q, b);
    forall q, b | q != [] && inv(q, b)
      ensures inv(Pass(grid, intended, q, b).0, Pass(grid, intended, q, b).1)
    {
      CompleteStep(grid, intended, start, q, b);
    }
    LoopKeeps(grid, intended, inv, queue, best, it);
    LoopEmpties(grid, intended, queue, best, it);
    if Loop(grid, intended, queue, best, it).2 < Cap {
      CompleteEmpty(grid, intended, start, Loop(grid, intended, queue, best, it).1);
    }
  }

  /** With nothing left in the queue, every settled entry is relaxed. */
  lemma CompleteEmpty(grid: seq<string>, intended: bool, start: Point, best: map<(int, int, nat), nat>)
    requires Rectangular(grid)
    requires Complete(grid, intended, start, [], best)
    ensures Done(grid, intended, start, best)
  {
  }

  /** Once everything is relaxed, the score recorded for the last tile and
      direction of any walk of at least one move is at most the walk's. */
  lemma {:induction false} WalkBound(grid: seq<string>, intended: bool, start: Point, best: map<(int, int, nat), nat>, moves: seq<nat>)
    requires Rectangular(grid) && Done(grid, intended, start, best)
    requires moves != [] && Walk(grid, intended, start, moves).Some?
    ensures var e := Walk(grid, intended, start, moves).value;
      e.dir < 4 && Key(e.p, e.dir) in best && best[Key(e.p, e.dir)] <= e.score
    decreases |moves|
  {
    var front := moves[..|moves| - 1];
    var i := moves[|moves| - 1];
    var e' := Walk(grid, intended, start, front).value;
    if front != [] {
      WalkBound(grid, intended, start, best, front);
      var k := Key(e'.p, e'.dir);
      assert Current(k, best) == Entry(e'.p, e'.dir, best[k]);
      assert Relaxed(grid, intended, Current(k, best), best);
    }
  }

  /** When the search empties its queue before the ceiling, no walk of at
      least one move from `S` to `E` scores less than the answer: with
      `SolveSound`, the answer is the least such score. */
  lemma SolveOptimal(grid: seq<string>, intended: bool)
    requires Rectangular(grid) && grid != []
    requires Search(grid, intended).2 < Cap
    ensures forall moves ::
      (moves != [] && Walk(grid, intended, FindLast(grid, 'S'), moves).Some?
        && Walk(grid, intended, FindLast(grid, 'S'), moves).value.p == FindLast(grid, 'E')) ==>
      Solve(grid, intended).value <= Walk(grid, intended, FindLast(grid, 'S'), moves).value.score
  {
    var start := FindLast(grid, 'S');
    var best := Search(grid, intended).1;
    LoopComplete(grid, intended, start, [Entry(start, 0, 0)], map[], 0);
    forall moves | moves != [] && Walk(grid, intended, start, moves).Some?
      && Walk(grid, intended, start, moves).value.p == FindLast(grid, 'E')
      ensures Solve(grid, intended).value <= Walk(grid, intended, start, moves).value.score
    {
      WalkBound(grid, intended, start, best, moves);
      EndBound(best, FindLast(grid, 'E'), Walk(grid, intended, start, moves).value, Solve(grid, intended).value);
    }
  }

  /** The least score recorded at `end` is at most that of any entry on
      `end` whose own key is recorded no higher than its score. */
  lemma EndBound(best: map<(int, int, nat), nat>, end: Point, e: Entry, r: int)
    requires r == MinAtEnd(best, end)
    requires e.p == end && e.dir < 4 && Key(e.p, e.dir) in best && best[Key(e.p, e.dir)] <= e.score
    ensures r <= e.score
  {
  }

  /** A maze without an `E` scores `i64::MAX`: nothing is recorded at
      `(-1, -1)`. */
  lemma NoEndNoScore(grid: seq<string>, intended: bool)
    requires Rectangular(grid) && grid != []
    requires forall q :: InGrid(grid, q) ==> At(grid, q) != 'E'
    ensures Solve(grid, intended) == Some(I64Max)
  {
    SearchSound(grid, intended);
    var best := Search(grid, intended).1;
    var end := FindLast(grid, 'E');
    assert end == Point(-1, -1);
    assert forall i :: 0 <= i < 4 ==> Key(end, i) !in best;
  }
}

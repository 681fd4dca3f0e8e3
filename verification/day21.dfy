/** Day 21: robots typing on keypads. To make a robot type a code, its
    operator presses arrow keys that move the robot's arm from key to key
    and 'A' to push the key under it. For every key of the code the source
    tries the two L-shaped routes (vertical then horizontal, horizontal then
    vertical), drops a route that crosses the keypad's gap, and combines the
    surviving routes into every full instruction sequence. */
module Day21 {
  import opened Common

  // ---------------------------------------------------------------------
  // Keypads

  /** A keypad: the position of every key, with 'X' marking the gap. */
  type Pad = map<char, Point>

  const NumericPad: Pad := map[
    '7' := Point(0, 0), '8' := Point(1, 0), '9' := Point(2, 0),
    '4' := Point(0, 1), '5' := Point(1, 1), '6' := Point(2, 1),
    '1' := Point(0, 2), '2' := Point(1, 2), '3' := Point(2, 2),
    'X' := Point(0, 3), '0' := Point(1, 3), 'A' := Point(2, 3)]

  const RobotPad: Pad := map[
    'X' := Point(0, 0), '^' := Point(1, 0), 'A' := Point(2, 0),
    '<' := Point(0, 1), 'v' := Point(1, 1), '>' := Point(2, 1)]

  predicate IsArrow(c: char) {
    c == '<' || c == '>' || c == '^' || c == 'v'
  }

  predicate Arrows(s: string) {
    forall i :: 0 <= i < |s| ==> IsArrow(s[i])
  }

  /** The arm's move for one arrow key. */
  function Move(p: Point, c: char): Point
    requires IsArrow(c)
  {
    match c
    case '>' => Point(p.x + 1, p.y)
    case '<' => Point(p.x - 1, p.y)
    case '^' => Point(p.x, p.y - 1)
    case 'v' => Point(p.x, p.y + 1)
  }

  /** Where a run of arrow keys leaves the arm. */
  function Walk(p: Point, s: string): Point
    requires Arrows(s)
    decreases |s|
  {
    if s == [] then p else Walk(Move(p, s[0]), s[1..])
  }

  lemma {:induction false} WalkAppend(p: Point, a: string, b: string)
    requires Arrows(a) && Arrows(b)
    ensures Arrows(a + b) && Walk(p, a + b) == Walk(Walk(p, a), b)
    decreases |a|
  {
    if a == [] {
      assert a + b == b;
    } else {
      assert (a + b)[1..] == a[1..] + b;
      WalkAppend(Move(p, a[0]), a[1..], b);
    }
  }

  // ---------------------------------------------------------------------
  // Routes between two keys

  function Repeat(c: char, n: nat): (r: string)
    ensures |r| == n && forall i :: 0 <= i < n ==> r[i] == c
  {
    if n == 0 then [] else [c] + Repeat(c, n - 1)
  }

  function Horizontal(dx: int): string {
    if dx > 0 then Repeat('>', dx) else Repeat('<', -dx)
  }

  function Vertical(dy: int): string {
    if dy < 0 then Repeat('^', -dy) else Repeat('v', dy)
  }

  /** `get_initial_movement_vector`: vertical then horizontal, and
      horizontal then vertical. */
  function Movements(dx: int, dy: int): seq<string> {
    [Vertical(dy) + Horizontal(dx), Horizontal(dx) + Vertical(dy)]
  }

  lemma {:induction false} WalkRepeat(p: Point, c: char, n: nat)
    requires IsArrow(c)
    ensures Arrows(Repeat(c, n))
    ensures Walk(p, Repeat(c, n)) == Point(p.x + n * (Move(p, c).x - p.x), p.y + n * (Move(p, c).y - p.y))
    decreases n
  {
    if n > 0 {
      assert Repeat(c, n)[1..] == Repeat(c, n - 1);
      WalkRepeat(Move(p, c), c, n - 1);
    }
  }

  lemma {:induction false} WalkHorizontal(p: Point, dx: int)
    ensures Arrows(Horizontal(dx)) && |Horizontal(dx)| == Abs(dx)
    ensures Walk(p, Horizontal(dx)) == Point(p.x + dx, p.y)
  {
    if dx > 0 { WalkRepeat(p, '>', dx); } else { WalkRepeat(p, '<', -dx); }
  }

  lemma {:induction false} WalkVertical(p: Point, dy: int)
    ensures Arrows(Vertical(dy)) && |Vertical(dy)| == Abs(dy)
    ensures Walk(p, Vertical(dy)) == Point(p.x, p.y + dy)
  {
    if dy < 0 { WalkRepeat(p, '^', -dy); } else { WalkRepeat(p, 'v', dy); }
  }

  /** Both routes are made of |dx| + |dy| arrow keys and move the arm by
      exactly (dx, dy). */
  lemma {:induction false} MovementsReach(p: Point, dx: int, dy: int)
    ensures |Movements(dx, dy)| == 2
    ensures forall o :: o in Movements(dx, dy) ==>
      Arrows(o) && |o| == Abs(dx) + Abs(dy) && Walk(p, o) == Point(p.x + dx, p.y + dy)
  {
    WalkHorizontal(p, dx);
    WalkVertical(p, dy);
    WalkHorizontal(Point(p.x, p.y + dy), dx);
    WalkVertical(Point(p.x + dx, p.y), dy);
    WalkAppend(p, Vertical(dy), Horizontal(dx));
    WalkAppend(p, Horizontal(dx), Vertical(dy));
  }

  /** The closure in `filter`: after every key the arm is off the gap.
      Routes hold only arrow keys, so the closure's panic on any other key
      never happens; here such a key simply fails the test. */
  predicate Avoids(gap: Point, p: Point, s: string)
    decreases |s|
  {
    s == [] || (IsArrow(s[0]) && Move(p, s[0]) != gap && Avoids(gap, Move(p, s[0]), s[1..]))
  }

  /** The surviving routes from `from` to `to`. */
  function Fragment(gap: Point, from: Point, to: Point): (r: seq<string>)
    ensures |r| <= 2
    ensures forall o :: o in r <==> o in Movements(to.x - from.x, to.y - from.y) && Avoids(gap, from, o)
  {
    var m := Movements(to.x - from.x, to.y - from.y);
    (if Avoids(gap, from, m[0]) then [m[0]] else []) + (if Avoids(gap, from, m[1]) then [m[1]] else [])
  }

  /** Every surviving route reaches `to` without touching the gap. */
  lemma {:induction false} FragmentReaches(gap: Point, from: Point, to: Point, o: string)
    requires o in Fragment(gap, from, to)
    ensures Arrows(o) && |o| == Abs(to.x - from.x) + Abs(to.y - from.y) && Walk(from, o) == to && Avoids(gap, from, o)
  {
    MovementsReach(from, to.x - from.x, to.y - from.y);
  }

  // ---------------------------------------------------------------------
  // Combining the fragments

  /** `Itertools::unique`: first occurrences, in order. */
  function Unique(s: seq<string>): (r: seq<string>)
    ensures forall o :: o in r <==> o in s
    ensures forall i, j :: 0 <= i < j < |r| ==> r[i] != r[j]
    ensures |r| <= |s|
    decreases |s|
  {
    if s == [] then []
    else
      var rest := Unique(s[..|s| - 1]);
      if Last(s) in rest then rest else rest + [Last(s)]
  }

  /** One round of the combining loop: each option in turn after every
      sequence so far, closed by 'A'. */
  function Extend(possible: seq<string>, options: seq<string>): (r: seq<string>)
    ensures |r| == |options| * |possible|
    decreases |options|
  {
    if options == [] then []
    else seq(|possible|, i requires 0 <= i < |possible| => possible[i] + options[0] + "A") + Extend(possible, options[1..])
  }

  lemma {:induction false} ExtendMeans(possible: seq<string>, options: seq<string>, s: string)
    ensures s in Extend(possible, options) <==> exists q, o :: q in possible && o in options && s == q + o + "A"
    decreases |options|
  {
    if options != [] {
      ExtendMeans(possible, options[1..], s);
      var first := seq(|possible|, i requires 0 <= i < |possible| => possible[i] + options[0] + "A");
      if s in first {
        var i :| 0 <= i < |possible| && first[i] == s;
        assert possible[i] in possible && options[0] in options;
      }
      if exists q :: q in possible && s == q + options[0] + "A" {
        var q :| q in possible && s == q + options[0] + "A";
        var i :| 0 <= i < |possible| && possible[i] == q;
        assert first[i] == s;
      }
      if s in Extend(possible, options[1..]) {
        var q, o :| q in possible && o in options[1..] && s == q + o + "A";
        assert o in options;
      }
      if exists q, o :: q in possible && o in options && s == q + o + "A" {
        var q, o :| q in possible && o in options && s == q + o + "A";
        if o != options[0] {
          assert o in options[1..];
        }
      }
    }
  }

  /** The combining loop over the fragments, one round per key. */
  function Combine(fragments: seq<seq<string>>): seq<string>
    decreases |fragments|
  {
    if fragments == [] then [""]
    else Extend(Combine(fragments[..|fragments| - 1]), Unique(Last(fragments)))
  }

  function Product(fragments: seq<seq<string>>): nat
    decreases |fragments|
  {
    if fragments == [] then 1 else Product(fragments[..|fragments| - 1]) * |Unique(Last(fragments))|
  }

  /** The number of sequences is the product of the numbers of distinct
      routes per key. */
  lemma {:induction false} CombineCount(fragments: seq<seq<string>>)
    ensures |Combine(fragments)| == Product(fragments)
    decreases |fragments|
  {
    if fragments != [] {
      CombineCount(fragments[..|fragments| - 1]);
    }
  }

  // ---------------------------------------------------------------------
  // The instruction sequences for a code

  /** Where the arm starts before key `k` of `output`: on 'A' for the
      first key, then on the previous key. */
  function Before(pad: Pad, output: string, k: nat): Point
    requires 'A' in pad && k <= |output|
    requires forall i :: 0 <= i < |output| ==> output[i] in pad
  {
    if k == 0 then pad['A'] else pad[output[k - 1]]
  }

  /** The routes for every key of `output`. */
  function Fragments(pad: Pad, output: string): (r: seq<seq<string>>)
    requires 'A' in pad && 'X' in pad
    requires forall i :: 0 <= i < |output| ==> output[i] in pad
    ensures |r| == |output|
  {
    seq(|output|, k requires 0 <= k < |output| => Fragment(pad['X'], Before(pad, output, k), pad[output[k]]))
  }

  /** `get_instruction_sequences`. `None` when a key the source unwraps
      is missing from the keypad. */
  function Sequences(pad: Pad, output: string): Option<seq<string>> {
    if 'A' in pad && 'X' in pad && forall i :: 0 <= i < |output| ==> output[i] in pad then
      Some(Combine(Fragments(pad, output)))
    else None
  }

  /** The keys the arm must visit, as positions. */
  function Targets(pad: Pad, output: string): (r: seq<Point>)
    requires forall i :: 0 <= i < |output| ==> output[i] in pad
    ensures |r| == |output|
  {
    seq(|output|, k requires 0 <= k < |output| => pad[output[k]])
  }

  /** Route lengths plus one 'A' per key. */
  function Cost(pad: Pad, output: string, n: nat): nat
    requires 'A' in pad && n <= |output|
    requires forall i :: 0 <= i < |output| ==> output[i] in pad
  {
    if n == 0 then 0
    else
      var from, to := Before(pad, output, n - 1), pad[output[n - 1]];
      Cost(pad, output, n - 1) + Abs(to.x - from.x) + Abs(to.y - from.y) + 1
  }

  // ---------------------------------------------------------------------
  // Pressing the keys

  /** What an operator's presses do to the arm: arrows move it and 'A'
      pushes the key under it. `None` when the arm moves onto the gap or a
      key is pressed that the operator's keypad does not have. The pushed
      keys are given by their positions. */
  function Execute(gap: Point, p: Point, s: string): Option<(Point, seq<Point>)>
    decreases |s|
  {
    if s == [] then Some((p, []))
    else if s[0] == 'A' then
      match Execute(gap, p, s[1..])
      case None => None
      case Some((q, out)) => Some((q, [p] + out))
    else if IsArrow(s[0]) && Move(p, s[0]) != gap then Execute(gap, Move(p, s[0]), s[1..])
    else None
  }

  lemma {:induction false} ExecuteAppend(gap: Point, p: Point, a: string, b: string)
    ensures Execute(gap, p, a + b) ==
      match Execute(gap, p, a)
      case None => None
      case Some((q, out)) =>
        match Execute(gap, q, b)
        case None => None
        case Some((r, more)) => Some((r, out + more))
    decreases |a|
  {
    if a == [] {
      assert a + b == b;
      match Execute(gap, p, b) {
        case None =>
        case Some((r, more)) => assert [] + more == more;
      }
    } else {
      assert (a + b)[0] == a[0] && (a + b)[1..] == a[1..] + b;
      if a[0] == 'A' {
        ExecuteAppend(gap, p, a[1..], b);
        match Execute(gap, p, a[1..]) {
          case None =>
          case Some((q, out)) =>
            match Execute(gap, q, b) {
              case None =>
              case Some((r, more)) => assert [p] + (out + more) == ([p] + out) + more;
            }
        }
      } else if IsArrow(a[0]) && Move(p, a[0]) != gap {
        ExecuteAppend(gap, Move(p, a[0]), a[1..], b);
      }
    }
  }

  /** A route off the gap just moves the arm. */
  lemma {:induction false} ExecuteRoute(gap: Point, p: Point, o: string)
    requires Arrows(o) && Avoids(gap, p, o)
    ensures Execute(gap, p, o) == Some((Walk(p, o), []))
    decreases |o|
  {
    if o != [] {
      ExecuteRoute(gap, Move(p, o[0]), o[1..]);
    }
  }

  /** What every combined sequence for the first `n` keys is: it pushes
      exactly those keys, never touches the gap, leaves the arm on the
      last of them, holds one 'A' per key, and has the length of the
      routes plus the 'A's. */
  ghost predicate Typed(pad: Pad, output: string, n: nat, s: string)
    requires 'A' in pad && 'X' in pad && n <= |output|
    requires forall i :: 0 <= i < |output| ==> output[i] in pad
  {
    && Execute(pad['X'], pad['A'], s) == Some((Before(pad, output, n), Targets(pad, output)[..n]))
    && multiset(s)['A'] == n
    && |s| == Cost(pad, output, n)
  }

  lemma {:induction false} CombineTypes(pad: Pad, output: string, n: nat, s: string)
    requires 'A' in pad && 'X' in pad && n <= |output|
    requires forall i :: 0 <= i < |output| ==> output[i] in pad
    requires s in Combine(Fragments(pad, output)[..n])
    ensures Typed(pad, output, n, s)
    decreases n
  {
    var fs := Fragments(pad, output)[..n];
    if n == 0 {
      assert s == "";
    } else {
      assert fs[..n - 1] == Fragments(pad, output)[..n - 1];
      ExtendMeans(Combine(fs[..n - 1]), Unique(Last(fs)), s);
      var q, o :| q in Combine(fs[..n - 1]) && o in Unique(Last(fs)) && s == q + o + "A";
      CombineTypes(pad, output, n - 1, q);
      TypedStep(pad, output, n, q, o);
    }
  }

  /** A sequence typing the first `n - 1` keys, followed by a surviving
      route to key `n - 1` and an 'A', types the first `n` keys. */
  lemma TypedStep(pad: Pad, output: string, n: nat, q: string, o: string)
    requires 'A' in pad && 'X' in pad && 1 <= n <= |output|
    requires forall i :: 0 <= i < |output| ==> output[i] in pad
    requires Typed(pad, output, n - 1, q)
    requires o in Fragment(pad['X'], Before(pad, output, n - 1), pad[output[n - 1]])
    ensures Typed(pad, output, n, q + o + "A")
  {
    var from, to := Before(pad, output, n - 1), pad[output[n - 1]];
    FragmentReaches(pad['X'], from, to, o);
    ExecuteStep(pad, output, n, q, o);
    CountStep(q, o, n);
    LengthStep(pad, output, n, q, o);
  }

  /** One more route and 'A' add that key's share of the cost. */
  lemma LengthStep(pad: Pad, output: string, n: nat, q: string, o: string)
    requires 'A' in pad && 1 <= n <= |output|
    requires forall i :: 0 <= i < |output| ==> output[i] in pad
    requires |q| == Cost(pad, output, n - 1)
    requires |o| == Abs(pad[output[n - 1]].x - Before(pad, output, n - 1).x) + Abs(pad[output[n - 1]].y - Before(pad, output, n - 1).y)
    ensures |q + o + "A"| == Cost(pad, output, n)
  {
  }

  /** One more route and 'A' add exactly one 'A'. */
  lemma CountStep(q: string, o: string, n: nat)
    requires Arrows(o) && 1 <= n && multiset(q)['A'] == n - 1
    ensures multiset(q + o + "A")['A'] == n
  {
    RouteHasNoA(o);
    assert multiset(q + o + "A") == multiset(q) + multiset(o) + multiset("A");
  }

  lemma {:induction false} ExecuteStep(pad: Pad, output: string, n: nat, q: string, o: string)
    requires 'A' in pad && 'X' in pad && 1 <= n <= |output|
    requires forall i :: 0 <= i < |output| ==> output[i] in pad
    requires Execute(pad['X'], pad['A'], q) == Some((Before(pad, output, n - 1), Targets(pad, output)[..n - 1]))
    requires Arrows(o) && Avoids(pad['X'], Before(pad, output, n - 1), o)
    requires Walk(Before(pad, output, n - 1), o) == pad[output[n - 1]]
    ensures Execute(pad['X'], pad['A'], q + o + "A") == Some((Before(pad, output, n), Targets(pad, output)[..n]))
  {
    var gap, from, to := pad['X'], Before(pad, output, n - 1), pad[output[n - 1]];
    PressRoute(gap, from, o);
    ExecuteAppend(gap, pad['A'], q, o + "A");
    assert q + o + "A" == q + (o + "A");
    assert Targets(pad, output)[..n] == Targets(pad, output)[..n - 1] + [to];
  }

  /** A route off the gap, then 'A', pushes the key the route reaches. */
  lemma {:induction false} PressRoute(gap: Point, from: Point, o: string)
    requires Arrows(o) && Avoids(gap, from, o)
    ensures Execute(gap, from, o + "A") == Some((Walk(from, o), [Walk(from, o)]))
  {
    ExecuteRoute(gap, from, o);
    ExecuteAppend(gap, from, o, "A");
    var w := Walk(from, o);
    assert "A"[0] == 'A' && "A"[1..] == [];
    assert Execute(gap, w, []) == Some((w, []));
    assert Execute(gap, w, "A") == Some((w, [w] + []));
    assert [] + [w] == [w] && [w] + [] == [w];
  }

  lemma RouteHasNoA(o: string)
    requires Arrows(o)
    ensures multiset(o)['A'] == 0
  {
    assert forall i :: 0 <= i < |o| ==> o[i] != 'A';
    assert 'A' !in o;
  }

  /** Round trip: every sequence the source produces, pressed on the keypad
      from 'A', pushes exactly the keys of `output` in order, never moves
      over the gap, has one 'A' per key, and is as long as the routes plus
      the 'A's. */
  lemma {:induction false} SequencesType(pad: Pad, output: string, s: string)
    requires Sequences(pad, output).Some? && s in Sequences(pad, output).value
    ensures 'A' in pad && 'X' in pad && forall i :: 0 <= i < |output| ==> output[i] in pad
    ensures Execute(pad['X'], pad['A'], s).Some?
    ensures Execute(pad['X'], pad['A'], s).value.1 == Targets(pad, output)
    ensures multiset(s)['A'] == |output| && |s| == Cost(pad, output, |output|)
  {
    assert Fragments(pad, output)[..|output|] == Fragments(pad, output);
    CombineTypes(pad, output, |output|, s);
  }

  /** The number of sequences is the product over the keys of the number
      of distinct surviving routes. */
  lemma SequencesCount(pad: Pad, output: string)
    requires Sequences(pad, output).Some?
    ensures |Sequences(pad, output).value| == Product(Fragments(pad, output))
  {
    CombineCount(Fragments(pad, output));
  }

  // ---------------------------------------------------------------------
  // Part one

  /** `parse_input`: the non-empty lines. */
  function Codes(file: string): seq<string> {
    NonEmpty(Lines(file))
  }

  /** Every sequence for every input sequence, in order. */
  function ExpandAll(pad: Pad, inputs: seq<string>): Option<seq<string>>
    decreases |inputs|
  {
    if inputs == [] then Some([])
    else match (Sequences(pad, inputs[0]), ExpandAll(pad, inputs[1..]))
      case (Some(first), Some(rest)) => Some(first + rest)
      case _ => None
  }

  /** The expansion holds exactly the sequences for each input, and exists
      when every input has its sequences. */
  lemma {:induction false} ExpandAllMeans(pad: Pad, inputs: seq<string>)
    ensures ExpandAll(pad, inputs).Some? <==> forall t :: t in inputs ==> Sequences(pad, t).Some?
    ensures ExpandAll(pad, inputs).Some? ==> forall s :: s in ExpandAll(pad, inputs).value <==>
      exists t :: t in inputs && s in Sequences(pad, t).value
    decreases |inputs|
  {
    if inputs != [] {
      ExpandAllMeans(pad, inputs[1..]);
      assert forall t :: t in inputs <==> t == inputs[0] || t in inputs[1..];
    }
  }

  const UsizeMax: nat := 0xFFFF_FFFF_FFFF_FFFF

  /** The `fold` for the shortest length, starting from `usize::MAX`. */
  function Shortest(seqs: seq<string>): (r: nat)
    ensures forall s :: s in seqs ==> r <= |s|
    ensures r == UsizeMax || exists s :: s in seqs && |s| == r
    decreases |seqs|
  {
    if seqs == [] then UsizeMax
    else
      var rest := Shortest(seqs[..|seqs| - 1]);
      assert forall s :: s in seqs[..|seqs| - 1] ==> s in seqs;
      assert seqs == seqs[..|seqs| - 1] + [Last(seqs)];
      if |Last(seqs)| < rest then |Last(seqs)| else rest
  }

  /** The complexity of one code: the shortest sequence at the third
      keypad times the code's number. `None` for a missing key or a code
      whose number does not parse. */
  function Complexity(numeric: Pad, robot: Pad, code: string): Option<nat>
    requires code != []
  {
    var first := Sequences(numeric, code);
    var second := if first.Some? then ExpandAll(robot, first.value) else None;
    var third := if second.Some? then ExpandAll(robot, second.value) else None;
    var number := ParseNat(code[..|code| - 1]);
    if third.Some? && number.Some? then Some(Times(Shortest(third.value), number.value)) else None
  }

  function Times(a: nat, b: nat): nat {
    a * b
  }

  /** The complexity of every code, in order. */
  function Complexities(numeric: Pad, robot: Pad, codes: seq<string>): (r: seq<Option<nat>>)
    requires forall i :: 0 <= i < |codes| ==> codes[i] != []
    ensures |r| == |codes|
    ensures forall i :: 0 <= i < |codes| ==> r[i] == Complexity(numeric, robot, codes[i])
    decreases |codes|
  {
    if codes == [] then []
    else
      var rest := Complexities(numeric, robot, codes[1..]);
      var r := [Complexity(numeric, robot, codes[0])] + rest;
      assert forall i :: 1 <= i < |codes| ==> r[i] == rest[i - 1] && codes[i] == codes[1..][i - 1];
      r
  }

  /** The sum of the values, or `None` as soon as one is missing. */
  function Total(xs: seq<Option<nat>>): Option<nat> {
    if xs == [] then Some(0)
    else if xs[0].Some? && Total(xs[1..]).Some? then Some(xs[0].value + Total(xs[1..]).value)
    else None
  }

  function SumComplexities(numeric: Pad, robot: Pad, codes: seq<string>): Option<nat>
    requires forall i :: 0 <= i < |codes| ==> codes[i] != []
  {
    Total(Complexities(numeric, robot, codes))
  }

  function PartOne(file: string): Option<nat> {
    SumComplexities(NumericPad, RobotPad, Codes(file))
  }

  /** A total exists exactly when every value does. */
  lemma {:induction false} TotalSome(xs: seq<Option<nat>>)
    ensures Total(xs).Some? <==> forall i :: 0 <= i < |xs| ==> xs[i].Some?
  {
    if xs != [] {
      TotalSome(xs[1..]);
      assert forall i :: 1 <= i < |xs| ==> xs[i] == xs[1..][i - 1];
    }
  }

  /** One more value adds to the total, whatever came before. */
  lemma {:induction false} TotalAppend(xs: seq<Option<nat>>, x: Option<nat>)
    ensures Total(xs + [x]) == if Total(xs).Some? && x.Some? then Some(Total(xs).value + x.value) else None
  {
    if xs == [] {
      assert [] + [x] == [x];
      assert [x][1..] == [];
    } else {
      assert (xs + [x])[0] == xs[0];
      assert (xs + [x])[1..] == xs[1..] + [x];
      TotalAppend(xs[1..], x);
    }
  }

  /** The sum of the complexities exists exactly when every code has one. */
  lemma {:induction false} SumComplexitiesSome(numeric: Pad, robot: Pad, codes: seq<string>)
    requires forall i :: 0 <= i < |codes| ==> codes[i] != []
    ensures SumComplexities(numeric, robot, codes).Some?
      <==> forall i :: 0 <= i < |codes| ==> Complexity(numeric, robot, codes[i]).Some?
  {
    TotalSome(Complexities(numeric, robot, codes));
  }

  /** Pressing `s` on `pad`, starting on 'A', never crosses the gap and
      pushes exactly the keys of `t` in order. */
  ghost predicate Presses(pad: Pad, s: string, t: string) {
    && 'A' in pad && 'X' in pad
    && (forall i :: 0 <= i < |t| ==> t[i] in pad)
    && Execute(pad['X'], pad['A'], s).Some?
    && Execute(pad['X'], pad['A'], s).value.1 == Targets(pad, t)
  }

  /** Each code contributes the length of a shortest third-level sequence
      times its number. The three levels are the source's own expansions:
      a first-level sequence typed on the numeric keypad enters the code,
      and a sequence of the next level typed on a robot keypad enters one
      sequence of the level before. */
  lemma ComplexityMeans(numeric: Pad, robot: Pad, code: string)
    requires code != [] && Complexity(numeric, robot, code).Some?
    ensures Sequences(numeric, code).Some?
    ensures ExpandAll(robot, Sequences(numeric, code).value).Some?
    ensures ExpandAll(robot, ExpandAll(robot, Sequences(numeric, code).value).value).Some?
    ensures ParseNat(code[..|code| - 1]).Some?
    ensures var first := Sequences(numeric, code).value;
      var second := ExpandAll(robot, first).value;
      var third := ExpandAll(robot, second).value;
      && Complexity(numeric, robot, code) == Some(Times(Shortest(third), ParseNat(code[..|code| - 1]).value))
      && (forall s :: s in third ==> Shortest(third) <= |s|)
      && (forall s :: s in first ==> Presses(numeric, s, code))
      && (forall s :: s in second ==> exists t :: t in first && Presses(robot, s, t))
      && (forall s :: s in third ==> exists t :: t in second && Presses(robot, s, t))
  {
    var first := Sequences(numeric, code).value;
    var second := ExpandAll(robot, first).value;
    forall s | s in first
      ensures Presses(numeric, s, code)
    {
      SequencesType(numeric, code, s);
    }
    LevelPresses(robot, first);
    LevelPresses(robot, second);
  }

  /** Every sequence of an expansion, typed on the keypad, enters the input
      sequence it was produced for. */
  lemma LevelPresses(pad: Pad, inputs: seq<string>)
    requires ExpandAll(pad, inputs).Some?
    ensures forall s :: s in ExpandAll(pad, inputs).value ==> exists t :: t in inputs && Presses(pad, s, t)
  {
    ExpandAllMeans(pad, inputs);
    forall s | s in ExpandAll(pad, inputs).value
      ensures exists t :: t in inputs && Presses(pad, s, t)
    {
      var t :| t in inputs && s in Sequences(pad, t).value;
      SequencesType(pad, t, s);
    }
  }
}

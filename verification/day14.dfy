/** Day 14: robots patrol a wrapping room. Each robot moves with constant
    velocity; after a given number of seconds the robots are counted per
    quadrant (the middle row and column belong to none) and part one is the
    product of the four counts, the "safety factor". */
module Day14 {
  import opened Common

  /** A robot: start position and velocity per second. */
  datatype Robot = Robot(px: nat, py: nat, vx: int, vy: int)

  /** Rust's `%` on signed integers: it truncates toward zero, so the
      remainder has the sign of the dividend. */
  function TRem(a: int, m: int): (r: int)
    requires m > 0
    ensures -m < r < m
    ensures a >= 0 ==> r == a % m
    ensures a < 0 ==> r <= 0
    ensures (a - r) % m == 0
  {
    if a >= 0 then
      DivMul(a, m);
      a % m
    else
      DivMul(-a, m);
      -((-a) % m)
  }

  lemma DivMul(a: nat, m: nat)
    requires m > 0
    ensures a - a % m == m * (a / m)
    ensures (m * (a / m)) % m == 0
    ensures (-(m * (a / m))) % m == 0
  {
    MulMod(a / m, m);
    MulMod(-(a / m), m);
  }

  lemma MulMod(k: int, m: int)
    requires m > 0
    ensures (m * k) % m == 0
  {
    DivModUnique(m * k, m, k, 0);
  }

  lemma NonNegMul(a: nat, b: nat)
    ensures a * b >= 0
  {
  }

  /** Adding whole multiples of `m` does not change a remainder. */
  lemma ModShift(a: int, k: int, m: int)
    requires m > 0
    ensures (a + m * k) % m == a % m
  {
    DivModUnique(a + m * k, m, a / m + k, a % m);
  }

  /** One coordinate after `seconds` seconds: `((p + s v) % size + size) % size`
      with Rust's remainder. The double remainder lands in `[0, size)` and
      is the mathematical (Euclidean) residue of `p + s v`. */
  function Wrap(p: int, v: int, seconds: int, size: int): (r: nat)
    requires size > 0
    ensures r < size
    ensures r == (p + seconds * v) % size
  {
    var a := p + seconds * v;
    var t := TRem(a, size);
    var u := TRem(t + size, size);
    assert (a - t) % size == 0;
    ModOfDiff(a, t, size);
    ModShift(t, 1, size);
    u
  }

  /** Numbers whose difference is a multiple of `m` leave the same remainder. */
  lemma ModOfDiff(a: int, b: int, m: int)
    requires m > 0 && (a - b) % m == 0
    ensures a % m == b % m
  {
    var k := (a - b) / m;
    assert a - b == m * k;
    ModShift(b, k, m);
  }

  /** The room is periodic: after `size` more seconds every coordinate is
      back where it was. */
  lemma Periodic(p: int, v: int, seconds: int, size: int)
    requires size > 0
    ensures Wrap(p, v, seconds + size, size) == Wrap(p, v, seconds, size)
  {
    assert p + (seconds + size) * v == (p + seconds * v) + size * v;
    ModShift(p + seconds * v, v, size);
  }

  /** Where a robot stands after `seconds` seconds. */
  function Final(r: Robot, width: int, height: int, seconds: int): (p: Point)
    requires width > 0 && height > 0
    ensures 0 <= p.x < width && 0 <= p.y < height
  {
    Point(Wrap(r.px, r.vx, seconds, width), Wrap(r.py, r.vy, seconds, height))
  }

  /** The quadrant of a position, `None` on the middle column or row.
      Quadrant 0 is left of (above) the middle, quadrant 1 right of (below) it. */
  function Quadrant(p: Point, width: int, height: int): (q: Option<(nat, nat)>)
    ensures q.None? <==> p.x == width / 2 || p.y == height / 2
    ensures q.Some? ==> q.value.0 <= 1 && q.value.1 <= 1
    ensures q.Some? ==> (q.value.0 == 1 <==> p.x > width / 2) && (q.value.1 == 1 <==> p.y > height / 2)
  {
    if p.x == width / 2 || p.y == height / 2 then None
    else Some((if p.x > width / 2 then 1 else 0, if p.y > height / 2 then 1 else 0))
  }

  /** How many robots end up in quadrant `q` (or, for `None`, on the middle lines). */
  function Tally(robots: seq<Robot>, width: int, height: int, seconds: int, q: Option<(nat, nat)>): (n: nat)
    requires width > 0 && height > 0
    ensures n <= |robots|
  {
    if robots == [] then 0
    else
      var last := robots[|robots| - 1];
      Tally(robots[..|robots| - 1], width, height, seconds, q)
        + (if Quadrant(Final(last, width, height, seconds), width, height) == q then 1 else 0)
  }

  /** Every robot is counted exactly once: in one of the four quadrants or
      on a middle line. */
  lemma {:induction false} TallyPartition(robots: seq<Robot>, width: int, height: int, seconds: int)
    requires width > 0 && height > 0
    ensures Tally(robots, width, height, seconds, Some((0, 0))) + Tally(robots, width, height, seconds, Some((0, 1)))
          + Tally(robots, width, height, seconds, Some((1, 0))) + Tally(robots, width, height, seconds, Some((1, 1)))
          + Tally(robots, width, height, seconds, None) == |robots|
  {
    if robots != [] {
      TallyPartition(robots[..|robots| - 1], width, height, seconds);
    }
  }

  /** The safety factor: the product of the four quadrant counts. */
  function Safety(robots: seq<Robot>, width: int, height: int, seconds: int): (f: nat)
    requires width > 0 && height > 0
    ensures f == 0 <==> exists qx: nat, qy: nat :: qx <= 1 && qy <= 1 && Tally(robots, width, height, seconds, Some((qx, qy))) == 0
  {
    var a := Tally(robots, width, height, seconds, Some((0, 0)));
    var b := Tally(robots, width, height, seconds, Some((0, 1)));
    var c := Tally(robots, width, height, seconds, Some((1, 0)));
    var d := Tally(robots, width, height, seconds, Some((1, 1)));
    ProductZero(a, b, c, d);
    a * b * c * d
  }

  lemma ProductZero(a: nat, b: nat, c: nat, d: nat)
    ensures a * b >= 0 && a * b * c >= 0 && a * b * c * d >= 0
    ensures a * b * c * d == 0 <==> a == 0 || b == 0 || c == 0 || d == 0
  {
    NonNegMul(a, b);
    NonNegMul(a * b, c);
    NonNegMul(a * b * c, d);
    if a > 0 && b > 0 && c > 0 && d > 0 {
      MulAtLeast(a, b);
      MulAtLeast(a * b, c);
      MulAtLeast(a * b * c, d);
    }
  }

  /** `part_one`: walk the robots once, bumping a 2x2 table of quadrant
      counts, and multiply the four entries. */
  method PartOne(width: int, height: int, robots: seq<Robot>, seconds: int) returns (f: nat)
    requires width > 0 && height > 0
    ensures f == Safety(robots, width, height, seconds)
  {
    var counts: seq<seq<nat>> := [[0, 0], [0, 0]];
    var i := 0;
    while i < |robots|
      invariant 0 <= i <= |robots|
      invariant |counts| == 2 && |counts[0]| == 2 && |counts[1]| == 2
      invariant forall qx, qy :: 0 <= qx < 2 && 0 <= qy < 2 ==>
        counts[qx][qy] == Tally(robots[..i], width, height, seconds, Some((qx, qy)))
    {
      counts := Bump(counts, Final(robots[i], width, height, seconds), width, height);
      forall qx, qy | 0 <= qx < 2 && 0 <= qy < 2
        ensures counts[qx][qy] == Tally(robots[..i + 1], width, height, seconds, Some((qx, qy)))
      {
        TallySnoc(robots, i, width, height, seconds, Some((qx, qy)));
      }
      i := i + 1;
    }
    assert robots[..i] == robots;
    ProductZero(counts[0][0], counts[0][1], counts[1][0], counts[1][1]);
    f := counts[0][0] * counts[0][1] * counts[1][0] * counts[1][1];
  }

  /** The body of the loop of `part_one`: a robot on a middle line is
      skipped, any other bumps the count of its quadrant. */
  method Bump(counts: seq<seq<nat>>, p: Point, width: int, height: int) returns (r: seq<seq<nat>>)
    requires |counts| == 2 && |counts[0]| == 2 && |counts[1]| == 2
    ensures |r| == 2 && |r[0]| == 2 && |r[1]| == 2
    ensures forall qx, qy :: 0 <= qx < 2 && 0 <= qy < 2 ==>
      r[qx][qy] == counts[qx][qy] + (if Quadrant(p, width, height) == Some((qx, qy)) then 1 else 0)
  {
    if p.x == width / 2 || p.y == height / 2 {
      return counts;
    }
    var qx := if p.x > width / 2 then 1 else 0;
    var qy := if p.y > height / 2 then 1 else 0;
    r := counts[qx := counts[qx][qy := counts[qx][qy] + 1]];
  }

  /** TallySnoc: one more robot adds one to its own quadrant's count. */
  lemma {:induction false} TallySnoc(robots: seq<Robot>, i: nat, width: int, height: int, seconds: int, q: Option<(nat, nat)>)
    requires width > 0 && height > 0 && i < |robots|
    ensures Tally(robots[..i + 1], width, height, seconds, q)
      == Tally(robots[..i], width, height, seconds, q)
         + (if Quadrant(Final(robots[i], width, height, seconds), width, height) == q then 1 else 0)
  {
    assert robots[..i + 1][..i] == robots[..i];
  }

  /** The twelve robots of the puzzle's worked example. */
  const Sample: seq<Robot> := [Robot(0, 4, 3, -3), Robot(6, 3, -1, -3), Robot(10, 3, -1, 2), Robot(2, 0, 2, -1), Robot(0, 0, 1, 3), Robot(3, 0, -2, -2), Robot(7, 6, -1, -3), Robot(3, 0, -1, -2), Robot(9, 3, 2, 3), Robot(7, 3, -1, 2), Robot(2, 4, 2, -3), Robot(9, 5, -3, -3)]

  /** Where each sample robot ends up after 100 seconds in the 11x7 room. */
  const SampleQuadrants: seq<Option<(nat, nat)>> := [Some((0, 1)), None, Some((1, 0)), Some((0, 1)), Some((0, 1)), None, Some((1, 0)), None, Some((0, 0)), Some((1, 0)), Some((0, 1)), Some((1, 1))]

  lemma SampleFinals()
    ensures forall i :: 0 <= i < 12 ==> Quadrant(Final(Sample[i], 11, 7, 100), 11, 7) == SampleQuadrants[i]
  {
    SampleFinals0();
    SampleFinals1();
    SampleFinals2();
    SampleFinals3();
    SampleFinals4();
    SampleFinals5();
  }

  lemma SampleFinals0()
    ensures forall i :: 0 <= i < 2 ==> Quadrant(Final(Sample[i], 11, 7, 100), 11, 7) == SampleQuadrants[i]
  {
    assert Quadrant(Final(Sample[0], 11, 7, 100), 11, 7) == Some((0, 1));
    assert Quadrant(Final(Sample[1], 11, 7, 100), 11, 7) == None;
  }

  lemma SampleFinals1()
    ensures forall i :: 2 <= i < 4 ==> Quadrant(Final(Sample[i], 11, 7, 100), 11, 7) == SampleQuadrants[i]
  {
    assert Quadrant(Final(Sample[2], 11, 7, 100), 11, 7) == Some((1, 0));
    assert Quadrant(Final(Sample[3], 11, 7, 100), 11, 7) == Some((0, 1));
  }

  lemma SampleFinals2()
    ensures forall i :: 4 <= i < 6 ==> Quadrant(Final(Sample[i], 11, 7, 100), 11, 7) == SampleQuadrants[i]
  {
    assert Quadrant(Final(Sample[4], 11, 7, 100), 11, 7) == Some((0, 1));
    assert Quadrant(Final(Sample[5], 11, 7, 100), 11, 7) == None;
  }

  lemma SampleFinals3()
    ensures forall i :: 6 <= i < 8 ==> Quadrant(Final(Sample[i], 11, 7, 100), 11, 7) == SampleQuadrants[i]
  {
    assert Quadrant(Final(Sample[6], 11, 7, 100), 11, 7) == Some((1, 0));
    assert Quadrant(Final(Sample[7], 11, 7, 100), 11, 7) == None;
  }

  lemma SampleFinals4()
    ensures forall i :: 8 <= i < 10 ==> Quadrant(Final(Sample[i], 11, 7, 100), 11, 7) == SampleQuadrants[i]
  {
    assert Quadrant(Final(Sample[8], 11, 7, 100), 11, 7) == Some((0, 0));
    assert Quadrant(Final(Sample[9], 11, 7, 100), 11, 7) == Some((1, 0));
  }

  lemma SampleFinals5()
    ensures forall i :: 10 <= i < 12 ==> Quadrant(Final(Sample[i], 11, 7, 100), 11, 7) == SampleQuadrants[i]
  {
    assert Quadrant(Final(Sample[10], 11, 7, 100), 11, 7) == Some((0, 1));
    assert Quadrant(Final(Sample[11], 11, 7, 100), 11, 7) == Some((1, 1));
  }

  lemma {:induction false} SampleTally(q: Option<(nat, nat)>, counts: seq<nat>)
    requires |counts| == 13 && counts[0] == 0
    requires forall i :: 0 <= i < 12 ==> counts[i + 1] == counts[i] + (if SampleQuadrants[i] == q then 1 else 0)
    ensures Tally(Sample, 11, 7, 100, q) == counts[12]
  {
    SampleFinals();
    var k := 0;
    assert Sample[..0] == [];
    while k < 12
      invariant 0 <= k <= 12
      invariant Tally(Sample[..k], 11, 7, 100, q) == counts[k]
    {
      TallySnoc(Sample, k, 11, 7, 100, q);
      k := k + 1;
    }
    assert Sample[..12] == Sample;
  }

  lemma SampleTally00()
    ensures Tally(Sample, 11, 7, 100, Some((0, 0))) == 1
  {
    SampleTally(Some((0, 0)), [0, 0, 0, 0, 0, 0, 0, 0, 0, 1, 1, 1, 1]);
  }

  lemma SampleTally01()
    ensures Tally(Sample, 11, 7, 100, Some((0, 1))) == 4
  {
    SampleTally(Some((0, 1)), [0, 1, 1, 1, 2, 3, 3, 3, 3, 3, 3, 4, 4]);
  }

  lemma SampleTally10()
    ensures Tally(Sample, 11, 7, 100, Some((1, 0))) == 3
  {
    SampleTally(Some((1, 0)), [0, 0, 0, 1, 1, 1, 1, 2, 2, 2, 3, 3, 3]);
  }

  lemma SampleTally11()
    ensures Tally(Sample, 11, 7, 100, Some((1, 1))) == 1
  {
    SampleTally(Some((1, 1)), [0, 0, 0, 0, 0, 0, 0, 0, 0, 0, 0, 0, 1]);
  }

  /** In the 11x7 room after 100 seconds the quadrants hold 1, 4, 3 and 1
      robots, so the safety factor is 12. */
  lemma Example()
    ensures Safety(Sample, 11, 7, 100) == 12
  {
    SampleTally00();
    SampleTally01();
    SampleTally10();
    SampleTally11();
  }
}

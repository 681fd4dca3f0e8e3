/** Day 13: claw machines. Each machine has two buttons that move the claw
    by fixed vectors; a prize is won by pressing them a whole number of
    times so that the claw lands exactly on the prize. Button B (one token)
    is the "cheap" button and button A (three tokens) the "expensive" one.
    The search starts with as many cheap presses as fit and walks a
    saddleback path: too far means one cheap press less, not far enough
    means one expensive press more. */
module Day13 {
  import opened Common

  /** The iteration ceiling of the search loop. */
  const Cap: nat := 999_999

  /** A machine: button A moves by `a`, button B by `b`; the prize is at `prize`. */
  datatype Machine = Machine(a: (nat, nat), b: (nat, nat), prize: (nat, nat))

  /** Where `c` cheap and `e` expensive presses take the claw. */
  function Evaluate(cheap: (nat, nat), exp: (nat, nat), c: nat, e: nat): (nat, nat) {
    (c * cheap.0 + e * exp.0, c * cheap.1 + e * exp.1)
  }

  predicate Solves(target: (nat, nat), cheap: (nat, nat), exp: (nat, nat), c: nat, e: nat) {
    Evaluate(cheap, exp, c, e) == target
  }

  /** Past the target in at least one coordinate. */
  predicate Over(cur: (nat, nat), target: (nat, nat)) {
    cur.0 > target.0 || cur.1 > target.1
  }

  /** The saddleback invariant: every solution uses at most `c` cheap
      presses and at least `e` expensive ones. */
  ghost predicate Bracketed(target: (nat, nat), cheap: (nat, nat), exp: (nat, nat), c: nat, e: nat) {
    forall c': nat, e': nat :: Solves(target, cheap, exp, c', e') ==> c' <= c && e <= e'
  }

  lemma Mono(a: nat, b: nat, k: nat)
    requires a <= b
    ensures a * k <= b * k
  {
  }

  /** Whole-number division, kept behind its bounds. */
  function Quot(t: nat, d: nat): (q: nat)
    requires d > 0
    ensures q * d <= t < (q + 1) * d
  {
    DivBounds(t, d);
    t / d
  }

  /** The most cheap presses that do not pass the target: the minimum of
      the two coordinate-wise quotients. */
  function Start(target: (nat, nat), cheap: (nat, nat)): (r: nat)
    requires cheap.0 > 0 && cheap.1 > 0
    ensures r * cheap.0 <= target.0 && r * cheap.1 <= target.1
    ensures target.0 < (r + 1) * cheap.0 || target.1 < (r + 1) * cheap.1
  {
    DivBounds(target.0, cheap.0);
    DivBounds(target.1, cheap.1);
    var a := target.0 / cheap.0;
    var b := target.1 / cheap.1;
    if a <= b then
      Mono(a, b, cheap.1);
      a
    else
      Mono(b, a, cheap.0);
      b
  }

  /** The loop from iteration `it` on, with the current multipliers. */
  function Search(target: (nat, nat), cheap: (nat, nat), exp: (nat, nat), c: nat, e: nat, it: nat): Option<(nat, nat)>
    decreases Cap - it
  {
    if it >= Cap then None
    else
      var cur := Evaluate(cheap, exp, c, e);
      if cur == target then Some((c, e))
      else if c == 0 && Over(cur, target) then None
      else if Over(cur, target) then Search(target, cheap, exp, c - 1, e, it + 1)
      else Search(target, cheap, exp, c, e + 1, it + 1)
  }

  lemma StartBracketed(target: (nat, nat), cheap: (nat, nat), exp: (nat, nat))
    requires cheap.0 > 0 && cheap.1 > 0
    ensures Bracketed(target, cheap, exp, Start(target, cheap), 0)
  {
    var s := Start(target, cheap);
    forall c': nat, e': nat | Solves(target, cheap, exp, c', e')
      ensures c' <= s
    {
      if c' > s {
        Mono(s + 1, c', cheap.0);
        Mono(s + 1, c', cheap.1);
      }
    }
  }

  /** Overshooting with `c` cheap presses rules out every solution with `c`. */
  lemma OverStep(target: (nat, nat), cheap: (nat, nat), exp: (nat, nat), c: nat, e: nat)
    requires Bracketed(target, cheap, exp, c, e)
    requires Over(Evaluate(cheap, exp, c, e), target)
    ensures forall c': nat, e': nat :: Solves(target, cheap, exp, c', e') ==> c' < c && e <= e'
  {
    forall c': nat, e': nat | Solves(target, cheap, exp, c', e')
      ensures c' < c
    {
      if c' == c {
        Mono(e, e', exp.0);
        Mono(e, e', exp.1);
      }
    }
  }

  /** Falling short with `e` expensive presses rules out every solution with `e`. */
  lemma UnderStep(target: (nat, nat), cheap: (nat, nat), exp: (nat, nat), c: nat, e: nat)
    requires cheap.0 > 0 && cheap.1 > 0
    requires Bracketed(target, cheap, exp, c, e)
    requires !Over(Evaluate(cheap, exp, c, e), target) && Evaluate(cheap, exp, c, e) != target
    ensures Bracketed(target, cheap, exp, c, e + 1)
  {
    forall c': nat, e': nat | Solves(target, cheap, exp, c', e')
      ensures e < e'
    {
      if e' == e {
        Mono(c', c, cheap.0);
        Mono(c', c, cheap.1);
      }
    }
  }

  /** A result of the search is a solution, and every solution has at most
      its cheap presses and at least its expensive presses. */
  lemma {:induction false} SearchSound(target: (nat, nat), cheap: (nat, nat), exp: (nat, nat), c: nat, e: nat, it: nat)
    requires cheap.0 > 0 && cheap.1 > 0
    requires Bracketed(target, cheap, exp, c, e)
    ensures var r := Search(target, cheap, exp, c, e, it);
      r.Some? ==> Solves(target, cheap, exp, r.value.0, r.value.1) && Bracketed(target, cheap, exp, r.value.0, r.value.1)
    decreases Cap - it
  {
    if it < Cap {
      var cur := Evaluate(cheap, exp, c, e);
      if cur == target {
      } else if c == 0 && Over(cur, target) {
      } else if Over(cur, target) {
        OverStep(target, cheap, exp, c, e);
        SearchSound(target, cheap, exp, c - 1, e, it + 1);
      } else {
        UnderStep(target, cheap, exp, c, e);
        SearchSound(target, cheap, exp, c, e + 1, it + 1);
      }
    }
  }

  /** When the iteration budget covers the whole walk (each step lowers
      `c` or raises `e`, and `e` never passes `Quot(target.0, exp.0) + 1`),
      `None` means there is no solution at all. */
  lemma {:induction false} SearchComplete(target: (nat, nat), cheap: (nat, nat), exp: (nat, nat), c: nat, e: nat, it: nat)
    requires cheap.0 > 0 && cheap.1 > 0 && exp.0 > 0
    requires Bracketed(target, cheap, exp, c, e)
    requires e <= Quot(target.0, exp.0) + 1
    requires it + c + (Quot(target.0, exp.0) + 1 - e) < Cap
    ensures Search(target, cheap, exp, c, e, it).None? ==> forall c': nat, e': nat :: !Solves(target, cheap, exp, c', e')
    decreases Cap - it
  {
    var cur := Evaluate(cheap, exp, c, e);
    if cur == target {
    } else if c == 0 && Over(cur, target) {
      OverStep(target, cheap, exp, c, e);
    } else if Over(cur, target) {
      OverStep(target, cheap, exp, c, e);
      SearchComplete(target, cheap, exp, c - 1, e, it + 1);
    } else {
      assert e * exp.0 <= target.0;
      UnderStep(target, cheap, exp, c, e);
      SearchComplete(target, cheap, exp, c, e + 1, it + 1);
    }
  }

  /** `integer_solutions`: the cheap and expensive multipliers reaching
      `target`, found by the saddleback walk from `Start`. */
  function IntegerSolutions(target: (nat, nat), cheap: (nat, nat), exp: (nat, nat)): (r: Option<(nat, nat)>)
    requires cheap.0 > 0 && cheap.1 > 0
    ensures r.Some? ==> Solves(target, cheap, exp, r.value.0, r.value.1)
    ensures r.Some? ==> forall c: nat, e: nat :: Solves(target, cheap, exp, c, e) ==> c <= r.value.0 && r.value.1 <= e
    ensures r.None? && exp.0 > 0 && Start(target, cheap) + Quot(target.0, exp.0) + 1 < Cap ==>
      forall c: nat, e: nat :: !Solves(target, cheap, exp, c, e)
  {
    SearchFromStart(target, cheap, exp);
    Search(target, cheap, exp, Start(target, cheap), 0, 0)
  }

  lemma {:induction false} SearchFromStart(target: (nat, nat), cheap: (nat, nat), exp: (nat, nat))
    requires cheap.0 > 0 && cheap.1 > 0
    ensures var r := Search(target, cheap, exp, Start(target, cheap), 0, 0);
      && (r.Some? ==> Solves(target, cheap, exp, r.value.0, r.value.1) && Bracketed(target, cheap, exp, r.value.0, r.value.1))
      && (r.None? && exp.0 > 0 && Start(target, cheap) + Quot(target.0, exp.0) + 1 < Cap ==>
            forall c: nat, e: nat :: !Solves(target, cheap, exp, c, e))
  {
    var s := Start(target, cheap);
    StartBracketed(target, cheap, exp);
    SearchSound(target, cheap, exp, s, 0, 0);
    if exp.0 > 0 && s + Quot(target.0, exp.0) + 1 < Cap {
      SearchComplete(target, cheap, exp, s, 0, 0);
    }
  }

  /** If the expensive button does not move the claw and the walk falls
      short, it spins until the iteration ceiling and gives up. */
  lemma {:induction false} StallsAtCap(target: (nat, nat), cheap: (nat, nat), c: nat, e: nat, it: nat)
    requires !Over(Evaluate(cheap, (0, 0), c, e), target) && Evaluate(cheap, (0, 0), c, e) != target
    ensures Search(target, cheap, (0, 0), c, e, it) == None
    decreases Cap - it
  {
    if it < Cap {
      assert Evaluate(cheap, (0, 0), c, e + 1) == Evaluate(cheap, (0, 0), c, e);
      StallsAtCap(target, cheap, c, e + 1, it + 1);
    }
  }

  // ---------------------------------------------------------------------
  // Part one

  /** The source divides by both coordinates of button B. */
  predicate Valid(m: Machine) {
    m.b.0 > 0 && m.b.1 > 0
  }

  /** Tokens spent on one machine: one per B press, three per A press, or
      nothing when no presses were found. */
  function Tokens(m: Machine): (r: nat)
    requires Valid(m)
    ensures r > 0 ==> exists c: nat, e: nat :: Solves(m.prize, m.b, m.a, c, e) && r == c + 3 * e
    ensures (forall c: nat, e: nat :: !Solves(m.prize, m.b, m.a, c, e)) ==> r == 0
  {
    match IntegerSolutions(m.prize, m.b, m.a)
    case Some(v) => v.0 + 3 * v.1
    case None => 0
  }

  /** `part_one`: the total of the tokens over all machines. */
  function PartOne(ms: seq<Machine>): (r: nat)
    requires forall i :: 0 <= i < |ms| ==> Valid(ms[i])
    ensures (forall i :: 0 <= i < |ms| ==> Tokens(ms[i]) == 0) ==> r == 0
  {
    if ms == [] then 0 else PartOne(ms[..|ms| - 1]) + Tokens(ms[|ms| - 1])
  }

  /** Machines are scored independently: the total over two lists is the
      sum of their totals. */
  lemma {:induction false} PartOneSplit(xs: seq<Machine>, ys: seq<Machine>)
    requires forall i :: 0 <= i < |xs| ==> Valid(xs[i])
    requires forall i :: 0 <= i < |ys| ==> Valid(ys[i])
    ensures forall i :: 0 <= i < |xs + ys| ==> Valid((xs + ys)[i])
    ensures PartOne(xs + ys) == PartOne(xs) + PartOne(ys)
  {
    if ys == [] {
      assert xs + ys == xs;
    } else {
      assert (xs + ys)[..|xs + ys| - 1] == xs + ys[..|ys| - 1];
      PartOneSplit(xs, ys[..|ys| - 1]);
    }
  }

  /** A=(2,1), B=(1,1), prize (3,2): start at two B presses, add an A
      press, overshoot, drop a B press, and land on one of each: 4 tokens. */
  lemma Example()
    ensures Tokens(Machine((2, 1), (1, 1), (3, 2))) == 4
  {
    var t, ch, ex := (3, 2), (1, 1), (2, 1);
    assert Start(t, ch) == 2;
    assert Search(t, ch, ex, 1, 1, 2) == Some((1, 1));
    assert Search(t, ch, ex, 2, 1, 1) == Some((1, 1));
    assert Search(t, ch, ex, 2, 0, 0) == Some((1, 1));
  }
}

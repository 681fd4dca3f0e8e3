/** Day 24: a network of logic gates. Wires start with known bits; the
    loop repeatedly evaluates and removes the first gate whose two inputs
    are known, until no gate remains or none can be evaluated. The answer
    is the number whose binary digit `k` is set when wire `zk` is on. */
module Day24 {
  import opened Common

  datatype Operation = And | Or | Xor

  /** `GateConnection`: `first operation second -> out`. */
  datatype Gate = Gate(first: string, second: string, operation: Operation, out: string)

  /** `HashMap<String, u64>`: the known wire values. */
  type Wires = map<string, nat>

  // ---------------------------------------------------------------------
  // Bitwise operations on `u64`

  /** The `&` operator, one binary digit at a time. */
  function BitAnd(x: nat, y: nat): nat
    decreases x + y
  {
    if x == 0 || y == 0 then 0
    else 2 * BitAnd(x / 2, y / 2) + (if x % 2 == 1 && y % 2 == 1 then 1 else 0)
  }

  /** The `|` operator, one binary digit at a time. */
  function BitOr(x: nat, y: nat): nat
    decreases x + y
  {
    if x == 0 && y == 0 then 0
    else 2 * BitOr(x / 2, y / 2) + (if x % 2 == 1 || y % 2 == 1 then 1 else 0)
  }

  function Apply(operation: Operation, x: nat, y: nat): nat {
    match operation
    case And => BitAnd(x, y)
    case Or => BitOr(x, y)
    case Xor => Common.Xor(x, y)
  }

  /** On single bits the three operators are the truth tables. */
  lemma ApplyBits(operation: Operation, x: nat, y: nat)
    requires x < 2 && y < 2
    ensures Apply(operation, x, y) < 2
    ensures operation == And ==> (Apply(operation, x, y) == 1 <==> x == 1 && y == 1)
    ensures operation == Or ==> (Apply(operation, x, y) == 1 <==> x == 1 || y == 1)
    ensures operation == Xor ==> (Apply(operation, x, y) == 1 <==> x != y)
  {
    assert BitAnd(0, 0) == 0 && BitOr(0, 0) == 0 && Common.Xor(0, 0) == 0;
  }

  // ---------------------------------------------------------------------
  // Evaluation

  /** `calculate_value`: `None` when an input wire is unknown. */
  function Calculate(wires: Wires, gate: Gate): (r: Option<nat>)
    ensures r.None? <==> gate.first !in wires || gate.second !in wires
  {
    if gate.first !in wires || gate.second !in wires then None
    else Some(Apply(gate.operation, wires[gate.first], wires[gate.second]))
  }

  /** Every wire carries a single bit. */
  ghost predicate Bits(wires: Wires) {
    forall w :: w in wires ==> wires[w] < 2
  }

  /** A gate over bits yields a bit. */
  lemma CalculateBits(wires: Wires, gate: Gate)
    requires Bits(wires) && Calculate(wires, gate).Some?
    ensures Calculate(wires, gate).value < 2
  {
    ApplyBits(gate.operation, wires[gate.first], wires[gate.second]);
  }

  /** The position the inner `for` loop stops at: the first gate that can
      be evaluated. */
  function FirstReady(wires: Wires, gates: seq<Gate>): (r: Option<nat>)
    ensures r.Some? ==> r.value < |gates| && Calculate(wires, gates[r.value]).Some?
    ensures r.Some? ==> forall j :: 0 <= j < r.value ==> Calculate(wires, gates[j]).None?
    ensures r.None? ==> forall j :: 0 <= j < |gates| ==> Calculate(wires, gates[j]).None?
    decreases |gates|
  {
    if gates == [] then None
    else if Calculate(wires, gates[0]).Some? then Some(0)
    else match FirstReady(wires, gates[1..])
      case None => None
      case Some(i) => Some(i + 1)
  }

  /** `wires.insert(..)` and `operations.remove(i)`. */
  function Fire(wires: Wires, gates: seq<Gate>, i: nat): (r: (Wires, seq<Gate>))
    requires i < |gates| && Calculate(wires, gates[i]).Some?
    ensures |r.1| == |gates| - 1
    ensures forall j :: 0 <= j < i ==> r.1[j] == gates[j]
    ensures forall j :: i <= j < |r.1| ==> r.1[j] == gates[j + 1]
    ensures r.0.Keys == wires.Keys + {gates[i].out}
    ensures r.0[gates[i].out] == Apply(gates[i].operation, wires[gates[i].first], wires[gates[i].second])
    ensures forall k :: k in wires && k != gates[i].out ==> r.0[k] == wires[k]
  {
    (wires[gates[i].out := Calculate(wires, gates[i]).value], gates[..i] + gates[i + 1..])
  }

  /** The outer loop: the wires and the gates left once it stops. */
  function Run(wires: Wires, gates: seq<Gate>): (Wires, seq<Gate>)
    decreases |gates|
  {
    if gates == [] then (wires, gates)
    else match FirstReady(wires, gates)
      case None => (wires, gates)
      case Some(i) =>
        var next := Fire(wires, gates, i);
        Run(next.0, next.1)
  }

  /** The gates `Run` leaves are exactly the ones it could not evaluate:
      each has an unknown input, and each came from the input list. */
  lemma {:induction false} RunStops(wires: Wires, gates: seq<Gate>)
    ensures var (w, rest) := Run(wires, gates);
      && (forall g :: g in rest ==> g.first !in w || g.second !in w)
      && (forall g :: g in rest ==> g in gates)
      && |rest| <= |gates|
    decreases |gates|
  {
    if gates != [] {
      match FirstReady(wires, gates)
      case None =>
        forall g | g in gates
          ensures g.first !in wires || g.second !in wires
        {
          var j :| 0 <= j < |gates| && gates[j] == g;
          assert Calculate(wires, gates[j]).None?;
        }
      case Some(i) =>
        var next := Fire(wires, gates, i);
        RunStops(next.0, next.1);
    }
  }

  /** Wires are only ever added or overwritten by a gate's output: every
      known wire stays known, every new wire is some gate's output, and a
      wire no gate drives keeps its value. */
  lemma {:induction false} RunKeeps(wires: Wires, gates: seq<Gate>)
    ensures var w := Run(wires, gates).0;
      && (forall k :: k in wires ==> k in w)
      && (forall k :: k in w && k !in wires ==> exists g :: g in gates && g.out == k)
      && (forall k :: k in wires && (forall g :: g in gates ==> g.out != k) ==> w[k] == wires[k])
    decreases |gates|
  {
    if gates != [] {
      match FirstReady(wires, gates)
      case None =>
      case Some(i) =>
        var next := Fire(wires, gates, i);
        RunKeeps(next.0, next.1);
        var w := Run(wires, gates).0;
        assert w == Run(next.0, next.1).0;
        forall k | k in w && k !in wires
          ensures exists g :: g in gates && g.out == k
        {
          if k == gates[i].out {
            assert gates[i] in gates;
          } else {
            var g :| g in next.1 && g.out == k;
            assert g in gates;
          }
        }
        forall k | k in wires && (forall g :: g in gates ==> g.out != k)
          ensures w[k] == wires[k]
        {
          assert gates[i] in gates;
          forall g | g in next.1
            ensures g.out != k
          {
            assert g in gates;
          }
        }
    }
  }

  /** Bits stay bits. */
  lemma {:induction false} RunBits(wires: Wires, gates: seq<Gate>)
    requires Bits(wires)
    ensures Bits(Run(wires, gates).0)
    decreases |gates|
  {
    if gates != [] {
      match FirstReady(wires, gates)
      case None =>
      case Some(i) =>
        CalculateBits(wires, gates[i]);
        var next := Fire(wires, gates, i);
        RunBits(next.0, next.1);
    }
  }

  /** The `'outer` loop with its round counter: it runs once per evaluated
      gate plus, when gates remain, once more that finds nothing. */
  method Simulate(wires: Wires, gates: seq<Gate>) returns (w: Wires, rest: seq<Gate>, rounds: nat)
    ensures (w, rest) == Run(wires, gates)
    ensures rounds == |gates| - |rest| + (if rest == [] then 0 else 1)
    ensures rounds <= |gates| + 1
  {
    w, rest, rounds := wires, gates, 0;
    while |rest| > 0
      invariant Run(w, rest) == Run(wires, gates)
      invariant rounds + |rest| == |gates|
      decreases |rest|
    {
      rounds := rounds + 1;
      var ready := FirstReady(w, rest);
      if ready.None? {
        return;
      }
      w, rest := Fire(w, rest, ready.value).0, Fire(w, rest, ready.value).1;
    }
  }

  // ---------------------------------------------------------------------
  // The number on the z wires

  /** `bits`: the digit number after the 'z' of an output wire that is on;
      `None` when `unwrap` fails, or when `1 << bits` would overflow a
      `u64`. */
  function Digit(key: string): (r: Option<nat>)
    requires key != [] && key[0] == 'z'
    ensures r.Some? <==> ParseNat(key[1..]).Some? && ParseNat(key[1..]).value < 64
    ensures r.Some? ==> r.value < 64 && ParseNat(key[1..]) == Some(r.value)
  {
    match ParseWord(key[1..])
    case None => None
    case Some(bits) => if bits < 64 then Some(bits) else None
  }

  predicate IsOutput(key: string) {
    key != [] && key[0] == 'z'
  }

  /** The term a wire adds to `z`: `1 << bits` for an output wire that is
      on, nothing otherwise. */
  function Term(wires: Wires, key: string): Option<nat>
    requires key in wires
  {
    if IsOutput(key) && wires[key] > 0 then
      match Digit(key)
      case None => None
      case Some(bits) => Some(Pow2(bits))
    else Some(0)
  }

  /** The final `for` loop over the map, visiting its keys in `order`. */
  function Assemble(wires: Wires, order: seq<string>): (r: Option<nat>)
    requires forall k :: k in order ==> k in wires
    decreases |order|
  {
    if order == [] then Some(0) else Add(Term(wires, order[0]), Assemble(wires, order[1..]))
  }

  /** `z += ..` after a term that may have panicked. */
  function Add(term: Option<nat>, rest: Option<nat>): Option<nat> {
    if term.Some? && rest.Some? then Some(term.value + rest.value) else None
  }

  /** The loop panics exactly when some term does. */
  lemma {:induction false} AssembleFails(wires: Wires, order: seq<string>)
    requires forall k :: k in order ==> k in wires
    ensures Assemble(wires, order).Some? <==> forall k :: k in order ==> Term(wires, k).Some?
    decreases |order|
  {
    if order != [] {
      AssembleFails(wires, order[1..]);
      assert forall k :: k in order <==> k == order[0] || k in order[1..];
    }
  }

  /** `order` visits every key of `wires` once: a `HashMap`'s iteration
      order, which the model leaves open. */
  ghost predicate Listing(wires: Wires, order: seq<string>) {
    (forall k :: k in order <==> k in wires) && Distinct(order)
  }

  /** `part_one` on the parsed wires and gates, with the final map visited
      in `order`. */
  function PartOne(wires: Wires, gates: seq<Gate>, order: seq<string>): Option<nat>
    requires Listing(Run(wires, gates).0, order)
  {
    Assemble(Run(wires, gates).0, order)
  }

  /** Summing the terms in another order gives the same answer, so the
      hash order does not matter. */
  lemma {:induction false} AssembleAnyOrder(wires: Wires, a: seq<string>, b: seq<string>)
    requires forall k :: k in a ==> k in wires
    requires Distinct(a) && Distinct(b)
    requires forall k :: k in a <==> k in b
    ensures Assemble(wires, a) == Assemble(wires, b)
    decreases |a|
  {
    if a != [] {
      assert a[0] in a;
      var j :| 0 <= j < |b| && b[j] == a[0];
      var others := b[..j] + b[j + 1..];
      DropDistinct(b, j);
      DropDistinct(a, 0);
      assert a[..0] + a[1..] == a[1..];
      forall k
        ensures k in a[1..] <==> k in others
      {
        assert k in a[1..] <==> k in a && k != a[0];
        assert k in others <==> k in b && k != b[j];
      }
      AssembleAnyOrder(wires, a[1..], others);
      AssembleFirst(wires, a, b, j);
    }
  }

  lemma {:induction false} AssembleFirst(wires: Wires, a: seq<string>, b: seq<string>, j: nat)
    requires forall k :: k in a ==> k in wires
    requires forall k :: k in b ==> k in wires
    requires a != [] && j < |b| && b[j] == a[0]
    requires Assemble(wires, a[1..]) == Assemble(wires, b[..j] + b[j + 1..])
    ensures Assemble(wires, a) == Assemble(wires, b)
  {
    AssembleRemove(wires, b, j);
  }

  ghost predicate Distinct(s: seq<string>) {
    forall i, j :: 0 <= i < j < |s| ==> s[i] != s[j]
  }

  /** Dropping one entry of a list without repeats leaves the other
      entries, still without repeats. */
  lemma DropDistinct(b: seq<string>, j: nat)
    requires j < |b| && Distinct(b)
    ensures forall k :: k in b[..j] + b[j + 1..] <==> k in b && k != b[j]
    ensures Distinct(b[..j] + b[j + 1..])
  {
    var others := b[..j] + b[j + 1..];
    forall k | k in b && k != b[j]
      ensures k in others
    {
      var p :| 0 <= p < |b| && b[p] == k;
      if p < j {
        assert others[p] == k;
      } else {
        assert others[p - 1] == k;
      }
    }
    forall i1, i2 | 0 <= i1 < i2 < |others|
      ensures others[i1] != others[i2]
    {
      var p1 := if i1 < j then i1 else i1 + 1;
      var p2 := if i2 < j then i2 else i2 + 1;
      assert others[i1] == b[p1] && others[i2] == b[p2];
    }
  }

  /** Taking one key out of the middle of the order and adding its term
      first leaves the total alone. */
  lemma {:induction false} AssembleRemove(wires: Wires, b: seq<string>, j: nat)
    requires forall k :: k in b ==> k in wires
    requires j < |b|
    ensures Assemble(wires, b) == Add(Term(wires, b[j]), Assemble(wires, b[..j] + b[j + 1..]))
    decreases j
  {
    if j > 0 {
      var tail := b[1..];
      AssembleRemove(wires, tail, j - 1);
      assert tail[j - 1] == b[j];
      assert b[..j] + b[j + 1..] == [b[0]] + (tail[..j - 1] + tail[j..]);
    } else {
      assert b[..j] + b[j + 1..] == b[1..];
    }
  }

  /** The answer sets binary digit `k` for an output wire `zk` that is on:
      with output wires z00, z01, ... the answer adds up their powers of
      two. */
  lemma {:induction false} AssembleOutputs(wires: Wires, order: seq<string>)
    requires forall k :: k in order ==> k in wires
    requires Assemble(wires, order).Some?
    ensures forall k :: k in order && IsOutput(k) && wires[k] > 0 ==>
      Digit(k).Some? && Assemble(wires, order).value >= Pow2(Digit(k).value)
    ensures (forall k :: k in order ==> !IsOutput(k) || wires[k] == 0) ==> Assemble(wires, order) == Some(0)
  {
    AssembleTerms(wires, order);
  }

  lemma {:induction false} AssembleTerms(wires: Wires, order: seq<string>)
    requires forall k :: k in order ==> k in wires
    requires Assemble(wires, order).Some?
    ensures forall k :: k in order ==> Term(wires, k).Some? && Assemble(wires, order).value >= Term(wires, k).value
    ensures (forall k :: k in order ==> Term(wires, k) == Some(0)) ==> Assemble(wires, order) == Some(0)
    decreases |order|
  {
    AssembleFails(wires, order);
    if order != [] {
      AssembleTerms(wires, order[1..]);
    }
  }

  /** Binary digit `d` of `n`. */
  function Bit(n: nat, d: nat): (b: nat)
    ensures b < 2
  {
    if d == 0 then n % 2 else Bit(n / 2, d - 1)
  }

  /** Adding `1 << e` to a number whose digit `e` is clear sets that digit
      and leaves every other digit alone: no carry happens. */
  lemma {:induction false} AddPow2Bit(n: nat, e: nat, d: nat)
    requires Bit(n, e) == 0
    ensures Bit(n + Pow2(e), d) == if d == e then 1 else Bit(n, d)
    decreases e
  {
    if e == 0 {
      assert n % 2 == 0;
      if d > 0 {
        assert (n + 1) / 2 == n / 2;
      }
    } else {
      var p := Pow2(e - 1);
      assert (n + 2 * p) / 2 == n / 2 + p && (n + 2 * p) % 2 == n % 2;
      if d > 0 {
        AddPow2Bit(n / 2, e - 1, d - 1);
      }
    }
  }

  /** An output wire that is on. */
  predicate On(wires: Wires, key: string)
    requires key in wires
  {
    IsOutput(key) && wires[key] > 0
  }

  /** No two output wires that are on name the same digit (as `z1` and
      `z01` would). */
  ghost predicate DistinctDigits(wires: Wires, order: seq<string>)
    requires forall k :: k in order ==> k in wires
  {
    forall i, j :: 0 <= i < j < |order| && On(wires, order[i]) && On(wires, order[j]) ==>
      Digit(order[i]) != Digit(order[j])
  }

  /** With distinct digits the answer is exactly the number whose binary
      digit `d` is set when some output wire with digit `d` is on. */
  lemma {:induction false} AssembleBits(wires: Wires, order: seq<string>, d: nat)
    requires forall k :: k in order ==> k in wires
    requires Assemble(wires, order).Some?
    requires DistinctDigits(wires, order)
    ensures Bit(Assemble(wires, order).value, d) == 1 <==>
      exists i :: 0 <= i < |order| && On(wires, order[i]) && Digit(order[i]) == Some(d)
    decreases |order|
  {
    if order == [] {
      assert Bit(0, d) == 0 by { ZeroBits(d); }
    } else {
      var tail := order[1..];
      var rest := Assemble(wires, tail).value;
      assert DistinctDigits(wires, tail) by {
        forall i, j | 0 <= i < j < |tail| && On(wires, tail[i]) && On(wires, tail[j])
          ensures Digit(tail[i]) != Digit(tail[j])
        {
          assert tail[i] == order[i + 1] && tail[j] == order[j + 1];
        }
      }
      AssembleBits(wires, tail, d);
      var k := order[0];
      if On(wires, k) {
        var e := Digit(k).value;
        assert Assemble(wires, order).value == Pow2(e) + rest;
        AssembleBits(wires, tail, e);
        AddPow2Bit(rest, e, d);
        ShiftWitness(wires, order, d);
      } else {
        assert Assemble(wires, order).value == rest;
        ShiftWitness(wires, order, d);
      }
    }
  }

  lemma {:induction false} ZeroBits(d: nat)
    ensures Bit(0, d) == 0
    decreases d
  {
    if d > 0 {
      ZeroBits(d - 1);
    }
  }

  /** A witness in the whole order is the first key or one in the tail. */
  lemma ShiftWitness(wires: Wires, order: seq<string>, d: nat)
    requires forall k :: k in order ==> k in wires
    requires order != []
    ensures (exists i :: 0 <= i < |order| && On(wires, order[i]) && Digit(order[i]) == Some(d)) <==>
      (On(wires, order[0]) && Digit(order[0]) == Some(d)) ||
      exists i :: 0 <= i < |order[1..]| && On(wires, order[1..][i]) && Digit(order[1..][i]) == Some(d)
  {
    var tail := order[1..];
    if i :| 0 <= i < |order| && On(wires, order[i]) && Digit(order[i]) == Some(d) {
      if i > 0 {
        assert tail[i - 1] == order[i];
      }
    }
    if i :| 0 <= i < |tail| && On(wires, tail[i]) && Digit(tail[i]) == Some(d) {
      assert order[i + 1] == tail[i];
    }
  }
}

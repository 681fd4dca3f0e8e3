/** Day 17: a three-register machine with eight instructions. Registers
    A, B and C hold `u32` values; the program is a list of 3-bit words read
    in (opcode, operand) pairs. The run stops when the instruction pointer
    passes the end of the program or after the iteration ceiling, and the
    outputs are printed comma-separated. */
module Day17 {
  import opened Common

  /** The iteration ceiling of the run loop. */
  const Cap: nat := 999_999

  /** One more than the largest `u32`. */
  const U32: nat := 0x1_0000_0000

  datatype Regs = Regs(a: nat, b: nat, c: nat)

  /** All three registers hold `u32` values. */
  predicate Fits(r: Regs) {
    r.a < U32 && r.b < U32 && r.c < U32
  }

  /** The program is a list of `u8` values, as parsed. */
  predicate Bytes(program: seq<nat>) {
    forall i :: 0 <= i < |program| ==> program[i] < 256
  }

  /** `combo_operator`: 0 to 3 stand for themselves, 4, 5 and 6 read A, B
      and C, and anything else panics. */
  function Combo(r: Regs, operand: nat): (v: Option<nat>)
    ensures v.Some? <==> operand <= 6
    ensures operand <= 3 ==> v == Some(operand)
    ensures operand == 4 ==> v == Some(r.a)
    ensures operand == 5 ==> v == Some(r.b)
    ensures operand == 6 ==> v == Some(r.c)
  {
    if operand == 4 then Some(r.a)
    else if operand == 5 then Some(r.b)
    else if operand == 6 then Some(r.c)
    else if operand <= 3 then Some(operand)
    else None
  }

  lemma U32Pow()
    ensures U32 == Pow2(32)
  {
    assert Pow2(8) == 256;
    Pow2Add(8, 8);
    Pow2Add(16, 16);
  }

  /** `a / 2u32.pow(k)`: the power overflows a `u32` from `k = 32` on (a
      panic in a debug build, and a division by zero in a release one). */
  function Shift(a: nat, k: nat): (r: Option<nat>)
    ensures r.Some? <==> k < 32
    ensures r.Some? ==> r.value <= a && r.value * Pow2(k) <= a < (r.value + 1) * Pow2(k)
  {
    if k >= 32 then None
    else
      DivBounds(a, Pow2(k));
      Some(a / Pow2(k))
  }

  /** The quotient written by `adv`, `bdv` and `cdv`. */
  function Divide(r: Regs, operand: nat): (q: Option<nat>)
    ensures q.Some? ==> q.value <= r.a
  {
    match Combo(r, operand)
    case None => None
    case Some(k) => Shift(r.a, k)
  }

  /** The machine state: registers, instruction pointer and the outputs so far. */
  datatype Machine = Machine(regs: Regs, ip: nat, out: seq<nat>)

  /** `process_instruction` on the pair at `ip`, after reading it: `None`
      for any panic (no operand word, a combo operand of 7, an opcode
      above 7, a power that overflows). */
  function Step(program: seq<nat>, m: Machine): (r: Option<Machine>)
    requires m.ip < |program|
    ensures r.Some? ==> m.ip + 1 < |program| && program[m.ip] <= 7
    ensures r.Some? && program[m.ip] != 5 ==> r.value.out == m.out
    ensures r.Some? && program[m.ip] == 5 ==>
      exists v :: 0 <= v < 8 && r.value.out == m.out + [v]
  {
    if m.ip + 1 >= |program| then None
    else
      var op := program[m.ip];
      var x := program[m.ip + 1];
      var rg := m.regs;
      var next := m.ip + 2;
      if op == 0 || op == 6 || op == 7 then
        (match Divide(rg, x)
         case None => None
         case Some(q) =>
           var rg' := if op == 0 then rg.(a := q) else if op == 6 then rg.(b := q) else rg.(c := q);
           Some(Machine(rg', next, m.out)))
      else if op == 1 then Some(Machine(rg.(b := Xor(rg.b, x)), next, m.out))
      else if op == 2 then
        (match Combo(rg, x)
         case None => None
         case Some(v) => Some(Machine(rg.(b := v % 8), next, m.out)))
      else if op == 3 then Some(Machine(rg, if rg.a != 0 then x else next, m.out))
      else if op == 4 then Some(Machine(rg.(b := Xor(rg.b, rg.c)), next, m.out))
      else if op == 5 then
        (match Combo(rg, x)
         case None => None
         case Some(v) => Some(Machine(rg, next, m.out + [v % 8])))
      else None
  }

  /** The instruction pointer: `jnz` jumps to its operand when A is not
      zero and otherwise falls through; every other instruction moves on by
      one pair. */
  lemma StepPointer(program: seq<nat>, m: Machine)
    requires m.ip < |program| && Step(program, m).Some?
    ensures var r := Step(program, m).value;
      r.ip == if program[m.ip] == 3 && m.regs.a != 0 then program[m.ip + 1] else m.ip + 2
  {
  }

  /** What each instruction does to the registers. The three divisions
      write the quotient of A by two to the power of the combo operand into
      A, B or C and leave the other two alone; `bxl` and `bxc` change only
      B; `bst` leaves a value below 8 in B; `jnz` and `out` change none. */
  lemma StepRegisters(program: seq<nat>, m: Machine)
    requires m.ip < |program| && Step(program, m).Some?
    ensures var r := Step(program, m).value.regs; var g := m.regs;
      var op := program[m.ip]; var x := program[m.ip + 1];
      && (op == 0 || op == 6 || op == 7 ==>
            var k := Combo(g, x).value;
            var q := if op == 0 then r.a else if op == 6 then r.b else r.c;
            && q * Pow2(k) <= g.a < (q + 1) * Pow2(k)
            && (op == 0 ==> r.b == g.b && r.c == g.c)
            && (op == 6 ==> r.a == g.a && r.c == g.c)
            && (op == 7 ==> r.a == g.a && r.b == g.b))
      && (op == 1 ==> r == g.(b := Xor(g.b, x)))
      && (op == 2 ==> r.a == g.a && r.c == g.c && r.b < 8 && r.b == Combo(g, x).value % 8)
      && (op == 4 ==> r == g.(b := Xor(g.b, g.c)))
      && (op == 3 || op == 5 ==> r == g)
  {
  }

  /** Applying `bxl` twice with the same operand restores B. */
  lemma BxlTwice(x: nat, m: Machine)
    requires m.ip == 0
    ensures var p := [1, x, 1, x];
      Step(p, m).Some? && Step(p, Step(p, m).value).Some?
      && Step(p, Step(p, m).value).value.regs == m.regs
  {
    XorSelfInverse(m.regs.b, x);
  }

  /** Registers stay `u32` values. */
  lemma StepFits(program: seq<nat>, m: Machine)
    requires m.ip < |program| && Step(program, m).Some?
    requires Fits(m.regs) && Bytes(program)
    ensures Fits(Step(program, m).value.regs)
  {
    var op := program[m.ip];
    if op == 1 {
      U32Pow();
      XorBound(m.regs.b, program[m.ip + 1], 32);
    } else if op == 4 {
      U32Pow();
      XorBound(m.regs.b, m.regs.c, 32);
    }
  }

  /** Every value in `out` is a single octal digit. */
  predicate Octal(out: seq<nat>) {
    forall i :: 0 <= i < |out| ==> out[i] < 8
  }

  /** The `while` loop from iteration `it` on, returning the final state and
      the iteration count. An empty program panics on `program.len() - 1`. */
  function Run(program: seq<nat>, m: Machine, it: nat): (r: Option<(Machine, nat)>)
    ensures r.Some? ==> r.value.1 >= it
    ensures r.Some? ==> r.value.1 >= Cap || r.value.0.ip >= |program|
    ensures r.Some? && it <= Cap ==> r.value.1 <= Cap
    decreases Cap - it
  {
    if it >= Cap then Some((m, it))
    else if |program| == 0 then None
    else if m.ip > |program| - 1 then Some((m, it))
    else
      match Step(program, m)
      case None => None
      case Some(m') => Run(program, m', it + 1)
  }

  /** The outputs only grow, by at most one value per iteration, and every
      value written is an octal digit. */
  lemma {:induction false} RunOutputs(program: seq<nat>, m: Machine, it: nat)
    requires Octal(m.out)
    requires Run(program, m, it).Some?
    ensures var (m', it') := Run(program, m, it).value;
      && |m.out| <= |m'.out| <= |m.out| + (it' - it)
      && m'.out[..|m.out|] == m.out
      && Octal(m'.out)
    decreases Cap - it
  {
    if it < Cap && |program| > 0 && m.ip <= |program| - 1 {
      var m' := Step(program, m).value;
      if program[m.ip] == 5 {
        var v :| 0 <= v < 8 && m'.out == m.out + [v];
        assert Octal(m'.out);
      }
      RunOutputs(program, m', it + 1);
      var (m'', it'') := Run(program, m', it + 1).value;
      assert m''.out[..|m.out|] == m''.out[..|m'.out|][..|m.out|];
    }
  }

  /** The registers stay `u32` values for the whole run. */
  lemma {:induction false} RunFits(program: seq<nat>, m: Machine, it: nat)
    requires Fits(m.regs) && Bytes(program)
    requires Run(program, m, it).Some?
    ensures Fits(Run(program, m, it).value.0.regs)
    decreases Cap - it
  {
    if it < Cap && |program| > 0 && m.ip <= |program| - 1 {
      StepFits(program, m);
      RunFits(program, Step(program, m).value, it + 1);
    }
  }

  // ---------------------------------------------------------------------
  // Output

  /** `x.to_string()` of every output. */
  function Decimals(out: seq<nat>): (r: seq<string>)
    ensures |r| == |out|
    ensures forall i :: 0 <= i < |out| ==> r[i] == Decimal(out[i])
  {
    if out == [] then [] else [Decimal(out[0])] + Decimals(out[1..])
  }

  /** `.join(",")` of the rendered outputs; empty when there are none. */
  function Render(out: seq<nat>): string {
    if out == [] then "" else Join(Decimals(out), ',')
  }

  /** The printed line splits back at the commas into the outputs, each
      parsing to its value. */
  lemma RenderParses(out: seq<nat>)
    requires out != []
    ensures var pieces := Split(Render(out), ',');
      |pieces| == |out| && forall i :: 0 <= i < |out| ==> ParseNat(pieces[i]) == Some(out[i])
  {
    var parts := Decimals(out);
    forall i | 0 <= i < |parts|
      ensures ',' !in parts[i]
    {
      assert forall j :: 0 <= j < |parts[i]| ==> IsDigit(parts[i][j]);
    }
    SplitJoin(parts, ',');
    forall i | 0 <= i < |out|
      ensures ParseNat(parts[i]) == Some(out[i])
    {
      ParseDecimal(out[i]);
    }
  }

  /** The printed line is empty exactly when nothing was output, and
      otherwise reads back as the octal digits output. */
  lemma RenderMeans(out: seq<nat>)
    requires Octal(out)
    ensures out == [] <==> Render(out) == ""
    ensures out != [] ==> |Split(Render(out), ',')| == |out|
    ensures out != [] ==> forall i :: 0 <= i < |out| ==> ParseNat(Split(Render(out), ',')[i]) == Some(out[i]) && out[i] < 8
  {
    if out != [] {
      RenderParses(out);
    }
  }

  /** `part_one` on the parsed registers and program. */
  function PartOne(regs: Regs, program: seq<nat>): (r: Option<string>)
    ensures r.None? <==> Run(program, Machine(regs, 0, []), 0).None?
    ensures r.Some? ==> r.value == Render(Run(program, Machine(regs, 0, []), 0).value.0.out)
    ensures r.Some? ==> var out := Run(program, Machine(regs, 0, []), 0).value.0.out;
      && (out == [] <==> r.value == "")
      && (out != [] ==> |Split(r.value, ',')| == |out|)
      && (out != [] ==> forall i :: 0 <= i < |out| ==> ParseNat(Split(r.value, ',')[i]) == Some(out[i]) && out[i] < 8)
  {
    match Run(program, Machine(regs, 0, []), 0)
    case None => None
    case Some((m, _)) =>
      RunOutputs(program, Machine(regs, 0, []), 0);
      RenderMeans(m.out);
      Some(Render(m.out))
  }

  // ---------------------------------------------------------------------
  // The example program 0,1,5,4,3,0: halve A, print A mod 8, loop while A
  // is not zero.

  const Example: seq<nat> := [0, 1, 5, 4, 3, 0]

  /** One pass of the example loop. */
  lemma {:induction false} ExamplePass(g: Regs, out: seq<nat>, it: nat)
    requires it + 3 <= Cap
    ensures var a := g.a / 2; var out' := out + [a % 8];
      Run(Example, Machine(g, 0, out), it)
        == if a != 0 then Run(Example, Machine(g.(a := a), 0, out'), it + 3)
           else Some((Machine(g.(a := 0), 6, out'), it + 3))
  {
    assert Pow2(1) == 2;
    var a := g.a / 2;
    var m1 := Machine(g.(a := a), 2, out);
    assert Step(Example, Machine(g, 0, out)) == Some(m1);
    var m2 := Machine(g.(a := a), 4, out + [a % 8]);
    assert Step(Example, m1) == Some(m2);
    var m3 := Machine(g.(a := a), if a != 0 then 0 else 6, out + [a % 8]);
    assert Step(Example, m2) == Some(m3);
    assert Run(Example, Machine(g, 0, out), it) == Run(Example, m1, it + 1);
    assert Run(Example, m1, it + 1) == Run(Example, m2, it + 2);
    assert Run(Example, m2, it + 2) == Run(Example, m3, it + 3);
  }

  /** The values the example program prints for a starting A: each pass
      halves A and prints the new A mod 8, until A reaches zero. */
  function Halvings(a: nat): (r: seq<nat>)
    ensures |r| >= 1
    decreases a
  {
    var h := a / 2;
    [h % 8] + (if h == 0 then [] else Halvings(h))
  }

  /** The example program prints `Halvings(A)`, three instructions per
      pass, and halts with A zero just past its last word. */
  lemma {:induction false} ExampleTrace(g: Regs, out: seq<nat>, it: nat)
    requires it + 3 * |Halvings(g.a)| <= Cap
    ensures Run(Example, Machine(g, 0, out), it)
      == Some((Machine(g.(a := 0), 6, out + Halvings(g.a)), it + 3 * |Halvings(g.a)|))
    decreases g.a
  {
    ExamplePass(g, out, it);
    var h := g.a / 2;
    if h != 0 {
      HalvingsJoin(g.a, out);
      ExampleTrace(g.(a := h), out + [h % 8], it + 3);
      assert g.(a := h).(a := 0) == g.(a := 0);
    } else {
      assert Halvings(g.a) == [0];
    }
  }

  /** Printing one more value and then the rest is printing all of them. */
  lemma HalvingsJoin(a: nat, out: seq<nat>)
    requires a / 2 != 0
    ensures |Halvings(a)| == 1 + |Halvings(a / 2)|
    ensures (out + [(a / 2) % 8]) + Halvings(a / 2) == out + Halvings(a)
  {
    assert Halvings(a) == [(a / 2) % 8] + Halvings(a / 2);
  }

  /** Rendering a single digit in front of a non-empty rest. */
  lemma RenderCons(d: nat, rest: seq<nat>)
    requires d < 10 && rest != []
    ensures Render([d] + rest) == [DigitChar(d)] + [','] + Render(rest)
  {
    var out := [d] + rest;
    assert out[1..] == rest;
    assert Decimals(out) == [Decimal(d)] + Decimals(rest);
    assert Decimals(out)[1..] == Decimals(rest);
  }

  /** A line of octal digits is the digits at the even positions with
      commas between them. */
  lemma {:induction false} RenderOctal(out: seq<nat>)
    requires out != [] && Octal(out)
    ensures |Render(out)| == 2 * |out| - 1
    ensures forall i :: 0 <= i < |out| ==> Render(out)[2 * i] == DigitChar(out[i])
    ensures forall i :: 0 <= i < |out| - 1 ==> Render(out)[2 * i + 1] == ','
  {
    if |out| > 1 {
      var rest := out[1..];
      assert out == [out[0]] + rest;
      RenderCons(out[0], rest);
      RenderOctal(rest);
      var s := Render(out);
      forall i | 1 <= i < |out|
        ensures s[2 * i] == DigitChar(out[i])
      {
        assert s[2 * i] == Render(rest)[2 * (i - 1)];
      }
      forall i | 1 <= i < |out| - 1
        ensures s[2 * i + 1] == ','
      {
        assert s[2 * i + 1] == Render(rest)[2 * (i - 1) + 1];
      }
    } else {
      assert Decimals(out) == [Decimal(out[0])];
    }
  }

  /** The example run with A = 729 prints the octal digits 4, 6, 3, 5, 6,
      3, 5, 2, 1, 0, that is the line `4,6,3,5,6,3,5,2,1,0`. */
  lemma ExampleRun(a: nat, out: seq<nat>)
    requires a == 729 && out == [4, 6, 3, 5, 6, 3, 5, 2, 1, 0]
    ensures PartOne(Regs(a, 0, 0), Example) == Some(Render(out))
  {
    ExampleDigits(a);
    ExampleTrace(Regs(a, 0, 0), [], 0);
    assert [] + Halvings(a) == out;
  }

  lemma {:induction false} ExampleDigits(a: nat)
    requires a == 729
    ensures Halvings(a) == [4, 6, 3, 5, 6, 3, 5, 2, 1, 0]
  {
    var b := a / 2;
    ExampleDigitsHigh(b);
    HalvingsCons(a, 4, [6, 3, 5, 6, 3, 5, 2, 1, 0]);
  }

  lemma {:induction false} ExampleDigitsHigh(x: nat)
    requires x == 364
    ensures Halvings(x) == [6, 3, 5, 6, 3, 5, 2, 1, 0]
  {
    var b := x / 2;
    assert b == 182 && b / 2 == 91;
    ExampleDigitsMid(b / 2);
    HalvingsCons(b, 3, [5, 6, 3, 5, 2, 1, 0]);
    HalvingsCons(x, 6, [3, 5, 6, 3, 5, 2, 1, 0]);
  }

  lemma {:induction false} ExampleDigitsMid(x: nat)
    requires x == 91
    ensures Halvings(x) == [5, 6, 3, 5, 2, 1, 0]
  {
    var b := x / 2;
    var c := b / 2;
    ExampleDigitsLow(c / 2);
    HalvingsCons(c, 3, [5, 2, 1, 0]);
    HalvingsCons(b, 6, [3, 5, 2, 1, 0]);
    HalvingsCons(x, 5, [6, 3, 5, 2, 1, 0]);
  }

  /** One unfolding of `Halvings` when the halved value is not yet zero. */
  lemma HalvingsCons(x: nat, digit: nat, rest: seq<nat>)
    requires x / 2 != 0 && (x / 2) % 8 == digit && Halvings(x / 2) == rest
    ensures Halvings(x) == [digit] + rest
  {
  }

  lemma {:induction false} ExampleDigitsLow(x: nat)
    requires x == 11
    ensures Halvings(x) == [5, 2, 1, 0]
  {
    assert Halvings(1) == [0];
    assert Halvings(2) == [1, 0];
    assert Halvings(5) == [2, 1, 0];
  }
}

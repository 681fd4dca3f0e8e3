/** Day 22: the buyers' pseudo-random secret numbers. One step mixes the
    secret three times with a shifted copy of itself by exclusive or,
    pruning to 24 bits after each mix; part one sums every buyer's 2000th
    secret. All arithmetic is on `u64`. */
module Day22 {
  import opened Common

  /** `MOD`: pruning keeps the low 24 bits. */
  const Modulus: nat := 16777216

  lemma ModulusIsPow2()
    ensures Pow2(24) == Modulus
  {
    Pow2Add(12, 12);
    assert Pow2(12) == 4096 by {
      Pow2Add(6, 6);
    }
  }

  // ---------------------------------------------------------------------
  // Input

  /** Each line parsed in order; `None` if any `unwrap` panics. */
  function ParseLines(lines: seq<string>): (r: Option<seq<nat>>)
    ensures r.Some? <==> forall k :: 0 <= k < |lines| ==> ParseWord(lines[k]).Some?
    ensures r.Some? ==> |r.value| == |lines|
    ensures r.Some? ==> forall k :: 0 <= k < |lines| ==> ParseWord(lines[k]) == Some(r.value[k])
  {
    if lines == [] then Some([])
    else match (ParseWord(lines[0]), ParseLines(lines[1..]))
      case (Some(v), Some(rest)) => Some([v] + rest)
      case (None, _) => None
      case (_, None) =>
        assert forall k :: 0 <= k < |lines| - 1 ==> lines[1..][k] == lines[k + 1];
        None
  }

  /** `parse_input`: one initial secret per non-empty line. */
  function ParseInput(file: string): Option<seq<nat>> {
    ParseLines(NonEmpty(Lines(file)))
  }

  // ---------------------------------------------------------------------
  // The generator

  /** `((secret << 6) ^ secret) % MOD`. */
  function FirstMix(secret: nat): nat {
    Xor((secret * 64) % WordLimit, secret) % Modulus
  }

  /** `((first >> 5) ^ first) % MOD`. */
  function SecondMix(first: nat): nat {
    Xor(first / 32, first) % Modulus
  }

  /** `((second << 11) ^ second) % MOD`. */
  function ThirdMix(second: nat): nat {
    Xor((second * 2048) % WordLimit, second) % Modulus
  }

  /** `next_secret`: the three mixes in turn. */
  function NextSecret(secret: nat): (r: nat)
    ensures r < Modulus
  {
    ThirdMix(SecondMix(FirstMix(secret)))
  }

  /** `generate_nth_secret` as a recurrence: zero steps leave the secret
      as it is; one more step applies `next_secret` once more. */
  function Generate(secret: nat, n: nat): nat
    decreases n
  {
    if n == 0 then secret else NextSecret(Generate(secret, n - 1))
  }

  /** The loop of `generate_nth_secret`. */
  method GenerateNth(secret: nat, n: nat) returns (s: nat)
    ensures s == Generate(secret, n)
    ensures n > 0 ==> s < Modulus
  {
    s := secret;
    for i := 0 to n
      invariant s == Generate(secret, i)
    {
      s := NextSecret(s);
    }
  }

  /** Running `m` steps and then `n` more is running `m + n` steps. */
  lemma {:induction false} GenerateCompose(secret: nat, m: nat, n: nat)
    ensures Generate(Generate(secret, m), n) == Generate(secret, m + n)
    decreases n
  {
    if n > 0 {
      GenerateCompose(secret, m, n - 1);
    }
  }

  // ---------------------------------------------------------------------
  // Only the low 24 bits matter

  /** Reducing modulo a multiple of `d` first does not change the remainder
      modulo `d`. */
  lemma ModOfMultiple(a: nat, d: nat, e: nat)
    requires d > 0 && e > 0
    ensures (a % (d * e)) % d == a % d
  {
    var big, rest := a / (d * e), a % (d * e);
    var q, r := rest / d, rest % d;
    assert a == (d * e) * big + rest;
    assert rest == d * q + r;
    MulRegroup(d, e, big, q);
    DivModUnique(a, d, e * big + q, r);
  }

  lemma MulRegroup(d: nat, e: nat, big: nat, q: nat)
    ensures (d * e) * big + d * q == d * (e * big + q)
  {
  }

  /** Only the remainder of a factor matters for the remainder of a
      product. */
  lemma MulMod(s: nat, c: nat, d: nat)
    requires d > 0
    ensures (s * c) % d == ((s % d) * c) % d
  {
    var q, r := s / d, s % d;
    var q2, r2 := (r * c) / d, (r * c) % d;
    assert s == d * q + r;
    assert r * c == d * q2 + r2;
    Distribute(d, q, r, c);
    assert s * c == d * (q * c) + r * c;
    assert s * c == d * (q * c + q2) + r2;
    DivModUnique(s * c, d, q * c + q2, r2);
  }

  lemma Distribute(d: nat, q: nat, r: nat, c: nat)
    ensures (d * q + r) * c == d * (q * c) + r * c
  {
  }

  /** Splitting a remainder modulo `2^(k+1)` into the lowest binary digit
      and the remainder of the rest modulo `2^k`. */
  lemma ModDouble(z: nat, k: nat)
    ensures z % Pow2(k + 1) == 2 * ((z / 2) % Pow2(k)) + z % 2
  {
    var p := Pow2(k);
    var q, b := z / 2, z % 2;
    var m, r := q / p, q % p;
    assert z == (2 * p) * m + (2 * r + b) by {
      assert z == 2 * q + b;
      assert q == p * m + r;
    }
    DivModUnique(z, 2 * p, m, 2 * r + b);
  }

  /** Exclusive or works digit by digit, so the low `k` binary digits of
      `x ^ y` are those of the low `k` digits of `x` and `y`. */
  lemma {:induction false} XorMod(x: nat, y: nat, k: nat)
    ensures Xor(x, y) % Pow2(k) == Xor(x % Pow2(k), y % Pow2(k))
    decreases k
  {
    if k == 0 {
      assert Xor(0, 0) == 0;
    } else {
      var lx, ly := x % Pow2(k), y % Pow2(k);
      var z := Xor(lx, ly);
      XorMod(x / 2, y / 2, k - 1);
      XorDigits(x, y);
      XorDigits(lx, ly);
      ModDouble(Xor(x, y), k - 1);
      LowDigits(x, k);
      LowDigits(y, k);
      assert z / 2 == Xor(x / 2, y / 2) % Pow2(k - 1);
      assert Xor(x, y) % Pow2(k) == 2 * (z / 2) + z % 2;
    }
  }

  /** The low `k` binary digits, halved, are the low `k - 1` digits of the
      halved number; the lowest digit is unchanged. */
  lemma LowDigits(x: nat, k: nat)
    requires k >= 1
    ensures (x % Pow2(k)) / 2 == (x / 2) % Pow2(k - 1)
    ensures (x % Pow2(k)) % 2 == x % 2
  {
    ModDouble(x, k - 1);
    HalveTwice((x / 2) % Pow2(k - 1), x % 2);
  }

  /** The first mix sees only the low 24 bits of the secret. */
  lemma FirstMixLow(secret: nat)
    ensures FirstMix(secret) == FirstMix(secret % Modulus)
  {
    var low := secret % Modulus;
    ModulusIsPow2();
    XorMod((secret * 64) % WordLimit, secret, 24);
    XorMod((low * 64) % WordLimit, low, 24);
    assert WordLimit == Modulus * 1099511627776;
    ModOfMultiple(secret * 64, Modulus, 1099511627776);
    ModOfMultiple(low * 64, Modulus, 1099511627776);
    MulMod(secret, 64, Modulus);
    ModOfMultiple(secret, Modulus, 1);
  }

  /** `next_secret(s)` depends only on `s mod 2^24`. */
  lemma NextSecretLow(secret: nat)
    ensures NextSecret(secret) == NextSecret(secret % Modulus)
  {
    FirstMixLow(secret);
  }

  /** So does every later secret. */
  lemma {:induction false} GenerateLow(secret: nat, n: nat)
    requires n > 0
    ensures Generate(secret, n) == Generate(secret % Modulus, n)
    decreases n
  {
    if n == 1 {
      NextSecretLow(secret);
    } else {
      GenerateLow(secret, n - 1);
    }
  }

  /** On a 24-bit secret the `u64` shift never drops a bit that survives
      the pruning, and the right-shift mix needs no pruning at all. */
  lemma {:induction false} MixesOnPruned(secret: nat)
    requires secret < Modulus
    ensures FirstMix(secret) == Xor((secret * 64) % Modulus, secret)
    ensures SecondMix(FirstMix(secret)) == Xor(FirstMix(secret) / 32, FirstMix(secret))
  {
    ModulusIsPow2();
    var shifted := secret * 64;
    assert shifted < WordLimit;
    DivModUnique(shifted, WordLimit, 0, shifted);
    DivModUnique(secret, Modulus, 0, secret);
    XorMod(shifted, secret, 24);
    var first := FirstMix(secret);
    XorBound(first / 32, first, 24);
    DivModUnique(Xor(first / 32, first), Modulus, 0, Xor(first / 32, first));
  }

  // ---------------------------------------------------------------------
  // Part one

  /** Every buyer's `n`th secret. */
  function Nths(secrets: seq<nat>, n: nat): (r: seq<nat>)
    ensures |r| == |secrets|
  {
    seq(|secrets|, i requires 0 <= i < |secrets| => Generate(secrets[i], n))
  }

  /** `part_one`: the sum of the 2000th secrets; `None` on a line that is
      not a `u64`. */
  function PartOne(file: string): Option<int> {
    match ParseInput(file)
    case None => None
    case Some(secrets) => Some(Sum(Nths(secrets, 2000)))
  }

  /** Part one fails exactly when a non-empty line is not a `u64`. */
  lemma PartOneFails(file: string)
    ensures PartOne(file).Some? <==>
      forall l :: l in Lines(file) && l != [] ==> ParseWord(l).Some?
  {
    var pieces := Lines(file);
    var lines := NonEmpty(pieces);
    assert PartOne(file).Some? <==> ParseLines(lines).Some?;
    SameWords(pieces, lines);
  }

  /** Two lists holding the same non-empty lines parse alike. */
  lemma SameWords(pieces: seq<string>, lines: seq<string>)
    requires forall i :: 0 <= i < |lines| ==> lines[i] != [] && lines[i] in pieces
    requires forall l :: l in pieces && l != [] ==> l in lines
    ensures (forall k :: 0 <= k < |lines| ==> ParseWord(lines[k]).Some?) <==>
      forall l :: l in pieces && l != [] ==> ParseWord(l).Some?
  {
    if forall k :: 0 <= k < |lines| ==> ParseWord(lines[k]).Some? {
      forall l | l in pieces && l != []
        ensures ParseWord(l).Some?
      {
        var k :| 0 <= k < |lines| && lines[k] == l;
      }
    }
  }

  /** Otherwise it sums `generate_nth_secret(_, 2000)` over the buyers,
      each term below 2^24. */
  lemma PartOneSums(file: string)
    requires PartOne(file).Some?
    ensures var secrets := ParseInput(file).value;
      && 0 <= PartOne(file).value <= |secrets| * (Modulus - 1)
      && forall i :: 0 <= i < |secrets| ==> Nths(secrets, 2000)[i] == Generate(secrets[i], 2000) < Modulus
  {
    SumBelow(Nths(ParseInput(file).value, 2000));
  }

  /** A sum of terms below 2^24 is at most `|xs| * (2^24 - 1)`. */
  lemma {:induction false} SumBelow(xs: seq<nat>)
    requires forall i :: 0 <= i < |xs| ==> xs[i] < Modulus
    ensures 0 <= Sum(xs) <= |xs| * (Modulus - 1)
    decreases |xs|
  {
    if xs != [] {
      assert forall i :: 0 <= i < |xs| - 1 ==> xs[1..][i] == xs[i + 1];
      SumBelow(xs[1..]);
    }
  }
}

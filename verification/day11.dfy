/** Day 11: a row of numbered stones changes on every blink. A stone with an
    even number of decimal digits splits into its two halves, a zero becomes
    one, and any other stone is multiplied by 2024. The answer is the number
    of stones after a given number of blinks. */
module Day11 {
  import opened Common

  function Pow10(k: nat): (p: nat)
    ensures p >= 1
  {
    if k == 0 then 1 else 10 * Pow10(k - 1)
  }

  lemma {:induction false} Pow10Monotone(a: nat, b: nat)
    requires a <= b
    ensures Pow10(a) <= Pow10(b)
    decreases b
  {
    if a < b {
      Pow10Monotone(a, b - 1);
    }
  }

  /** `str::parse` reads the digits back as `v`, and their count is fixed
      by the power of ten `v` lies below. */
  lemma {:induction false} DecimalMeans(v: nat)
    ensures ParseNat(Decimal(v)) == Some(v)
    ensures v < Pow10(|Decimal(v)|)
    ensures |Decimal(v)| > 1 ==> Pow10(|Decimal(v)| - 1) <= v
  {
    if v >= 10 {
      var h := Decimal(v / 10);
      var s := Decimal(v);
      DecimalMeans(v / 10);
      assert s == h + [DigitChar(v % 10)];
      assert s[..|s| - 1] == h;
      assert v / 10 < Pow10(|h|);
      assert |h| > 1 ==> Pow10(|h| - 1) <= v / 10;
    }
  }

  /** A number's digit count is the `n` with 10^(n-1) <= v < 10^n. */
  lemma LengthFromBounds(v: nat, n: nat)
    requires 1 <= n && v < Pow10(n)
    requires n > 1 ==> Pow10(n - 1) <= v
    ensures |Decimal(v)| == n
  {
    var l := |Decimal(v)|;
    DecimalMeans(v);
    if l < n {
      Pow10Monotone(l, n - 1);
    } else if l > n {
      Pow10Monotone(n, l - 1);
    }
  }

  ghost predicate AllDigits(s: string) {
    forall i :: 0 <= i < |s| ==> IsDigit(s[i])
  }

  /** The number a digit string denotes, read most significant digit first. */
  ghost function Value(s: string): nat
    requires AllDigits(s)
  {
    if s == [] then 0 else 10 * Value(s[..|s| - 1]) + (s[|s| - 1] - '0') as nat
  }

  /** `str::parse` on a non-empty digit string yields its value. */
  lemma {:induction false} ParseValue(s: string)
    requires |s| >= 1 && AllDigits(s)
    ensures ParseNat(s) == Some(Value(s))
    decreases |s|
  {
    if |s| > 1 {
      ParseValue(s[..|s| - 1]);
    }
  }

  /** A digit string denotes less than 10 to the power of its length. */
  lemma {:induction false} ValueBound(s: string)
    requires AllDigits(s)
    ensures Value(s) < Pow10(|s|)
    decreases |s|
  {
    if s != [] {
      var t := s[..|s| - 1];
      ValueBound(t);
      assert Value(t) + 1 <= Pow10(|t|);
      assert 10 * Value(t) + 10 <= 10 * Pow10(|t|);
    }
  }

  /** Cutting a digit string `m` characters from its end splits its value
      into a quotient and a remainder by 10^m. */
  lemma {:induction false} SplitValue(s: string, m: nat)
    requires m <= |s| && AllDigits(s)
    ensures Value(s) == Value(s[..|s| - m]) * Pow10(m) + Value(s[|s| - m..])
    decreases m
  {
    if m == 0 {
      assert s[..|s|] == s;
      assert s[|s|..] == [];
    } else {
      var t := s[..|s| - 1];
      var u := s[|s| - m..];
      var d := (s[|s| - 1] - '0') as nat;
      SplitValue(t, m - 1);
      assert t[..|t| - (m - 1)] == s[..|s| - m];
      assert u[..|u| - 1] == t[|t| - (m - 1)..];
      assert u[|u| - 1] == s[|s| - 1];
      Shift(Value(s[..|s| - m]), Value(t[|t| - (m - 1)..]), d, Pow10(m - 1));
    }
  }

  lemma Shift(a: nat, b: nat, d: nat, p: nat)
    ensures 10 * (a * p + b) + d == a * (10 * p) + (10 * b + d)
  {
    assert 10 * (a * p) == a * (10 * p);
  }

  predicate EvenDigits(v: nat) {
    |Decimal(v)| % 2 == 0
  }

  /** The stone left in place after a split: the first half of the digits. */
  function Front(v: nat): nat
    requires EvenDigits(v)
  {
    var s := Decimal(v);
    assert forall i :: 0 <= i < |s| / 2 ==> IsDigit(s[..|s| / 2][i]);
    ParseNat(s[..|s| / 2]).value
  }

  /** The stone appended after a split: the second half of the digits, read
      as a number, so leading zeros vanish. */
  function Back(v: nat): nat
    requires EvenDigits(v)
  {
    var s := Decimal(v);
    assert forall i :: 0 <= i < |s| - |s| / 2 ==> IsDigit(s[|s| / 2..][i]);
    ParseNat(s[|s| / 2..]).value
  }

  /** A stone with 2k digits is cut into a quotient and a remainder by
      10^k: its halves are v / 10^k and v mod 10^k. */
  lemma {:induction false} Halves(v: nat)
    requires EvenDigits(v)
    ensures Front(v) * Pow10(|Decimal(v)| / 2) + Back(v) == v
    ensures Back(v) < Pow10(|Decimal(v)| / 2)
    ensures Front(v) == v / Pow10(|Decimal(v)| / 2)
    ensures Back(v) == v % Pow10(|Decimal(v)| / 2)
  {
    var k := |Decimal(v)| / 2;
    HalvesSplit(v);
    QuotRem(v, Front(v), Pow10(k), Back(v));
  }

  /** `DivModUnique` with the quotient written first in the product. */
  lemma QuotRem(v: nat, f: nat, p: nat, b: nat)
    requires b < p && v == f * p + b
    ensures f == v / p && b == v % p
  {
    DivModUnique(v, p, f, b);
  }

  /** The two halves of the digits recombine into the stone, and the back
      half has at most `k` digits. */
  lemma {:induction false} HalvesSplit(v: nat)
    requires EvenDigits(v)
    ensures v == Front(v) * Pow10(|Decimal(v)| / 2) + Back(v)
    ensures Back(v) < Pow10(|Decimal(v)| / 2)
  {
    var s := Decimal(v);
    var k := |s| / 2;
    DecimalMeans(v);
    ParseValue(s);
    ParseValue(s[..k]);
    ParseValue(s[k..]);
    Recombine(s, k);
  }

  /** A run of `2k` digits is its first `k` digits shifted up past its
      last `k` digits, which stay below `10^k`. */
  lemma Recombine(s: string, k: nat)
    requires AllDigits(s) && |s| == 2 * k
    ensures Value(s) == Value(s[..k]) * Pow10(k) + Value(s[k..])
    ensures Value(s[k..]) < Pow10(k)
  {
    assert |s| - k == k;
    SplitValue(s, k);
    ValueBound(s[k..]);
  }

  /** The value written back into a stone's own slot during a blink. */
  function Head(v: nat): nat {
    if EvenDigits(v) then Front(v)
    else if v == 0 then 1
    else v * 2024
  }

  /** Zero has one digit and becomes one; any other stone with an odd
      digit count is multiplied by 2024. */
  lemma OddRules(v: nat)
    ensures v == 0 ==> !EvenDigits(v) && Head(v) == 1
    ensures v > 0 && !EvenDigits(v) ==> Head(v) == 2024 * v
  {
    assert Decimal(0) == "0";
  }

  /** The slot values of a blink, position by position: zero becomes one,
      a stone with 2k digits keeps its first k digits, and any other stone
      is multiplied by 2024. */
  function Heads(s: seq<nat>): (r: seq<nat>)
    ensures |r| == |s|
    ensures forall i :: 0 <= i < |s| ==> r[i] == Head(s[i])
    ensures forall i :: 0 <= i < |s| && s[i] == 0 ==> r[i] == 1
    ensures forall i :: 0 <= i < |s| && EvenDigits(s[i]) ==> r[i] == s[i] / Pow10(|Decimal(s[i])| / 2)
    ensures forall i :: 0 <= i < |s| && s[i] > 0 && !EvenDigits(s[i]) ==> r[i] == 2024 * s[i]
  {
    var r := seq(|s|, i requires 0 <= i < |s| => Head(s[i]));
    forall i | 0 <= i < |s|
      ensures s[i] == 0 ==> r[i] == 1
      ensures EvenDigits(s[i]) ==> r[i] == s[i] / Pow10(|Decimal(s[i])| / 2)
      ensures s[i] > 0 && !EvenDigits(s[i]) ==> r[i] == 2024 * s[i]
    {
      OddRules(s[i]);
      if EvenDigits(s[i]) {
        Halves(s[i]);
      }
    }
    r
  }

  /** The stones a blink appends, in the order their sources are visited. */
  function Backs(s: seq<nat>): seq<nat> {
    if s == [] then []
    else (if EvenDigits(s[0]) then [Back(s[0])] else []) + Backs(s[1..])
  }

  function EvenCount(s: seq<nat>): nat {
    if s == [] then 0
    else (if EvenDigits(s[0]) then 1 else 0) + EvenCount(s[1..])
  }

  lemma {:induction false} BacksLength(s: seq<nat>)
    ensures |Backs(s)| == EvenCount(s)
  {
    if s != [] {
      BacksLength(s[1..]);
    }
  }

  /** One blink: every slot is rewritten, then the split-off halves follow. */
  function Blink(s: seq<nat>): seq<nat> {
    Heads(s) + Backs(s)
  }

  lemma {:induction false} BacksSnoc(s: seq<nat>, v: nat)
    ensures Backs(s + [v]) == Backs(s) + (if EvenDigits(v) then [Back(v)] else [])
  {
    if s == [] {
      assert [v][1..] == [];
    } else {
      var w := s[0];
      var b := if EvenDigits(w) then [Back(w)] else [];
      assert (s + [v])[0] == w && (s + [v])[1..] == s[1..] + [v];
      assert Backs(s + [v]) == b + Backs(s[1..] + [v]);
      BacksSnoc(s[1..], v);
      assert Backs(s) == b + Backs(s[1..]);
      Regroup(b, Backs(s[1..]), if EvenDigits(v) then [Back(v)] else []);
    }
  }

  /** The inner loop of `part_one`: the range `0..len` is fixed before the
      loop starts, so the halves appended during a blink are not visited
      until the next one. */
  method BlinkInPlace(stones: seq<nat>) returns (r: seq<nat>)
    ensures r == Blink(stones)
  {
    r := stones;
    var n := |stones|;
    var j := 0;
    while j < n
      invariant 0 <= j <= n
      decreases n - j
      invariant r == Heads(stones[..j]) + stones[j..] + Backs(stones[..j])
    {
      SlotValue(stones, j, r);
      var v := r[j];
      ghost var prev := r;
      if EvenDigits(v) {
        r := r[j := Front(v)] + [Back(v)];
      } else if v == 0 {
        r := r[j := 1];
      } else {
        r := r[j := v * 2024];
      }
      BlinkStep(stones, j, prev, r);
      j := j + 1;
    }
    assert stones[..n] == stones;
  }

  /** Before slot `j` is handled it still holds the original stone. */
  lemma SlotValue(stones: seq<nat>, j: nat, r: seq<nat>)
    requires j < |stones|
    requires r == Heads(stones[..j]) + stones[j..] + Backs(stones[..j])
    ensures j < |r| && r[j] == stones[j]
  {
  }

  /** Handling slot `j` moves the loop's view on by one stone. */
  lemma BlinkStep(stones: seq<nat>, j: nat, r: seq<nat>, r': seq<nat>)
    requires j < |stones|
    requires r == Heads(stones[..j]) + stones[j..] + Backs(stones[..j])
    requires r' == r[j := Head(stones[j])] + (if EvenDigits(stones[j]) then [Back(stones[j])] else [])
    ensures r' == Heads(stones[..j + 1]) + stones[j + 1..] + Backs(stones[..j + 1])
  {
    var v := stones[j];
    var before := Heads(stones[..j]);
    var rest := stones[j + 1..] + Backs(stones[..j]);
    assert stones[j..] == [v] + stones[j + 1..];
    assert r == before + [v] + rest;
    ReplaceAt(before, v, rest, Head(v));
    SlotDone(stones, j);
  }

  /** Writing into slot `|a|` touches nothing else. */
  lemma ReplaceAt<T>(a: seq<T>, v: T, b: seq<T>, w: T)
    ensures (a + [v] + b)[|a| := w] == a + [w] + b
  {
  }

  /** The loop's view after handling slot `j`. */
  lemma SlotDone(stones: seq<nat>, j: nat)
    requires j < |stones|
    ensures Heads(stones[..j + 1]) == Heads(stones[..j]) + [Head(stones[j])]
    ensures Backs(stones[..j + 1]) == Backs(stones[..j]) + (if EvenDigits(stones[j]) then [Back(stones[j])] else [])
  {
    assert stones[..j + 1] == stones[..j] + [stones[j]];
    BacksSnoc(stones[..j], stones[j]);
  }

  /** Each blink adds exactly one stone per even-digit stone, so the count
      never drops. */
  lemma {:induction false} BlinkGrowth(s: seq<nat>)
    ensures |Blink(s)| == |s| + EvenCount(s)
    ensures |Blink(s)| >= |s|
  {
    BacksLength(s);
  }

  /** The reference count: how many stones `v` has become after `n` blinks,
      following the rules stone by stone. */
  function Descendants(v: nat, n: nat): (c: nat)
    ensures c >= 1
    decreases n
  {
    if n == 0 then 1
    else if EvenDigits(v) then Descendants(Front(v), n - 1) + Descendants(Back(v), n - 1)
    else Descendants(Head(v), n - 1)
  }

  function Total(s: seq<nat>, n: nat): nat {
    if s == [] then 0 else Descendants(s[0], n) + Total(s[1..], n)
  }

  /** Counts add up over a concatenation of starting rows. */
  lemma {:induction false} TotalAppend(a: seq<nat>, b: seq<nat>, n: nat)
    ensures Total(a + b, n) == Total(a, n) + Total(b, n)
  {
    if a == [] {
      assert a + b == b;
    } else {
      assert (a + b)[1..] == a[1..] + b;
      TotalAppend(a[1..], b, n);
    }
  }

  /** With no blinks the count is the row's length. */
  lemma {:induction false} TotalNone(s: seq<nat>)
    ensures Total(s, 0) == |s|
  {
    if s != [] {
      TotalNone(s[1..]);
    }
  }

  /** Stone order is irrelevant: rows holding the same stones end with the
      same count. */
  lemma {:induction false} TotalPermutation(a: seq<nat>, b: seq<nat>, n: nat)
    requires multiset(a) == multiset(b)
    ensures Total(a, n) == Total(b, n)
    decreases |a|
  {
    if a != [] {
      var v := a[0];
      assert v in multiset(b);
      var k :| 0 <= k < |b| && b[k] == v;
      var rest := b[..k] + b[k + 1..];
      RemoveOne(a, b, k);
      TotalPermutation(a[1..], rest, n);
      TotalRemove(b, k, n);
    }
  }

  lemma RemoveOne<T>(a: seq<T>, b: seq<T>, k: nat)
    requires multiset(a) == multiset(b) && a != [] && k < |b| && b[k] == a[0]
    ensures multiset(a[1..]) == multiset(b[..k] + b[k + 1..])
  {
    assert b == b[..k] + [b[k]] + b[k + 1..];
    assert a == [a[0]] + a[1..];
    assert multiset(a[1..]) == multiset(a) - multiset{a[0]};
    assert multiset(b[..k] + b[k + 1..]) == multiset(b) - multiset{b[k]};
  }

  lemma {:induction false} TotalRemove(b: seq<nat>, k: nat, n: nat)
    requires k < |b|
    ensures Total(b, n) == Total(b[..k] + b[k + 1..], n) + Descendants(b[k], n)
  {
    assert b == b[..k] + [b[k]] + b[k + 1..];
    TotalAppend(b[..k] + [b[k]], b[k + 1..], n);
    TotalAppend(b[..k], [b[k]], n);
    TotalAppend(b[..k], b[k + 1..], n);
  }

  /** A blink moves the count one step along the reference. */
  lemma {:induction false} BlinkTotal(s: seq<nat>, n: nat)
    ensures Total(Blink(s), n) == Total(s, n + 1)
  {
    TotalAppend(Heads(s), Backs(s), n);
    HeadsBacksTotal(s, n);
  }

  lemma {:induction false} HeadsBacksTotal(s: seq<nat>, n: nat)
    ensures Total(Heads(s), n) + Total(Backs(s), n) == Total(s, n + 1)
  {
    if s != [] {
      var v := s[0];
      assert Heads(s)[1..] == Heads(s[1..]);
      HeadsBacksTotal(s[1..], n);
      var extra := if EvenDigits(v) then [Back(v)] else [];
      TotalAppend(extra, Backs(s[1..]), n);
      assert EvenDigits(v) ==> Total(extra, n) == Descendants(Back(v), n);
    }
  }

  /** One stone never leaves fewer descendants after more blinks. */
  lemma {:induction false} DescendantsMonotone(v: nat, n: nat)
    ensures Descendants(v, n) <= Descendants(v, n + 1)
    decreases n
  {
    if n > 0 {
      if EvenDigits(v) {
        DescendantsMonotone(Front(v), n - 1);
        DescendantsMonotone(Back(v), n - 1);
      } else {
        DescendantsMonotone(Head(v), n - 1);
      }
    }
  }

  /** `part_one`: blink `blinks` times, then count the stones. */
  method PartOne(stones: seq<nat>, blinks: nat) returns (count: nat)
    ensures count == Total(stones, blinks)
  {
    var row := stones;
    var i := 0;
    TotalNone(stones);
    while i < blinks
      invariant 0 <= i <= blinks
      invariant Total(row, blinks - i) == Total(stones, blinks)
    {
      BlinkTotal(row, blinks - i - 1);
      row := BlinkInPlace(row);
      i := i + 1;
    }
    TotalNone(row);
    count := |row|;
  }

  /** The answer for a row is the sum of the answers for its parts. */
  lemma {:induction false} PartsAddUp(a: seq<nat>, b: seq<nat>, n: nat)
    ensures Total(a + b, n) == Total(a, n) + Total(b, n)
    ensures multiset(a + b) == multiset(b + a) && Total(a + b, n) == Total(b + a, n)
  {
    TotalAppend(a, b, n);
    TotalAppend(b, a, n);
  }

  /** The digit count and, for an even count, the halves of a given stone. */
  lemma Known(v: nat, n: nat)
    requires 1 <= n && v < Pow10(n)
    requires n > 1 ==> Pow10(n - 1) <= v
    ensures |Decimal(v)| == n
    ensures n % 2 == 0 ==> Front(v) == v / Pow10(n / 2) && Back(v) == v % Pow10(n / 2)
  {
    LengthFromBounds(v, n);
    if n % 2 == 0 {
      Halves(v);
    }
  }

  const Row0: seq<nat> := [125, 17]
  const Row1: seq<nat> := [253000, 1, 7]

  /** 125 has three digits and is multiplied; 17 splits into 1 and 7. */
  lemma Blink1()
    ensures Blink(Row0) == Row1
  {
    Known(125, 3);
    Known(17, 2);
  }

  /** "125 17" holds three stones after one blink. */
  lemma Example()
    ensures Total(Row0, 1) == 3
  {
    Blink1();
    BlinkTotal(Row0, 0);
    TotalNone(Row1);
  }
}

/** Definitions shared by the daily solvers: optional values, absolute
    differences, grid coordinates and the two text helpers (splitting on a
    separator and trimming whitespace) that several days use. */
module Common {

  datatype Option<+T> = None | Some(value: T)

  /** A grid coordinate; `x` is the column and `y` the row. */
  datatype Point = Point(x: int, y: int)

  function Abs(v: int): (r: nat)
    ensures r == v || r == -v
  {
    if v < 0 then -v else v
  }

  /** `abs_diff` of two numbers. */
  function AbsDiff(a: int, b: int): (r: nat)
    ensures r == 0 <==> a == b
  {
    if a <= b then b - a else a - b
  }

  function Manhattan(p: Point, q: Point): nat {
    Abs(p.x - q.x) + Abs(p.y - q.y)
  }

  /** Every row has the same length as the first one. */
  ghost predicate Rectangular<T>(grid: seq<seq<T>>) {
    forall y :: 0 <= y < |grid| ==> |grid[y]| == |grid[0]|
  }

  predicate InGrid<T>(grid: seq<seq<T>>, p: Point) {
    0 <= p.y < |grid| && 0 <= p.x < |grid[p.y]|
  }

  function At<T>(grid: seq<seq<T>>, p: Point): T
    requires InGrid(grid, p)
  {
    grid[p.y][p.x]
  }

  function Set<T>(grid: seq<seq<T>>, p: Point, v: T): (r: seq<seq<T>>)
    requires InGrid(grid, p)
    ensures |r| == |grid|
    ensures forall y :: 0 <= y < |r| ==> |r[y]| == |grid[y]|
    ensures At(r, p) == v
    ensures forall q :: InGrid(grid, q) && q != p ==> At(r, q) == At(grid, q)
  {
    grid[p.y := grid[p.y][p.x := v]]
  }

  /** The four orthogonal neighbours of a point, in no particular order. */
  predicate Adjacent(p: Point, q: Point) {
    Manhattan(p, q) == 1
  }

  /** Concatenation regrouped; a lemma of its own so that proofs about
      heavily specified sequences need not search for it. */
  lemma Regroup<T>(x: seq<T>, y: seq<T>, z: seq<T>)
    ensures x + (y + z) == (x + y) + z
  {
  }

  /** Euclidean division is unique: a split `a == m * q + r` with
      `0 <= r < m` is the quotient and the remainder. */
  lemma DivModUnique(a: int, m: int, q: int, r: int)
    requires m > 0 && 0 <= r < m && a == m * q + r
    ensures a / m == q && a % m == r
  {
    var q', r' := a / m, a % m;
    assert m * q' + r' == m * q + r;
    if q' < q {
      assert m * (q - q') == r' - r;
      MulAtLeast(m, q - q');
    } else if q' > q {
      assert m * (q' - q) == r - r';
      MulAtLeast(m, q' - q);
    }
  }

  /** A positive multiple of a natural number is at least that number. */
  lemma MulAtLeast(m: int, k: int)
    requires m >= 0 && k >= 1
    ensures m * k >= m
  {
    assert m * k == m * (k - 1) + m;
  }

  /** A subset is no larger than the set that holds it. */
  lemma SubsetCard<T>(a: set<T>, b: set<T>)
    requires a <= b
    ensures |a| <= |b|
  {
    assert b == a + (b - a);
  }

  /** The four neighbours spelled out. */
  lemma AdjacentMeans(p: Point, q: Point)
    ensures Adjacent(p, q) <==>
      q == Point(p.x - 1, p.y) || q == Point(p.x + 1, p.y) || q == Point(p.x, p.y - 1) || q == Point(p.x, p.y + 1)
  {
  }

  /** The neighbour in direction `i` of the usual
      direction table: right, down, left, up. */
  function Neighbour(p: Point, i: nat): (q: Point)
    requires i < 4
    ensures Adjacent(p, q)
  {
    var d := [(1, 0), (0, 1), (-1, 0), (0, -1)][i];
    Point(p.x + d.0, p.y + d.1)
  }

  /** The four directions reach every orthogonal neighbour. */
  lemma NeighbourCovers(p: Point, q: Point)
    requires Adjacent(p, q)
    ensures exists i :: 0 <= i < 4 && q == Neighbour(p, i)
  {
    AdjacentMeans(p, q);
    if q == Point(p.x + 1, p.y) {
      assert q == Neighbour(p, 0);
    } else if q == Point(p.x, p.y + 1) {
      assert q == Neighbour(p, 1);
    } else if q == Point(p.x - 1, p.y) {
      assert q == Neighbour(p, 2);
    } else {
      assert q == Neighbour(p, 3);
    }
  }

  function Last<T>(s: seq<T>): T
    requires s != []
  {
    s[|s| - 1]
  }

  function Sum(s: seq<int>): int {
    if s == [] then 0 else s[0] + Sum(s[1..])
  }

  lemma {:induction false} SumAppend(a: seq<int>, b: seq<int>)
    ensures Sum(a + b) == Sum(a) + Sum(b)
  {
    if a == [] {
      assert a + b == b;
    } else {
      assert (a + b)[1..] == a[1..] + b;
      SumAppend(a[1..], b);
    }
  }

  // ---------------------------------------------------------------------
  // Text helpers

  /** The characters `str::trim` removes at either end (ASCII whitespace). */
  predicate IsSpace(c: char) {
    c == ' ' || c == '\t' || c == '\n' || c == '\r' || c == '\U{B}' || c == '\U{C}'
  }

  /** Where the text after the leading whitespace begins, scanning from `i`. */
  function Lead(s: string, i: nat): (k: nat)
    requires i <= |s|
    ensures i <= k <= |s|
    ensures forall j :: i <= j < k ==> IsSpace(s[j])
    ensures k < |s| ==> !IsSpace(s[k])
    decreases |s| - i
  {
    if i < |s| && IsSpace(s[i]) then Lead(s, i + 1) else i
  }

  /** Where the trailing whitespace begins, scanning down from `hi` to no
      lower than `lo`. */
  function Trail(s: string, lo: nat, hi: nat): (k: nat)
    requires lo <= hi <= |s|
    ensures lo <= k <= hi
    ensures forall j :: k <= j < hi ==> IsSpace(s[j])
    ensures k > lo ==> !IsSpace(s[k - 1])
    decreases hi
  {
    if hi > lo && IsSpace(s[hi - 1]) then Trail(s, lo, hi - 1) else hi
  }

  /** `str::trim`: drop leading and trailing whitespace. The result is a
      slice of the input with only whitespace outside it, and neither of
      its ends is whitespace. */
  function Trim(s: string): (r: string)
    ensures r == [] || (!IsSpace(r[0]) && !IsSpace(r[|r| - 1]))
    ensures exists a, b ::
      && 0 <= a <= b <= |s| && r == s[a..b]
      && (forall i :: 0 <= i < a ==> IsSpace(s[i]))
      && (forall i :: b <= i < |s| ==> IsSpace(s[i]))
    ensures (forall i :: 0 <= i < |s| ==> !IsSpace(s[i])) ==> r == s
  {
    var a := Lead(s, 0);
    var b := Trail(s, a, |s|);
    assert (forall i :: 0 <= i < |s| ==> !IsSpace(s[i])) ==> a == 0 && b == |s|;
    s[a..b]
  }

  /** The leading whitespace ends at the first non-space from `i` on. */
  lemma {:induction false} LeadAt(s: string, i: nat, k: nat)
    requires i <= k <= |s|
    requires forall j :: i <= j < k ==> IsSpace(s[j])
    requires k == |s| || !IsSpace(s[k])
    ensures Lead(s, i) == k
    decreases k - i
  {
    if i < k {
      LeadAt(s, i + 1, k);
    }
  }

  /** The trailing whitespace begins after the last non-space below `hi`. */
  lemma {:induction false} TrailAt(s: string, lo: nat, hi: nat, k: nat)
    requires lo <= k <= hi <= |s|
    requires forall j :: k <= j < hi ==> IsSpace(s[j])
    requires k == lo || !IsSpace(s[k - 1])
    ensures Trail(s, lo, hi) == k
    decreases hi - k
  {
    if k < hi {
      TrailAt(s, lo, hi - 1, k);
    }
  }

  /** Trimming takes off exactly the whitespace put around a text whose
      ends are not whitespace. */
  lemma TrimPadded(pre: string, s: string, post: string)
    requires forall i :: 0 <= i < |pre| ==> IsSpace(pre[i])
    requires forall i :: 0 <= i < |post| ==> IsSpace(post[i])
    requires s == [] || (!IsSpace(s[0]) && !IsSpace(s[|s| - 1]))
    ensures Trim(pre + s + post) == s
  {
    var x := pre + s + post;
    var a := |pre|;
    var b := |pre| + |s|;
    if s == [] {
      assert forall j :: 0 <= j < |x| ==> IsSpace(x[j]) by {
        assert forall j :: |pre| <= j < |x| ==> x[j] == post[j - |pre|];
      }
      LeadAt(x, 0, |x|);
      TrailAt(x, |x|, |x|, |x|);
      assert x[|x|..|x|] == s;
    } else {
      assert x[a] == s[0] && x[b - 1] == s[|s| - 1];
      assert forall j :: b <= j < |x| ==> x[j] == post[j - b];
      LeadAt(x, 0, a);
      TrailAt(x, a, |x|, b);
      assert x[a..b] == s;
    }
  }

  /** Trimming twice is trimming once. */
  lemma TrimIdempotent(s: string)
    ensures Trim(Trim(s)) == Trim(s)
  {
    var r := Trim(s);
    assert [] + r + [] == r;
    TrimPadded([], r, []);
  }

  /** `str::split(sep)` for a one-character separator: the pieces between
      separators, so there is always at least one piece. */
  function Split(s: string, sep: char): (r: seq<string>)
    ensures |r| >= 1
    ensures forall i :: 0 <= i < |r| ==> sep !in r[i]
    decreases |s|
  {
    if sep !in s then [s]
    else
      var k := IndexOf(s, sep);
      [s[..k]] + Split(s[k + 1..], sep)
  }

  /** The entries of `s` other than `x`, in their order: `replace` with an
      empty replacement on text, `filter(|e| e != x)` on a list. Each other
      entry keeps its number of occurrences. */
  function Without<T(==,!new)>(s: seq<T>, x: T): (r: seq<T>)
    ensures |r| <= |s|
    ensures multiset(r) == multiset(s)[x := 0]
    ensures forall e :: e in r <==> e in s && e != x
    decreases |s|
  {
    if s == [] then []
    else
      var rest := Without(s[1..], x);
      assert s == [s[0]] + s[1..];
      assert multiset(s) == multiset{s[0]} + multiset(s[1..]);
      (if s[0] == x then [] else [s[0]]) + rest
  }

  /** Filtering works piece by piece, so the order of what is kept is the
      order of the input. */
  lemma {:induction false} WithoutAppend<T(!new)>(a: seq<T>, b: seq<T>, x: T)
    ensures Without(a + b, x) == Without(a, x) + Without(b, x)
    decreases |a|
  {
    if a == [] {
      assert a + b == b;
    } else {
      assert (a + b)[1..] == a[1..] + b;
      WithoutAppend(a[1..], b, x);
    }
  }

  /** Nothing to drop, nothing changes. */
  lemma {:induction false} WithoutAbsent<T(!new)>(s: seq<T>, x: T)
    requires x !in s
    ensures Without(s, x) == s
    decreases |s|
  {
    if s != [] {
      WithoutAbsent(s[1..], x);
      assert s == [s[0]] + s[1..];
    }
  }

  /** `.filter(|x| x.len() > 0)` on lines: the non-empty pieces, in order. */
  function NonEmpty(pieces: seq<string>): (r: seq<string>)
    ensures forall i :: 0 <= i < |r| ==> r[i] != [] && r[i] in pieces
    ensures forall s :: s in pieces && s != [] ==> s in r
    ensures multiset(r) == multiset(pieces)[[] := 0]
  {
    var r := Without(pieces, []);
    assert forall i :: 0 <= i < |r| ==> r[i] in r;
    r
  }

  /** One step of the filter. */
  lemma NonEmptyCons(pieces: seq<string>)
    ensures pieces != [] ==> NonEmpty(pieces) == (if pieces[0] != [] then [pieces[0]] else []) + NonEmpty(pieces[1..])
  {
  }

  /** Non-empty rows written one per line, each closed by a line feed, are
      read back in order by splitting at line feeds and dropping the empty
      pieces. */
  lemma NonEmptyLines(rows: seq<string>)
    requires forall i :: 0 <= i < |rows| ==> rows[i] != [] && '\n' !in rows[i]
    ensures NonEmpty(Split(Join(rows + [[]], '\n'), '\n')) == rows
  {
    var parts := rows + [[]];
    SplitJoin(parts, '\n');
    WithoutAppend(rows, [[]], []);
    WithoutAbsent(rows, []);
    var blank: seq<string> := [[]];
    assert Without(blank, []) == [];
  }

  /** `str::lines`: the pieces between line feeds, without the empty piece
      that a final line feed leaves behind. */
  function Lines(s: string): (r: seq<string>)
    ensures forall i :: 0 <= i < |r| ==> '\n' !in r[i]
  {
    var pieces := Split(s, '\n');
    if Last(pieces) == [] then pieces[..|pieces| - 1] else pieces
  }

  /** Lines each closed by a line feed are read back unchanged. */
  lemma {:induction false} LinesJoin(lines: seq<string>)
    requires forall i :: 0 <= i < |lines| ==> '\n' !in lines[i]
    ensures Lines(Join(lines + [[]], '\n')) == lines
  {
    SplitJoin(lines + [[]], '\n');
    assert (lines + [[]])[..|lines|] == lines;
  }

  /** The inverse of `Split`: glue the pieces back together. */
  function Join(parts: seq<string>, sep: char): string
    requires |parts| >= 1
  {
    if |parts| == 1 then parts[0] else parts[0] + [sep] + Join(parts[1..], sep)
  }

  function IndexOf(s: string, c: char): (k: nat)
    requires c in s
    ensures k < |s| && s[k] == c && c !in s[..k]
  {
    if s[0] == c then 0 else 1 + IndexOf(s[1..], c)
  }

  /** Splitting loses nothing: joining the pieces gives back the text. */
  lemma {:induction false} JoinSplit(s: string, sep: char)
    ensures Join(Split(s, sep), sep) == s
    decreases |s|
  {
    if sep in s {
      var k := IndexOf(s, sep);
      var rest := Split(s[k + 1..], sep);
      JoinSplit(s[k + 1..], sep);
      var parts := Split(s, sep);
      assert parts == [s[..k]] + rest;
      assert parts[1..] == rest;
      assert Join(parts, sep) == s[..k] + [sep] + Join(rest, sep);
      assert s == s[..k] + [sep] + s[k + 1..];
    }
  }

  /** Splitting stops at the first separator. */
  lemma SplitFirst(a: string, b: string, sep: char)
    requires sep !in a
    ensures Split(a + [sep] + b, sep) == [a] + Split(b, sep)
  {
    var s := a + [sep] + b;
    assert s[|a|] == sep;
    assert s[..|a|] == a;
    assert IndexOf(s, sep) == |a|;
    assert s[|a| + 1..] == b;
  }

  /** Pieces that contain no separator are recovered by splitting their join. */
  lemma {:induction false} SplitJoin(parts: seq<string>, sep: char)
    requires |parts| >= 1
    requires forall i :: 0 <= i < |parts| ==> sep !in parts[i]
    ensures Split(Join(parts, sep), sep) == parts
  {
    if |parts| > 1 {
      var rest := Join(parts[1..], sep);
      assert Join(parts, sep) == parts[0] + [sep] + rest;
      SplitFirst(parts[0], rest, sep);
      SplitJoin(parts[1..], sep);
      assert parts == [parts[0]] + parts[1..];
    } else {
      assert Join(parts, sep) == parts[0];
    }
  }

  // ---------------------------------------------------------------------
  // Decimal numbers

  predicate IsDigit(c: char) {
    '0' <= c <= '9'
  }

  /** `str::parse::<u64>` on plain decimal digits; `None` for any other text. */
  function ParseNat(s: string): (r: Option<nat>)
    ensures r.Some? <==> (|s| > 0 && forall i :: 0 <= i < |s| ==> IsDigit(s[i]))
  {
    if s == [] then None
    else if !IsDigit(s[|s| - 1]) then None
    else if |s| == 1 then Some((s[0] - '0') as nat)
    else
      match ParseNat(s[..|s| - 1])
      case None => None
      case Some(v) => Some(10 * v + (s[|s| - 1] - '0') as nat)
  }

  /** The digit character of a value below ten. */
  function DigitChar(d: nat): (c: char)
    requires d < 10
    ensures IsDigit(c) && (c - '0') as nat == d
  {
    (48 + d) as char
  }

  /** `u32::to_string`: the decimal digits of `n`, without leading zeros. */
  function Decimal(n: nat): (s: string)
    ensures |s| >= 1 && forall i :: 0 <= i < |s| ==> IsDigit(s[i])
  {
    if n < 10 then [DigitChar(n)] else Decimal(n / 10) + [DigitChar(n % 10)]
  }

  /** Parsing the decimal rendering of a number gives the number back. */
  lemma {:induction false} ParseDecimal(n: nat)
    ensures ParseNat(Decimal(n)) == Some(n)
  {
    if n >= 10 {
      ParseDecimal(n / 10);
      var s := Decimal(n);
      assert s[..|s| - 1] == Decimal(n / 10);
    }
  }

  /** One more than `u64::MAX`. */
  const WordLimit: nat := 0x1_0000_0000_0000_0000

  /** `str::parse::<u64>`: decimal digits whose value fits in 64 bits. */
  function ParseWord(s: string): (r: Option<nat>)
    ensures r.Some? <==> ParseNat(s).Some? && ParseNat(s).value < WordLimit
    ensures r.Some? ==> r == ParseNat(s)
  {
    match ParseNat(s)
    case None => None
    case Some(v) => if v < WordLimit then Some(v) else None
  }

  /** Every `u64` reads back from its decimal rendering. */
  lemma {:induction false} ParseWordDecimal(n: nat)
    requires n < WordLimit
    ensures ParseWord(Decimal(n)) == Some(n)
  {
    ParseDecimal(n);
  }

  // ---------------------------------------------------------------------
  // Division, powers of two and bitwise exclusive or

  /** Whole-number division brackets its dividend. */
  lemma DivBounds(t: nat, d: nat)
    requires d > 0
    ensures 0 <= t / d
    ensures (t / d) * d <= t < (t / d + 1) * d
  {
  }

  function Pow2(k: nat): (p: nat)
    ensures p >= 1
  {
    if k == 0 then 1 else 2 * Pow2(k - 1)
  }

  lemma {:induction false} Pow2Add(a: nat, b: nat)
    ensures Pow2(a + b) == Pow2(a) * Pow2(b)
  {
    if a > 0 {
      Pow2Add(a - 1, b);
    }
  }

  /** The `^` operator on unsigned numbers, one binary digit at a time. */
  function Xor(x: nat, y: nat): nat
    decreases x + y
  {
    if x == 0 && y == 0 then 0
    else 2 * Xor(x / 2, y / 2) + (if x % 2 == y % 2 then 0 else 1)
  }

  /** The lowest binary digit of `x ^ y` and the rest of it. */
  lemma {:induction false} XorDigits(x: nat, y: nat)
    ensures Xor(x, y) % 2 == (if x % 2 == y % 2 then 0 else 1)
    ensures Xor(x, y) / 2 == Xor(x / 2, y / 2)
  {
    var bit := if x % 2 == y % 2 then 0 else 1;
    if x == 0 && y == 0 {
      assert Xor(x / 2, y / 2) == 0;
    } else {
      var q := Xor(x / 2, y / 2);
      assert Xor(x, y) == 2 * q + bit;
      HalveTwice(q, bit);
    }
  }

  lemma HalveTwice(q: nat, bit: nat)
    requires bit < 2
    ensures (2 * q + bit) % 2 == bit && (2 * q + bit) / 2 == q
  {
  }

  lemma {:induction false} XorZero(x: nat)
    ensures Xor(x, 0) == x
    decreases x
  {
    if x > 0 {
      XorZero(x / 2);
    }
  }

  /** Exclusive or with the same value twice is the identity. */
  lemma {:induction false} XorSelfInverse(x: nat, y: nat)
    ensures Xor(Xor(x, y), y) == x
    decreases x + y
  {
    var z := Xor(x, y);
    XorDigits(x, y);
    if x == 0 && y == 0 {
    } else if z == 0 && y == 0 {
      XorZero(x);
    } else {
      XorSelfInverse(x / 2, y / 2);
      XorDigits(z, y);
    }
  }

  /** Exclusive or of two `k`-bit numbers is a `k`-bit number. */
  lemma {:induction false} XorBound(x: nat, y: nat, k: nat)
    requires x < Pow2(k) && y < Pow2(k)
    ensures Xor(x, y) < Pow2(k)
  {
    if k == 0 {
    } else {
      XorBound(x / 2, y / 2, k - 1);
      XorDigits(x, y);
    }
  }
}

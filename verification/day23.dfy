/** Day 23: a LAN party. Each input line `a-b` connects two computers; part
    one counts the sets of three mutually connected computers of which at
    least one has a name starting with 't'. A triangle is recorded under a
    key, its three names sorted and joined by commas, so that every
    discovery of the same triangle lands on the same key. */
module Day23 {
  import opened Common

  /** `HashMap<&str, HashSet<&str>>`: each computer's connections. */
  type Network = map<string, set<string>>

  // ---------------------------------------------------------------------
  // Input

  function Neighbours(net: Network, name: string): set<string> {
    if name in net then net[name] else {}
  }

  /** `map.entry(left).or_insert(..).insert(right)` and then the same for
      `right`. */
  function Connect(net: Network, left: string, right: string): (r: Network)
    ensures r.Keys == net.Keys + {left, right}
    ensures forall a :: Neighbours(r, a) == Neighbours(net, a) + (if a == left then {right} else {}) + (if a == right then {left} else {})
  {
    var once := net[left := Neighbours(net, left) + {right}];
    once[right := Neighbours(once, right) + {left}]
  }

  /** One line: the first two pieces around '-' are connected. A line
      without '-' changes nothing, and pieces after the second are
      ignored. */
  function AddLine(net: Network, line: string): Network {
    var parts := Split(line, '-');
    if |parts| >= 2 then Connect(net, parts[0], parts[1]) else net
  }

  /** The connections of `lines`, read in order. */
  function Build(lines: seq<string>): Network
    decreases |lines|
  {
    if lines == [] then map[] else AddLine(Build(lines[..|lines| - 1]), Last(lines))
  }

  /** `parse_input`. */
  function ParseInput(file: string): Network {
    Build(NonEmpty(Lines(file)))
  }

  /** Line `i` names `a` and `b` as its first two pieces, in either order. */
  ghost predicate Names(lines: seq<string>, i: int, a: string, b: string)
    requires 0 <= i < |lines|
  {
    var parts := Split(lines[i], '-');
    |parts| >= 2 && ((parts[0] == a && parts[1] == b) || (parts[0] == b && parts[1] == a))
  }

  /** Some line connects `a` and `b`. */
  ghost predicate Linked(lines: seq<string>, a: string, b: string) {
    exists i :: 0 <= i < |lines| && Names(lines, i, a, b)
  }

  /** The network holds exactly the connections the lines name, and a
      computer is in it exactly when it has a connection. */
  lemma {:induction false} BuildMeans(lines: seq<string>)
    ensures forall a, b :: b in Neighbours(Build(lines), a) <==> Linked(lines, a, b)
    ensures forall a :: a in Build(lines) ==> Build(lines)[a] != {}
    decreases |lines|
  {
    if lines != [] {
      var prefix := lines[..|lines| - 1];
      BuildMeans(prefix);
      forall a, b
        ensures b in Neighbours(Build(lines), a) <==> Linked(lines, a, b)
      {
        if Linked(lines, a, b) {
          var i :| 0 <= i < |lines| && Names(lines, i, a, b);
          if i < |lines| - 1 {
            assert Names(prefix, i, a, b);
          }
        }
        if Linked(prefix, a, b) {
          var i :| 0 <= i < |prefix| && Names(prefix, i, a, b);
          assert Names(lines, i, a, b);
        }
        assert Linked(lines, a, b) <==> Linked(prefix, a, b) || Names(lines, |lines| - 1, a, b);
      }
    }
  }

  /** The network is symmetric, so `connection_map.get(destination)` never
      fails. */
  lemma {:induction false} BuildSymmetric(lines: seq<string>)
    ensures forall a, b :: b in Neighbours(Build(lines), a) ==> a in Neighbours(Build(lines), b)
    ensures forall a, b :: a in Build(lines) && b in Build(lines)[a] ==> b in Build(lines)
  {
    BuildMeans(lines);
    forall a, b | b in Neighbours(Build(lines), a)
      ensures a in Neighbours(Build(lines), b)
    {
      var i :| 0 <= i < |lines| && Names(lines, i, a, b);
      assert Names(lines, i, b, a);
    }
    forall a, b | a in Build(lines) && b in Build(lines)[a]
      ensures b in Build(lines)
    {
      assert b in Neighbours(Build(lines), a);
      var i :| 0 <= i < |lines| && Names(lines, i, a, b);
      assert Names(lines, i, b, a);
      assert a in Neighbours(Build(lines), b);
    }
  }

  // ---------------------------------------------------------------------
  // Ordering names

  /** `&str` ordering: code points compared left to right, a proper prefix
      first. UTF-8 keeps code-point order, so this is the byte order too. */
  predicate Less(a: string, b: string)
    decreases |a|
  {
    if a == [] then b != []
    else if b == [] then false
    else if a[0] != b[0] then a[0] < b[0]
    else Less(a[1..], b[1..])
  }

  lemma {:induction false} LessIrreflexive(a: string)
    ensures !Less(a, a)
    decreases |a|
  {
    if a != [] {
      LessIrreflexive(a[1..]);
    }
  }

  lemma {:induction false} LessAsymmetric(a: string, b: string)
    requires Less(a, b)
    ensures !Less(b, a)
    decreases |a|
  {
    if a != [] && a[0] == b[0] {
      LessAsymmetric(a[1..], b[1..]);
    }
  }

  lemma {:induction false} LessTransitive(a: string, b: string, c: string)
    requires Less(a, b) && Less(b, c)
    ensures Less(a, c)
    decreases |a|
  {
    if a != [] && a[0] == b[0] && b[0] == c[0] {
      LessTransitive(a[1..], b[1..], c[1..]);
    }
  }

  lemma {:induction false} LessTotal(a: string, b: string)
    requires a != b
    ensures Less(a, b) || Less(b, a)
    decreases |a|
  {
    if a != [] && b != [] && a[0] == b[0] {
      assert a == [a[0]] + a[1..] && b == [b[0]] + b[1..];
      LessTotal(a[1..], b[1..]);
    }
  }

  /** `v.sort()` on three names. */
  function Sort3(a: string, b: string, c: string): seq<string> {
    var (x, y) := if Less(b, a) then (b, a) else (a, b);
    if !Less(c, y) then [x, y, c]
    else if Less(c, x) then [c, x, y]
    else [x, c, y]
  }

  /** Three distinct names come out strictly increasing, the same three. */
  lemma Sort3Sorted(a: string, b: string, c: string)
    requires a != b && b != c && a != c
    ensures var r := Sort3(a, b, c);
      |r| == 3 && Less(r[0], r[1]) && Less(r[1], r[2]) && {r[0], r[1], r[2]} == {a, b, c}
  {
    LessTotal(a, b);
    LessTotal(b, c);
    LessTotal(a, c);
    var (x, y) := if Less(b, a) then (b, a) else (a, b);
    assert Less(x, y);
    if Less(c, y) && !Less(c, x) {
      assert Less(x, c);
    }
  }

  /** Every order in which the search meets a triangle sorts back to it. */
  lemma {:induction false} Sort3Orders(a: string, b: string, c: string)
    requires Less(a, b) && Less(b, c)
    ensures Sort3(c, b, a) == [a, b, c]
    ensures Sort3(c, a, b) == [a, b, c]
    ensures Sort3(b, a, c) == [a, b, c]
  {
    LessTransitive(a, b, c);
    LessAsymmetric(a, b);
    LessAsymmetric(b, c);
    LessAsymmetric(a, c);
  }

  // ---------------------------------------------------------------------
  // Part one

  predicate StartsWithT(name: string) {
    name != [] && name[0] == 't'
  }

  /** `v.iter().join(",")` after `v.sort()`. */
  function Key(a: string, b: string, c: string): string {
    Join(Sort3(a, b, c), ',')
  }

  /** The set `combinations` once the loops finish: a key for every source
      starting with 't', every destination of it, and every computer
      connected to both. */
  function Combinations(net: Network): set<string> {
    set s, d, m | s in net && d in net[s] && d in net && m in net[d] && m in net[s] && StartsWithT(s) :: Key(m, d, s)
  }

  /** `part_one`: the number of keys; `None` when some computer has the
      empty name, whose first character `unwrap` cannot take. */
  function PartOne(file: string): Option<nat> {
    var net := ParseInput(file);
    if [] in net then None else Some(|Combinations(net)|)
  }

  /** The triangles with a member starting with 't', each written once as
      its names in increasing order. */
  ghost function Triangles(net: Network): set<seq<string>> {
    set a, b, c | a in net && b in net[a] && c in net[a] && Triangle(net, a, b, c) :: [a, b, c]
  }

  /** `a < b < c`, the last two connected (the first is connected to both
      by the bounds above), and a member starting with 't'. */
  ghost predicate Triangle(net: Network, a: string, b: string, c: string) {
    && c in Neighbours(net, b) && Less(a, b) && Less(b, c)
    && (StartsWithT(a) || StartsWithT(b) || StartsWithT(c))
  }

  ghost predicate Symmetric(net: Network) {
    forall a, b :: b in Neighbours(net, a) ==> a in Neighbours(net, b)
  }

  ghost predicate NoSelfLoops(net: Network) {
    forall a :: a in net ==> a !in net[a]
  }

  ghost predicate NoCommas(net: Network) {
    forall a :: a in net ==> ',' !in a
  }

  /** Each triangle written as its key. */
  function Joined(ts: set<seq<string>>): set<string> {
    set t | t in ts && |t| >= 1 :: Join(t, ',')
  }

  /** Every key is the joined form of a triangle, and every triangle is
      found under its key. */
  lemma CombinationsAreTriangles(net: Network)
    requires Symmetric(net) && NoSelfLoops(net)
    ensures Combinations(net) == Joined(Triangles(net))
  {
    forall k | k in Combinations(net)
      ensures k in Joined(Triangles(net))
    {
      var s, d, m :| s in net && d in net[s] && d in net && m in net[d] && m in net[s] && StartsWithT(s) && k == Key(m, d, s);
      FoundIsTriangle(net, s, d, m);
    }
    forall k | k in Joined(Triangles(net))
      ensures k in Combinations(net)
    {
      var t :| t in Triangles(net) && |t| >= 1 && k == Join(t, ',');
      TriangleIsFound(net, t);
    }
  }

  /** A triple the loops meet, sorted, is a triangle. */
  lemma FoundIsTriangle(net: Network, s: string, d: string, m: string)
    requires Symmetric(net) && NoSelfLoops(net)
    requires s in net && d in net[s] && d in net && m in net[d] && m in net[s] && StartsWithT(s)
    ensures Sort3(m, d, s) in Triangles(net)
    ensures Key(m, d, s) in Joined(Triangles(net))
  {
    assert m != d && d != s && m != s;
    Sort3Sorted(m, d, s);
    var r := Sort3(m, d, s);
    Pairwise(net, s, d, m, r[0], r[1]);
    Pairwise(net, s, d, m, r[0], r[2]);
    Pairwise(net, s, d, m, r[1], r[2]);
    assert StartsWithT(r[0]) || StartsWithT(r[1]) || StartsWithT(r[2]);
    assert r == [r[0], r[1], r[2]];
  }

  /** The loops meet every triangle, starting from a member with 't'. */
  lemma {:induction false} TriangleIsFound(net: Network, t: seq<string>)
    requires Symmetric(net)
    requires t in Triangles(net)
    ensures |t| >= 1 && Join(t, ',') in Combinations(net)
  {
    var a, b, c :| a in net && b in net[a] && c in net[a] && Triangle(net, a, b, c) && t == [a, b, c];
    TriangleIsFoundFrom(net, a, b, c);
  }

  lemma TriangleIsFoundFrom(net: Network, a: string, b: string, c: string)
    requires Symmetric(net)
    requires a in net && b in net[a] && c in net[a] && Triangle(net, a, b, c)
    ensures Join([a, b, c], ',') in Combinations(net)
  {
    var t := [a, b, c];
    Sort3Orders(a, b, c);
    assert b in Neighbours(net, a) && c in Neighbours(net, a) && c in Neighbours(net, b);
    assert a in Neighbours(net, b) && a in Neighbours(net, c) && b in Neighbours(net, c);
    if StartsWithT(a) {
      assert Join(t, ',') == Key(c, b, a);
    } else if StartsWithT(b) {
      assert Join(t, ',') == Key(c, a, b);
    } else {
      assert Join(t, ',') == Key(b, a, c);
    }
  }

  /** Any two different members of a found triple are connected. */
  lemma Pairwise(net: Network, s: string, d: string, m: string, x: string, y: string)
    requires Symmetric(net)
    requires s in net && d in net[s] && d in net && m in net[d] && m in net[s]
    requires x in {s, d, m} && y in {s, d, m} && x != y
    ensures x in net && y in net[x]
  {
    assert d in Neighbours(net, s) && m in Neighbours(net, d) && m in Neighbours(net, s);
    assert s in Neighbours(net, d) && d in Neighbours(net, m) && s in Neighbours(net, m);
  }

  /** Names without commas, at least one of them. */
  ghost predicate CommaFree(t: seq<string>) {
    |t| >= 1 && forall i :: 0 <= i < |t| ==> ',' !in t[i]
  }

  /** Splitting undoes joining, so different name lists have different
      keys. */
  lemma {:induction false} JoinInjective(x: seq<string>, y: seq<string>)
    requires CommaFree(x) && CommaFree(y) && Join(x, ',') == Join(y, ',')
    ensures x == y
  {
    SplitJoin(x, ',');
    SplitJoin(y, ',');
  }

  /** Joining distinct comma-free triples gives distinct keys. */
  lemma {:induction false} JoinedCount(ts: set<seq<string>>)
    requires forall t :: t in ts ==> CommaFree(t)
    ensures |Joined(ts)| == |ts|
    decreases |ts|
  {
    if ts != {} {
      var x :| x in ts;
      var rest := ts - {x};
      JoinedCount(rest);
      var key := Join(x, ',');
      forall k | k in Joined(ts)
        ensures k in Joined(rest) + {key}
      {
        var t :| t in ts && |t| >= 1 && k == Join(t, ',');
        if t != x {
          assert t in rest;
        }
      }
      assert Joined(ts) == Joined(rest) + {key};
      if key in Joined(rest) {
        var y :| y in rest && |y| >= 1 && Join(y, ',') == key;
        JoinInjective(x, y);
        assert false;
      }
    }
  }

  /** Part one counts the sets of three mutually connected computers with
      a member starting with 't', each once however often and in whatever
      order the loops meet it, provided no line connects a computer to
      itself and no name holds a comma. */
  lemma PartOneCounts(file: string)
    requires NoSelfLoops(ParseInput(file)) && NoCommas(ParseInput(file))
    ensures [] !in ParseInput(file) ==> PartOne(file) == Some(|Triangles(ParseInput(file))|)
    ensures [] in ParseInput(file) ==> PartOne(file) == None
  {
    var net := ParseInput(file);
    BuildSymmetric(NonEmpty(Lines(file)));
    CombinationsAreTriangles(net);
    TrianglesCommaFree(net);
    JoinedCount(Triangles(net));
  }

  lemma TrianglesCommaFree(net: Network)
    requires Symmetric(net) && NoCommas(net)
    ensures forall t :: t in Triangles(net) ==> CommaFree(t)
  {
    forall t | t in Triangles(net)
      ensures CommaFree(t)
    {
      var a, b, c :| a in net && b in net[a] && c in net[a] && Triangle(net, a, b, c) && t == [a, b, c];
      assert b in Neighbours(net, a) && c in Neighbours(net, a);
      assert a in Neighbours(net, b) && a in Neighbours(net, c);
    }
  }
}

/** Day 19: towel patterns and designs. A design can be made when it is a
    concatenation of available patterns; the search tries every prefix up to
    the longest pattern's length and recurses on the rest. The answer is the
    number of designs that can be made. */
module Day19 {
  import opened Common

  // ---------------------------------------------------------------------
  // Input

  /** The comma-separated towel list, each entry trimmed. */
  function Towels(line: string): (r: seq<string>)
    ensures |r| == |Split(line, ',')|
    ensures forall i :: 0 <= i < |r| ==> r[i] == Trim(Split(line, ',')[i])
  {
    seq(|Split(line, ',')|, i requires 0 <= i < |Split(line, ',')| => Trim(Split(line, ',')[i]))
  }

  /** The way the puzzle writes a towel list: entries separated by ", ". */
  function Spaced(towels: seq<string>): (r: seq<string>)
    ensures |r| == |towels|
  {
    seq(|towels|, i requires 0 <= i < |towels| => if i == 0 then towels[0] else " " + towels[i])
  }

  /** A towel list written as the puzzle writes it is read back entry for
      entry, in order: trimming removes the blank after each comma. */
  lemma TowelsRead(towels: seq<string>)
    requires |towels| >= 1
    requires forall i :: 0 <= i < |towels| ==> ',' !in towels[i]
    requires forall i :: 0 <= i < |towels| ==> towels[i] == [] || (!IsSpace(towels[i][0]) && !IsSpace(Last(towels[i])))
    ensures Towels(Join(Spaced(towels), ',')) == towels
  {
    var pieces := Spaced(towels);
    forall i | 0 <= i < |pieces|
      ensures ',' !in pieces[i]
    {
      assert i > 0 ==> pieces[i] == " " + towels[i];
    }
    SplitJoin(pieces, ',');
    forall i | 0 <= i < |towels|
      ensures Trim(pieces[i]) == towels[i]
    {
      SpacedTrim(towels, i);
    }
  }

  /** One entry of a spaced list trims back to the entry. */
  lemma SpacedTrim(towels: seq<string>, i: nat)
    requires i < |towels|
    requires towels[i] == [] || (!IsSpace(towels[i][0]) && !IsSpace(Last(towels[i])))
    ensures Trim(Spaced(towels)[i]) == towels[i]
  {
    if i == 0 {
      assert [] + towels[0] + [] == Spaced(towels)[0];
      TrimPadded([], towels[0], []);
    } else {
      assert " " + towels[i] + [] == Spaced(towels)[i];
      TrimPadded(" ", towels[i], []);
    }
  }

  /** `longest`: the running maximum of the pattern lengths. */
  function Longest(towels: seq<string>): (r: nat)
    ensures forall i :: 0 <= i < |towels| ==> |towels[i]| <= r
    ensures towels == [] ==> r == 0
    ensures towels != [] ==> exists i :: 0 <= i < |towels| && |towels[i]| == r
    decreases |towels|
  {
    if towels == [] then 0
    else
      var rest := Longest(towels[..|towels| - 1]);
      var last := |towels[|towels| - 1]|;
      if rest < last then last else rest
  }

  /** `parse_available_towels`: the set of patterns and the longest length. */
  function ParseTowels(line: string): (r: (set<string>, nat))
    ensures forall p :: p in r.0 ==> |p| <= r.1
    ensures r.1 == 0 || exists p :: p in r.0 && |p| == r.1
    ensures forall p :: p in r.0 <==> p in Towels(line)
  {
    var towels := Towels(line);
    var longest := Longest(towels);
    (set i | 0 <= i < |towels| :: towels[i], longest)
  }

  /** The design lines: every line after the first that is not blank once
      trimmed, kept untrimmed. */
  function Designs(lines: seq<string>): (r: seq<string>)
    ensures |r| <= |lines|
    ensures forall i :: 0 <= i < |r| ==> r[i] in lines && Trim(r[i]) != []
    ensures forall l :: l in lines && Trim(l) != [] ==> l in r
    ensures forall l {:trigger multiset(r)[l]} :: multiset(r)[l] == if Trim(l) != [] then multiset(lines)[l] else 0
    decreases |lines|
  {
    if lines == [] then []
    else
      var rest := Designs(lines[1..]);
      assert lines == [lines[0]] + lines[1..];
      DesignsCons(lines[0], lines[1..], rest);
      CountedMembers(lines, Keep(lines[0]) + rest);
      Keep(lines[0]) + rest
  }

  /** The first line as a design, if it is one. */
  function Keep(line: string): (r: seq<string>)
    ensures r == [line] <==> Trim(line) != []
    ensures r == [] <==> Trim(line) == []
  {
    if Trim(line) != [] then [line] else []
  }

  /** One more line in front keeps the counting property of `Designs`. */
  lemma DesignsCons(head: string, tail: seq<string>, rest: seq<string>)
    requires |rest| <= |tail|
    requires forall l {:trigger multiset(rest)[l]} :: multiset(rest)[l] == if Trim(l) != [] then multiset(tail)[l] else 0
    ensures |Keep(head) + rest| <= |[head] + tail|
    ensures forall l {:trigger multiset(Keep(head) + rest)[l]} ::
      multiset(Keep(head) + rest)[l] == if Trim(l) != [] then multiset([head] + tail)[l] else 0
  {
    var r := Keep(head) + rest;
    var lines := [head] + tail;
    forall l
      ensures multiset(r)[l] == if Trim(l) != [] then multiset(lines)[l] else 0
    {
      assert multiset(lines)[l] == multiset([head])[l] + multiset(tail)[l];
      assert multiset(r)[l] == multiset(Keep(head))[l] + multiset(rest)[l];
      if Trim(head) != [] {
        assert multiset(Keep(head))[l] == multiset([head])[l];
      } else {
        assert multiset(Keep(head))[l] == 0;
        assert Trim(l) != [] ==> multiset([head])[l] == 0;
      }
    }
  }

  /** Counting every non-blank line as often as it occurs, and nothing
      else, means holding exactly the non-blank lines. */
  lemma CountedMembers(lines: seq<string>, r: seq<string>)
    requires forall l {:trigger multiset(r)[l]} :: multiset(r)[l] == if Trim(l) != [] then multiset(lines)[l] else 0
    ensures forall i :: 0 <= i < |r| ==> r[i] in lines && Trim(r[i]) != []
    ensures forall l :: l in lines && Trim(l) != [] ==> l in r
  {
    forall i | 0 <= i < |r|
      ensures r[i] in lines && Trim(r[i]) != []
    {
      assert multiset(r)[r[i]] > 0;
    }
    forall l | l in lines && Trim(l) != []
      ensures l in r
    {
      assert multiset(lines)[l] > 0;
      assert multiset(r)[l] > 0;
    }
  }

  /** The designs of two blocks of lines are the first block's followed by
      the second's, so the file order is kept. */
  lemma {:induction false} DesignsAppend(a: seq<string>, b: seq<string>)
    ensures Designs(a + b) == Designs(a) + Designs(b)
    decreases |a|
  {
    if a == [] {
      assert a + b == b;
      assert Designs(a) == [];
      assert Designs(a) + Designs(b) == Designs(b);
    } else {
      var k := Keep(a[0]);
      assert Designs(a + b) == k + Designs(a[1..] + b) by {
        assert (a + b)[0] == a[0] && (a + b)[1..] == a[1..] + b;
      }
      DesignsAppend(a[1..], b);
      assert Designs(a) == k + Designs(a[1..]);
      Regroup(k, Designs(a[1..]), Designs(b));
    }
  }

  /** `parse_input`: patterns, longest pattern length and the designs. */
  function ParseInput(file: string): (set<string>, nat, seq<string>) {
    var lines := Split(file, '\n');
    var (patterns, longest) := ParseTowels(lines[0]);
    (patterns, longest, Designs(lines[1..]))
  }

  // ---------------------------------------------------------------------
  // Matching

  function Furthest(longest: nat, design: string): nat {
    if longest < |design| then longest else |design|
  }

  /** `design_has_matching_pattern`: the empty design matches; otherwise
      some prefix of length 1 up to the longest pattern is a pattern and the
      rest of the design matches. */
  predicate Matches(patterns: set<string>, longest: nat, design: string)
    decreases |design|, |design| + 1
  {
    design == [] || TryFrom(patterns, longest, design, 1)
  }

  /** The loop over `search_length` from `k` on. */
  predicate TryFrom(patterns: set<string>, longest: nat, design: string, k: nat)
    requires 1 <= k
    decreases |design|, |design| + 1 - k
  {
    if k > Furthest(longest, design) then false
    else
      (design[..k] in patterns && Matches(patterns, longest, design[k..]))
      || TryFrom(patterns, longest, design, k + 1)
  }

  /** The loop succeeds exactly when one of the lengths it tries does. */
  lemma {:induction false} TryFromMeans(patterns: set<string>, longest: nat, design: string, k: nat)
    requires 1 <= k
    ensures TryFrom(patterns, longest, design, k) <==>
      exists m :: k <= m <= Furthest(longest, design) && design[..m] in patterns && Matches(patterns, longest, design[m..])
    decreases |design| + 1 - k
  {
    if k <= Furthest(longest, design) {
      TryFromMeans(patterns, longest, design, k + 1);
      if TryFrom(patterns, longest, design, k + 1) {
        var m :| k + 1 <= m <= Furthest(longest, design) && design[..m] in patterns && Matches(patterns, longest, design[m..]);
        assert k <= m;
      }
    }
  }

  // ---------------------------------------------------------------------
  // Reference: concatenations of patterns

  function Concat(pieces: seq<string>): string
    decreases |pieces|
  {
    if pieces == [] then [] else pieces[0] + Concat(pieces[1..])
  }

  lemma {:induction false} ConcatAppend(a: seq<string>, b: seq<string>)
    ensures Concat(a + b) == Concat(a) + Concat(b)
    decreases |a|
  {
    if a == [] {
      assert a + b == b;
    } else {
      assert (a + b)[0] == a[0] && (a + b)[1..] == a[1..] + b;
      ConcatAppend(a[1..], b);
    }
  }

  /** A design is made of patterns when some sequence of patterns spells it. */
  ghost predicate Tiled(patterns: set<string>, design: string) {
    exists pieces: seq<string> :: (forall i :: 0 <= i < |pieces| ==> pieces[i] in patterns) && Concat(pieces) == design
  }

  /** A successful search yields the patterns that spell the design. */
  lemma {:induction false} MatchesSound(patterns: set<string>, longest: nat, design: string)
    returns (pieces: seq<string>)
    requires Matches(patterns, longest, design)
    ensures forall i :: 0 <= i < |pieces| ==> pieces[i] in patterns && 1 <= |pieces[i]| <= longest
    ensures Concat(pieces) == design
    decreases |design|
  {
    if design == [] {
      pieces := [];
    } else {
      TryFromMeans(patterns, longest, design, 1);
      var m :| 1 <= m <= Furthest(longest, design) && design[..m] in patterns && Matches(patterns, longest, design[m..]);
      var rest := MatchesSound(patterns, longest, design[m..]);
      pieces := [design[..m]] + rest;
      assert pieces[1..] == rest;
      assert design == design[..m] + design[m..];
    }
  }

  /** Every spelling by patterns no longer than `longest` is found. */
  lemma {:induction false} MatchesComplete(patterns: set<string>, longest: nat, pieces: seq<string>)
    requires forall i :: 0 <= i < |pieces| ==> pieces[i] in patterns && |pieces[i]| <= longest
    ensures Matches(patterns, longest, Concat(pieces))
    decreases |pieces|
  {
    if pieces != [] {
      var design := Concat(pieces);
      assert forall i :: 0 <= i < |pieces| - 1 ==> pieces[1..][i] == pieces[i + 1];
      MatchesComplete(patterns, longest, pieces[1..]);
      assert design == pieces[0] + Concat(pieces[1..]);
      if pieces[0] != [] {
        var m := |pieces[0]|;
        assert design[..m] == pieces[0] && design[m..] == Concat(pieces[1..]);
        assert 1 <= m <= Furthest(longest, design);
        TryFromMeans(patterns, longest, design, 1);
      } else {
        assert design == Concat(pieces[1..]);
      }
    }
  }

  /** Because `longest` bounds every pattern, the search answers exactly
      whether the design is a concatenation of patterns. */
  lemma {:induction false} MatchesIffTiled(patterns: set<string>, longest: nat, design: string)
    requires forall p :: p in patterns ==> |p| <= longest
    ensures Matches(patterns, longest, design) <==> Tiled(patterns, design)
  {
    if Matches(patterns, longest, design) {
      var pieces := MatchesSound(patterns, longest, design);
    }
    if Tiled(patterns, design) {
      var pieces: seq<string> :| (forall i :: 0 <= i < |pieces| ==> pieces[i] in patterns) && Concat(pieces) == design;
      MatchesComplete(patterns, longest, pieces);
    }
  }

  /** Two designs that can be made can be made one after the other. */
  lemma {:induction false} MatchesConcat(patterns: set<string>, longest: nat, a: string, b: string)
    requires Matches(patterns, longest, a) && Matches(patterns, longest, b)
    ensures Matches(patterns, longest, a + b)
  {
    var pa := MatchesSound(patterns, longest, a);
    var pb := MatchesSound(patterns, longest, b);
    ConcatAppend(pa, pb);
    MatchesComplete(patterns, longest, pa + pb);
  }

  // ---------------------------------------------------------------------
  // Part one

  /** The number of designs the search accepts. */
  function CountMatching(patterns: set<string>, longest: nat, designs: seq<string>): (r: nat)
    ensures r <= |designs|
    decreases |designs|
  {
    if designs == [] then 0
    else (if Matches(patterns, longest, designs[0]) then 1 else 0) + CountMatching(patterns, longest, designs[1..])
  }

  /** The number of designs that are concatenations of patterns. */
  ghost function CountTiled(patterns: set<string>, designs: seq<string>): nat
    decreases |designs|
  {
    if designs == [] then 0
    else (if Tiled(patterns, designs[0]) then 1 else 0) + CountTiled(patterns, designs[1..])
  }

  function PartOne(file: string): nat {
    var (patterns, longest, designs) := ParseInput(file);
    CountMatching(patterns, longest, designs)
  }

  /** Part one counts the designs of the input that can be made from its
      patterns. */
  lemma PartOneMeans(file: string)
    ensures var (patterns, _, designs) := ParseInput(file);
      PartOne(file) == CountTiled(patterns, designs)
  {
    var (patterns, longest, designs) := ParseInput(file);
    CountAgrees(patterns, longest, designs);
  }

  lemma {:induction false} CountAgrees(patterns: set<string>, longest: nat, designs: seq<string>)
    requires forall p :: p in patterns ==> |p| <= longest
    ensures CountMatching(patterns, longest, designs) == CountTiled(patterns, designs)
    decreases |designs|
  {
    if designs != [] {
      MatchesIffTiled(patterns, longest, designs[0]);
      CountAgrees(patterns, longest, designs[1..]);
    }
  }
}

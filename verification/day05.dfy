/** Day 5: page-ordering rules. A rule `required|follows` says that page
    `required` must come before page `follows` whenever both are printed. */
module Day05 {
  import Common

  /** One rule, as the pair (required, follows). */
  type Rule = (int, int)

  /** For each page, the pages that must not appear after it. */
  type Ruleset = map<int, seq<int>>

  /** The reference reading of the rules for one page: every page required
      before `k`, in rule order. */
  function Required(rules: seq<Rule>, k: int): seq<int> {
    if rules == [] then []
    else (if rules[0].1 == k then [rules[0].0] else []) + Required(rules[1..], k)
  }

  /** `Required` of a prefix extended by one rule. */
  lemma {:induction false} RequiredSnoc(rules: seq<Rule>, last: Rule, k: int)
    ensures Required(rules + [last], k)
         == Required(rules, k) + (if last.1 == k then [last.0] else [])
  {
    if rules == [] {
      assert [] + [last] == [last];
    } else {
      var head := if rules[0].1 == k then [rules[0].0] else [];
      assert (rules + [last])[0] == rules[0] && (rules + [last])[1..] == rules[1..] + [last];
      assert Required(rules + [last], k) == head + Required(rules[1..] + [last], k);
      RequiredSnoc(rules[1..], last, k);
      Common.Regroup(head, Required(rules[1..], k), if last.1 == k then [last.0] else []);
    }
  }

  lemma {:induction false} RequiredMembers(rules: seq<Rule>, k: int, x: int)
    ensures x in Required(rules, k) <==> (x, k) in rules
  {
    if rules != [] {
      RequiredMembers(rules[1..], k, x);
      assert rules == [rules[0]] + rules[1..];
    }
  }

  lemma {:induction false} RequiredNone(rules: seq<Rule>, k: int)
    requires forall n :: 0 <= n < |rules| ==> rules[n].1 != k
    ensures Required(rules, k) == []
  {
    if rules != [] {
      RequiredNone(rules[1..], k);
    }
  }

  /** `build_ordering_ruleset`: the rules folded, in order, into a map from the
      `follows` page to the list of its required pages. */
  function BuildRuleset(rules: seq<Rule>): (r: Ruleset)
    ensures forall k :: k in r <==> exists n :: 0 <= n < |rules| && rules[n].1 == k
    ensures forall k :: k in r ==> r[k] == Required(rules, k)
  {
    if rules == [] then map[]
    else
      var prefix := rules[..|rules| - 1];
      var last := rules[|rules| - 1];
      var m := BuildRuleset(prefix);
      assert rules == prefix + [last];
      var r := m[last.1 := (if last.1 in m then m[last.1] else []) + [last.0]];
      assert forall k :: k in r ==> r[k] == Required(rules, k) by {
        forall k | k in r
          ensures r[k] == Required(rules, k)
        {
          RequiredSnoc(prefix, last, k);
          if k !in m {
            RequiredNone(prefix, k);
          }
        }
      }
      assert forall k :: k in r <==> exists n :: 0 <= n < |rules| && rules[n].1 == k by {
        forall k
          ensures k in r <==> exists n :: 0 <= n < |rules| && rules[n].1 == k
        {
          if k in m {
            var n :| 0 <= n < |prefix| && prefix[n].1 == k;
            assert rules[n].1 == k;
          }
          if exists n :: 0 <= n < |rules| && rules[n].1 == k {
            var n :| 0 <= n < |rules| && rules[n].1 == k;
            if n < |prefix| {
              assert prefix[n].1 == k;
            }
          }
        }
      }
      r
  }

  /** A page is listed under `k` exactly when some rule says it comes before `k`. */
  lemma {:induction false} RulesetMembers(rules: seq<Rule>, k: int, x: int)
    requires k in BuildRuleset(rules)
    ensures x in BuildRuleset(rules)[k] <==> (x, k) in rules
  {
    RequiredMembers(rules, k, x);
  }

  /** Pages `i < j` of an update break a rule: page `j` is one that must come
      before page `i`. */
  predicate Violation(update: seq<int>, ruleset: Ruleset, i: int, j: int) {
    0 <= i < j < |update| && update[i] in ruleset && update[j] in ruleset[update[i]]
  }

  /** The inner loop of `is_update_valid`: none of the pages from `j` on is
      listed in `rule`. */
  predicate NoneListedFrom(update: seq<int>, rule: seq<int>, j: nat)
    requires j <= |update|
    decreases |update| - j
  {
    j == |update| || (update[j] !in rule && NoneListedFrom(update, rule, j + 1))
  }

  /** The outer loop of `is_update_valid` from page `i`. */
  predicate ValidFrom(update: seq<int>, ruleset: Ruleset, i: nat)
    requires i <= |update|
    decreases |update| - i
  {
    if i == |update| then true
    else if update[i] in ruleset && !NoneListedFrom(update, ruleset[update[i]], i + 1) then false
    else ValidFrom(update, ruleset, i + 1)
  }

  predicate IsUpdateValid(update: seq<int>, ruleset: Ruleset) {
    ValidFrom(update, ruleset, 0)
  }

  lemma {:induction false} NoneListedFromMeans(update: seq<int>, rule: seq<int>, j: nat)
    requires j <= |update|
    ensures NoneListedFrom(update, rule, j) <==> forall m :: j <= m < |update| ==> update[m] !in rule
    decreases |update| - j
  {
    if j < |update| {
      NoneListedFromMeans(update, rule, j + 1);
    }
  }

  lemma {:induction false} ValidFromMeans(update: seq<int>, ruleset: Ruleset, i: nat)
    requires i <= |update|
    ensures ValidFrom(update, ruleset, i) <==>
      forall a, b :: i <= a < b < |update| ==> !Violation(update, ruleset, a, b)
    decreases |update| - i
  {
    if i < |update| {
      ValidFromMeans(update, ruleset, i + 1);
      if update[i] in ruleset {
        NoneListedFromMeans(update, ruleset[update[i]], i + 1);
        if !NoneListedFrom(update, ruleset[update[i]], i + 1) {
          var b :| i + 1 <= b < |update| && update[b] in ruleset[update[i]];
          assert Violation(update, ruleset, i, b);
        }
      }
    }
  }

  /** `is_update_valid` is false exactly when some earlier page lists a later
      page among those that must precede it. */
  lemma IsUpdateValidMeans(update: seq<int>, ruleset: Ruleset)
    ensures IsUpdateValid(update, ruleset) <==>
      !exists i, j :: Violation(update, ruleset, i, j)
  {
    ValidFromMeans(update, ruleset, 0);
  }

  /** An update with at most one page is always valid. */
  lemma ShortUpdateValid(update: seq<int>, ruleset: Ruleset)
    requires |update| <= 1
    ensures IsUpdateValid(update, ruleset)
  {
    IsUpdateValidMeans(update, ruleset);
  }

  /** Dropping a page from a valid update leaves it valid. */
  lemma RemovePageKeepsValid(update: seq<int>, ruleset: Ruleset, p: nat)
    requires p < |update| && IsUpdateValid(update, ruleset)
    ensures IsUpdateValid(update[..p] + update[p + 1..], ruleset)
  {
    var u := update[..p] + update[p + 1..];
    IsUpdateValidMeans(update, ruleset);
    IsUpdateValidMeans(u, ruleset);
    if exists i, j :: Violation(u, ruleset, i, j) {
      var i, j :| Violation(u, ruleset, i, j);
      var i' := if i < p then i else i + 1;
      var j' := if j < p then j else j + 1;
      assert u[i] == update[i'] && u[j] == update[j'];
      assert Violation(update, ruleset, i', j');
    }
  }

  /** The loop of `part_one`: the middle page of every valid update. */
  function MiddleSum(ruleset: Ruleset, updates: seq<seq<int>>): int
    requires forall n :: 0 <= n < |updates| ==> |updates[n]| > 0
  {
    if updates == [] then 0
    else
      var u := updates[0];
      (if IsUpdateValid(u, ruleset) then u[|u| / 2] else 0) + MiddleSum(ruleset, updates[1..])
  }

  /** `part_one`; every update has a page, as the update pattern demands. */
  function PartOne(rules: seq<Rule>, updates: seq<seq<int>>): int
    requires forall n :: 0 <= n < |updates| ==> |updates[n]| > 0
  {
    MiddleSum(BuildRuleset(rules), updates)
  }

  /** The answer adds up over consecutive batches of updates. */
  lemma {:induction false} MiddleSumAppend(ruleset: Ruleset, a: seq<seq<int>>, b: seq<seq<int>>)
    requires forall n :: 0 <= n < |a| ==> |a[n]| > 0
    requires forall n :: 0 <= n < |b| ==> |b[n]| > 0
    ensures forall n :: 0 <= n < |a + b| ==> |(a + b)[n]| > 0
    ensures MiddleSum(ruleset, a + b) == MiddleSum(ruleset, a) + MiddleSum(ruleset, b)
  {
    if a == [] {
      assert a + b == b;
    } else {
      assert (a + b)[1..] == a[1..] + b;
      MiddleSumAppend(ruleset, a[1..], b);
    }
  }

  /** An update that breaks a rule adds nothing to the answer. */
  lemma {:induction false} InvalidUpdatesIgnored(ruleset: Ruleset, updates: seq<seq<int>>, u: seq<int>)
    requires forall n :: 0 <= n < |updates| ==> |updates[n]| > 0
    requires |u| > 0 && !IsUpdateValid(u, ruleset)
    ensures MiddleSum(ruleset, [u] + updates) == MiddleSum(ruleset, updates)
  {
    assert ([u] + updates)[1..] == updates;
  }

  /** One rule, 1 before 2: the update that prints 2 first is skipped. */
  lemma ExampleOneRule()
    ensures PartOne([(1, 2)], [[1, 2, 3], [2, 1, 3]]) == 2
  {
    var rules := [(1, 2)];
    var rs := BuildRuleset(rules);
    assert rules[0].1 == 2;
    assert rs[2] == [1];
    assert 1 !in rs && 3 !in rs;
    assert IsUpdateValid([1, 2, 3], rs);
    assert !IsUpdateValid([2, 1, 3], rs);
  }
}

/** Day 25: locks and keys. The schematics are separated by blank lines; a
    schematic whose first row is all '#' is a lock, any other is a key.
    Each is reduced to its column heights, the number of '#' in a column
    less one, and a key fits a lock when no paired column sums above 5. */
module Day25 {
  import opened Common

  /** Column heights: `Vec<u64>`. */
  type Heights = seq<nat>

  // ---------------------------------------------------------------------
  // Splitting the file into schematics

  /** Two line feeds in a row at position `k`. */
  predicate BlankAt(s: string, k: int) {
    0 <= k < |s| - 1 && s[k] == '\n' && s[k + 1] == '\n'
  }

  /** `file.split("\n\n")`: the pieces between non-overlapping pairs of
      line feeds, matched from the left. */
  function Blocks(s: string): (r: seq<string>)
    ensures |r| >= 1 && |r[0]| <= |s| && r[0] == s[..|r[0]|]
    ensures forall i, k :: 0 <= i < |r| ==> !BlankAt(r[i], k)
    decreases |s|
  {
    if |s| < 2 then [s]
    else if BlankAt(s, 0) then [[]] + Blocks(s[2..])
    else
      var rest := Blocks(s[1..]);
      var first := [s[0]] + rest[0];
      assert forall k :: BlankAt(first, k) ==> BlankAt(rest[0], k - 1) || (k == 0 && BlankAt(s, 0));
      [first] + rest[1..]
  }

  /** The inverse of `Blocks`: the pieces glued back with blank lines. */
  function Unblock(parts: seq<string>): string
    requires |parts| >= 1
    decreases |parts|
  {
    if |parts| == 1 then parts[0] else parts[0] + "\n\n" + Unblock(parts[1..])
  }

  /** Splitting loses nothing. */
  lemma {:induction false} UnblockBlocks(s: string)
    ensures Unblock(Blocks(s)) == s
    decreases |s|
  {
    if |s| >= 2 {
      if BlankAt(s, 0) {
        UnblockBlocks(s[2..]);
        assert Blocks(s)[1..] == Blocks(s[2..]);
        assert s == "\n\n" + s[2..];
      } else {
        var rest := Blocks(s[1..]);
        UnblockBlocks(s[1..]);
        var r := Blocks(s);
        assert r[1..] == rest[1..];
        if |rest| == 1 {
          assert Unblock(r) == [s[0]] + rest[0];
        } else {
          assert Unblock(r) == [s[0]] + rest[0] + "\n\n" + Unblock(rest[1..]);
          assert Unblock(rest) == rest[0] + "\n\n" + Unblock(rest[1..]);
        }
        assert s == [s[0]] + s[1..];
      }
    }
  }

  // ---------------------------------------------------------------------
  // One schematic

  function Value(c: char): nat {
    if c == '#' then 1 else 0
  }

  /** The first row pushes one value per character. */
  function FirstRow(line: string): (r: seq<nat>)
    ensures |r| == |line|
  {
    seq(|line|, x requires 0 <= x < |line| => Value(line[x]))
  }

  /** A later row adds its values column by column; `vec[x]` panics on a
      row longer than the first. */
  function AddRow(counts: seq<nat>, line: string): (r: Option<seq<nat>>)
    ensures r.Some? <==> |line| <= |counts|
    ensures r.Some? ==> |r.value| == |counts|
  {
    if |line| > |counts| then None
    else Some(seq(|counts|, x requires 0 <= x < |counts| => counts[x] + (if x < |line| then Value(line[x]) else 0)))
  }

  /** The column totals after the rows of `lines`. */
  function Tally(lines: seq<string>): (r: Option<seq<nat>>)
    requires lines != []
    decreases |lines|
  {
    if |lines| == 1 then Some(FirstRow(lines[0]))
    else match Tally(lines[..|lines| - 1])
      case None => None
      case Some(counts) => AddRow(counts, Last(lines))
  }

  /** The rows with a '#' in column `x`. */
  function Count(lines: seq<string>, x: nat): nat
    decreases |lines|
  {
    if lines == [] then 0
    else Count(lines[..|lines| - 1], x) + (if x < |Last(lines)| && Last(lines)[x] == '#' then 1 else 0)
  }

  /** The tally succeeds exactly when no row is longer than the first, and
      then counts every column's '#'s. */
  lemma {:induction false} TallyMeans(lines: seq<string>)
    requires lines != []
    ensures Tally(lines).Some? <==> forall y :: 0 <= y < |lines| ==> |lines[y]| <= |lines[0]|
    ensures Tally(lines).Some? ==> |Tally(lines).value| == |lines[0]|
    ensures Tally(lines).Some? ==> forall x :: 0 <= x < |lines[0]| ==> Tally(lines).value[x] == Count(lines, x)
    decreases |lines|
  {
    if |lines| > 1 {
      var prefix := lines[..|lines| - 1];
      TallyMeans(prefix);
      assert prefix[0] == lines[0];
      assert forall y :: 0 <= y < |prefix| ==> prefix[y] == lines[y];
    } else {
      assert Count(lines[..0], 0) == 0;
      forall x | 0 <= x < |lines[0]|
        ensures FirstRow(lines[0])[x] == Count(lines, x)
      {
        assert lines[..0] == [];
      }
    }
  }

  /** `is_lock`: every value of the first row is 1, which an empty first
      row satisfies too; a schematic with no rows is a key. */
  predicate IsLock(lines: seq<string>) {
    lines != [] && forall x :: 0 <= x < |lines[0]| ==> lines[0][x] == '#'
  }

  /** The heights and whether the schematic is a lock; `None` when a row is
      longer than the first, or when a column has no '#' and `x - 1`
      underflows. */
  function Read(lines: seq<string>): Option<(bool, Heights)> {
    var counts := if lines == [] then Some([]) else Tally(lines);
    if counts.None? || 0 in counts.value then None
    else Some((IsLock(lines), seq(|counts.value|, x requires 0 <= x < |counts.value| => counts.value[x] - 1)))
  }

  /** One piece of the file, read line by line. */
  function Schematic(spec: string): Option<(bool, Heights)> {
    Read(Lines(spec))
  }

  /** A schematic's heights are its columns' '#' counts less one, it has as
      many columns as its first row, and it is a lock exactly when that
      row is all '#'. */
  lemma {:induction false} ReadMeans(lines: seq<string>)
    requires Read(lines).Some?
    ensures var (lock, heights) := Read(lines).value;
      && lock == IsLock(lines)
      && (lines == [] ==> heights == [])
      && (lines != [] ==> |heights| == |lines[0]| && forall x :: 0 <= x < |heights| ==> heights[x] + 1 == Count(lines, x))
  {
    if lines != [] {
      TallyMeans(lines);
    }
  }

  /** Reading fails exactly on a row longer than the first, or on a column
      without '#'. */
  lemma {:induction false} ReadFails(lines: seq<string>)
    requires lines != []
    ensures Read(lines).None? <==>
      (exists y :: 0 <= y < |lines| && |lines[y]| > |lines[0]|)
      || (exists x :: 0 <= x < |lines[0]| && Count(lines, x) == 0)
  {
    TallyMeans(lines);
    if Tally(lines).Some? {
      var counts := Tally(lines).value;
      if exists x :: 0 <= x < |lines[0]| && Count(lines, x) == 0 {
        var x :| 0 <= x < |lines[0]| && Count(lines, x) == 0;
        assert counts[x] == 0;
      }
      if 0 in counts {
        var x :| 0 <= x < |counts| && counts[x] == 0;
        assert 0 <= x < |lines[0]| && Count(lines, x) == 0;
        assert Read(lines).None?;
        assert exists x :: 0 <= x < |lines[0]| && Count(lines, x) == 0;
      } else {
        forall x | 0 <= x < |lines[0]|
          ensures Count(lines, x) != 0
        {
          assert counts[x] in counts;
        }
        assert Read(lines).Some?;
        assert !exists y :: 0 <= y < |lines| && |lines[y]| > |lines[0]|;
      }
    }
  }

  /** Every entry read, in order; `None` as soon as one does not read. */
  function Collect<T, U>(read: T -> Option<U>, xs: seq<T>): (r: Option<seq<U>>)
    ensures r.Some? <==> forall i :: 0 <= i < |xs| ==> read(xs[i]).Some?
    ensures r.Some? ==> |r.value| == |xs| && forall i :: 0 <= i < |xs| ==> read(xs[i]) == Some(r.value[i])
    decreases |xs|
  {
    if xs == [] then Some([])
    else
      var front := xs[..|xs| - 1];
      var collected := Collect(read, front);
      var last := read(Last(xs));
      assert forall i :: 0 <= i < |front| ==> front[i] == xs[i];
      if collected.None? || last.None? then None
      else
        var r := collected.value + [last.value];
        assert forall i :: 0 <= i < |front| ==> r[i] == collected.value[i];
        Some(r)
  }

  /** Reading two runs is reading each and appending. */
  lemma CollectAppend<T, U>(read: T -> Option<U>, a: seq<T>, b: seq<T>)
    ensures Collect(read, a + b).Some? <==> Collect(read, a).Some? && Collect(read, b).Some?
    ensures Collect(read, a + b).Some? ==> Collect(read, a + b).value == Collect(read, a).value + Collect(read, b).value
  {
    var ab := a + b;
    forall i | 0 <= i < |ab|
      ensures read(ab[i]) == if i < |a| then read(a[i]) else read(b[i - |a|])
    {
      if i < |a| {
        assert ab[i] == a[i];
      } else {
        assert ab[i] == b[i - |a|];
      }
    }
    if Collect(read, a).Some? && Collect(read, b).Some? {
      var all := Collect(read, ab).value;
      var ra := Collect(read, a).value;
      var rb := Collect(read, b).value;
      assert forall i :: 0 <= i < |all| ==> all[i] == (ra + rb)[i];
    }
    if Collect(read, ab).Some? {
      forall j | 0 <= j < |b|
        ensures read(b[j]).Some?
      {
        assert read(ab[|a| + j]).Some?;
      }
    }
  }

  /** Every schematic read, in file order; `None` as soon as one does not
      read. */
  function ReadAll(specs: seq<string>): (r: Option<seq<(bool, Heights)>>)
    ensures r.Some? <==> forall i :: 0 <= i < |specs| ==> Schematic(specs[i]).Some?
    ensures r.Some? ==> |r.value| == |specs| && forall i :: 0 <= i < |specs| ==> Schematic(specs[i]) == Some(r.value[i])
  {
    Collect(Schematic, specs)
  }

  /** `locks.push(vec)` or `keys.push(vec)`. */
  function Place(sorted: (seq<Heights>, seq<Heights>), schematic: (bool, Heights)): (r: (seq<Heights>, seq<Heights>))
    ensures |r.0| + |r.1| == |sorted.0| + |sorted.1| + 1
  {
    if schematic.0 then (sorted.0 + [schematic.1], sorted.1) else (sorted.0, sorted.1 + [schematic.1])
  }

  /** Read schematics pushed one by one onto the locks or the keys. */
  function Partition(read: seq<(bool, Heights)>): (r: (seq<Heights>, seq<Heights>))
    ensures |r.0| + |r.1| == |read|
  {
    if read == [] then ([], []) else Place(Partition(read[..|read| - 1]), Last(read))
  }

  /** `parse_input`: the locks and the keys, each in file order. */
  function Sort(specs: seq<string>): (r: Option<(seq<Heights>, seq<Heights>)>)
    ensures r.Some? ==> |r.value.0| + |r.value.1| == |specs|
  {
    match ReadAll(specs)
    case None => None
    case Some(read) => Some(Partition(read))
  }

  lemma PlaceAppend(x: (seq<Heights>, seq<Heights>), y: (seq<Heights>, seq<Heights>), schematic: (bool, Heights))
    ensures Place((x.0 + y.0, x.1 + y.1), schematic) == (x.0 + Place(y, schematic).0, x.1 + Place(y, schematic).1)
  {
    assert x.0 + y.0 + [schematic.1] == x.0 + (y.0 + [schematic.1]);
    assert x.1 + y.1 + [schematic.1] == x.1 + (y.1 + [schematic.1]);
  }

  /** Partitioning two runs is partitioning each and appending, locks to
      locks and keys to keys. */
  lemma {:induction false} PartitionAppend(a: seq<(bool, Heights)>, b: seq<(bool, Heights)>)
    ensures Partition(a + b) == (Partition(a).0 + Partition(b).0, Partition(a).1 + Partition(b).1)
    decreases |b|
  {
    if b == [] {
      assert a + b == a;
      assert Partition(a).0 + [] == Partition(a).0 && Partition(a).1 + [] == Partition(a).1;
    } else {
      var front := b[..|b| - 1];
      PartitionAppend(a, front);
      assert (a + b)[..|a + b| - 1] == a + front;
      assert Last(a + b) == Last(b);
      PlaceAppend(Partition(a), Partition(front), Last(b));
    }
  }

  /** Every lock's heights are among the locks and every key's among the
      keys. */
  lemma {:induction false} PartitionKeeps(read: seq<(bool, Heights)>, i: nat)
    requires i < |read|
    ensures read[i].1 in (if read[i].0 then Partition(read).0 else Partition(read).1)
    decreases |read|
  {
    var front := read[..|read| - 1];
    if i < |front| {
      PartitionKeeps(front, i);
      assert front[i] == read[i];
    }
  }

  /** Nothing else is among the locks or the keys. */
  lemma {:induction false} PartitionFrom(read: seq<(bool, Heights)>, lock: bool, h: Heights)
    requires h in (if lock then Partition(read).0 else Partition(read).1)
    ensures exists i :: 0 <= i < |read| && read[i] == (lock, h)
    decreases |read|
  {
    var front := read[..|read| - 1];
    if Last(read) == (lock, h) {
      assert read[|read| - 1] == Last(read);
    } else {
      PartitionFrom(front, lock, h);
      var i :| 0 <= i < |front| && front[i] == (lock, h);
      assert read[i] == front[i];
    }
  }

  /** Sorting one schematic puts its heights on the side it belongs to. */
  lemma SortOne(spec: string)
    ensures Sort([spec]).Some? <==> Schematic(spec).Some?
    ensures Schematic(spec).Some? && Schematic(spec).value.0 ==> Sort([spec]) == Some(([Schematic(spec).value.1], []))
    ensures Schematic(spec).Some? && !Schematic(spec).value.0 ==> Sort([spec]) == Some(([], [Schematic(spec).value.1]))
  {
    var read := Schematic(spec);
    if read.Some? {
      var one := [read.value];
      assert [spec][..0] == [] && Last([spec]) == spec;
      assert [] + one == one;
      assert ReadAll([spec]) == Some(one);
      assert one[..0] == [];
      assert Partition(one[..0]) == ([], []);
      var h: seq<Heights> := [read.value.1];
      assert Partition([read.value]) == Place(([], []), read.value);
      assert [] + h == h;
    }
  }

  /** Reading two runs of schematics is reading each and appending. */
  lemma ReadAllAppend(a: seq<string>, b: seq<string>)
    ensures ReadAll(a + b).Some? <==> ReadAll(a).Some? && ReadAll(b).Some?
    ensures ReadAll(a + b).Some? ==> ReadAll(a + b).value == ReadAll(a).value + ReadAll(b).value
  {
    CollectAppend(Schematic, a, b);
  }

  /** Sorting two runs of schematics is sorting each and appending, locks
      to locks and keys to keys: the file order is kept on both sides. */
  lemma SortAppend(a: seq<string>, b: seq<string>)
    ensures Sort(a + b).Some? <==> Sort(a).Some? && Sort(b).Some?
    ensures Sort(a + b).Some? ==> Sort(a + b).value == (Sort(a).value.0 + Sort(b).value.0, Sort(a).value.1 + Sort(b).value.1)
  {
    ReadAllAppend(a, b);
    if ReadAll(a + b).Some? {
      PartitionAppend(ReadAll(a).value, ReadAll(b).value);
    }
  }

  /** Sorting succeeds exactly when every schematic reads. */
  lemma SortSucceeds(specs: seq<string>)
    ensures Sort(specs).Some? <==> forall i :: 0 <= i < |specs| ==> Schematic(specs[i]).Some?
  {
  }

  /** Every lock's heights are among the locks and every key's among the
      keys. */
  lemma SortKeeps(specs: seq<string>, i: nat)
    requires Sort(specs).Some? && i < |specs|
    ensures Schematic(specs[i]).Some?
    ensures Schematic(specs[i]).value.1 in (if Schematic(specs[i]).value.0 then Sort(specs).value.0 else Sort(specs).value.1)
  {
    PartitionKeeps(ReadAll(specs).value, i);
  }

  /** Nothing else is among the locks or the keys. */
  lemma SortFrom(specs: seq<string>, lock: bool, h: Heights)
    requires Sort(specs).Some?
    requires h in (if lock then Sort(specs).value.0 else Sort(specs).value.1)
    ensures exists i :: 0 <= i < |specs| && Schematic(specs[i]) == Some((lock, h))
  {
    var read := ReadAll(specs).value;
    PartitionFrom(read, lock, h);
    var i :| 0 <= i < |read| && read[i] == (lock, h);
    assert Schematic(specs[i]) == Some(read[i]);
  }

  function ParseInput(file: string): Option<(seq<Heights>, seq<Heights>)> {
    Sort(Blocks(file))
  }

  // ---------------------------------------------------------------------
  // Fitting

  /** `does_key_fit_lock`: `zip` stops at the shorter vector. */
  predicate Fits(key: Heights, lock: Heights)
    decreases |key|
  {
    key == [] || lock == [] || (key[0] + lock[0] <= 5 && Fits(key[1..], lock[1..]))
  }

  /** A key fits exactly when every column both have sums to at most 5. */
  lemma {:induction false} FitsMeans(key: Heights, lock: Heights)
    ensures Fits(key, lock) <==> forall i :: 0 <= i < |key| && i < |lock| ==> key[i] + lock[i] <= 5
    decreases |key|
  {
    if key != [] && lock != [] {
      FitsMeans(key[1..], lock[1..]);
      assert forall i :: 1 <= i < |key| && i < |lock| ==> key[1..][i - 1] == key[i] && lock[1..][i - 1] == lock[i];
    }
  }

  /** Fitting does not depend on which vector is the key. */
  lemma {:induction false} FitsSymmetric(key: Heights, lock: Heights)
    ensures Fits(key, lock) <==> Fits(lock, key)
  {
    FitsMeans(key, lock);
    FitsMeans(lock, key);
  }

  /** The keys fitting one lock. */
  function FitsFor(lock: Heights, keys: seq<Heights>): (r: nat)
    ensures r <= |keys|
    decreases |keys|
  {
    if keys == [] then 0
    else FitsFor(lock, keys[..|keys| - 1]) + (if Fits(Last(keys), lock) then 1 else 0)
  }

  /** The fitting (lock, key) pairs. */
  function FitCount(locks: seq<Heights>, keys: seq<Heights>): nat
    decreases |locks|
  {
    if locks == [] then 0 else FitCount(locks[..|locks| - 1], keys) + FitsFor(Last(locks), keys)
  }

  /** At most every pair fits. */
  lemma {:induction false} FitCountBound(locks: seq<Heights>, keys: seq<Heights>)
    ensures FitCount(locks, keys) <= |locks| * |keys|
    decreases |locks|
  {
    if locks != [] {
      FitCountBound(locks[..|locks| - 1], keys);
      assert |locks| * |keys| == (|locks| - 1) * |keys| + |keys|;
    }
  }

  /** The two loops of `part_one`. */
  method CountFits(locks: seq<Heights>, keys: seq<Heights>) returns (count: nat)
    ensures count == FitCount(locks, keys)
  {
    count := 0;
    for i := 0 to |locks|
      invariant count == FitCount(locks[..i], keys)
    {
      var inner := 0;
      for j := 0 to |keys|
        invariant inner == FitsFor(locks[i], keys[..j])
      {
        if Fits(keys[j], locks[i]) {
          inner := inner + 1;
        }
        assert keys[..j + 1][..j] == keys[..j];
      }
      assert keys[..|keys|] == keys;
      assert locks[..i + 1][..i] == locks[..i];
      count := count + inner;
    }
    assert locks[..|locks|] == locks;
  }

  /** `part_one`: the number of fitting pairs; `None` if reading panics. */
  function PartOne(file: string): Option<nat> {
    match ParseInput(file)
    case None => None
    case Some((locks, keys)) => Some(FitCount(locks, keys))
  }
}

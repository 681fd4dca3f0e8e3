/** Day 9: a disk map alternates file lengths and free-space lengths; file
    blocks are moved from the end into the leftmost free blocks, and the
    answer is the checksum Σ position × file id of the compacted disk. */
module Day09 {
  import opened Common

  // ---------------------------------------------------------------------
  // Parsing

  /** `parse_input`: the file with its newlines removed, every other
      character kept, in order (see `WithoutAppend`), as often as it
      occurs. */
  function StripNewlines(file: string): (r: string)
    ensures |r| <= |file|
    ensures multiset(r) == multiset(file)['\n' := 0]
  {
    Without(file, '\n')
  }

  lemma StripPlain(file: string)
    requires '\n' !in file
    ensures StripNewlines(file) == file
  {
    WithoutAbsent(file, '\n');
  }

  /** The digit conversion of `part_one`: every remaining character must be a
      decimal digit (`unwrap` panics, here `None`). */
  function ParseDigits(file: string): (r: Option<seq<nat>>)
    ensures r.Some? ==> forall i :: 0 <= i < |r.value| ==> r.value[i] <= 9
    ensures r.None? <==> exists c :: c in file && c != '\n' && !IsDigit(c)
  {
    var t := StripNewlines(file);
    assert forall c :: c in t <==> c in file && c != '\n';
    if forall i :: 0 <= i < |t| ==> IsDigit(t[i]) then
      Some(seq(|t|, i requires 0 <= i < |t| => (t[i] - '0') as nat))
    else
      None
  }

  // ---------------------------------------------------------------------
  // The reference: the layout a checksum charges

  /** Σ position × id over a layout of file ids, one per block. */
  function Weighted(layout: seq<nat>): nat {
    if layout == [] then 0
    else Weighted(layout[..|layout| - 1]) + (|layout| - 1) * layout[|layout| - 1]
  }

  /** `n` blocks of file `id`. */
  function Run(id: nat, n: nat): (r: seq<nat>)
    ensures |r| == n && forall i :: 0 <= i < n ==> r[i] == id
  {
    seq(n, _ => id)
  }

  /** The blocks of entry `i` of the disk map: a file (even `i`, id `i / 2`)
      or free space (odd `i`, nothing). */
  function Entry(ds: seq<nat>, i: nat): multiset<nat>
    requires i < |ds|
  {
    if i % 2 == 0 then multiset{}[i / 2 := ds[i]] else multiset{}
  }

  /** The file blocks of entries `i .. j - 1`. */
  function Files(ds: seq<nat>, i: nat, j: nat): multiset<nat>
    requires j <= |ds|
    decreases j - i
  {
    if i >= j then multiset{} else Entry(ds, i) + Files(ds, i + 1, j)
  }

  /** Every file block of the disk map. */
  function AllFiles(ds: seq<nat>): multiset<nat> {
    Files(ds, 0, |ds|)
  }

  lemma {:induction false} FilesSnoc(ds: seq<nat>, i: nat, j: nat)
    requires i < j <= |ds|
    ensures Files(ds, i, j) == Files(ds, i, j - 1) + Entry(ds, j - 1)
    decreases j - i
  {
    if i + 1 < j {
      FilesSnoc(ds, i + 1, j);
      assert Files(ds, i, j - 1) == Entry(ds, i) + Files(ds, i + 1, j - 1);
    } else {
      assert Files(ds, i + 1, j) == multiset{} && Files(ds, i, j - 1) == multiset{};
    }
  }

  /** L + (L + 1) + ... + (L + n - 1): the positions a run of `n` blocks
      written at `L` occupies. */
  function PositionSum(start: nat, n: nat): nat {
    if n == 0 then 0 else PositionSum(start, n - 1) + start + n - 1
  }

  lemma {:induction false} PositionSumClosed(start: nat, n: nat)
    ensures 2 * PositionSum(start, n) == 2 * (n * start) + n * (n - 1)
  {
    if n > 0 {
      PositionSumClosed(start, n - 1);
      assert (n - 1) * start == n * start - start;
      assert (n - 1) * (n - 2) == n * (n - 1) - 2 * (n - 1);
    }
  }

  lemma {:induction false} WeightedSnoc(layout: seq<nat>, id: nat)
    ensures Weighted(layout + [id]) == Weighted(layout) + |layout| * id
  {
    assert (layout + [id])[..|layout|] == layout;
  }

  lemma {:induction false} WeightedRun(layout: seq<nat>, id: nat, n: nat)
    ensures Weighted(layout + Run(id, n)) == Weighted(layout) + id * PositionSum(|layout|, n)
  {
    if n > 0 {
      WeightedRun(layout, id, n - 1);
      assert layout + Run(id, n) == (layout + Run(id, n - 1)) + [id];
      WeightedSnoc(layout + Run(id, n - 1), id);
      var a := PositionSum(|layout|, n - 1);
      var b := |layout| + n - 1;
      Distribute(id, a, b);
    } else {
      assert layout + Run(id, 0) == layout;
    }
  }

  lemma Distribute(k: int, a: int, b: int)
    ensures k * (a + b) == k * a + b * k
  {
  }

  /** Writing a run of `n` blocks of file `id` at `|layout|` adds
      id · (n · |layout| + n(n - 1)/2) to the checksum. */
  lemma {:induction false} RunChecksum(layout: seq<nat>, id: nat, n: nat)
    ensures Weighted(layout + Run(id, n)) == Weighted(layout) + id * (n * |layout| + n * (n - 1) / 2)
  {
    var p := PositionSum(|layout|, n);
    calc {
      Weighted(layout + Run(id, n));
    == { WeightedRun(layout, id, n); }
      Weighted(layout) + id * p;
    == { PositionSumValue(|layout|, n); Scale(id, p, n * |layout| + n * (n - 1) / 2); }
      Weighted(layout) + id * (n * |layout| + n * (n - 1) / 2);
    }
  }

  lemma Scale(k: int, a: int, b: int)
    requires a == b
    ensures k * a == k * b
  {
  }

  lemma {:induction false} PositionSumValue(start: nat, n: nat)
    ensures PositionSum(start, n) == n * start + n * (n - 1) / 2
  {
    PositionSumClosed(start, n);
    HalfSum(n * start, n * (n - 1), PositionSum(start, n));
  }

  lemma HalfSum(m: int, t: int, p: int)
    requires 2 * p == 2 * m + t
    ensures m + t / 2 == p
  {
  }

  lemma {:induction false} RunMultiset(id: nat, n: nat)
    ensures multiset(Run(id, n)) == multiset{}[id := n]
  {
    if n > 0 {
      RunMultiset(id, n - 1);
      assert Run(id, n) == Run(id, n - 1) + [id];
    }
  }

  // ---------------------------------------------------------------------
  // The two-pointer compaction of `part_one`

  /** The loop variables of `part_one`. `layout` records the file id the
      checksum charges at each output position. */
  datatype Disk = Disk(left: nat, right: nat, leftovers: nat, checksum: int,
                       out: nat, isFile: bool, layout: seq<nat>)

  /** One block of the file at `right` written at `out` (the division comes
      after the multiplication, as written). */
  function Place(d: Disk): (r: Disk)
    ensures r.left == d.left && r.right == d.right && r.isFile == d.isFile
    ensures r.out == d.out + 1 && r.layout == d.layout + [d.right / 2]
  {
    d.(checksum := d.checksum + d.out * d.right / 2, out := d.out + 1, layout := d.layout + [d.right / 2])
  }

  /** `input_right -= 2` and reload the leftovers; `None` when the unsigned
      index would go below zero. */
  function StepRight(ds: seq<nat>, d: Disk): (r: Option<Disk>)
    requires d.right < |ds|
    ensures r.Some? <==> d.right >= 2
    ensures r.Some? ==> r.value.right == d.right - 2 && r.value.leftovers == ds[d.right - 2]
    ensures r.Some? ==> r.value == d.(right := d.right - 2, leftovers := ds[d.right - 2])
  {
    if d.right < 2 then None else Some(d.(right := d.right - 2, leftovers := ds[d.right - 2]))
  }

  /** The inner `while` loop: fill `empty` free blocks from the right. */
  function FillSpace(ds: seq<nat>, d: Disk, empty: nat): (r: Option<Disk>)
    requires d.right < |ds|
    ensures r.Some? ==> r.value.right < |ds| && r.value.right <= d.right
    ensures r.Some? ==> r.value.left == d.left && r.value.isFile == d.isFile
    ensures r.Some? ==> r.value.out <= d.out + empty
    decreases empty + d.right
  {
    if !(empty > 0 && d.left < d.right) then Some(d)
    else if d.leftovers == 0 then
      match StepRight(ds, d)
      case None => None
      case Some(e) => FillSpace(ds, e, empty)
    else FillSpace(ds, Place(d).(leftovers := d.leftovers - 1), empty - 1)
  }

  /** The check after the inner loop: a used-up file moves `right` on. */
  function AfterFill(ds: seq<nat>, d: Disk): (r: Option<Disk>)
    requires d.right < |ds|
    ensures r.Some? ==> r.value.right < |ds| && r.value.left == d.left && r.value.isFile == d.isFile
    ensures d.leftovers != 0 ==> r == Some(d)
  {
    if d.leftovers == 0 then StepRight(ds, d) else Some(d)
  }

  /** A file entry written in place: `n` blocks of id `left / 2`. */
  function PlaceFile(ds: seq<nat>, d: Disk): (r: Disk)
    requires d.left < |ds|
    ensures r.out == d.out + ds[d.left] && r.left == d.left && r.right == d.right
    ensures r.layout == d.layout + Run(d.left / 2, ds[d.left])
  {
    var n := ds[d.left];
    d.(checksum := d.checksum + (d.left / 2) * (n * d.out + n * (n - 1) / 2),
       out := d.out + n, layout := d.layout + Run(d.left / 2, n))
  }

  /** The outer `while input_left < input_right` loop. */
  function Compact(ds: seq<nat>, d: Disk): (r: Option<Disk>)
    requires d.right < |ds|
    ensures r.Some? ==> r.value.right < |ds| && r.value.left >= r.value.right && r.value.left >= d.left
    decreases |ds| - d.left
  {
    if !(d.left < d.right) then Some(d)
    else if d.isFile then
      Compact(ds, PlaceFile(ds, d).(left := d.left + 1, isFile := false))
    else
      match FillSpace(ds, d, ds[d.left])
      case None => None
      case Some(e) =>
        match AfterFill(ds, e)
        case None => None
        case Some(f) => Compact(ds, f.(left := f.left + 1, isFile := !f.isFile))
  }

  /** The final `for` loop: `n` more blocks of the file at `right`. */
  function Drain(d: Disk, n: nat): (r: Disk)
    ensures r.out == d.out + n && r.right == d.right && r.left == d.left
    ensures r.layout == d.layout + Run(d.right / 2, n)
    decreases n
  {
    if n == 0 then
      assert d.layout + Run(d.right / 2, 0) == d.layout;
      d
    else
      var r := Drain(Place(d), n - 1);
      assert d.layout + [d.right / 2] + Run(d.right / 2, n - 1) == d.layout + Run(d.right / 2, n);
      r
  }

  /** The variables before the loop; `None` for an empty map, where
      `len() - 1` underflows. */
  function Start(ds: seq<nat>): (r: Option<Disk>)
    ensures r.Some? <==> |ds| > 0
    ensures r.Some? ==> r.value.right == |ds| - 1 && r.value.layout == []
  {
    if ds == [] then None
    else Some(Disk(0, |ds| - 1, ds[|ds| - 1], 0, 0, true, []))
  }

  /** `part_one` as written on a parsed disk map: the final loop always runs,
      even when `input_left` has passed `input_right`. */
  function CompactAsWritten(ds: seq<nat>): (r: Option<Disk>)
    ensures |ds| == 0 ==> r.None?
  {
    match Start(ds)
    case None => None
    case Some(s) =>
      match Compact(ds, s)
      case None => None
      case Some(e) => Some(Drain(e, e.leftovers))
  }

  /** The corrected compaction: the leftovers belong to a file not yet
      written only while `input_left <= input_right`. */
  function CompactCorrected(ds: seq<nat>): (r: Option<Disk>)
    ensures |ds| == 0 ==> r.None?
  {
    match Start(ds)
    case None => None
    case Some(s) =>
      match Compact(ds, s)
      case None => None
      case Some(e) => Some(if e.left <= e.right then Drain(e, e.leftovers) else e)
  }

  function Checksum(r: Option<Disk>): Option<int> {
    if r.None? then None else Some(r.value.checksum)
  }

  /** `part_one` as written. */
  function PartOneAsWritten(file: string): Option<int> {
    match ParseDigits(file)
    case None => None
    case Some(ds) => Checksum(CompactAsWritten(ds))
  }

  /** `part_one` with the final loop guarded. */
  function PartOne(file: string): Option<int> {
    match ParseDigits(file)
    case None => None
    case Some(ds) => Checksum(CompactCorrected(ds))
  }

  // ---------------------------------------------------------------------
  // The loop invariant

  /** The file blocks not yet written: the entries from `left` up to `right`
      and the unwritten part of the file at `right`; nothing once `left` has
      passed `right`. */
  function Pending(ds: seq<nat>, d: Disk): multiset<nat>
    requires d.right < |ds|
  {
    if d.left <= d.right then Files(ds, d.left, d.right) + multiset{}[d.right / 2 := d.leftovers]
    else multiset{}
  }

  /** For a map of odd length: `right` sits on a file, the block kind follows
      the parity of `left`, one output position per block written, the
      checksum is that of the layout written, and the layout plus the pending
      blocks are exactly the disk's file blocks. */
  ghost predicate Inv(ds: seq<nat>, d: Disk) {
    && |ds| % 2 == 1
    && d.right < |ds| && d.right % 2 == 0
    && (d.isFile <==> d.left % 2 == 0)
    && d.out == |d.layout|
    && d.checksum == Weighted(d.layout)
    && multiset(d.layout) + Pending(ds, d) == AllFiles(ds)
  }

  lemma PlacePreserves(ds: seq<nat>, d: Disk)
    requires Inv(ds, d) && d.left < d.right && d.leftovers > 0 && d.left % 2 == 1
    ensures Inv(ds, Place(d).(leftovers := d.leftovers - 1))
  {
    var e := Place(d).(leftovers := d.leftovers - 1);
    var k := d.right / 2;
    assert d.out * d.right / 2 == d.out * k;
    assert multiset{}[k := d.leftovers] == multiset{}[k := d.leftovers - 1] + multiset{k};
    assert multiset(e.layout) == multiset(d.layout) + multiset{k};
  }

  /** Moving past a used-up file loses no pending block. */
  lemma StepRightPending(ds: seq<nat>, d: Disk)
    requires d.right < |ds| && d.right % 2 == 0 && d.right >= 2
    requires d.leftovers == 0 && d.left % 2 == 1
    ensures Pending(ds, StepRight(ds, d).value) == Pending(ds, d)
  {
    var e := StepRight(ds, d).value;
    var i, j := d.left, d.right;
    assert e.left == i && e.right == j - 2 && e.leftovers == ds[j - 2];
    if i + 1 < j {
      PendingOpen(ds, d);
      PendingOpen(ds, e);
      UsedUpFile(ds, i, j);
      NothingLeft(j / 2);
      assert Pending(ds, d) == Files(ds, i, j);
    } else if i + 1 == j {
      PendingOpen(ds, d);
      NothingLeft(j / 2);
      assert Pending(ds, d) == Files(ds, i, j);
      assert Files(ds, i, j) == Entry(ds, i) + Files(ds, j, j);
      SpaceEntry(ds, i);
      assert Pending(ds, e) == multiset{};
    } else {
      assert i != j;
      assert Pending(ds, d) == multiset{} && Pending(ds, e) == multiset{};
    }
  }

  /** Entries `i .. j - 1` hold the same file blocks as entries
      `i .. j - 3` together with the file at `j - 2`. */
  lemma {:induction false} UsedUpFile(ds: seq<nat>, i: nat, j: nat)
    requires i + 2 <= j <= |ds| - 1 && j % 2 == 0
    ensures Files(ds, i, j) == Files(ds, i, j - 2) + multiset{}[(j - 2) / 2 := ds[j - 2]]
    decreases j - i
  {
    if i + 2 < j {
      UsedUpFile(ds, i + 1, j);
    } else {
      SpaceEntry(ds, j - 1);
      FileEntry(ds, j - 2);
      assert Files(ds, j, j) == multiset{};
      assert Files(ds, j - 1, j) == multiset{};
    }
  }

  lemma FileEntry(ds: seq<nat>, k: nat)
    requires k < |ds| && k % 2 == 0
    ensures Entry(ds, k) == multiset{}[k / 2 := ds[k]]
  {
  }

  lemma NothingLeft(k: nat)
    ensures multiset{}[k := 0] == multiset{}
  {
  }

  lemma SpaceEntry(ds: seq<nat>, i: nat)
    requires i < |ds| && i % 2 == 1
    ensures Entry(ds, i) == multiset{}
  {
  }

  lemma StepRightPreserves(ds: seq<nat>, d: Disk)
    requires Inv(ds, d) && d.leftovers == 0 && d.left % 2 == 1 && d.right >= 2
    ensures StepRight(ds, d).Some? && Inv(ds, StepRight(ds, d).value)
  {
    StepRightPending(ds, d);
  }

  lemma {:induction false} FillSpacePreserves(ds: seq<nat>, d: Disk, empty: nat)
    requires Inv(ds, d) && d.left % 2 == 1
    ensures FillSpace(ds, d, empty).Some? ==> Inv(ds, FillSpace(ds, d, empty).value)
    decreases empty + d.right
  {
    if empty > 0 && d.left < d.right {
      if d.leftovers == 0 {
        if d.right >= 2 {
          StepRightPreserves(ds, d);
          FillSpacePreserves(ds, StepRight(ds, d).value, empty);
        }
      } else {
        PlacePreserves(ds, d);
        FillSpacePreserves(ds, Place(d).(leftovers := d.leftovers - 1), empty - 1);
      }
    }
  }

  lemma AfterFillPreserves(ds: seq<nat>, d: Disk)
    requires Inv(ds, d) && d.left % 2 == 1
    ensures AfterFill(ds, d).Some? ==> Inv(ds, AfterFill(ds, d).value)
  {
    if d.leftovers == 0 && d.right >= 2 {
      StepRightPreserves(ds, d);
    }
  }

  lemma PlaceFilePreserves(ds: seq<nat>, d: Disk)
    requires Inv(ds, d) && d.left < d.right && d.isFile
    ensures Inv(ds, PlaceFile(ds, d).(left := d.left + 1, isFile := false))
  {
    var e := PlaceFile(ds, d).(left := d.left + 1, isFile := false);
    PlaceFileChecksum(ds, d);
    PlaceFileConserves(ds, d);
  }

  lemma PlaceFileConserves(ds: seq<nat>, d: Disk)
    requires d.left < d.right < |ds| && d.left % 2 == 0
    requires multiset(d.layout) + Pending(ds, d) == AllFiles(ds)
    ensures var e := PlaceFile(ds, d).(left := d.left + 1, isFile := false);
      multiset(e.layout) + Pending(ds, e) == AllFiles(ds)
  {
    var e := PlaceFile(ds, d).(left := d.left + 1, isFile := false);
    FileWritten(ds, d);
    FilePending(ds, d);
    PendingFields(ds, e, d.(left := d.left + 1));
    Rebalance(multiset(d.layout), Entry(ds, d.left), Pending(ds, e), AllFiles(ds));
  }

  /** The pending blocks depend on `left`, `right` and `leftovers` only. */
  lemma PendingFields(ds: seq<nat>, a: Disk, b: Disk)
    requires a.left == b.left && a.right == b.right && a.leftovers == b.leftovers && a.right < |ds|
    ensures Pending(ds, a) == Pending(ds, b)
  {
  }

  lemma Rebalance<T>(a: multiset<T>, b: multiset<T>, c: multiset<T>, total: multiset<T>)
    requires a + (b + c) == total
    ensures (a + b) + c == total
  {
  }

  lemma FileWritten(ds: seq<nat>, d: Disk)
    requires d.left < |ds| && d.left % 2 == 0
    ensures multiset(PlaceFile(ds, d).layout) == multiset(d.layout) + Entry(ds, d.left)
  {
    RunMultiset(d.left / 2, ds[d.left]);
  }

  lemma PlaceFileChecksum(ds: seq<nat>, d: Disk)
    requires d.left < |ds| && d.out == |d.layout| && d.checksum == Weighted(d.layout)
    ensures PlaceFile(ds, d).checksum == Weighted(PlaceFile(ds, d).layout)
  {
    var n := ds[d.left];
    var k := d.left / 2;
    RunChecksum(d.layout, k, n);
    var t := n * d.out + n * (n - 1) / 2;
    assert PlaceFile(ds, d).checksum == d.checksum + k * t;
  }

  /** Writing the file at `left` takes its blocks out of the pending ones. */
  lemma FilePending(ds: seq<nat>, d: Disk)
    requires d.left < d.right < |ds|
    ensures Pending(ds, d) == Entry(ds, d.left) + Pending(ds, d.(left := d.left + 1))
  {
    var l, r := d.left, d.right;
    var head, rest, tail := Entry(ds, l), Files(ds, l + 1, r), multiset{}[r / 2 := d.leftovers];
    assert Pending(ds, d) == (head + rest) + tail;
    assert Pending(ds, d.(left := l + 1)) == rest + tail;
    Associate(head, rest, tail);
  }

  lemma {:induction false} PendingOpen(ds: seq<nat>, d: Disk)
    requires d.left <= d.right < |ds|
    ensures Pending(ds, d) == Files(ds, d.left, d.right) + multiset{}[d.right / 2 := d.leftovers]
  {
  }

  lemma Associate<T>(a: multiset<T>, b: multiset<T>, c: multiset<T>)
    ensures (a + b) + c == a + (b + c)
  {
  }

  /** Leaving a free-space entry: it held no file blocks. */
  lemma AdvancePreserves(ds: seq<nat>, f: Disk)
    requires Inv(ds, f) && !f.isFile
    ensures Inv(ds, f.(left := f.left + 1, isFile := !f.isFile))
  {
    AdvancePending(ds, f);
  }

  lemma AdvancePending(ds: seq<nat>, f: Disk)
    requires f.right < |ds| && f.right % 2 == 0 && f.left % 2 == 1
    ensures Pending(ds, f.(left := f.left + 1, isFile := !f.isFile)) == Pending(ds, f)
  {
    if f.left <= f.right {
      assert f.left < f.right && Entry(ds, f.left) == multiset{};
      SkipEmpty(ds, f);
    }
  }

  /** Moving past an entry without file blocks leaves the pending blocks. */
  lemma SkipEmpty(ds: seq<nat>, f: Disk)
    requires f.left < f.right < |ds| && Entry(ds, f.left) == multiset{}
    ensures Pending(ds, f.(left := f.left + 1, isFile := !f.isFile)) == Pending(ds, f)
  {
    var h := f.(isFile := !f.isFile);
    FilePending(ds, h);
    assert h.(left := h.left + 1) == f.(left := f.left + 1, isFile := !f.isFile);
    PendingFields(ds, h, f);
    Unit(Pending(ds, h.(left := h.left + 1)));
  }

  lemma Unit<T>(a: multiset<T>)
    ensures multiset{} + a == a
  {
  }

  lemma {:induction false} CompactPreserves(ds: seq<nat>, d: Disk)
    requires Inv(ds, d)
    ensures Compact(ds, d).Some? ==> Inv(ds, Compact(ds, d).value)
    decreases |ds| - d.left
  {
    if d.left < d.right {
      if d.isFile {
        PlaceFilePreserves(ds, d);
        CompactPreserves(ds, PlaceFile(ds, d).(left := d.left + 1, isFile := false));
      } else {
        FillSpacePreserves(ds, d, ds[d.left]);
        var e := FillSpace(ds, d, ds[d.left]);
        if e.Some? {
          AfterFillPreserves(ds, e.value);
          var f := AfterFill(ds, e.value);
          if f.Some? {
            AdvancePreserves(ds, f.value);
            CompactPreserves(ds, f.value.(left := f.value.left + 1, isFile := !f.value.isFile));
          }
        }
      }
    }
  }

  lemma {:induction false} DrainKeeps(d: Disk, n: nat)
    requires d.out == |d.layout| && d.checksum == Weighted(d.layout) && d.right % 2 == 0
    ensures var r := Drain(d, n); r.out == |r.layout| && r.checksum == Weighted(r.layout)
    decreases n
  {
    if n > 0 {
      var e := Place(d);
      assert d.out * d.right / 2 == d.out * (d.right / 2);
      assert e.layout[..|e.layout| - 1] == d.layout;
      DrainKeeps(e, n - 1);
    }
  }

  lemma StartEstablishes(ds: seq<nat>)
    requires |ds| % 2 == 1
    ensures Inv(ds, Start(ds).value)
  {
    var s := Start(ds).value;
    StartPending(ds);
    assert multiset(s.layout) == multiset{};
    assert Weighted(s.layout) == 0;
  }

  /** At the start nothing is written: every file block is pending. */
  lemma StartPending(ds: seq<nat>)
    requires |ds| % 2 == 1
    ensures Pending(ds, Start(ds).value) == AllFiles(ds)
  {
    var s := Start(ds).value;
    var last := |ds| - 1;
    FilesSnoc(ds, 0, |ds|);
    assert Entry(ds, last) == multiset{}[last / 2 := ds[last]];
    assert Pending(ds, s) == Files(ds, 0, last) + multiset{}[last / 2 := ds[last]];
  }

  // ---------------------------------------------------------------------
  // What the compaction computes

  /** On a map of odd length, the corrected compaction writes every file
      block exactly once, and its checksum is Σ position × id of the blocks
      it wrote; only the `usize` underflow can stop it. */
  lemma CorrectedWritesEveryBlockOnce(ds: seq<nat>)
    requires |ds| % 2 == 1
    requires CompactCorrected(ds).Some?
    ensures var r := CompactCorrected(ds).value;
      && multiset(r.layout) == AllFiles(ds)
      && r.out == |r.layout|
      && r.checksum == Weighted(r.layout)
  {
    var s := Start(ds).value;
    StartEstablishes(ds);
    CompactPreserves(ds, s);
    var e := Compact(ds, s).value;
    if e.left <= e.right {
      assert e.left == e.right;
      assert Pending(ds, e) == multiset{}[e.right / 2 := e.leftovers];
      DrainKeeps(e, e.leftovers);
      RunMultiset(e.right / 2, e.leftovers);
    }
  }

  /** When the loop stops with `left` past `right`, the code as written
      writes the leftovers of an already written file a second time. */
  lemma {:induction false} AsWrittenRewritesLeftovers(ds: seq<nat>)
    requires |ds| % 2 == 1
    requires Compact(ds, Start(ds).value).Some?
    requires Compact(ds, Start(ds).value).value.left > Compact(ds, Start(ds).value).value.right
    ensures var e := Compact(ds, Start(ds).value).value;
      multiset(CompactAsWritten(ds).value.layout) == AllFiles(ds) + multiset{}[e.right / 2 := e.leftovers]
  {
    var s := Start(ds).value;
    StartEstablishes(ds);
    CompactPreserves(ds, s);
    var e := Compact(ds, s).value;
    RunMultiset(e.right / 2, e.leftovers);
  }

  /** Whenever the loop stops with the pointers meeting, the final loop is
      needed and the code as written agrees with the corrected one. */
  lemma {:induction false} AsWrittenAgreesWhenPointersMeet(ds: seq<nat>)
    requires Start(ds).Some? && Compact(ds, Start(ds).value).Some?
    requires Compact(ds, Start(ds).value).value.left == Compact(ds, Start(ds).value).value.right
    ensures CompactAsWritten(ds) == CompactCorrected(ds)
  {
  }

  // ---------------------------------------------------------------------
  // Examples

  /** A map without newlines is read digit by digit. */
  lemma ParsePlain(t: string)
    requires '\n' !in t && forall i :: 0 <= i < |t| ==> IsDigit(t[i])
    ensures ParseDigits(t).Some? && |ParseDigits(t).value| == |t|
    ensures forall i :: 0 <= i < |t| ==> ParseDigits(t).value[i] == (t[i] - '0') as nat
  {
    StripPlain(t);
  }

  /** A map without newlines reads as the given digit values. */
  lemma ParseAs(t: string, v: seq<nat>)
    requires '\n' !in t && |v| == |t|
    requires forall i :: 0 <= i < |t| ==> IsDigit(t[i]) && v[i] == (t[i] - '0') as nat
    ensures ParseDigits(t) == Some(v)
  {
    ParsePlain(t);
    assert ParseDigits(t).value == v;
  }

  lemma ParseSimple()
    ensures ParseDigits("11111") == Some([1, 1, 1, 1, 1])
  {
    ParseAs("11111", [1, 1, 1, 1, 1]);
  }

  const SimpleMap: seq<nat> := [1, 1, 1, 1, 1]

  lemma SimpleFile()
    ensures Compact(SimpleMap, Disk(0, 4, 1, 0, 0, true, []))
         == Compact(SimpleMap, Disk(1, 4, 1, 0, 1, false, [0]))
  {
    var d := Disk(0, 4, 1, 0, 0, true, []);
    assert Run(0, 1) == [0];
    assert [] + [0] == [0];
    assert PlaceFile(SimpleMap, d).(left := 1, isFile := false) == Disk(1, 4, 1, 0, 1, false, [0]);
  }

  lemma SimpleFill()
    ensures FillSpace(SimpleMap, Disk(1, 4, 1, 0, 1, false, [0]), 1) == Some(Disk(1, 4, 0, 2, 2, false, [0, 2]))
  {
    var d := Disk(1, 4, 1, 0, 1, false, [0]);
    assert Place(d).(leftovers := 0) == Disk(1, 4, 0, 2, 2, false, [0, 2]);
  }

  lemma SimpleGap()
    ensures Compact(SimpleMap, Disk(1, 4, 1, 0, 1, false, [0])) == Some(Disk(2, 2, 1, 2, 2, true, [0, 2]))
  {
    SimpleFill();
  }

  lemma SimpleCompaction()
    ensures Checksum(CompactCorrected(SimpleMap)) == Some(4)
    ensures Checksum(CompactAsWritten(SimpleMap)) == Some(4)
  {
    SimpleEnd();
    SimpleDrain();
  }

  lemma SimpleEnd()
    ensures Compact(SimpleMap, Start(SimpleMap).value) == Some(Disk(2, 2, 1, 2, 2, true, [0, 2]))
  {
    SimpleFile();
    SimpleGap();
  }

  lemma SimpleDrain()
    ensures Drain(Disk(2, 2, 1, 2, 2, true, [0, 2]), 1).checksum == 4
  {
    var e := Disk(2, 2, 1, 2, 2, true, [0, 2]);
    assert Drain(e, 1) == Drain(Place(e), 0);
  }

  /** The test module's small case: blocks 0, 2 and 1, checksum 0 + 2 + 2. */
  lemma ExampleSimple()
    ensures PartOne("11111") == Some(4) && PartOneAsWritten("11111") == Some(4)
  {
    ParseSimple();
    SimpleCompaction();
  }

  lemma ParseDoubleCount()
    ensures ParseDigits("10211") == Some([1, 0, 2, 1, 1])
  {
    ParseDoubleText("10211");
  }

  lemma ParseDoubleText(t: string)
    requires t == "10211"
    ensures ParseDigits(t) == Some([1, 0, 2, 1, 1])
  {
    ParseAs(t, [1, 0, 2, 1, 1]);
  }

  const DoubleMap: seq<nat> := [1, 0, 2, 1, 1]

  lemma DoubleFiles()
    ensures Compact(DoubleMap, Disk(0, 4, 1, 0, 0, true, []))
         == Compact(DoubleMap, Disk(3, 4, 1, 3, 3, false, [0, 1, 1]))
  {
    var s0 := Disk(0, 4, 1, 0, 0, true, []);
    var s1 := Disk(1, 4, 1, 0, 1, false, [0]);
    var s2 := Disk(2, 4, 1, 0, 1, true, [0]);
    var s3 := Disk(3, 4, 1, 3, 3, false, [0, 1, 1]);
    assert Run(0, 1) == [0] && Run(1, 2) == [1, 1];
    assert [] + [0] == [0] && [0] + [1, 1] == [0, 1, 1];
    assert PlaceFile(DoubleMap, s0).(left := 1, isFile := false) == s1;
    assert FillSpace(DoubleMap, s1, 0) == Some(s1);
    assert Compact(DoubleMap, s1) == Compact(DoubleMap, s2);
    assert PlaceFile(DoubleMap, s2).(left := 3, isFile := false) == s3;
  }

  lemma DoubleFill()
    ensures FillSpace(DoubleMap, Disk(3, 4, 1, 3, 3, false, [0, 1, 1]), 1)
         == Some(Disk(3, 4, 0, 9, 4, false, [0, 1, 1, 2]))
  {
    var d := Disk(3, 4, 1, 3, 3, false, [0, 1, 1]);
    assert Place(d).(leftovers := 0) == Disk(3, 4, 0, 9, 4, false, [0, 1, 1, 2]);
  }

  /** After the gap the right pointer has moved back to file 1, already
      written, and the loop stops with `left` past `right`. */
  lemma DoubleGap()
    ensures Compact(DoubleMap, Disk(3, 4, 1, 3, 3, false, [0, 1, 1]))
         == Some(Disk(4, 2, 2, 9, 4, true, [0, 1, 1, 2]))
  {
    DoubleFill();
  }

  /** "10211": file 0 (1 block), no gap, file 1 (2 blocks), a gap of 1, file
      2 (1 block). Compacted: 0 1 1 2, checksum 0 + 1 + 2 + 6 = 9. As written
      the final loop writes file 1 a second time at positions 4 and 5, for
      18. */
  lemma DoubleCount()
    ensures PartOneAsWritten("10211") == Some(18)
    ensures PartOne("10211") == Some(9)
  {
    ParseDoubleCount();
    DoubleCompaction();
  }

  lemma DoubleCompaction()
    ensures Checksum(CompactAsWritten(DoubleMap)) == Some(18)
    ensures Checksum(CompactCorrected(DoubleMap)) == Some(9)
  {
    DoubleFiles();
    DoubleGap();
    DoubleDrain();
    assert Start(DoubleMap) == Some(Disk(0, 4, 1, 0, 0, true, []));
  }

  /** The final loop writes two more blocks of file 1, at 4 and 5. */
  lemma DoubleDrain()
    ensures Drain(Disk(4, 2, 2, 9, 4, true, [0, 1, 1, 2]), 2).checksum == 18
  {
    var e := Disk(4, 2, 2, 9, 4, true, [0, 1, 1, 2]);
    var e1 := Place(e);
    assert e1.checksum == 13;
    assert Place(e1).checksum == 18;
    assert Drain(e, 2) == Drain(e1, 1);
    assert Drain(e1, 1) == Drain(Place(e1), 0);
  }
}

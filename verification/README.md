# Advent of Code 2024 solutions, modelled in Dafny

This project models the puzzle solvers of the Rust repository
`advent-of-code-2024`, one binary per day under `src/bin/NN.rs`, and proves
properties of the model. It covers days 1, 2 and 4 to 25. Each day is a
module `DayNN` in `dayNN.dfy`. `common.dfy` (module `Common`) holds what
several days share:

- `Option`;
- points and grids;
- the text helpers standing for Rust's `split`, `lines`, `trim` and
  `str::parse`;
- powers of two and exclusive or on natural numbers.

Each `part_one` / `part_two` becomes a function from the puzzle input to the
answer. Inputs are the text of the input file, or the parsed structure where
parsing is plain.

- A `panic!`, `unwrap` or `expect` that input can trigger is modelled as
  `None`, or as a precondition where the source indexes unconditionally.
- Loops are recursive functions. A `method` with loop invariants is used
  where the loop itself is the subject.
- Loops with no bound in the source (the racetrack walk of day 20, the
  breadth-first search of day 18) are given a fuel bound. The loops of
  days 6, 13, 16 and 17 keep the source's own iteration ceilings.
- Rust's fixed-width integers are unbounded `int`/`nat` unless the width
  matters to the answer. Where it does, the width is written out:
  - the `u32` powers `2u32.pow(k)` of day 17, which panic from `k = 32` on;
  - the `u64` left shift of day 22, which drops the bits shifted out;
  - the truncating `i32` remainders of day 14;
  - day 24's `1 << bits`, which is `None` from `bits = 64` on. This follows
    Rust's debug build, where a shift by the full width or more panics.
- Underflows that panic in the source are `None` in the model:
  - day 9's `len() - 1` on an empty disk map, and its right pointer
    dropping below zero;
  - day 18's `path.len() - 1` when no path was found;
  - day 25's `x - 1` on a column without '#'.

Most properties are proved against an independent definition or as a
relation between operations. Parsing helpers state what they keep, as a
multiset of lines or characters, and a round-trip lemma writes a structure
out and reads it back. The kinds of partner used:

- a reference definition, such as `Safe` for day 2's reports, the pairs of pages
  that break a rule for day 5's updates, or the set of walks a grid allows;
- a round trip, such as render/parse in day 17, `Blocks`/`Unblock` in
  day 25, or the file layouts read back by `RowsRead` and `FileRead`;
- an invariant, such as the checksum and block multiset of day 9's disk,
  or the box count and walls of day 15's warehouse;
- one of the puzzles' own worked examples.

## Model

| member | source | states |
|---|---|---|
| Common.JoinSplit | src/bin/01.rs:9 | splitting a text at a separator and joining the pieces with it gives the text back |
| Common.SplitJoin | src/bin/01.rs:9 | splitting pieces joined by a separator that none contains gives the pieces back |
| Common.LinesJoin | src/bin/22.rs:5 | `lines()` on lines joined with line feeds, with a final line feed, gives the lines back |
| Common.Trim | src/bin/19.rs:8 | the trimmed text is the input with only whitespace cut from its two ends, starts and ends with a non-space, and equals the input when that has no whitespace |
| Common.TrimPadded | src/bin/19.rs:8 | trimming whitespace put around a text whose ends are not whitespace gives that text back |
| Common.TrimIdempotent | src/bin/19.rs:8 | trimming twice is trimming once |
| Common.ParseNat | src/bin/22.rs:7 | parsing succeeds exactly on a non-empty run of decimal digits |
| Common.ParseDecimal | src/bin/17.rs:91 | parsing the decimal rendering of a number gives the number back |
| Common.ParseWordDecimal | src/bin/22.rs:7 | a `u64` rendered in decimal parses back as a `u64` |
| Common.XorSelfInverse | src/bin/17.rs:47 | exclusive or with the same operand twice is the identity |
| Common.XorBound | src/bin/22.rs:14-16 | exclusive or of two `k`-bit numbers is a `k`-bit number |
| Common.Set | src/bin/15.rs:103-116 | writing one cell of a grid changes that cell and no other, and keeps the shape |
| Common.Split | src/bin/01.rs:9 | `split` on one character gives at least one piece, and no piece holds the separator |
| Common.NonEmpty | src/bin/18.rs:7 | filtering out empty lines keeps every non-empty line as often as it occurs and nothing else |
| Common.NonEmptyLines | src/bin/18.rs:5-7 | non-empty rows written one per line, each closed by a line feed, are read back in their order by splitting at line feeds and dropping the empty pieces |
| Common.Without | src/bin/04.rs:6 | the filter keeps every entry other than the dropped one, as often as it occurs, and nothing else |
| Common.WithoutAppend | src/bin/04.rs:6 | filtering works piece by piece, so what is kept stays in input order |
| Common.WithoutAbsent | src/bin/09.rs:3-5 | filtering out an entry that does not occur changes nothing |
| Common.SplitFirst | src/bin/18.rs:9 | splitting at the first separator gives the text before it followed by the pieces of the rest |
| Common.Lines | src/bin/20.rs:4 | no line holds a line feed |
| Common.Decimal | src/bin/17.rs:91 | `to_string` on a number gives a non-empty run of decimal digits |
| Common.ParseWord | src/bin/22.rs:7 | `parse::<u64>` succeeds exactly on decimal digits whose value is below 2^64, and then gives that value |
| Common.Neighbour | src/bin/20.rs:7 | a step in any of the four directions reaches an adjacent cell |
| Day01.Columns | src/bin/01.rs:9-20 | the two columns hold, in order, the pair of each line the pattern matched, and lines that do not match contribute nothing |
| Day01.Sort | src/bin/01.rs:23-24 | the sorted column is ordered and is a permutation of the column |
| Day01.SortedUnique | src/bin/01.rs:23-24 | two ordered permutations of each other are equal, so the sorted column depends only on its contents |
| Day01.PermutationInvariant | src/bin/01.rs:4-32 | reordering either column does not change the total distance |
| Day01.ColumnsSymmetric | src/bin/01.rs:26-29 | swapping the two columns does not change the total distance |
| Day01.SameNumbersZero | src/bin/01.rs:22-31 | the distance is 0 when the columns hold the same numbers |
| Day01.ZeroOnlyForSameNumbers | src/bin/01.rs:22-31 | the distance is 0 only when the columns hold the same numbers |
| Day01.Insert | src/bin/01.rs:22-23 | inserting into a sorted list keeps it sorted and adds exactly the one value |
| Day02.ScanOneMeans | src/bin/02.rs:29-39 | the inner loop accepts the rest of a report exactly when every later step goes in the given direction by 1 to 3 |
| Day02.SafeOneIsSafe | src/bin/02.rs:27-40 | `part_one` counts a report exactly when it is strictly monotone with steps of 1 to 3 |
| Day02.PartOne | src/bin/02.rs:21-43 | part one counts at most one per report |
| Day02.ShortReports | src/bin/02.rs:48-53 | a report with fewer than three levels is counted by part two exactly when it is non-empty |
| Day02.DeltaSkipsProblem | src/bin/02.rs:57-72 | `delta` with a problem index is the step of the report with that level removed |
| Day02.SecondProblemRejects | src/bin/02.rs:104-107 | a second invalid step rejects the report |
| Day02.ScanTwoAcceptsSafe | src/bin/02.rs:103-121 | a report with no invalid step passes the tolerant scan |
| Day02.SafeOneImpliesSafeTwo | src/bin/02.rs:21-124 | every report part one counts is counted by part two |
| Day02.PartOneAtMostPartTwo | src/bin/02.rs:21-124 | part one's answer never exceeds part two's |
| Day02.PartTwo | src/bin/02.rs:45-124 | part two counts at most one per report |
| Day02.PartOneSample | src/bin/02.rs:130-142 | the six-report example has 2 safe reports |
| Day02.PartTwoSample | src/bin/02.rs:172-177 | the six-report example has 4 reports safe with one removal |
| Day02.PartTwoRemovals | src/bin/02.rs:144-170 | removing the second, third, first or last level each makes a report safe |
| Day04.FirstLineEnd | src/bin/04.rs:4 | the width is measured up to the first line feed, or to the end when there is none |
| Day04.RemoveSpaces | src/bin/04.rs:6 | removing spaces keeps every other character as often as it occurs and leaves no space |
| Day04.RemoveSpacesIdentity | src/bin/04.rs:6 | removing spaces from text without spaces changes nothing |
| Day04.TestAhead | src/bin/04.rs:10-28 | a test scores at most 1, scores 0 when the fourth letter would be past the end, and scores only from an X or an S |
| Day04.TestAheadMeans | src/bin/04.rs:10-28 | a test in bounds scores 1 exactly when the four letters at the stride spell XMAS forwards or backwards |
| Day04.Contribution | src/bin/04.rs:30-37 | a position adds at most 4, and nothing unless it holds an X or an S |
| Day04.FilterLosesNothing | src/bin/04.rs:30-38 | skipping positions without X or S gives the same count as testing every stride at every position |
| Day04.CountBound | src/bin/04.rs:30-39 | the count is at most four per letter |
| Day04.PlainWidth | src/bin/04.rs:4-5 | when the first line has no whitespace the width is its length |
| Day04.PlainText | src/bin/04.rs:3-40 | on text without spaces, part one counts with the first line's length as the width |
| Day04.ExampleBackwards | src/bin/04.rs:63-69 | "SAMX" holds one match |
| Day04.ExampleDownwards | src/bin/04.rs:71-77 | the vertical XMAS holds one match |
| Day04.ExampleDiagonals | src/bin/04.rs:79-85 | the 4x4 grid with two diagonals holds two matches |
| Day05.RequiredSnoc | src/bin/05.rs:12-19 | one more rule `(a, b)` appends `a` to the list of `b` and leaves every other list as it was |
| Day05.RequiredMembers | src/bin/05.rs:6-21 | `x` is listed under `k` exactly when `(x, k)` is one of the rules |
| Day05.BuildRuleset | src/bin/05.rs:6-21 | the ruleset has a key exactly for the pages some rule says must follow, mapped to the pages required before them in rule order |
| Day05.RulesetMembers | src/bin/05.rs:6-21 | a page is listed under a key exactly when the rule "page before key" was given |
| Day05.NoneListedFromMeans | src/bin/05.rs:27-31 | the inner loop passes exactly when no later page is in the rule's list |
| Day05.ValidFromMeans | src/bin/05.rs:24-34 | the outer loop from page `i` passes exactly when no pair of pages from `i` on breaks a rule |
| Day05.IsUpdateValidMeans | src/bin/05.rs:23-35 | an update is valid exactly when no page is followed by one that the rules require before it |
| Day05.ShortUpdateValid | src/bin/05.rs:23-35 | an update of at most one page is valid |
| Day05.RemovePageKeepsValid | src/bin/05.rs:23-35 | removing a page from a valid update leaves it valid |
| Day05.MiddleSumAppend | src/bin/05.rs:72-80 | the answer over two batches of updates is the sum of the answers over each |
| Day05.InvalidUpdatesIgnored | src/bin/05.rs:73-78 | an invalid update adds nothing to the answer |
| Day05.ExampleOneRule | src/bin/05.rs:68-81 | with the rule "1 before 2", only the middle page of the update printing 1 first is added |
| Day06.ParseData | src/bin/06.rs:3-10 | the rows are the pieces between line feeds: joined back with line feeds they give the input |
| Day06.HeadingUnit | src/bin/06.rs:36 | each of the four directions is a unit step |
| Day06.TurnRight | src/bin/06.rs:36-43 | one more turn rotates the heading a quarter turn to the right |
| Day06.FindStart | src/bin/06.rs:21-32 | the start is the first `^` in row-major order, and there is none exactly when no row holds a `^` |
| Day06.Walk | src/bin/06.rs:37-53 | the walk only adds marks, and marks only cells that are in the grid and not obstacles |
| Day06.Visited | src/bin/06.rs:33-53 | the start is marked, and every marked cell is an open cell of the grid |
| Day06.PartOneBounds | src/bin/06.rs:12-64 | the answer is at least 1 and at most the number of open cells |
| Day06.NoFuelNoMarks | src/bin/06.rs:37 | once the iteration cap is reached the walk adds no mark |
| Day06.ExampleAlone | src/bin/06.rs:12-64 | a grid holding only the guard has one distinct position |
| Day07.ValuesAtLeast | src/bin/07.rs:4-13 | with positive numbers, every value an operator choice yields is at least the running value, which is what makes the pruning safe |
| Day07.ExploreSound | src/bin/07.rs:4-13 | when the search succeeds, some left-to-right choice of `+` and `*` reaches the target |
| Day07.ExploreComplete | src/bin/07.rs:4-13 | with positive numbers, the search succeeds whenever some choice of operators reaches the target |
| Day07.ExploreMeans | src/bin/07.rs:4-13 | with positive numbers, the search succeeds exactly when the target is reachable |
| Day07.ZeroDefeatsPruning | src/bin/07.rs:5-7 | with a zero among the numbers the pruning can reject a reachable target: `1 * 0` reaches 0, yet the search for 0 from 1 fails |
| Day07.PartOneReachable | src/bin/07.rs:15-33 | with positive numbers, part one sums the targets of exactly the lines whose target some operator choice reaches |
| Day07.PartOneAppend | src/bin/07.rs:17-31 | the answer over two batches of lines is the sum of the answers over each |
| Day07.Sample | src/bin/07.rs:39-53 | the nine-line example sums to 3749 |
| Day08.ParseInput | src/bin/08.rs:4-9 | the map rows are the non-empty pieces between line feeds, each as often as it occurs |
| Day08.RowsRead | src/bin/08.rs:4-9 | a map written one row per line, with a final line feed, is read back row for row in order |
| Day08.GridCells | src/bin/08.rs:13-21 | the scan lists only on-map cells that are not `.`, with their letter, and no cell twice |
| Day08.GridCellsComplete | src/bin/08.rs:13-21 | every on-map cell that is not `.` is listed by the scan |
| Day08.OfSnoc | src/bin/08.rs:18-19 | one more scanned cell appends its position to its own frequency's list only |
| Day08.OfMembers | src/bin/08.rs:11-23 | a position is in a frequency's list exactly when the scan found that frequency there |
| Day08.Group | src/bin/08.rs:11-23 | the map has a key exactly for the frequencies scanned, each mapped to its positions in scan order |
| Day08.FindAntennasMeans | src/bin/08.rs:11-23 | a frequency lists exactly the cells of the map holding that character |
| Day08.AntinodeSingle | src/bin/08.rs:25-38 | the single antinodes are exactly the on-map points one antenna gap beyond either antenna, at most two |
| Day08.Ray | src/bin/08.rs:46-54 | each loop yields the on-map points `p + k·d` for consecutive `k` from 0 and stops at the first off-map one |
| Day08.RayMeans | src/bin/08.rs:46-63 | a loop started on the map yields exactly the on-map points on its ray |
| Day08.AntinodesMultiple | src/bin/08.rs:40-65 | every resonant antinode is on the map, and both antennas are among them |
| Day08.AntinodesMultipleMeans | src/bin/08.rs:40-65 | the resonant antinodes are exactly the on-map points on the ray back from the first antenna or on from the second |
| Day08.SingleWithinMultiple | src/bin/08.rs:25-65 | every single antinode is also a resonant one |
| Day08.Antinodes | src/bin/08.rs:77-85 | every marked cell is on the map |
| Day08.AntennasValid | src/bin/08.rs:11-23 | on a square map each frequency lists distinct on-map positions |
| Day08.PartOneAtMostPartTwo | src/bin/08.rs:67-104 | part one's count never exceeds part two's |
| Day08.RowCells | src/bin/08.rs:13-22 | a row's antennas are its cells other than '.', each once, with its own character and position |
| Day09.StripNewlines | src/bin/09.rs:3-5 | removing line feeds keeps every other character as often as it occurs |
| Day09.StripPlain | src/bin/09.rs:3-5 | text without line feeds is unchanged |
| Day09.ParseDigits | src/bin/09.rs:8-13 | parsing fails exactly when a character other than a line feed is not a decimal digit; otherwise every entry is at most 9 |
| Day09.ParsePlain | src/bin/09.rs:8-13 | a run of digits parses to the digits' values, one per character |
| Day09.PositionSumValue | src/bin/09.rs:24 | the closed form `n * out + n * (n - 1) / 2` is the sum of the `n` output positions from `out` |
| Day09.RunChecksum | src/bin/09.rs:24 | the closed-form increment for a file entry is the checksum of writing its blocks one by one |
| Day09.Place | src/bin/09.rs:35-38 | one block of the right-hand file is written at the next output position |
| Day09.StepRight | src/bin/09.rs:31-32 | moving the right pointer on succeeds exactly when it would not go below zero, and reloads the leftovers from the new entry |
| Day09.FillSpace | src/bin/09.rs:29-39 | filling free space never moves the right pointer up and writes at most as many blocks as the space holds |
| Day09.AfterFill | src/bin/09.rs:40-43 | the right pointer moves only when the right-hand file is used up |
| Day09.PlaceFile | src/bin/09.rs:21-25 | a file entry writes its blocks, all with its own id, at the next output positions |
| Day09.Compact | src/bin/09.rs:20-47 | the loop ends with the left pointer at or past the right one |
| Day09.Drain | src/bin/09.rs:48-51 | the final loop writes `n` more blocks of the right-hand file |
| Day09.Start | src/bin/09.rs:14-19 | setup fails exactly on an empty map, where `len() - 1` underflows |
| Day09.PlacePreserves | src/bin/09.rs:35-38 | writing one moved block keeps the loop invariant: checksum of the layout written, and layout plus pending blocks equal to the disk's file blocks |
| Day09.StepRightPreserves | src/bin/09.rs:30-33 | moving past a used-up file keeps the loop invariant |
| Day09.FillSpacePreserves | src/bin/09.rs:29-39 | the inner loop keeps the loop invariant |
| Day09.AfterFillPreserves | src/bin/09.rs:40-43 | the check after the inner loop keeps the loop invariant |
| Day09.PlaceFilePreserves | src/bin/09.rs:21-25 | writing a file entry in place keeps the loop invariant |
| Day09.AdvancePreserves | src/bin/09.rs:45-46 | moving the left pointer past a free-space entry keeps the loop invariant |
| Day09.CompactPreserves | src/bin/09.rs:20-47 | the outer loop keeps the loop invariant |
| Day09.DrainKeeps | src/bin/09.rs:48-51 | the final loop keeps the checksum equal to the checksum of the layout written |
| Day09.StartEstablishes | src/bin/09.rs:14-19 | on a map of odd length the setup establishes the loop invariant |
| Day09.CorrectedWritesEveryBlockOnce | src/bin/09.rs:7-53 | with the final loop guarded, every file block is written exactly once, and the answer is the checksum of that layout |
| Day09.AsWrittenRewritesLeftovers | src/bin/09.rs:48-51 | as written, when the left pointer has passed the right one, the final loop writes the right-hand file's leftovers a second time |
| Day09.AsWrittenAgreesWhenPointersMeet | src/bin/09.rs:20-51 | when the pointers end equal, the source and the corrected version agree |
| Day09.ExampleSimple | src/bin/09.rs:66-70 | "11111" has checksum 4, both as written and corrected |
| Day09.DoubleCount | src/bin/09.rs:20-51 | "10211" has checksum 18 as written but 9 with the final loop guarded |
| Day09.CompactAsWritten | src/bin/09.rs:14-51 | an empty disk map panics on `len() - 1` |
| Day09.CompactCorrected | src/bin/09.rs:14-51 | the same setup as written: an empty disk map panics |
| Day10.DigitRow | src/bin/10.rs:7-11 | a line parses exactly when every character is a decimal digit, and then to the digits' values |
| Day10.ParseLines | src/bin/10.rs:4-13 | parsing succeeds exactly when every non-empty line is all digits, and the map is then, in order, the digit rows of the non-empty lines, each height from 0 to 9 |
| Day10.Summits | src/bin/10.rs:36-55 | every point the set search returns is a summit of height 9 on the map |
| Day10.ClimbCases | src/bin/10.rs:42-53 | the four guarded neighbour tests together accept exactly the neighbours one higher |
| Day10.SummitsSound | src/bin/10.rs:36-55 | every summit the set search returns ends a trail from the start |
| Day10.SummitsComplete | src/bin/10.rs:36-55 | the end of every trail is among the summits the set search returns from the trail's start |
| Day10.SummitsMeans | src/bin/10.rs:36-55 | the set search returns exactly the summits some trail from the start reaches |
| Day10.SummitAlone | src/bin/10.rs:16-19 | from a summit both searches find the summit itself, once |
| Day10.SummitsAtMostRating | src/bin/10.rs:15-55 | a trailhead's score is at most its rating: distinct summits never outnumber trails |
| Day10.PartOneAtMostPartTwo | src/bin/10.rs:57-85 | part one's answer never exceeds part two's |
| Day10.NoTrailheads | src/bin/10.rs:62-68 | a row stretch with no height 0 adds nothing to either answer |
| Day10.StripScore | src/bin/10.rs:100-104 | the three-row map with one ramp from 0 to 9 scores 3 in both parts |
| Day11.DecimalMeans | src/bin/11.rs:18-19 | a stone's decimal text parses back to the stone, and its length is the stone's digit count |
| Day11.Halves | src/bin/11.rs:18-33 | a stone with `2k` digits splits into `v / 10^k` and `v mod 10^k`, so the back half loses its leading zeros |
| Day11.OddRules | src/bin/11.rs:36-40 | zero becomes one, and any other stone with an odd digit count is multiplied by 2024 |
| Day11.Heads | src/bin/11.rs:16-41 | after a blink every original slot holds, in order, 1 for a stone 0, the first half of the digits for a stone with an even digit count, and 2024 times the stone otherwise |
| Day11.BacksSnoc | src/bin/11.rs:27-33 | each even-digit stone appends exactly one back half, in slot order |
| Day11.BlinkInPlace | src/bin/11.rs:16-41 | the in-place loop, which pushes halves while scanning only the original slots, yields the rewritten slots followed by the back halves |
| Day11.BlinkGrowth | src/bin/11.rs:16-41 | a blink adds one stone per even-digit stone and never shrinks the row |
| Day11.BlinkTotal | src/bin/11.rs:14-42 | counting stone by stone, one blink then `n` more is `n + 1` blinks: the row's order does not affect the count |
| Day11.TotalPermutation | src/bin/11.rs:15 | the final count depends only on the multiset of starting stones |
| Day11.PartsAddUp | src/bin/11.rs:15 | the count for a row is the sum of the counts for its parts, in either order |
| Day11.DescendantsMonotone | src/bin/11.rs:14-42 | a stone never becomes fewer stones with more blinks |
| Day11.PartOne | src/bin/11.rs:12-44 | the answer is the sum over the starting stones of what each becomes after the given number of blinks |
| Day11.Blink1 | src/bin/11.rs:55-61 | "125 17" becomes 253000, 1 and 7 after one blink |
| Day11.Example | src/bin/11.rs:57-61 | "125 17" holds three stones after one blink |
| Day11.Descendants | src/bin/11.rs:14-42 | a stone never disappears: after any number of blinks it is at least one stone |
| Day12.ParseInput | src/bin/12.rs:5-10 | the grid rows are the non-empty pieces between line feeds, each as often as it occurs |
| Day12.RowsRead | src/bin/12.rs:5-10 | a garden written one row per line, with a final line feed, is read back row for row in order |
| Day12.Neighbours | src/bin/12.rs:22-34 | the directions pushed are exactly the on-grid neighbours of the plot |
| Day12.SidesRemove | src/bin/12.rs:20-44 | a set's perimeter is one plot's fences plus the perimeter of the rest |
| Day12.SidesUnion | src/bin/12.rs:20-44 | the perimeter of two disjoint sets of plots is the sum of their perimeters |
| Day12.FillRegion | src/bin/12.rs:12-46 | the fill marks the start plot, keeps every earlier mark, and marks only plots of the grid |
| Day12.FillDirs | src/bin/12.rs:35-44 | the loop over the directions keeps every earlier mark and marks only plots of the grid |
| Day12.RegionCounts | src/bin/12.rs:12-46 | the area returned is the number of newly marked plots, and the perimeter is their fence count |
| Day12.DirsCounts | src/bin/12.rs:35-44 | over the directions, the area counts the newly marked plots, and the perimeter plus one per same-plant direction is their fence count |
| Day12.RegionShape | src/bin/12.rs:12-46 | the newly marked plots all grow the start's plant, and every same-plant neighbour of one is marked |
| Day12.RegionLinked | src/bin/12.rs:12-46 | every newly marked plot is joined to the start through newly marked plots |
| Day12.FillComponent | src/bin/12.rs:12-46 | filling from an unmarked plot marks exactly a region (one plant, connected, no same-plant neighbour outside) and returns its area and perimeter |
| Day12.FoundGrows | src/bin/12.rs:55-58 | adding a freshly filled region keeps the regions found disjoint and whole, and adds its area times its perimeter to the price |
| Day12.ScanPlot | src/bin/12.rs:54-59 | after one plot of the scan, the regions found are disjoint regions covering the mask, the price is theirs, and the plot is marked |
| Day12.ScanRow | src/bin/12.rs:53-60 | after a row, the regions found are disjoint regions covering the mask, and every plot up to the row's end is marked |
| Day12.PartOne | src/bin/12.rs:48-62 | the grid is partitioned into disjoint regions, and the answer is the sum over them of area times perimeter |
| Day12.ScannedAll | src/bin/12.rs:53-60 | once every row is scanned every plot is marked |
| Day12.ExampleApart | src/bin/12.rs:19-45 | a plot next to another plant is a region of area 1 with 4 fences |
| Day13.Quot | src/bin/13.rs:37 | unsigned division gives the largest multiple of the divisor not above the dividend |
| Day13.Start | src/bin/13.rs:37 | the first cheap multiplier is the most cheap presses that stay within the prize in both coordinates |
| Day13.StartBracketed | src/bin/13.rs:36-38 | no solution uses more cheap presses than the start, nor fewer than zero expensive ones |
| Day13.OverStep | src/bin/13.rs:61-62 | when the claw overshoots, every solution uses fewer cheap presses than now |
| Day13.UnderStep | src/bin/13.rs:63-65 | when the claw falls short, every solution uses more expensive presses than now |
| Day13.SearchSound | src/bin/13.rs:52-68 | a result of the search solves the machine, with the most cheap presses and the fewest expensive presses of any solution |
| Day13.SearchComplete | src/bin/13.rs:52-68 | when the iteration cap leaves room for the whole walk, a failed search means no solution exists |
| Day13.IntegerSolutions | src/bin/13.rs:28-69 | a result solves the machine with the most cheap and fewest expensive presses; no result, when the cap is not the reason, means no solution |
| Day13.StallsAtCap | src/bin/13.rs:52-68 | with a zero expensive button that falls short, the loop runs until the iteration cap and finds nothing |
| Day13.Tokens | src/bin/13.rs:76-79 | a machine costs the presses of some solution (one token per B, three per A), and nothing when it has no solution |
| Day13.PartOne | src/bin/13.rs:71-82 | when no machine can be won the answer is 0 |
| Day13.PartOneSplit | src/bin/13.rs:74-81 | the answer over two batches of machines is the sum of the answers over each |
| Day13.Example | src/bin/13.rs:71-82 | the machine with A = (2, 1), B = (1, 1) and prize (3, 2) costs 4 tokens |
| Day14.TRem | src/bin/14.rs:24-25 | Rust's signed `%` truncates toward zero: the remainder has the dividend's sign, is smaller than the divisor in size, and differs from the dividend by a multiple of it |
| Day14.Wrap | src/bin/14.rs:24-25 | the double remainder lands in the room and equals the mathematical residue of `p + s·v` |
| Day14.Periodic | src/bin/14.rs:24-25 | after `size` more seconds every coordinate is back where it was |
| Day14.Final | src/bin/14.rs:24-25 | a robot always ends inside the room |
| Day14.Quadrant | src/bin/14.rs:26-30 | a robot on the middle column or row is in no quadrant; otherwise each quadrant index is 1 exactly when the robot is past the middle |
| Day14.TallyPartition | src/bin/14.rs:23-32 | every robot is counted once: in one of the four quadrants or on a middle line |
| Day14.Safety | src/bin/14.rs:33 | the safety factor is 0 exactly when some quadrant is empty |
| Day14.Bump | src/bin/14.rs:26-31 | one robot adds one to its own quadrant's count and changes no other count |
| Day14.TallySnoc | src/bin/14.rs:23-32 | one more robot adds one to the count of its quadrant and to no other |
| Day14.PartOne | src/bin/14.rs:20-34 | the loop's answer is the product of the four quadrant counts |
| Day14.Example | src/bin/14.rs:58-62 | the twelve-robot example in an 11 by 7 room has safety factor 12 after 100 seconds |
| Day14.Tally | src/bin/14.rs:23-32 | a quadrant never counts more robots than there are |
| Day15.Vector | src/bin/15.rs:11-18 | each direction vector is a unit step |
| Day15.Move | src/bin/15.rs:55-60 | a move goes to a neighbouring cell |
| Day15.DirOf | src/bin/15.rs:33-39 | exactly the characters `<`, `^`, `>` and `v` are directions |
| Day15.ParseDirs | src/bin/15.rs:32-41 | a move line parses exactly when every character is a direction, one direction per character in order |
| Day15.FirstEmpty | src/bin/15.rs:25-28 | the map ends at the first empty line |
| Day15.FileRead | src/bin/15.rs:20-53 | a warehouse written row by row, then a blank line, then move lines, parses back to that grid and to the directions of the move lines run together in order |
| Day15.MoveText | src/bin/15.rs:31-32 | a character is a move exactly when it occurs in some trimmed line after the map, and lines without whitespace are run together unchanged |
| Day15.MoveTextAppend | src/bin/15.rs:31-32 | the moves of two blocks of lines are the first block's followed by the second's, so order and repetition are kept |
| Day15.Pad | src/bin/15.rs:46-50 | a row is copied over a row of floor as wide as the first row |
| Day15.ParseInput | src/bin/15.rs:20-53 | parsing succeeds exactly when there is a map row, no row is wider than the first and every move character is a direction; the grid is then rectangular, each row padded with floor |
| Day15.Crawl | src/bin/15.rs:74-77 | a cell the crawl returns is inside the grid, not a box, and on the ray from its start in the push direction, past the start when that is a box |
| Day15.CrawlMeans | src/bin/15.rs:74-77 | the crawl passes only boxes and returns the first cell of the ray that is not a box; it panics exactly when the run of boxes from the start runs off the grid |
| Day15.PushBox | src/bin/15.rs:66-82 | a free cell returned is inside the grid and neither wall nor box; a refusal means a wall lies on the ray |
| Day15.PushBoxMeans | src/bin/15.rs:66-82 | `push_box` panics exactly when the line of boxes from `p` runs off the grid, refuses exactly when a wall ends it, and otherwise returns the free cell that ends it |
| Day15.CrawlWalled | src/bin/15.rs:74-77 | in a walled warehouse the crawl always ends inside the grid |
| Day15.WalkCells | src/bin/15.rs:101-107 | stepping onto floor puts the robot on the new cell, leaves floor behind and changes nothing else |
| Day15.ShoveCells | src/bin/15.rs:108-117 | a push puts the robot on the first box, floor behind it, a box at the line's free end, and changes nothing else |
| Day15.StepCases | src/bin/15.rs:97-120 | in a walled warehouse, facing a wall does nothing, facing floor walks, and facing a box pushes the line when its far end is free and does nothing otherwise |
| Day15.StepKeeps | src/bin/15.rs:97-120 | a move keeps the warehouse well formed (one robot, only walls, floor and boxes), keeps the walls, and either leaves everything as it was or moves the robot one cell |
| Day15.ShoveMovesOneBox | src/bin/15.rs:108-117 | a push moves the box set by removing the first box and adding one at the free end |
| Day15.ShoveGPS | src/bin/15.rs:108-117 | a push changes the GPS sum by the weight of the new box cell less that of the vacated one |
| Day15.WalkKeepsBoxes | src/bin/15.rs:101-107 | walking moves no box and keeps the GPS sum |
| Day15.StepKeepsBoxCount | src/bin/15.rs:97-120 | a move never creates or destroys a box |
| Day15.RunKeeps | src/bin/15.rs:97-128 | the whole run never panics in a walled warehouse, keeps the walls and keeps the number of boxes |
| Day15.GPSSet | src/bin/15.rs:130-137 | writing one cell changes the GPS sum by the weights of the boxes written and erased there |
| Day15.FindFrom | src/bin/15.rs:87-95 | the search finds a robot cell, and finds none only when no row from there holds one |
| Day15.FindRobot | src/bin/15.rs:86-95 | the start is a robot cell when there is one, and stays (0, 0) otherwise |
| Day15.StartWellFormed | src/bin/15.rs:86-95 | a rectangular warehouse with exactly one robot starts well formed |
| Day15.PartOneDefined | src/bin/15.rs:84-139 | for a walled warehouse with one robot, part one never panics, keeps walls and box count, and answers the GPS sum of the final grid |
| Day15.PadAll | src/bin/15.rs:45-51 | every row is copied into a grid of the first row's width |
| Day15.Find | src/bin/15.rs:87-93 | the scan finds the first robot in a row, and none exactly when the row has none |
| Day16.Direction | src/bin/16.rs:28 | each of the four directions moves exactly one tile along one axis |
| Day16.TurnCost | src/bin/16.rs:47 | a move costs at least one point, and exactly one when the turn count charged is zero |
| Day16.TurnCostIntended | src/bin/16.rs:47 | with the intended count, a move costs one point exactly when the direction does not change |
| Day16.Cost | src/bin/16.rs:47 | every move, as written or as intended, costs at least one point |
| Day16.TurnCostAsWritten | src/bin/16.rs:47 | as written, reversing on the east-west axis counts two turns but reversing on the north-south axis counts none, so it costs 1 instead of 2001 |
| Day16.TurnsIntendedClosed | src/bin/16.rs:47 | the intended count is 0 for the same direction, 1 for a perpendicular one, 2 for the opposite one |
| Day16.TurnsIntendedMeans | src/bin/16.rs:47 | the intended count is symmetric, invariant under rotating both directions, and 0, 1 or 2 exactly for no turn, a quarter turn either way, or a reversal |
| Day16.TurnsAgreeEastWest | src/bin/16.rs:47 | when facing east or west the count as written equals the intended one |
| Day16.Clockwise | src/bin/16.rs:28 | a quarter turn clockwise is again a direction |
| Day16.FindLast | src/bin/16.rs:12-26 | the found tile holds the marker and no later tile in reading order does; when absent the sentinel (-1, -1) comes back and no tile holds it |
| Day16.LastIn | src/bin/16.rs:15-22 | the last occurrence of a character in a row, and none exactly when the row lacks it |
| Day16.Loop | src/bin/16.rs:40-60 | the queue loop never runs past its ceiling of 999 999 iterations |
| Day16.Search | src/bin/16.rs:33-60 | the search from the start tile, facing east, stops within the iteration ceiling |
| Day16.MinAtEnd | src/bin/16.rs:64-72 | the answer is the least score recorded at the end tile over all four directions, and `i64::MAX` exactly when none is recorded |
| Day16.MinFrom | src/bin/16.rs:64-72 | the minimum over the end tile's directions from `i` on is one of the recorded scores and at most each of them |
| Day16.WalkSnoc | src/bin/16.rs:46-57 | extending a walk by an open move adds that move's cost and turns to its direction |
| Day16.AchievableStep | src/bin/16.rs:46-57 | a neighbour reached from an achievable entry by an open move is achievable at the added cost |
| Day16.QueueSnoc | src/bin/16.rs:57 | pushing an achievable entry keeps every queued entry achievable |
| Day16.BestUpdate | src/bin/16.rs:56 | recording the score of a real walk to an open tile keeps every recorded score real |
| Day16.ExpandShape | src/bin/16.rs:46-59 | one direction records and queues the neighbour exactly when it is open and its score is new or strictly better, and otherwise changes nothing |
| Day16.ExpandSound | src/bin/16.rs:46-59 | one direction keeps the queue and the recorded scores those of real walks, and never raises a recorded score |
| Day16.ExpandFromSound | src/bin/16.rs:45-59 | the whole inner loop keeps the queue and the records sound and only lowers scores |
| Day16.QueueTail | src/bin/16.rs:41 | the entry popped from a sound queue is achievable and the rest of the queue stays sound |
| Day16.ImprovesTrans | src/bin/16.rs:48-56 | scores that only go down stay going down over several steps |
| Day16.PassSound | src/bin/16.rs:41-59 | one pass of the outer loop keeps every queued entry and recorded score the cost of a real walk from the start, and only lowers recorded scores |
| Day16.LoopKeeps | src/bin/16.rs:40-60 | any property of the queue and the records that one pass of the outer loop keeps holds again when the loop stops |
| Day16.LoopEmpties | src/bin/16.rs:40-60 | a loop that stops below its ceiling of 999 999 iterations stops because the queue ran dry |
| Day16.LoopSound | src/bin/16.rs:40-60 | every score the loop records is the cost of a real walk from the start, and recorded scores only go down |
| Day16.SearchSound | src/bin/16.rs:33-60 | every score the search records is the cost of a real walk from the start facing east |
| Day16.SolveSound | src/bin/16.rs:30-73 | part one's answer is `i64::MAX` or the positive cost of a real walk from the start to the end tile |
| Day16.NoEndNoScore | src/bin/16.rs:12-26 | a maze without an end tile answers `i64::MAX` |
| Day16.RelaxedImproves | src/bin/16.rs:54-56 | an entry whose neighbours are all recorded no worse than through it stays so while scores only go down |
| Day16.ExpandFromPrefix | src/bin/16.rs:45-59 | the inner loop keeps the old queue as a prefix and only lowers scores |
| Day16.ExpandFromQueued | src/bin/16.rs:54-57 | every key whose score the inner loop changes has its new entry queued |
| Day16.ExpandFromRelaxes | src/bin/16.rs:45-58 | after the inner loop every open neighbour of the popped entry is recorded with at most the popped score plus the move cost |
| Day16.SettledStep | src/bin/16.rs:40-59 | an entry still queued or already relaxed stays so through one pass of the outer loop |
| Day16.CompleteStep | src/bin/16.rs:40-59 | one pass keeps the start entry and every recorded score either queued or relaxed |
| Day16.LoopComplete | src/bin/16.rs:40-60 | a loop that stops below its ceiling has relaxed the start entry and every recorded score |
| Day16.WalkBound | src/bin/16.rs:40-60 | after such a loop, every walk of at least one move has a score recorded for its last tile and direction that is at most its own |
| Day16.SolveOptimal | src/bin/16.rs:30-73 | when the search stops below its ceiling, no walk of at least one move from the start to the end tile scores less than the answer |
| Day17.Combo | src/bin/17.rs:24-36 | operands 0 to 3 stand for themselves, 4, 5 and 6 read A, B and C, and 7 panics |
| Day17.U32Pow | src/bin/17.rs:46 | the `u32` range is 2^32 |
| Day17.Shift | src/bin/17.rs:46 | `a / 2^k` is the unique quotient with `q * 2^k <= a < (q + 1) * 2^k`, and `2u32.pow(k)` panics from k = 32 on |
| Day17.Divide | src/bin/17.rs:46 | the division instructions never make A larger |
| Day17.Step | src/bin/17.rs:38-65 | an instruction runs only with its operand inside the program and a known opcode; only `out` appends, and it appends one octal digit |
| Day17.StepPointer | src/bin/17.rs:49-64 | the pointer jumps to the operand on `jnz` with A non-zero and otherwise advances by two |
| Day17.StepRegisters | src/bin/17.rs:45-61 | each opcode changes only its own register: the divisions hold the quotient of A by 2^combo, `bxl` and `bxc` the exclusive or, `bst` the combo value mod 8 |
| Day17.BxlTwice | src/bin/17.rs:47 | two `bxl` with the same operand leave the registers as they were |
| Day17.StepFits | src/bin/17.rs:45-61 | from `u32` registers and a `u8` program every instruction leaves `u32` registers, so no wrap-around is needed |
| Day17.Run | src/bin/17.rs:70-85 | the loop stops at the ceiling or with the pointer past the end, never beyond the ceiling |
| Day17.RunOutputs | src/bin/17.rs:75-85 | the run only appends, at most one octal digit per iteration |
| Day17.RunFits | src/bin/17.rs:75-85 | the registers stay `u32` through the whole run |
| Day17.Decimals | src/bin/17.rs:89-92 | each output is printed as its own decimal text |
| Day17.RenderParses | src/bin/17.rs:89-93 | splitting the printed line at the commas gives back every output in order |
| Day17.RenderMeans | src/bin/17.rs:89-93 | the printed line is empty exactly when there are no outputs, and otherwise reads back as the outputs in order |
| Day17.RenderOctal | src/bin/17.rs:89-93 | printed octal outputs alternate one digit and one comma |
| Day17.PartOne | src/bin/17.rs:67-94 | part one panics exactly when the run does; otherwise the line is empty exactly when nothing was output, and splits at the commas into the outputs in order, each an octal digit |
| Day17.ExamplePass | src/bin/17.rs:105-109 | one pass of the example program halves A, prints its low octal digit and jumps back while A is not zero |
| Day17.Halvings | src/bin/17.rs:105-109 | the example program prints at least one value |
| Day17.ExampleTrace | src/bin/17.rs:105-109 | the example program from any A prints the successive halvings of A mod 8 and stops with A zero |
| Day17.HalvingsJoin | src/bin/17.rs:105-109 | one more halving adds one printed value in front |
| Day17.ExampleRun | src/bin/17.rs:111-115 | with A = 729 part one prints 4,6,3,5,6,3,5,2,1,0 |
| Day17.ExampleDigits | src/bin/17.rs:111-115 | the halvings of 729 are 4,6,3,5,6,3,5,2,1,0 |
| Day18.ParseLine | src/bin/18.rs:8-11 | a line parses exactly when its first two comma-separated fields are non-empty runs of digits, and then gives their values |
| Day18.ParseLines | src/bin/18.rs:5-13 | parsing succeeds exactly when every line does, and keeps every line's position in order |
| Day18.FormatParses | src/bin/18.rs:78 | the `x,y` answer text parses back to the same position |
| Day18.FormatParsesAhead | src/bin/18.rs:9-10 | a written position followed by a comma and anything else still reads back as that position: later fields are never read |
| Day18.FillGrid | src/bin/18.rs:15-22 | the grid is `width` by `width` |
| Day18.FillGridMeans | src/bin/18.rs:15-22 | a cell is blocked exactly when one of the given bytes fell on it |
| Day18.Route | src/bin/18.rs:26-60 | a route is never empty |
| Day18.RouteSnoc | src/bin/18.rs:43-56 | a route extended by an open neighbour of its last cell is a route ending there |
| Day18.VisitShrinks | src/bin/18.rs:34-39 | a pass over one queue entry never raises a recorded path length |
| Day18.Loop | src/bin/18.rs:33-58 | a finished loop has an empty queue |
| Day18.RoutesAppend | src/bin/18.rs:56 | a queue holds only routes exactly when both its halves do |
| Day18.PushRoutes | src/bin/18.rs:43-57 | every path the inner loop queues is a route ending at its cell |
| Day18.VisitKept | src/bin/18.rs:36-42 | the corner is recorded exactly when a shortest path is kept, and the kept path is a route to the corner of the recorded length |
| Day18.VisitSound | src/bin/18.rs:33-57 | one pass keeps the queue made of routes and the kept path consistent |
| Day18.LoopStep | src/bin/18.rs:33-34 | a loop that finishes from a non-empty queue finishes from the state after one pass |
| Day18.LoopKeeps | src/bin/18.rs:33-58 | any invariant one pass preserves holds when the loop finishes |
| Day18.LoopSound | src/bin/18.rs:33-58 | the finished search keeps only routes, and its path is a route to the corner |
| Day18.QueuedAppend | src/bin/18.rs:56 | an offer is queued in a concatenation exactly when it is queued in one of the halves |
| Day18.PushQueued | src/bin/18.rs:43-57 | the inner loop keeps earlier offers and offers every open in-grid neighbour one step further |
| Day18.PendingKept | src/bin/18.rs:34-39 | after a pass each pending offer is either recorded at that length or better, or still queued |
| Day18.VisitClosed | src/bin/18.rs:33-57 | one pass keeps the start offered and every recorded cell's open neighbours offered one step further |
| Day18.VisitClosedAt | src/bin/18.rs:33-57 | the same for one recorded cell and one neighbour |
| Day18.LoopClosed | src/bin/18.rs:33-58 | the finished search still has every recorded cell's neighbours offered |
| Day18.RouteRecorded | src/bin/18.rs:33-58 | when the queue is empty every route's end is recorded, at a length no larger than the route's |
| Day18.FindShortestPathCorrect | src/bin/18.rs:26-60 | on a square grid the returned path is empty exactly when the corner is unreachable, and otherwise is a route to the corner no longer than any other |
| Day18.PartOneMeans | src/bin/18.rs:62-67 | part one answers exactly when the corner is reachable after `fallen` bytes, and then answers the step count of a shortest route |
| Day18.AnswerMeans | src/bin/18.rs:66 | the path length less one is a step count of a shortest route, and there is none for an empty path |
| Day18.PartOneAnswer | src/bin/18.rs:62-67 | part one counts the steps of the path the search returns |
| Day18.StepCountMeans | src/bin/18.rs:26-60 | the search's path is non-empty exactly when the corner is reachable, and then shortest |
| Day18.Blocker | src/bin/18.rs:73-82 | the byte reported lies in the later bytes and inside the grid |
| Day18.FitsSnoc | src/bin/18.rs:73-74 | adding one in-grid byte keeps every byte in the grid |
| Day18.RouteKept | src/bin/18.rs:75 | a route stays a route when every open cell on it stays open |
| Day18.MissedByte | src/bin/18.rs:74-75 | a byte that falls off the current path leaves that path a route, so skipping the search is safe |
| Day18.BlockerFirst | src/bin/18.rs:73-82 | the reported byte is the first that cuts the corner off: the corner is reachable after every earlier byte and not after it |
| Day18.OpenFrom | src/bin/18.rs:73-82 | reachability after each byte from `i + 1` to `k` and after byte `i` is reachability from `i` to `k` |
| Day18.OpenBefore | src/bin/18.rs:73-80 | a route to the corner shows the corner reachable |
| Day18.SearchAfter | src/bin/18.rs:76-79 | a repeated search returns no path only when the bytes so far cut the corner off, and otherwise a route to it |
| Day18.BlockerUnfold | src/bin/18.rs:73-80 | one step of the loop: an off-path byte moves on with the same path, an on-path byte searches again |
| Day18.NoPathNoBlocker | src/bin/18.rs:73-82 | starting with no path at all the loop never reports a byte and ends in the final panic |
| Day18.PartTwoMeans | src/bin/18.rs:69-83 | part two's answer parses to a byte after which the corner is unreachable, while it was reachable after every earlier byte from `fallen` on |
| Day18.BlockerComplete | src/bin/18.rs:73-82 | from a route to the corner, the loop reports a byte whenever some later prefix of the bytes cuts the corner off, so its final panic needs every later prefix to leave the corner reachable |
| Day18.PartTwoAt | src/bin/18.rs:69-80 | once the first search has a path and the loop reports byte `k`, part two answers `x,y` of byte `k` |
| Day18.CutBeyond | src/bin/18.rs:73-80 | the first cutting byte comes before any number of bytes that cuts the corner off |
| Day18.PartTwoComplete | src/bin/18.rs:69-82 | part two answers whenever the corner is reachable after `fallen` bytes and cut off after some later number of bytes, and the answer is then the first cutting byte; the final panic is reached only when no byte cuts the corner off |
| Day19.TowelsRead | src/bin/19.rs:8 | a towel list written with ", " between entries is read back entry for entry, in order |
| Day19.Longest | src/bin/19.rs:7-12 | the longest towel length bounds every towel and is attained by one, or is 0 with no towels |
| Day19.ParseTowels | src/bin/19.rs:5-14 | the pattern set holds exactly the trimmed towels and none is longer than the recorded maximum |
| Day19.Designs | src/bin/19.rs:19 | the designs are the lines after the first that are not blank once trimmed, each as often as it occurs and untrimmed |
| Day19.DesignsAppend | src/bin/19.rs:19 | the designs of two blocks of lines are the first block's followed by the second's, so the file order is kept |
| Day19.TryFromMeans | src/bin/19.rs:27-35 | the loop from length `k` succeeds exactly when some prefix of length `k` to `min(longest, len)` is a pattern and the rest matches |
| Day19.ConcatAppend | src/bin/19.rs:23-36 | gluing two lists of pieces glues their spellings |
| Day19.MatchesSound | src/bin/19.rs:23-36 | a design the search accepts is spelled by a list of patterns, each non-empty and no longer than the maximum |
| Day19.MatchesComplete | src/bin/19.rs:23-36 | every design spelled by patterns no longer than the maximum is accepted, including through the empty design |
| Day19.MatchesIffTiled | src/bin/19.rs:23-36 | with the maximum bounding every pattern, the search accepts a design exactly when patterns spell it |
| Day19.MatchesConcat | src/bin/19.rs:23-36 | two accepted designs glued together are accepted |
| Day19.CountMatching | src/bin/19.rs:40-46 | at most every design is counted |
| Day19.PartOneMeans | src/bin/19.rs:38-47 | part one counts the input's designs that its patterns can spell |
| Day19.CountAgrees | src/bin/19.rs:40-46 | counting the accepted designs is counting the spellable ones |
| Day20.FirstIn | src/bin/20.rs:15-20 | the scan finds the first occurrence in the row from `x` on, and none exactly when there is none |
| Day20.FindStartFrom | src/bin/20.rs:13-25 | the start is the first 'S' in reading order, and there is none exactly when no tile holds 'S' (the source then panics) |
| Day20.Choose | src/bin/20.rs:30-47 | the direction taken is the first allowed one: not back the way the racer came (except on the first move), inside the grid and not a wall |
| Day20.NeighbourBack | src/bin/20.rs:31 | moving in direction `d` and then `(d + 2) % 4` comes back |
| Day20.NeighbourInjective | src/bin/20.rs:7 | different directions lead to different neighbours |
| Day20.Walk | src/bin/20.rs:29-48 | the walk only extends the track, keeps it a track of open, adjacent, non-reversing cells, and stops on 'E' |
| Day20.TrackSnoc | src/bin/20.rs:42-44 | one allowed move keeps the racetrack a track |
| Day20.Racetrack | src/bin/20.rs:9-50 | the racetrack starts on 'S', ends on 'E' and is a track; without 'S' there is none |
| Day20.StartsBefore | src/bin/20.rs:57-62 | the inner loop counts at most its number of start cells |
| Day20.Cheats | src/bin/20.rs:52-65 | a racetrack no longer than the threshold has no cheats |
| Day20.StartsBeforeMonotone | src/bin/20.rs:57-62 | more start cells never count fewer |
| Day20.CheatsFromMonotone | src/bin/20.rs:55-63 | a higher threshold never counts more, from any end cell on |
| Day20.CheatsMonotone | src/bin/20.rs:52-65 | the count never grows when the threshold rises |
| Day20.RowCount | src/bin/20.rs:57-62 | counting good starts for one end cell is the size of the set of good cheats ending there |
| Day20.GoodFromCount | src/bin/20.rs:55-63 | counting good cheats is the size of the set of good cheats |
| Day20.CheatSetSplit | src/bin/20.rs:55-63 | the cheats from end cell `from` on split disjointly into those ending at `from` and the rest |
| Day20.CheatsSavingMeans | src/bin/20.rs:53 | the corrected count is the number of (start, end) pairs along the track, start first, that join cells at most two apart and save at least `n` steps |
| Day20.Parity | src/bin/20.rs:29-48 | along a track, the coordinate sum changes with the parity of the number of steps |
| Day20.ManhattanParity | src/bin/20.rs:59 | a Manhattan distance has the parity of the coordinate-sum difference |
| Day20.GoodIffCounted | src/bin/20.rs:57-59 | on a track without repeated cells and for an even threshold, a cheat saves at least `n` exactly when the loop counts it |
| Day20.RowBelow | src/bin/20.rs:57-62 | for an even threshold, the starts the loop visits are exactly the good ones |
| Day20.RowAbove | src/bin/20.rs:57 | starts closer than the threshold never save enough |
| Day20.RowAgrees | src/bin/20.rs:57-62 | for an even threshold, the inner loop counts exactly the good cheats into one end cell |
| Day20.FromAgrees | src/bin/20.rs:55-63 | for an even threshold, the outer loop counts exactly the good cheats |
| Day20.EvenThresholdAgrees | src/bin/20.rs:52-65 | on a track without repeated cells and for an even threshold, the source's count is the number of cheats saving at least `n` |
| Day20.OddThresholdOvercounts | src/bin/20.rs:57 | on a straight three-cell track with threshold 1 the source counts one cheat that saves nothing |
| Day20.ThreeCounted | src/bin/20.rs:55-62 | the source counts the jump from the first to the last of three cells two apart |
| Day20.ThreeSaved | src/bin/20.rs:53 | that jump saves nothing, so no cheat saves at least 1 |
| Day20.RectangularRows | src/bin/20.rs:11 | the row check holds exactly when every row is as long as the first |
| Day20.PartOneAgrees | src/bin/20.rs:67-71 | for an even threshold on a track without repeated cells, part one as written and as corrected agree |
| Day21.WalkAppend | src/bin/21.rs:46-57 | walking two runs of arrows is walking the first and then the second from where it ends |
| Day21.Repeat | src/bin/21.rs:13-22 | `vec![c; n]` holds exactly `n` copies of `c` |
| Day21.WalkRepeat | src/bin/21.rs:46-53 | `n` presses of one arrow move the arm `n` steps that way |
| Day21.WalkHorizontal | src/bin/21.rs:13-17 | the horizontal part has as many arrows as the column difference `dx` is large, and moves the arm by `dx` columns |
| Day21.WalkVertical | src/bin/21.rs:18-22 | the vertical part has as many arrows as the row difference `dy` is large, and moves the arm by `dy` rows |
| Day21.MovementsReach | src/bin/21.rs:12-27 | both L-shaped routes have as many arrows as the Manhattan distance from the arm to the key, and lead from the arm to the key |
| Day21.Fragment | src/bin/21.rs:40-61 | a key's routes are exactly the L-shaped routes that never put the arm on the gap, at most two |
| Day21.FragmentReaches | src/bin/21.rs:40-61 | every kept route is arrows only, of Manhattan length, reaching the key without crossing the gap |
| Day21.Unique | src/bin/21.rs:69 | `unique()` keeps the same routes, each once, never more than before |
| Day21.Extend | src/bin/21.rs:68-73 | one combining round yields one sequence per (route, earlier sequence) pair |
| Day21.ExtendMeans | src/bin/21.rs:68-73 | a sequence comes out of a round exactly when it is an earlier sequence, then a route, then 'A' |
| Day21.CombineCount | src/bin/21.rs:66-76 | the number of sequences is the product of the numbers of distinct routes per key |
| Day21.Fragments | src/bin/21.rs:37-64 | there is one list of routes per key of the output |
| Day21.Targets | src/bin/21.rs:36-38 | there is one key position per key of the output |
| Day21.ExecuteAppend | src/bin/21.rs:29-77 | pressing two runs of keys is pressing the first and then the second from where the arm ends |
| Day21.ExecuteRoute | src/bin/21.rs:44-59 | a route that avoids the gap only moves the arm, to where the walk ends |
| Day21.CombineTypes | src/bin/21.rs:66-76 | every sequence built for the first `n` keys presses exactly those keys in order, has `n` 'A's and the summed route lengths plus `n` |
| Day21.TypedStep | src/bin/21.rs:70-71 | adding a route and 'A' to a sequence for `n - 1` keys types `n` keys |
| Day21.LengthStep | src/bin/21.rs:71 | the length grows by the route length plus one |
| Day21.CountStep | src/bin/21.rs:71 | the number of 'A's grows by one |
| Day21.ExecuteStep | src/bin/21.rs:63-71 | a route from the previous key to the next and 'A' push the next key |
| Day21.PressRoute | src/bin/21.rs:71 | a route that avoids the gap followed by 'A' pushes the key the route reaches |
| Day21.RouteHasNoA | src/bin/21.rs:12-27 | a route holds no 'A' |
| Day21.SequencesType | src/bin/21.rs:29-77 | every sequence `get_instruction_sequences` returns, pressed on that keypad from 'A', types the desired output, with one 'A' per key and length the summed Manhattan distances plus one per key |
| Day21.SequencesCount | src/bin/21.rs:66-76 | the sequences number the product of the distinct routes per key |
| Day21.ExpandAllMeans | src/bin/21.rs:108-115 | the next level holds exactly the sequences for each sequence of the level before, and exists when they all do |
| Day21.Shortest | src/bin/21.rs:116-123 | the fold returns a length no larger than any sequence's, attained by one, or `usize::MAX` for none |
| Day21.ComplexityMeans | src/bin/21.rs:106-126 | a code's complexity is its number times the length of a shortest sequence of the third expansion; every first-level sequence typed on the numeric keypad enters the code, and every later-level sequence typed on a robot keypad enters a sequence of the level before |
| Day21.LevelPresses | src/bin/21.rs:108-115 | each sequence of an expansion, typed on the keypad, enters the sequence of the level before that it was produced for |
| Day21.Complexities | src/bin/21.rs:106-127 | one complexity per code, the `i`-th being that code's complexity |
| Day21.TotalSome | src/bin/21.rs:105-128 | the running sum has a value exactly when every term has one |
| Day21.TotalAppend | src/bin/21.rs:126 | `complexity +=` after one more code adds its complexity to the sum of those before, and fails when either is missing |
| Day21.SumComplexitiesSome | src/bin/21.rs:104-128 | the answer exists exactly when every code has a complexity (all keys on the pads, a parsable number) |
| Day22.ModulusIsPow2 | src/bin/22.rs:11 | the pruning modulus is 2^24 |
| Day22.ParseLines | src/bin/22.rs:4-9 | parsing succeeds exactly when every non-empty line is a `u64`, and keeps each line's value in order |
| Day22.NextSecret | src/bin/22.rs:13-17 | every next secret is pruned below 2^24 |
| Day22.GenerateNth | src/bin/22.rs:19-25 | the loop applies `next_secret` exactly `n` times, and after at least one step the secret is below 2^24 |
| Day22.GenerateCompose | src/bin/22.rs:19-25 | `m` steps followed by `n` steps are `m + n` steps |
| Day22.XorMod | src/bin/22.rs:14-16 | the low `k` bits of an exclusive or are the exclusive or of the low `k` bits |
| Day22.FirstMixLow | src/bin/22.rs:14 | the first mix, with its `u64` shift, sees only the low 24 bits of the secret |
| Day22.NextSecretLow | src/bin/22.rs:13-17 | the next secret depends only on the secret mod 2^24 |
| Day22.GenerateLow | src/bin/22.rs:19-25 | so does every later secret |
| Day22.MixesOnPruned | src/bin/22.rs:14-15 | on a 24-bit secret the left shift drops nothing that survives pruning, and the right-shift mix needs no pruning |
| Day22.Nths | src/bin/22.rs:29-31 | there is one `n`th secret per buyer |
| Day22.PartOneFails | src/bin/22.rs:27-33 | part one panics exactly when some non-empty line is not a `u64` |
| Day22.PartOneSums | src/bin/22.rs:27-33 | otherwise it sums every buyer's 2000th secret, each below 2^24, so the sum is at most the number of buyers times 2^24 - 1 |
| Day22.SumBelow | src/bin/22.rs:32 | a sum of 24-bit terms is at most their number times 2^24 - 1 |
| Day23.Connect | src/bin/23.rs:17-20 | recording a connection adds both computers and each to the other's set, and changes nothing else |
| Day23.BuildMeans | src/bin/23.rs:6-26 | `b` is among `a`'s connections exactly when some line names the two, in either order, as its first two pieces, and every recorded computer has a connection |
| Day23.BuildSymmetric | src/bin/23.rs:6-26 | the network is symmetric and every connection names a recorded computer |
| Day23.LessIrreflexive | src/bin/23.rs:39 | no name sorts before itself |
| Day23.LessAsymmetric | src/bin/23.rs:39 | two names never sort before each other |
| Day23.LessTransitive | src/bin/23.rs:39 | the name order is transitive |
| Day23.LessTotal | src/bin/23.rs:39 | of two different names one sorts first |
| Day23.Sort3Sorted | src/bin/23.rs:38-39 | three distinct names come out strictly increasing and are the same three |
| Day23.Sort3Orders | src/bin/23.rs:38-39 | every order of the same three names sorts to the same list |
| Day23.CombinationsAreTriangles | src/bin/23.rs:30-44 | without self-connections the set of keys is exactly the joined triangles: three mutually connected computers, one starting with 't' |
| Day23.FoundIsTriangle | src/bin/23.rs:35-40 | every key the loops insert is the joined, sorted form of a triangle |
| Day23.TriangleIsFound | src/bin/23.rs:31-44 | every triangle is found by the loops |
| Day23.TriangleIsFoundFrom | src/bin/23.rs:31-40 | a triangle is found starting from its member whose name starts with 't' |
| Day23.Pairwise | src/bin/23.rs:35-37 | the three computers the loops pick are pairwise connected |
| Day23.JoinInjective | src/bin/23.rs:40 | comma-free name lists with the same key are the same list |
| Day23.JoinedCount | src/bin/23.rs:40-45 | comma-free triangles have as many keys as there are triangles |
| Day23.PartOneCounts | src/bin/23.rs:28-46 | without self-connections or commas in names, part one counts the triangles with a member starting with 't', and panics exactly when some computer has the empty name |
| Day23.TrianglesCommaFree | src/bin/23.rs:6-26 | names without commas give comma-free triangles |
| Day24.ApplyBits | src/bin/24.rs:61-65 | on single bits AND, OR and XOR are their truth tables and yield a bit |
| Day24.Calculate | src/bin/24.rs:58-66 | a gate yields a value exactly when both of its input wires are known |
| Day24.CalculateBits | src/bin/24.rs:58-66 | a gate over bits yields a bit |
| Day24.FirstReady | src/bin/24.rs:72-78 | the gate fired is the first one whose inputs are known, and none is found only when no gate is ready |
| Day24.Fire | src/bin/24.rs:73-76 | firing a gate sets its output wire to the gate's result, keeps every other wire, and removes just that gate, keeping the others in order |
| Day24.RunStops | src/bin/24.rs:71-81 | the gates left when the loop stops all lack an input, and come from the original list |
| Day24.RunKeeps | src/bin/24.rs:71-81 | known wires stay known, new wires are outputs of some gate, and a wire no gate drives keeps its initial value |
| Day24.RunBits | src/bin/24.rs:71-81 | wires holding bits keep holding bits |
| Day24.Simulate | src/bin/24.rs:71-81 | the loop computes the same wires and leftover gates, in at most one round per gate plus the final round that finds nothing |
| Day24.Digit | src/bin/24.rs:85-86 | the shift amount exists exactly when the text after 'z' is a number below 64, and is that number |
| Day24.AssembleFails | src/bin/24.rs:83-88 | the final loop panics exactly when some output wire that is on has a bad number |
| Day24.AssembleAnyOrder | src/bin/24.rs:83-88 | the result does not depend on the order the hash map visits its keys |
| Day24.AssembleFirst | src/bin/24.rs:83-88 | moving one key to the front of the visiting order keeps the result |
| Day24.DropDistinct | src/bin/24.rs:83 | dropping one key from a listing without repeats leaves the other keys, still without repeats |
| Day24.AssembleRemove | src/bin/24.rs:83-88 | the result is any one key's term added to the result for the other keys |
| Day24.AssembleOutputs | src/bin/24.rs:82-89 | the result is at least the power of two of every output wire that is on, and 0 when no output wire is on |
| Day24.AssembleTerms | src/bin/24.rs:82-89 | the result is at least each term, and 0 when every term is |
| Day24.AddPow2Bit | src/bin/24.rs:86 | adding `1 << e` to a number whose digit `e` is clear sets that digit and changes no other |
| Day24.AssembleBits | src/bin/24.rs:82-89 | when no two output wires that are on share a digit, binary digit `d` of the result is set exactly when some output wire with digit `d` is on |
| Day25.Blocks | src/bin/25.rs:7 | splitting at blank lines yields at least one piece, the first a prefix of the file, and no piece contains a blank line |
| Day25.UnblockBlocks | src/bin/25.rs:7 | gluing the pieces back with blank lines gives the file again |
| Day25.FirstRow | src/bin/25.rs:13-14 | the first row contributes one value per character |
| Day25.AddRow | src/bin/25.rs:15-16 | a later row is added column by column, and panics exactly when it is longer than the first row |
| Day25.TallyMeans | src/bin/25.rs:10-24 | the tally succeeds exactly when no row is longer than the first, and then holds the number of '#' in each column |
| Day25.ReadMeans | src/bin/25.rs:8-25 | a schematic's heights are its columns' '#' counts less one, one per column of the first row, and it is a lock exactly when the first row is all '#' |
| Day25.ReadFails | src/bin/25.rs:10-25 | reading panics exactly when a row is longer than the first or a column has no '#' |
| Day25.Collect | src/bin/25.rs:7-25 | reading every entry succeeds exactly when each entry reads, and then gives one result per entry, the `i`-th being entry `i`'s |
| Day25.CollectAppend | src/bin/25.rs:7-25 | reading two runs is reading each and appending the results, and fails exactly when either does |
| Day25.ReadAll | src/bin/25.rs:7-25 | every schematic of the file is read, in file order, and the whole read fails exactly when one schematic does |
| Day25.ReadAllAppend | src/bin/25.rs:7-25 | the schematics of two runs of the file are read as each run's, appended |
| Day25.PartitionAppend | src/bin/25.rs:26-30 | pushing two runs of read schematics appends locks to locks and keys to keys |
| Day25.PartitionKeeps | src/bin/25.rs:26-30 | every read lock's heights end up among the locks and every key's among the keys |
| Day25.PartitionFrom | src/bin/25.rs:26-30 | nothing but read schematics of that kind ends up among the locks or the keys |
| Day25.Sort | src/bin/25.rs:4-33 | each schematic becomes one lock or one key, so the two lists together are as long as the input |
| Day25.SortOne | src/bin/25.rs:26-30 | one schematic that reads becomes a lock when its first row is all '#' and a key otherwise |
| Day25.SortAppend | src/bin/25.rs:7-31 | sorting two runs of schematics appends locks to locks and keys to keys, so both lists keep the file order |
| Day25.SortSucceeds | src/bin/25.rs:7-31 | sorting succeeds exactly when every schematic reads |
| Day25.SortKeeps | src/bin/25.rs:7-31 | every lock's heights are among the locks and every key's among the keys |
| Day25.SortFrom | src/bin/25.rs:7-31 | every entry of either list is the heights of some schematic of that kind |
| Day25.FitsMeans | src/bin/25.rs:35-37 | a key fits a lock exactly when every column both have sums to at most 5 |
| Day25.FitsSymmetric | src/bin/25.rs:35-37 | fitting does not depend on which vector is the key |
| Day25.FitsFor | src/bin/25.rs:43-47 | at most every key fits one lock |
| Day25.FitCountBound | src/bin/25.rs:39-50 | at most every (lock, key) pair fits |
| Day25.CountFits | src/bin/25.rs:39-50 | the two loops count the fitting (lock, key) pairs |

## Left out

- `src/bin/03.rs` is not part of this model: both of its parts are two regular expressions, and their lazy, leftmost matching belongs to the regex crate.
- I/O: `main`, `read_today_data_file` and every `println!` (the "Overflowed" and "Nothing matched!" diagnostics, the debug dump of day 17) are not modelled.
- Regex-based parsing in days 1, 2, 5, 7, 11, 13, 14, 17 and 24: those days take the parsed values as input. This includes day 5 silently dropping updates with fewer than three numbers.
- Placeholder `part_two` functions (days 9, 11 to 17, 19 to 22, 24 and 25) return 0 and implement nothing, so they are not modelled.
- Day 23 `part_two` is left out: it merges parties greedily while iterating a `HashMap`, so its answer depends on the randomised hash order.
- Fixed-width overflow is not modelled where the answer does not depend on it: the `u32` sum of differences of day 1, the `as i32` casts of day 2's `u32` levels (they would wrap from 2^31), the `i32` areas and perimeters of day 12, `u64` sums and products (days 7, 11, 22, 24 and 25), the `u32` products, token costs and sum of day 13, `i32`/`i64` accumulators and products (days 5, 8, 14 and 16), the `u64` complexity sum and products of day 21, and `usize` counters and lengths (among them day 21's sequence lengths). The widths that are written out are listed at the top of this file.
- `Common.ParseNat` accepts only decimal digits, while Rust's `str::parse` for unsigned integers also accepts one leading '+'.
- Text is `seq<char>`: no UTF-8 byte lengths and no '\r' handling. `Common.Trim` removes ASCII whitespace only, not the full Unicode set that `str::trim` removes.
- Day 18 and day 20 take a `fuel` argument on loops the source bounds by no counter. `None` then covers running out of fuel as well as the source's panics. Day 20 also uses `None` at a dead end, where the source loops forever.
- Days 6, 13, 16 and 17 keep the source's own iteration ceilings: 999 999 999 for day 6, 999 999 for the others.
- Grids are assumed rectangular in days 6, 10, 12, 15, 16 and 20, and square in day 8, where the source allocates by height and width but indexes `[x][y]`. Ragged input is a precondition or `None`, not modelled behaviour.
- Day 15 requires a walled border, as the source never checks the grid's edge.
- Day 2: `part_one` indexes `report[1]`, so a one-level report is excluded by the `Readable` precondition rather than modelled as a panic.
- Day 9: `CorrectedWritesEveryBlockOnce` assumes a disk map of odd length, which ends with a file, as puzzle inputs do.
- Day 13: the search requires non-zero coordinates on the cheap button, where the source divides by them.
- Day13.Tokens: states that a machine's cost comes from some solution, not that it is the cheapest. With collinear buttons the search's first solution need not be the fewest tokens; for A = (5, 5), B = (1, 1) and prize (5, 5) it pays 5 where one A press costs 3.
- Day 16: `mapped_points` is written but never read, so it is not modelled.
- Day16.SolveSound: states only that the answer is the score of a real walk; that it is the least one is `Day16.SolveOptimal`.
- Day16.SolveOptimal: holds only when the queue empties before the ceiling of 999 999 iterations; a search cut off by the ceiling may miss cheaper walks. Walks of no move are not counted: when `S` and `E` coincide, the source records no score at the start tile.
- Day24.AssembleBits: requires the output wires that are on to have distinct digits. With both `z1` and `z01` on, the source adds the same power twice and the sum carries into the next digit.
- Day 17 takes the registers and program already parsed. An odd-length program panics on `program[ip + 1]`, which shows up as `None`.
- Day 18 `part_two` searches the grid again from scratch with the bytes so far, which gives the same grid as the source's in-place writes.
- Day 21 identifies the pushed keys by their positions on the keypad rather than their characters. Keys on one keypad have distinct positions, so this loses nothing.
- Day 23 proves its count assuming no line connects a computer to itself and no name holds a comma; either would let two different triangles share a key.
- Day 24 takes the order in which the final `HashMap` loop visits its keys as a parameter, and proves the answer does not depend on it.
- Most of the source's worked examples are not proved, as unfolding them is too costly for the solver. Each is named with the value its test expects:
  - day 4: 18;
  - day 5: 143;
  - day 6: 41;
  - day 8: 14 and 34;
  - day 9: 1928;
  - day 10: 3, 36 and 81;
  - day 11: 22 and 55312;
  - day 12: 140, 772 and 1930;
  - day 13: 480;
  - day 15: 10092 and 2028;
  - day 16: 7036 and 11048;
  - day 18: 22 and "6,1";
  - day 19: 6;
  - day 20: 5;
  - day 21: 126384;
  - day 22: 37327623;
  - day 23: 7;
  - day 24: 4 and 2024;
  - day 25: 3.

  Smaller instances of the same code paths are proved instead.

## Findings

| source | as written | input that shows it | evidently intended | confidence | as-written member | corrected member |
|---|---|---|---|---|---|---|
| src/bin/09.rs:48-51 | after the main loop, the leftover blocks of the right-hand file are written even when the left pointer has already passed it, so they are counted twice | the disk map "10211" gives checksum 18 | write the leftovers only while the left pointer has not passed the right one, giving 9 | not executed | Day09.DoubleCount | Day09.CorrectedWritesEveryBlockOnce |
| src/bin/16.rs:47 | the turn count `min(abs(i - (4 - d)), abs(i - d))` charges no turn for reversing between south (1) and north (3) | facing south, moving north costs 1 point | a reversal is two quarter turns in every axis, 2001 points | not executed | Day16.TurnCostAsWritten | Day16.TurnsIntendedMeans |
| src/bin/20.rs:57 | the inner loop takes starts more than `n` places back, but a two-step cheat saves two fewer steps than it skips, so for odd `n` it also counts cheats that save only `n - 1` | a straight three-cell track with `n = 1` counts one cheat that saves nothing | count cheats that save at least `n`, as the function's comment says; for even `n` it already does | not executed | Day20.OddThresholdOvercounts | Day20.CheatsSavingMeans |

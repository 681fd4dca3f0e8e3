/** Day 4: count the occurrences of XMAS, in any of eight directions, in a
    letter grid held as one string with its newlines. */
module Day04 {
  import opened Common

  /** Index of the first newline, or the length when there is none. */
  function FirstLineEnd(data: string): (k: nat)
    ensures k <= |data| && '\n' !in data[..k]
    ensures k < |data| ==> data[k] == '\n'
  {
    if '\n' in data then IndexOf(data, '\n') else |data|
  }

  /** The row width: the trimmed length of the first line. */
  function Width(data: string): nat {
    |Trim(data[..FirstLineEnd(data)])|
  }

  /** `data.replace(" ", "")`: every other character kept, in order (see
      `WithoutAppend`), as often as it occurs. */
  function RemoveSpaces(data: string): (r: string)
    ensures ' ' !in r && |r| <= |data|
    ensures multiset(r) == multiset(data)[' ' := 0]
  {
    Without(data, ' ')
  }

  predicate Spells(d: string, i: nat, step: nat, word: string)
    requires |word| == 4 && i + 3 * step < |d|
  {
    d[i] == word[0] && d[i + step] == word[1] && d[i + 2 * step] == word[2] && d[i + 3 * step] == word[3]
  }

  /** `test_ahead`: 1 when the four letters from `i` with stride `step` read
      XMAS forwards or backwards. */
  function TestAhead(d: string, i: nat, step: nat): (r: nat)
    ensures r <= 1
    ensures |d| <= i + 3 * step ==> r == 0
    ensures r == 1 ==> d[i] == 'X' || d[i] == 'S'
  {
    if |d| <= i + 3 * step then 0
    else if Spells(d, i, step, "XMAS") || Spells(d, i, step, "SAMX") then 1
    else 0
  }

  /** In range, `test_ahead` finds exactly the word XMAS read forwards or
      backwards along the stride. */
  lemma TestAheadMeans(d: string, i: nat, step: nat)
    requires i + 3 * step < |d|
    ensures TestAhead(d, i, step) == 1 <==>
      || (forall k :: 0 <= k < 4 ==> d[i + k * step] == "XMAS"[k])
      || (forall k :: 0 <= k < 4 ==> d[i + k * step] == "XMAS"[3 - k])
  {
    assert 0 * step == 0 && 1 * step == step;
  }

  /** All four strides tried from one position, before the letter filter:
      along the row, down a column, and (only for rows of at least four) the
      two diagonals. */
  function AllStrides(d: string, width: nat, i: nat): nat {
    TestAhead(d, i, 1) + TestAhead(d, i, width + 1)
      + (if width >= 4 then TestAhead(d, i, width + 2) + TestAhead(d, i, width) else 0)
  }

  /** What position `i` adds to the count: only an X or an S starts a match. */
  function Contribution(d: string, width: nat, i: nat): (r: nat)
    requires i < |d|
    ensures r <= 4
    ensures d[i] != 'X' && d[i] != 'S' ==> r == 0
  {
    if d[i] == 'S' || d[i] == 'X' then AllStrides(d, width, i) else 0
  }

  function CountFrom(d: string, width: nat, i: nat): nat
    requires i <= |d|
    decreases |d| - i
  {
    if i == |d| then 0 else Contribution(d, width, i) + CountFrom(d, width, i + 1)
  }

  function PartOne(data: string): nat {
    var d := RemoveSpaces(data);
    CountFrom(d, Width(data), 0)
  }

  /** Reference count without the letter filter: every position tries every
      stride. */
  function CountAllFrom(d: string, width: nat, i: nat): nat
    requires i <= |d|
    decreases |d| - i
  {
    if i == |d| then 0 else AllStrides(d, width, i) + CountAllFrom(d, width, i + 1)
  }

  /** Skipping positions that hold neither X nor S loses no match. */
  lemma {:induction false} FilterLosesNothing(d: string, width: nat, i: nat)
    requires i <= |d|
    ensures CountFrom(d, width, i) == CountAllFrom(d, width, i)
    decreases |d| - i
  {
    if i < |d| {
      FilterLosesNothing(d, width, i + 1);
    }
  }

  /** Each position contributes at most four matches. */
  lemma {:induction false} CountBound(d: string, width: nat, i: nat)
    requires i <= |d|
    ensures CountFrom(d, width, i) <= 4 * (|d| - i)
    decreases |d| - i
  {
    if i < |d| {
      CountBound(d, width, i + 1);
    }
  }

  /** Text without spaces is left as it is. */
  lemma RemoveSpacesIdentity(data: string)
    requires ' ' !in data
    ensures RemoveSpaces(data) == data
  {
    WithoutAbsent(data, ' ');
  }

  /** With no whitespace on the first line, the width is its length. */
  lemma PlainWidth(data: string, k: nat)
    requires k <= |data| && (k < |data| ==> data[k] == '\n')
    requires forall i :: 0 <= i < k ==> !IsSpace(data[i])
    ensures Width(data) == k
  {
  }

  /** On text without spaces and with a plain first line of length `k`, part
      one scans the text itself with row width `k`. */
  lemma {:induction false} PlainText(data: string, k: nat)
    requires ' ' !in data
    requires k <= |data| && (k < |data| ==> data[k] == '\n')
    requires forall i :: 0 <= i < k ==> !IsSpace(data[i])
    ensures PartOne(data) == CountFrom(data, k, 0)
  {
    RemoveSpacesIdentity(data);
    PlainWidth(data, k);
  }

  lemma ExampleBackwards()
    ensures PartOne("SAMX") == 1
  {
    var d := "SAMX";
    PlainText(d, 4);
    assert CountFrom(d, 4, 0) == 1 by {
      assert TestAhead(d, 0, 1) == 1;
      assert CountFrom(d, 4, 1) == 0;
    }
  }

  const Downwards := "X\nM\nA\nS"

  lemma DownwardsTail()
    ensures CountFrom(Downwards, 1, 1) == 0
  {
    var d := Downwards;
    assert CountFrom(d, 1, 6) == 0;
    assert CountFrom(d, 1, 5) == 0;
    assert CountFrom(d, 1, 4) == 0;
    assert CountFrom(d, 1, 3) == 0;
    assert CountFrom(d, 1, 2) == 0;
  }

  lemma DownwardsHead()
    ensures Contribution(Downwards, 1, 0) == 1
  {
    assert TestAhead(Downwards, 0, 1) == 0;
    assert TestAhead(Downwards, 0, 2) == 1;
  }

  lemma ExampleDownwards()
    ensures PartOne(Downwards) == 1
  {
    PlainText(Downwards, 1);
    DownwardsTail();
    DownwardsHead();
  }

  const Diagonals := "XWWS\nWMAW\nWMAW\nXWWS"

  lemma DiagonalsEnd()
    ensures CountFrom(Diagonals, 4, 11) == 0
  {
    var d := Diagonals;
    assert CountFrom(d, 4, 18) == 0;
    assert CountFrom(d, 4, 17) == 0;
    assert CountFrom(d, 4, 16) == 0;
    assert TestAhead(d, 15, 1) == 0;
    assert CountFrom(d, 4, 15) == 0;
    assert CountFrom(d, 4, 14) == 0;
    assert CountFrom(d, 4, 13) == 0;
    assert CountFrom(d, 4, 12) == 0;
    assert CountFrom(d, 4, 11) == 0;
  }

  lemma DiagonalsTail()
    ensures CountFrom(Diagonals, 4, 4) == 0
  {
    var d := Diagonals;
    DiagonalsEnd();
    assert CountFrom(d, 4, 10) == 0;
    assert CountFrom(d, 4, 9) == 0;
    assert CountFrom(d, 4, 8) == 0;
    assert CountFrom(d, 4, 7) == 0;
    assert CountFrom(d, 4, 6) == 0;
    assert CountFrom(d, 4, 5) == 0;
  }

  lemma DiagonalsDown()
    ensures Contribution(Diagonals, 4, 0) == 1
  {
  }

  lemma DiagonalsUp()
    ensures Contribution(Diagonals, 4, 3) == 1
  {
  }

  lemma DiagonalsCount()
    ensures CountFrom(Diagonals, 4, 0) == 2
  {
    DiagonalsTail();
    DiagonalsDown();
    DiagonalsUp();
    assert CountFrom(Diagonals, 4, 3) == 1;
    assert CountFrom(Diagonals, 4, 2) == 1;
    assert CountFrom(Diagonals, 4, 1) == 1;
  }

  lemma ExampleDiagonals()
    ensures PartOne(Diagonals) == 2
  {
    PlainText(Diagonals, 4);
    DiagonalsCount();
  }
}

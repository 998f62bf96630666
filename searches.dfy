/**
 * The index-walking searches of `shiftRow` and `expandBlock`.
 *
 * Each search has a recursive definition whose contract characterises its
 * result, and a method with the loop the optimizer runs, proved to return
 * that result.
 */
module Searches {
  import opened Wrappers
  import opened Alignment
  import opened Coverage

  // ---------------------------------------------------------------------------
  // shiftRow on a gap: the nearest residues on either side of the pivot.

  /** The first position at or after `j` holding a residue, or the last position if none does. */
  function NextFilled(row: Row, j: nat): (r: nat)
    requires j < |row|
    ensures j <= r < |row|
    ensures row[r].Some? || r == |row| - 1
    ensures forall q | j <= q < r :: row[q].None?
    decreases |row| - j
  {
    if row[j].Some? || j == |row| - 1 then j else NextFilled(row, j + 1)
  }

  /** The last position at or before `j` holding a residue, or position 0 if none does. */
  function PrevFilled(row: Row, j: nat): (r: nat)
    requires j < |row|
    ensures r <= j
    ensures row[r].Some? || r == 0
    ensures forall q | r < q <= j :: row[q].None?
  {
    if row[j].Some? || j == 0 then j else PrevFilled(row, j - 1)
  }

  /** The walk to the right from a gap pivot. */
  method FindNextFilled(row: Row, res: nat) returns (right: nat)
    requires res < |row|
    ensures right == NextFilled(row, res)
  {
    right := res;
    while row[right].None? && right < |row| - 1
      invariant res <= right < |row|
      invariant forall q | res <= q < right :: row[q].None?
    {
      right := right + 1;
    }
  }

  /** The walk to the left from a gap pivot. */
  method FindPrevFilled(row: Row, res: nat) returns (left: nat)
    requires res < |row|
    ensures left == PrevFilled(row, res)
  {
    left := res;
    while row[left].None? && left > 0
      invariant left <= res
      invariant forall q | left < q <= res :: row[q].None?
    {
      left := left - 1;
    }
  }

  // ---------------------------------------------------------------------------
  // shiftRow on a residue: the run of continuous residues around the pivot.

  /**
   * Cells `j` and `j + 1` both hold residues and the second does not jump
   * ahead of the first: the run containing them goes on.
   */
  predicate Linked(row: Row, j: nat)
    requires j + 1 < |row|
  {
    row[j].Some? && row[j + 1].Some? && row[j + 1].value <= row[j].value + 1
  }

  /** The first position of the run through `j`. */
  function RunStart(row: Row, j: nat): (l: nat)
    requires j < |row| && row[j].Some?
    ensures l <= j && row[l].Some?
    ensures forall q | l <= q < j :: Linked(row, q)
    ensures l == 0 || !Linked(row, l - 1)
  {
    if j == 0 || !Linked(row, j - 1) then j else RunStart(row, j - 1)
  }

  /** The last position of the run through `j`. */
  function RunEnd(row: Row, j: nat): (r: nat)
    requires j < |row| && row[j].Some?
    ensures j <= r < |row| && row[r].Some?
    ensures forall q | j <= q < r :: Linked(row, q)
    ensures r == |row| - 1 || !Linked(row, r)
    decreases |row| - j
  {
    if j == |row| - 1 || !Linked(row, j) then j else RunEnd(row, j + 1)
  }

  /** The walk to the left from a residue pivot: stop at the start, at a gap or at a jump. */
  method FindRunStart(row: Row, res: nat) returns (left: nat)
    requires res < |row| && row[res].Some?
    ensures left == RunStart(row, res)
  {
    var boundary: int := res - 1;
    var prev: nat := res;
    while true
      invariant -1 <= boundary < res && prev == boundary + 1 && row[prev].Some?
      invariant forall q | boundary + 1 <= q < res :: Linked(row, q)
      decreases boundary + 1
    {
      if boundary < 0 {
        break;
      }
      if row[boundary].None? {
        break;
      }
      if row[prev].value > row[boundary].value + 1 {
        break;
      }
      prev := boundary;
      boundary := boundary - 1;
    }
    left := boundary + 1;
    RunStartUnique(row, res, left);
  }

  /** The walk to the right from a residue pivot. */
  method FindRunEnd(row: Row, res: nat) returns (right: nat)
    requires res < |row| && row[res].Some?
    ensures right == RunEnd(row, res)
  {
    var boundary: nat := res + 1;
    var prev: nat := res;
    while true
      invariant res < boundary <= |row| && prev == boundary - 1 && row[prev].Some?
      invariant forall q | res <= q < boundary - 1 :: Linked(row, q)
      decreases |row| - boundary
    {
      if boundary == |row| {
        break;
      }
      if row[boundary].None? {
        break;
      }
      if row[prev].value + 1 < row[boundary].value {
        break;
      }
      prev := boundary;
      boundary := boundary + 1;
    }
    right := boundary - 1;
    RunEndUnique(row, res, right);
  }

  /** A position that bounds a linked stretch ending at `j` from the left is the run start. */
  lemma RunStartUnique(row: Row, j: nat, l: nat)
    requires j < |row| && row[j].Some? && l <= j
    requires forall q | l <= q < j :: Linked(row, q)
    requires l == 0 || !Linked(row, l - 1)
    ensures l == RunStart(row, j)
  {
    var m := RunStart(row, j);
    if l < m {
      assert false;
    } else if m < l {
      assert false;
    }
  }

  lemma RunEndUnique(row: Row, j: nat, r: nat)
    requires j <= r < |row| && row[j].Some?
    requires forall q | j <= q < r :: Linked(row, q)
    requires r == |row| - 1 || !Linked(row, r)
    ensures r == RunEnd(row, j)
  {
    var m := RunEnd(row, j);
    if r < m {
      assert false;
    } else if m < r {
      assert false;
    }
  }

  // ---------------------------------------------------------------------------
  // expandBlock: how far the Block stays continuous from the pivot.

  /** The first residue in positions a .. b-1 of a row, scanning upwards. */
  function FirstIn(row: Row, a: nat, b: nat): Cell
    requires a <= b <= |row|
  {
    if a == b then None
    else if FirstIn(row, a, b - 1).Some? then FirstIn(row, a, b - 1)
    else row[b - 1]
  }

  /** `FirstIn` is the residue of the lowest non-gap position in a .. b-1, or none when all are gaps. */
  lemma {:induction false} FirstInFirst(row: Row, a: nat, b: nat)
    requires a <= b <= |row|
    ensures FirstIn(row, a, b).None? <==> forall q | a <= q < b :: row[q].None?
    ensures FirstIn(row, a, b).Some? ==>
      exists q | a <= q < b :: row[q] == FirstIn(row, a, b) && forall q' | a <= q' < q :: row[q'].None?
  {
    if a < b {
      FirstInFirst(row, a, b - 1);
      if FirstIn(row, a, b - 1).None? && row[b - 1].Some? {
        assert row[b - 1] == FirstIn(row, a, b);
      }
    }
  }

  /** The first residue in positions a .. b-1 of a row, scanning downwards from b-1. */
  function LastIn(row: Row, a: nat, b: nat): Cell
    requires a <= b <= |row|
    decreases b - a
  {
    if a == b then None
    else if LastIn(row, a + 1, b).Some? then LastIn(row, a + 1, b)
    else row[a]
  }

  /** `LastIn` is the residue of the highest non-gap position in a .. b-1, or none when all are gaps. */
  lemma {:induction false} LastInLast(row: Row, a: nat, b: nat)
    requires a <= b <= |row|
    ensures LastIn(row, a, b).None? <==> forall q | a <= q < b :: row[q].None?
    ensures LastIn(row, a, b).Some? ==>
      exists q | a <= q < b :: row[q] == LastIn(row, a, b) && forall q' | q < q' < b :: row[q'].None?
    decreases b - a
  {
    if a < b {
      LastInLast(row, a + 1, b);
      if LastIn(row, a + 1, b).None? && row[a].Some? {
        assert row[a] == LastIn(row, a, b);
      }
    }
  }

  /**
   * Structure `s` breaks continuity at column `j` of a rightward scan that
   * started at `res`: it has a residue there that lies more than one past the
   * first residue it had from `res` on.
   */
  predicate BreaksRight(blk: Block, res: nat, j: nat, s: nat)
    requires s < |blk| && res <= j < |blk[s]|
  {
    blk[s][j].Some? && FirstIn(blk[s], res, j).Some? && blk[s][j].value > FirstIn(blk[s], res, j).value + 1
  }

  /** The same for a leftward scan: more than one before the first residue met going down from `res`. */
  predicate BreaksLeft(blk: Block, res: nat, j: nat, s: nat)
    requires s < |blk| && j <= res < |blk[s]|
  {
    blk[s][j].Some? && LastIn(blk[s], j + 1, res + 1).Some? && blk[s][j].value < LastIn(blk[s], j + 1, res + 1).value - 1
  }

  /** How many of structures 0 .. n-1 break continuity at column `j` going right. */
  function RightBreaks(blk: Block, res: nat, j: nat, n: nat): (c: nat)
    requires n <= |blk| && res <= j && forall s | 0 <= s < n :: j < |blk[s]|
    ensures c <= n
  {
    if n == 0 then 0 else RightBreaks(blk, res, j, n - 1) + (if BreaksRight(blk, res, j, n - 1) then 1 else 0)
  }

  /** How many of structures 0 .. n-1 break continuity at column `j` going left. */
  function LeftBreaks(blk: Block, res: nat, j: nat, n: nat): (c: nat)
    requires n <= |blk| && j <= res && forall s | 0 <= s < n :: res < |blk[s]|
    ensures c <= n
  {
    if n == 0 then 0 else LeftBreaks(blk, res, j, n - 1) + (if BreaksLeft(blk, res, j, n - 1) then 1 else 0)
  }

  /**
   * Where the rightward scan from `res` stops: the first column at or after
   * `j` where at least `rmin` structures break continuity, or the last column.
   */
  function RightStop(blk: Block, rmin: int, res: nat, j: nat): (r: nat)
    requires Rectangular(blk, |blk|) && res <= j < BlockLength(blk)
    ensures j <= r < BlockLength(blk)
    ensures r == BlockLength(blk) - 1 || RightBreaks(blk, res, r, |blk|) >= rmin
    ensures forall q | j <= q < r :: RightBreaks(blk, res, q, |blk|) < rmin
    decreases BlockLength(blk) - j
  {
    if !(BlockLength(blk) - 1 > j) then j
    else if RightBreaks(blk, res, j, |blk|) < rmin then RightStop(blk, rmin, res, j + 1)
    else j
  }

  /**
   * Where the leftward scan from `res` stops: the first column at or below
   * `j` where at least `rmin` structures break continuity, or column 0.
   */
  function LeftStop(blk: Block, rmin: int, res: nat, j: nat): (l: nat)
    requires Rectangular(blk, |blk|) && j <= res < BlockLength(blk)
    ensures l <= j
    ensures l == 0 || LeftBreaks(blk, res, l, |blk|) >= rmin
    ensures forall q | l < q <= j :: LeftBreaks(blk, res, q, |blk|) < rmin
  {
    if !(j > 0) then j
    else if LeftBreaks(blk, res, j, |blk|) < rmin then LeftStop(blk, rmin, res, j - 1)
    else j
  }

  /** The frontier column of a rightward expansion: one before where the scan stopped, if it can. */
  function RightFrontier(blk: Block, rmin: int, res: nat): (f: nat)
    requires Rectangular(blk, |blk|) && res < BlockLength(blk)
    ensures f < BlockLength(blk)
  {
    var r := RightStop(blk, rmin, res, res);
    if r > 0 then r - 1 else r
  }

  /** The sentinel encoding of `previousPos`/`nextPos`: the residue, or -1 before one is seen. */
  function Sentinel(c: Cell): int {
    if c.Some? then c.value else -1
  }

  /** Every residue of the Block is a non-negative index, so -1 is free to mark "none yet". */
  predicate NonNegative(blk: Block) {
    forall s, q | 0 <= s < |blk| && 0 <= q < |blk[s]| :: blk[s][q].Some? ==> blk[s][q].value >= 0
  }

  /** The rightward scan of `expandBlock`, with its `previousPos` array; returns the frontier column. */
  method ScanRight(blk: Block, rmin: int, res: nat) returns (frontier: nat)
    requires Rectangular(blk, |blk|) && res < BlockLength(blk) && NonNegative(blk)
    ensures frontier == RightFrontier(blk, rmin, res)
  {
    var size := |blk|;
    var previousPos := new int[size];
    for s := 0 to size
      invariant forall t | 0 <= t < s :: previousPos[t] == -1
    {
      previousPos[s] := -1;
    }
    var boundary := res;
    while BlockLength(blk) - 1 > boundary
      invariant res <= boundary < BlockLength(blk)
      invariant forall t | 0 <= t < size :: previousPos[t] == Sentinel(FirstIn(blk[t], res, boundary))
      invariant RightStop(blk, rmin, res, res) == RightStop(blk, rmin, res, boundary)
      decreases BlockLength(blk) - boundary
    {
      var noncontinuous := RightColumn(blk, res, boundary, previousPos);
      if noncontinuous < rmin {
        boundary := boundary + 1;
      } else {
        break;
      }
    }
    if boundary > 0 {
      boundary := boundary - 1;
    }
    frontier := boundary;
  }

  /** The leftward scan of `expandBlock`, with its `nextPos` array; returns the frontier column. */
  method ScanLeft(blk: Block, rmin: int, res: nat) returns (frontier: nat)
    requires Rectangular(blk, |blk|) && res < BlockLength(blk) && NonNegative(blk)
    ensures frontier == LeftStop(blk, rmin, res, res)
  {
    var size := |blk|;
    var nextPos := new int[size];
    for s := 0 to size
      invariant forall t | 0 <= t < s :: nextPos[t] == -1
    {
      nextPos[s] := -1;
    }
    var boundary: nat := res;
    while boundary > 0
      invariant boundary <= res
      invariant forall t | 0 <= t < size :: nextPos[t] == Sentinel(LastIn(blk[t], boundary + 1, res + 1))
      invariant LeftStop(blk, rmin, res, res) == LeftStop(blk, rmin, res, boundary)
    {
      var noncontinuous := LeftColumn(blk, res, boundary, nextPos);
      if noncontinuous < rmin {
        boundary := boundary - 1;
      } else {
        break;
      }
    }
    frontier := boundary;
  }

  /** One column of the rightward scan: counts the breaks at column `j` and moves `previousPos` past it. */
  method RightColumn(blk: Block, res: nat, j: nat, previousPos: array<int>) returns (noncontinuous: nat)
    requires Rectangular(blk, |blk|) && res <= j < BlockLength(blk) && NonNegative(blk)
    requires previousPos.Length == |blk|
    requires forall t | 0 <= t < |blk| :: previousPos[t] == Sentinel(FirstIn(blk[t], res, j))
    modifies previousPos
    ensures noncontinuous == RightBreaks(blk, res, j, |blk|)
    ensures forall t | 0 <= t < |blk| :: previousPos[t] == Sentinel(FirstIn(blk[t], res, j + 1))
  {
    noncontinuous := 0;
    var size := |blk|;
    for s := 0 to size
      invariant noncontinuous == RightBreaks(blk, res, j, s)
      invariant forall t | 0 <= t < s :: previousPos[t] == Sentinel(FirstIn(blk[t], res, j + 1))
      invariant forall t | s <= t < size :: previousPos[t] == Sentinel(FirstIn(blk[t], res, j))
    {
      var cell := blk[s][j];
      FirstInStep(blk, res, j, s);
      if cell.None? {
        continue;
      } else if previousPos[s] == -1 {
        previousPos[s] := cell.value;
      } else if cell.value > previousPos[s] + 1 {
        noncontinuous := noncontinuous + 1;
      }
    }
  }

  /** One column of the leftward scan: counts the breaks at column `j` and moves `nextPos` past it. */
  method LeftColumn(blk: Block, res: nat, j: nat, nextPos: array<int>) returns (noncontinuous: nat)
    requires Rectangular(blk, |blk|) && j <= res < BlockLength(blk) && NonNegative(blk)
    requires nextPos.Length == |blk|
    requires forall t | 0 <= t < |blk| :: nextPos[t] == Sentinel(LastIn(blk[t], j + 1, res + 1))
    modifies nextPos
    ensures noncontinuous == LeftBreaks(blk, res, j, |blk|)
    ensures forall t | 0 <= t < |blk| :: nextPos[t] == Sentinel(LastIn(blk[t], j, res + 1))
  {
    noncontinuous := 0;
    var size := |blk|;
    for s := 0 to size
      invariant noncontinuous == LeftBreaks(blk, res, j, s)
      invariant forall t | 0 <= t < s :: nextPos[t] == Sentinel(LastIn(blk[t], j, res + 1))
      invariant forall t | s <= t < size :: nextPos[t] == Sentinel(LastIn(blk[t], j + 1, res + 1))
    {
      var cell := blk[s][j];
      LastInStep(blk, res, j, s);
      if cell.None? {
        continue;
      } else if nextPos[s] == -1 {
        nextPos[s] := cell.value;
      } else if cell.value < nextPos[s] - 1 {
        noncontinuous := noncontinuous + 1;
      }
    }
  }

  lemma FirstInNonNegative(row: Row, a: nat, b: nat)
    requires a <= b <= |row|
    requires forall q | 0 <= q < |row| :: row[q].Some? ==> row[q].value >= 0
    ensures FirstIn(row, a, b).Some? ==> FirstIn(row, a, b).value >= 0
  {
    FirstInFirst(row, a, b);
  }

  lemma LastInNonNegative(row: Row, a: nat, b: nat)
    requires a <= b <= |row|
    requires forall q | 0 <= q < |row| :: row[q].Some? ==> row[q].value >= 0
    ensures LastIn(row, a, b).Some? ==> LastIn(row, a, b).value >= 0
  {
    LastInLast(row, a, b);
  }

  /** One more column of the rightward scan, for one structure. */
  lemma FirstInStep(blk: Block, res: nat, j: nat, s: nat)
    requires s < |blk| && res <= j < |blk[s]| && NonNegative(blk)
    ensures Sentinel(FirstIn(blk[s], res, j)) == -1 <==> FirstIn(blk[s], res, j).None?
    ensures blk[s][j].Some? ==> blk[s][j].value >= 0
    ensures FirstIn(blk[s], res, j + 1) == if FirstIn(blk[s], res, j).Some? then FirstIn(blk[s], res, j) else blk[s][j]
  {
    FirstInNonNegative(blk[s], res, j);
  }

  /** One more column of the leftward scan, for one structure. */
  lemma LastInStep(blk: Block, res: nat, j: nat, s: nat)
    requires s < |blk| && j <= res < |blk[s]| && NonNegative(blk)
    ensures Sentinel(LastIn(blk[s], j + 1, res + 1)) == -1 <==> LastIn(blk[s], j + 1, res + 1).None?
    ensures blk[s][j].Some? ==> blk[s][j].value >= 0
    ensures LastIn(blk[s], j, res + 1) == if LastIn(blk[s], j + 1, res + 1).Some? then LastIn(blk[s], j + 1, res + 1) else blk[s][j]
  {
    LastInNonNegative(blk[s], j + 1, res + 1);
  }
}

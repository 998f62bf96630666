/**
 * The coverage rule of `checkGaps`: a column with fewer than `Rmin` non-gap
 * cells is removed from its Block and its residues go back to the pool.
 *
 * The effect of one pass is stated on values: `Kept` marks the columns that
 * survive, `FilterFrom` keeps the marked cells of a row, `DroppedFrom` collects
 * the residues of the others, and `CheckedBlocks`/`CheckedPool` give the
 * alignment and the pool after the pass.
 */
module Coverage {
  import opened Wrappers
  import opened Alignment

  /** Every row of the Block has a cell in column `c`. */
  predicate HasColumn(blk: Block, c: nat) {
    forall s | 0 <= s < |blk| :: c < |blk[s]|
  }

  /** The number of gaps among rows 0 .. n-1 of column `c`. */
  function GapCount(blk: Block, c: nat, n: nat): (g: nat)
    requires n <= |blk| && HasColumn(blk, c)
    ensures g <= n
  {
    if n == 0 then 0 else GapCount(blk, c, n - 1) + (if blk[n - 1][c].None? then 1 else 0)
  }

  /** Column `c` holds fewer than `rmin` residues. */
  predicate Low(blk: Block, c: nat, rmin: int)
    requires HasColumn(blk, c)
  {
    |blk| - GapCount(blk, c, |blk|) < rmin
  }

  /** Which columns of a rectangular Block survive the pass. */
  function Kept(blk: Block, rmin: int): (mask: seq<bool>)
    requires Rectangular(blk, |blk|)
    ensures |mask| == BlockLength(blk)
  {
    seq(BlockLength(blk), c requires 0 <= c < BlockLength(blk) => !Low(blk, c, rmin))
  }

  /** The cells of `row` from position `i` on whose column is marked. */
  function FilterFrom(row: Row, mask: seq<bool>, i: nat): Row
    requires |row| == |mask| && i <= |row|
    decreases |row| - i
  {
    if i == |row| then [] else (if mask[i] then [row[i]] else []) + FilterFrom(row, mask, i + 1)
  }

  /** The residues of `row` from position `i` on whose column is not marked. */
  function DroppedFrom(row: Row, mask: seq<bool>, i: nat): set<int>
    requires |row| == |mask| && i <= |row|
    decreases |row| - i
  {
    if i == |row| then {} else (if mask[i] then {} else CellSet(row[i])) + DroppedFrom(row, mask, i + 1)
  }

  /** How many times residue `k` sits in an unmarked column from position `i` on. */
  function DropCount(row: Row, mask: seq<bool>, i: nat, k: int): nat
    requires |row| == |mask| && i <= |row|
    decreases |row| - i
  {
    if i == |row| then 0 else (if mask[i] then 0 else CellCount(row[i], k)) + DropCount(row, mask, i + 1, k)
  }

  /** The number of marked columns from position `i` on. */
  function TrueCount(mask: seq<bool>, i: nat): nat
    requires i <= |mask|
    decreases |mask| - i
  {
    if i == |mask| then 0 else (if mask[i] then 1 else 0) + TrueCount(mask, i + 1)
  }

  /** The position of the `j`-th marked column at or after `i`. */
  function Nth(mask: seq<bool>, i: nat, j: nat): nat
    requires i <= |mask| && j < TrueCount(mask, i)
    decreases |mask| - i
  {
    if mask[i] then (if j == 0 then i else Nth(mask, i + 1, j - 1)) else Nth(mask, i + 1, j)
  }

  /** One Block after the pass: each row keeps exactly the surviving columns. */
  function CheckedBlock(blk: Block, rmin: int): Block
    requires Rectangular(blk, |blk|)
  {
    seq(|blk|, s requires 0 <= s < |blk| => FilterFrom(blk[s], Kept(blk, rmin), 0))
  }

  /** The alignment after `checkGaps`. */
  function CheckedBlocks(blocks: seq<Block>, size: nat, rmin: int): seq<Block>
    requires WellShaped(blocks, size)
  {
    seq(|blocks|, b requires 0 <= b < |blocks| => CheckedBlock(blocks[b], rmin))
  }

  /** The residues of structure `s` that the pass drops from the first `n` Blocks. */
  function DroppedBlocks(blocks: seq<Block>, size: nat, rmin: int, s: nat, n: nat): set<int>
    requires WellShaped(blocks, size) && n <= |blocks|
  {
    if n == 0 || s >= size then {}
    else DroppedBlocks(blocks, size, rmin, s, n - 1) + DroppedFrom(blocks[n - 1][s], Kept(blocks[n - 1], rmin), 0)
  }

  /** The pool after the pass has handled the first `n` Blocks. */
  function PoolPrefix(blocks: seq<Block>, pool: seq<set<int>>, size: nat, rmin: int, n: nat): seq<set<int>>
    requires WellShaped(blocks, size) && n <= |blocks|
  {
    seq(|pool|, s requires 0 <= s < |pool| => pool[s] + DroppedBlocks(blocks, size, rmin, s, n))
  }

  /** The alignment after the pass has handled the first `n` Blocks. */
  function CheckedPrefix(blocks: seq<Block>, size: nat, rmin: int, n: nat): seq<Block>
    requires WellShaped(blocks, size)
  {
    seq(|blocks|, b requires 0 <= b < |blocks| => if b < n then CheckedBlock(blocks[b], rmin) else blocks[b])
  }

  /** The pool after `checkGaps`. */
  function CheckedPool(blocks: seq<Block>, pool: seq<set<int>>, size: nat, rmin: int): seq<set<int>>
    requires WellShaped(blocks, size)
  {
    PoolPrefix(blocks, pool, size, rmin, |blocks|)
  }

  /** No column of any Block is low: the postcondition `checkGaps` establishes. */
  predicate Covered(blocks: seq<Block>, size: nat, rmin: int)
    requires WellShaped(blocks, size)
  {
    forall b, c | 0 <= b < |blocks| && 0 <= c < BlockLength(blocks[b]) :: !Low(blocks[b], c, rmin)
  }

  /** Some column of some Block is low: what `checkGaps` returns. */
  predicate AnyLow(blocks: seq<Block>, size: nat, rmin: int)
    requires WellShaped(blocks, size)
  {
    exists b, c | 0 <= b < |blocks| && 0 <= c < BlockLength(blocks[b]) :: Low(blocks[b], c, rmin)
  }

  // ---------------------------------------------------------------------------
  // Filtering a row.

  lemma {:induction false} FilterLength(row: Row, mask: seq<bool>, i: nat)
    requires |row| == |mask| && i <= |row|
    ensures |FilterFrom(row, mask, i)| == TrueCount(mask, i)
    decreases |row| - i
  {
    if i < |row| {
      FilterLength(row, mask, i + 1);
    }
  }

  /** The `j`-th kept cell is the cell of the `j`-th marked column. */
  lemma {:induction false} FilterAt(row: Row, mask: seq<bool>, i: nat, j: nat)
    requires |row| == |mask| && i <= |row| && j < TrueCount(mask, i)
    ensures i <= Nth(mask, i, j) < |row| && mask[Nth(mask, i, j)]
    ensures |FilterFrom(row, mask, i)| == TrueCount(mask, i)
    ensures FilterFrom(row, mask, i)[j] == row[Nth(mask, i, j)]
    decreases |row| - i
  {
    FilterLength(row, mask, i);
    var rest := FilterFrom(row, mask, i + 1);
    FilterLength(row, mask, i + 1);
    if mask[i] {
      assert FilterFrom(row, mask, i) == [row[i]] + rest;
      if j > 0 {
        FilterAt(row, mask, i + 1, j - 1);
      }
    } else {
      assert FilterFrom(row, mask, i) == rest;
      FilterAt(row, mask, i + 1, j);
    }
  }

  /** Surviving columns keep their order: a later surviving cell comes from a later column. */
  lemma {:induction false} NthIncreasing(mask: seq<bool>, i: nat, j: nat, j': nat)
    requires i <= |mask| && j < j' < TrueCount(mask, i)
    ensures Nth(mask, i, j) < Nth(mask, i, j')
    decreases |mask| - i
  {
    if mask[i] {
      if j > 0 {
        NthIncreasing(mask, i + 1, j - 1, j' - 1);
      } else {
        NthAtLeast(mask, i + 1, j' - 1);
      }
    } else {
      NthIncreasing(mask, i + 1, j, j');
    }
  }

  lemma {:induction false} NthAtLeast(mask: seq<bool>, i: nat, j: nat)
    requires i <= |mask| && j < TrueCount(mask, i)
    ensures i <= Nth(mask, i, j)
    decreases |mask| - i
  {
    if !mask[i] || j > 0 {
      NthAtLeast(mask, i + 1, if mask[i] then j - 1 else j);
    }
  }

  /** Over a run of marked columns the filter copies the row unchanged and drops nothing. */
  lemma TrueRun(row: Row, mask: seq<bool>, a: nat, f: nat)
    requires |row| == |mask| && a <= f <= |row|
    requires forall q | a <= q < f :: mask[q]
    ensures FilterFrom(row, mask, a) == row[a..f] + FilterFrom(row, mask, f)
    ensures DroppedFrom(row, mask, a) == DroppedFrom(row, mask, f)
    ensures forall k :: DropCount(row, mask, a, k) == DropCount(row, mask, f, k)
  {
    TrueRunFilter(row, mask, a, f);
    TrueRunDropped(row, mask, a, f);
    forall k ensures DropCount(row, mask, a, k) == DropCount(row, mask, f, k) {
      TrueRunDropCount(row, mask, a, f, k);
    }
  }

  lemma {:induction false} TrueRunFilter(row: Row, mask: seq<bool>, a: nat, f: nat)
    requires |row| == |mask| && a <= f <= |row|
    requires forall q | a <= q < f :: mask[q]
    ensures FilterFrom(row, mask, a) == row[a..f] + FilterFrom(row, mask, f)
    decreases f - a
  {
    if a < f {
      TrueRunFilter(row, mask, a + 1, f);
      assert mask[a];
      assert FilterFrom(row, mask, a) == [row[a]] + FilterFrom(row, mask, a + 1);
      assert row[a..f] == [row[a]] + row[a + 1..f];
    } else {
      assert row[a..f] == [];
    }
  }

  lemma {:induction false} TrueRunDropped(row: Row, mask: seq<bool>, a: nat, f: nat)
    requires |row| == |mask| && a <= f <= |row|
    requires forall q | a <= q < f :: mask[q]
    ensures DroppedFrom(row, mask, a) == DroppedFrom(row, mask, f)
    decreases f - a
  {
    if a < f {
      TrueRunDropped(row, mask, a + 1, f);
      assert mask[a];
    }
  }

  lemma {:induction false} TrueRunDropCount(row: Row, mask: seq<bool>, a: nat, f: nat, k: int)
    requires |row| == |mask| && a <= f <= |row|
    requires forall q | a <= q < f :: mask[q]
    ensures DropCount(row, mask, a, k) == DropCount(row, mask, f, k)
    decreases f - a
  {
    if a < f {
      TrueRunDropCount(row, mask, a + 1, f, k);
      assert mask[a];
    }
  }

  /** A mask with no unmarked column keeps the whole row. */
  lemma AllTrueKeeps(row: Row, mask: seq<bool>)
    requires |row| == |mask|
    requires forall q | 0 <= q < |mask| :: mask[q]
    ensures FilterFrom(row, mask, 0) == row
    ensures DroppedFrom(row, mask, 0) == {}
  {
    TrueRun(row, mask, 0, |row|);
    assert row[0..|row|] == row;
  }

  /** A mask with an unmarked column makes the row strictly shorter. */
  lemma {:induction false} FalseShortens(mask: seq<bool>, i: nat, p: nat)
    requires i <= p < |mask| && !mask[p]
    ensures TrueCount(mask, i) < |mask| - i
    decreases |mask| - i
  {
    if i < p {
      FalseShortens(mask, i + 1, p);
    } else {
      TrueCountBound(mask, i + 1);
    }
  }

  lemma {:induction false} TrueCountBound(mask: seq<bool>, i: nat)
    requires i <= |mask|
    ensures TrueCount(mask, i) <= |mask| - i
    decreases |mask| - i
  {
    if i < |mask| {
      TrueCountBound(mask, i + 1);
    }
  }

  /**
   * What a row holds is what its filtered part holds plus what it drops; a
   * residue is dropped exactly when the drop count is positive.
   */
  lemma {:induction false} FilterSplitsCount(row: Row, mask: seq<bool>, i: nat, k: int)
    requires |row| == |mask| && i <= |row|
    ensures RowCount(row[i..], k) == RowCount(FilterFrom(row, mask, i), k) + DropCount(row, mask, i, k)
    ensures k in DroppedFrom(row, mask, i) <==> DropCount(row, mask, i, k) > 0
    decreases |row| - i
  {
    if i == |row| {
      assert row[i..] == [];
    } else {
      FilterSplitsCount(row, mask, i + 1, k);
      assert row[i..] == [row[i]] + row[i + 1..];
      RowCountAppend([row[i]], row[i + 1..], k);
      RowCountSingle(row[i], k);
      var head: Row := if mask[i] then [row[i]] else [];
      RowCountAppend(head, FilterFrom(row, mask, i + 1), k);
      if mask[i] {
        RowCountSingle(row[i], k);
      }
    }
  }

  // ---------------------------------------------------------------------------
  // The pass keeps Blocks rectangular and leaves every column covered.

  lemma CheckedBlockShape(blk: Block, rmin: int)
    requires Rectangular(blk, |blk|)
    ensures Rectangular(CheckedBlock(blk, rmin), |blk|)
    ensures |blk| > 0 ==> BlockLength(CheckedBlock(blk, rmin)) == TrueCount(Kept(blk, rmin), 0)
  {
    var mask := Kept(blk, rmin);
    forall s | 0 <= s < |blk| ensures |CheckedBlock(blk, rmin)[s]| == TrueCount(mask, 0) {
      FilterLength(blk[s], mask, 0);
    }
  }

  /** The cell in surviving column `j` is the original cell of column `Nth(mask, 0, j)`. */
  lemma CheckedCell(blk: Block, rmin: int, s: nat, j: nat)
    requires Rectangular(blk, |blk|) && s < |blk| && j < TrueCount(Kept(blk, rmin), 0)
    ensures Nth(Kept(blk, rmin), 0, j) < |blk[s]| == BlockLength(blk)
    ensures !Low(blk, Nth(Kept(blk, rmin), 0, j), rmin)
    ensures j < |CheckedBlock(blk, rmin)[s]|
    ensures CheckedBlock(blk, rmin)[s][j] == blk[s][Nth(Kept(blk, rmin), 0, j)]
  {
    FilterAt(blk[s], Kept(blk, rmin), 0, j);
  }

  lemma {:induction false} GapCountMatches(blk: Block, blk': Block, c: nat, c': nat, n: nat)
    requires n <= |blk| && n <= |blk'| && HasColumn(blk, c) && HasColumn(blk', c')
    requires forall s | 0 <= s < n :: blk'[s][c'] == blk[s][c]
    ensures GapCount(blk', c', n) == GapCount(blk, c, n)
  {
    if n > 0 {
      GapCountMatches(blk, blk', c, c', n - 1);
    }
  }

  /** After the pass, every column of a Block holds at least `rmin` residues. */
  lemma CheckedBlockCovered(blk: Block, rmin: int, j: nat)
    requires Rectangular(blk, |blk|) && |blk| > 0
    requires j < BlockLength(CheckedBlock(blk, rmin))
    ensures HasColumn(CheckedBlock(blk, rmin), j)
    ensures !Low(CheckedBlock(blk, rmin), j, rmin)
  {
    var chk := CheckedBlock(blk, rmin);
    var mask := Kept(blk, rmin);
    CheckedBlockShape(blk, rmin);
    var c := Nth(mask, 0, j);
    CheckedCell(blk, rmin, 0, j);
    forall s | 0 <= s < |blk| ensures chk[s][j] == blk[s][c] {
      CheckedCell(blk, rmin, s, j);
    }
    CheckedCell(blk, rmin, 0, j);
    GapCountMatches(blk, chk, c, j, |blk|);
  }

  /** `checkGaps` keeps every Block rectangular with the same number of rows. */
  lemma CheckedShape(blocks: seq<Block>, size: nat, rmin: int)
    requires WellShaped(blocks, size)
    ensures |CheckedBlocks(blocks, size, rmin)| == |blocks|
    ensures WellShaped(CheckedBlocks(blocks, size, rmin), size)
  {
    forall b | 0 <= b < |blocks| ensures Rectangular(CheckedBlocks(blocks, size, rmin)[b], size) {
      CheckedBlockShape(blocks[b], rmin);
    }
  }

  /** After `checkGaps`, every column of every Block holds at least `rmin` residues. */
  lemma CheckedCovered(blocks: seq<Block>, size: nat, rmin: int)
    requires WellShaped(blocks, size)
    ensures WellShaped(CheckedBlocks(blocks, size, rmin), size)
    ensures Covered(CheckedBlocks(blocks, size, rmin), size, rmin)
  {
    CheckedShape(blocks, size, rmin);
    var chk := CheckedBlocks(blocks, size, rmin);
    forall b, c | 0 <= b < |chk| && 0 <= c < BlockLength(chk[b]) ensures !Low(chk[b], c, rmin) {
      CheckedBlockCovered(blocks[b], rmin, c);
    }
  }

  /**
   * Surviving columns are never touched: column `j` of a checked Block is,
   * cell for cell, an original column that was not low, and surviving
   * columns keep their relative order.
   */
  lemma CheckedKeepsColumns(blk: Block, rmin: int, j: nat, j': nat)
    requires Rectangular(blk, |blk|) && |blk| > 0
    requires j < j' < TrueCount(Kept(blk, rmin), 0)
    ensures Rectangular(CheckedBlock(blk, rmin), |blk|)
    ensures BlockLength(CheckedBlock(blk, rmin)) == TrueCount(Kept(blk, rmin), 0)
    ensures Nth(Kept(blk, rmin), 0, j) < Nth(Kept(blk, rmin), 0, j') < BlockLength(blk)
    ensures forall s | 0 <= s < |blk| ::
      CheckedBlock(blk, rmin)[s][j] == blk[s][Nth(Kept(blk, rmin), 0, j)] &&
      CheckedBlock(blk, rmin)[s][j'] == blk[s][Nth(Kept(blk, rmin), 0, j')]
  {
    CheckedBlockShape(blk, rmin);
    CheckedCell(blk, rmin, 0, j');
    NthIncreasing(Kept(blk, rmin), 0, j, j');
    forall s | 0 <= s < |blk|
      ensures CheckedBlock(blk, rmin)[s][j] == blk[s][Nth(Kept(blk, rmin), 0, j)]
      ensures CheckedBlock(blk, rmin)[s][j'] == blk[s][Nth(Kept(blk, rmin), 0, j')]
    {
      CheckedCell(blk, rmin, s, j);
      CheckedCell(blk, rmin, s, j');
    }
  }

  lemma {:induction false} DroppedBlocksEmpty(blocks: seq<Block>, size: nat, rmin: int, s: nat, n: nat)
    requires WellShaped(blocks, size) && n <= |blocks| && Covered(blocks, size, rmin)
    ensures DroppedBlocks(blocks, size, rmin, s, n) == {}
  {
    if n > 0 && s < size {
      DroppedBlocksEmpty(blocks, size, rmin, s, n - 1);
      AllTrueKeeps(blocks[n - 1][s], Kept(blocks[n - 1], rmin));
    }
  }

  /** On a covered alignment `checkGaps` changes nothing. */
  lemma CoveredUnchanged(blocks: seq<Block>, pool: seq<set<int>>, size: nat, rmin: int)
    requires WellShaped(blocks, size) && Covered(blocks, size, rmin)
    ensures CheckedBlocks(blocks, size, rmin) == blocks
    ensures CheckedPool(blocks, pool, size, rmin) == pool
  {
    forall b | 0 <= b < |blocks| ensures CheckedBlock(blocks[b], rmin) == blocks[b] {
      forall s | 0 <= s < |blocks[b]| ensures CheckedBlock(blocks[b], rmin)[s] == blocks[b][s] {
        AllTrueKeeps(blocks[b][s], Kept(blocks[b], rmin));
      }
    }
    forall s | 0 <= s < |pool| ensures CheckedPool(blocks, pool, size, rmin)[s] == pool[s] {
      DroppedBlocksEmpty(blocks, size, rmin, s, |blocks|);
    }
  }

  /** Running `checkGaps` twice in a row: the second pass changes nothing. */
  lemma CheckGapsIdempotent(blocks: seq<Block>, pool: seq<set<int>>, size: nat, rmin: int)
    requires WellShaped(blocks, size)
    ensures WellShaped(CheckedBlocks(blocks, size, rmin), size)
    ensures !AnyLow(CheckedBlocks(blocks, size, rmin), size, rmin)
    ensures CheckedBlocks(CheckedBlocks(blocks, size, rmin), size, rmin) == CheckedBlocks(blocks, size, rmin)
    ensures CheckedPool(CheckedBlocks(blocks, size, rmin), CheckedPool(blocks, pool, size, rmin), size, rmin)
         == CheckedPool(blocks, pool, size, rmin)
  {
    CheckedCovered(blocks, size, rmin);
    CoveredUnchanged(CheckedBlocks(blocks, size, rmin), CheckedPool(blocks, pool, size, rmin), size, rmin);
  }

  /** `checkGaps` reports a change exactly when some Block lost a column. */
  lemma AnyLowIffShrunk(blocks: seq<Block>, size: nat, rmin: int)
    requires WellShaped(blocks, size) && size > 0
    ensures AnyLow(blocks, size, rmin) <==>
      exists b | 0 <= b < |blocks| :: BlockLength(CheckedBlocks(blocks, size, rmin)[b]) < BlockLength(blocks[b])
  {
    var chk := CheckedBlocks(blocks, size, rmin);
    if AnyLow(blocks, size, rmin) {
      var b, c :| 0 <= b < |blocks| && 0 <= c < BlockLength(blocks[b]) && Low(blocks[b], c, rmin);
      CheckedBlockShape(blocks[b], rmin);
      FalseShortens(Kept(blocks[b], rmin), 0, c);
      assert BlockLength(chk[b]) < BlockLength(blocks[b]);
    } else {
      CoveredUnchanged(blocks, [], size, rmin);
    }
  }

  // ---------------------------------------------------------------------------
  // The pass keeps the ledger balanced.

  /** Handling one more Block keeps the ledger balanced. */
  lemma CheckBlockLedger(blocks: seq<Block>, pool: seq<set<int>>, lengths: seq<nat>, size: nat, rmin: int, n: nat)
    requires WellShaped(blocks, size) && n < |blocks| && |lengths| == size
    requires Partitioned(CheckedPrefix(blocks, size, rmin, n), PoolPrefix(blocks, pool, size, rmin, n), lengths)
    ensures Partitioned(CheckedPrefix(blocks, size, rmin, n + 1), PoolPrefix(blocks, pool, size, rmin, n + 1), lengths)
  {
    var cur, free := CheckedPrefix(blocks, size, rmin, n), PoolPrefix(blocks, pool, size, rmin, n);
    var blk, mask := blocks[n], Kept(blocks[n], rmin);
    var chk := CheckedBlock(blk, rmin);
    var free' := PoolPrefix(blocks, pool, size, rmin, n + 1);
    assert CheckedPrefix(blocks, size, rmin, n + 1) == cur[n := chk];
    forall s, k | 0 <= s < size
      ensures BlockRowCount(chk, s, k) + FreeCount(free'[s], k) == BlockRowCount(cur[n], s, k) + FreeCount(free[s], k)
    {
      var row := blk[s];
      assert free'[s] == free[s] + DroppedFrom(row, mask, 0);
      FilterSplitsCount(row, mask, 0, k);
      assert row[0..] == row;
      CountContainsRow(cur, n, s, k);
      assert Count(cur, s, k) + FreeCount(free[s], k) == InRange(k, lengths[s]);
    }
    ReplaceBlock(cur, free, lengths, n, chk, free');
  }

  /** Before the pass has handled any Block, the alignment and the pool are as they were. */
  lemma PrefixStart(blocks: seq<Block>, pool: seq<set<int>>, size: nat, rmin: int)
    requires WellShaped(blocks, size)
    ensures CheckedPrefix(blocks, size, rmin, 0) == blocks && PoolPrefix(blocks, pool, size, rmin, 0) == pool
  {
    assert CheckedPrefix(blocks, size, rmin, 0) == blocks;
    forall s | 0 <= s < |pool| ensures PoolPrefix(blocks, pool, size, rmin, 0)[s] == pool[s] {
      assert DroppedBlocks(blocks, size, rmin, s, 0) == {};
    }
    assert PoolPrefix(blocks, pool, size, rmin, 0) == pool;
  }

  lemma {:induction false} CheckedPrefixLedger(blocks: seq<Block>, pool: seq<set<int>>, lengths: seq<nat>,
                                               size: nat, rmin: int, n: nat)
    requires WellShaped(blocks, size) && n <= |blocks| && |lengths| == size
    requires Partitioned(blocks, pool, lengths)
    ensures Partitioned(CheckedPrefix(blocks, size, rmin, n), PoolPrefix(blocks, pool, size, rmin, n), lengths)
  {
    if n == 0 {
      PrefixStart(blocks, pool, size, rmin);
    } else {
      var m := n - 1;
      CheckedPrefixLedger(blocks, pool, lengths, size, rmin, m);
      CheckBlockLedger(blocks, pool, lengths, size, rmin, m);
      assert m + 1 == n;
    }
  }

  /**
   * `checkGaps` keeps the ledger balanced: every residue it removes from a
   * column joins its structure's pool, and no residue is lost or duplicated.
   */
  lemma CheckedLedger(blocks: seq<Block>, pool: seq<set<int>>, lengths: seq<nat>, size: nat, rmin: int)
    requires WellShaped(blocks, size) && |lengths| == size
    requires Partitioned(blocks, pool, lengths)
    ensures Partitioned(CheckedBlocks(blocks, size, rmin), CheckedPool(blocks, pool, size, rmin), lengths)
  {
    CheckedPrefixLedger(blocks, pool, lengths, size, rmin, |blocks|);
    assert CheckedPrefix(blocks, size, rmin, |blocks|) == CheckedBlocks(blocks, size, rmin);
  }

  // ---------------------------------------------------------------------------
  // Removing the low columns one by one, from the highest index down.

  /** A row whose unmarked columns at or after `f` are removed: the rest is untouched. */
  function Partial(row: Row, mask: seq<bool>, f: nat): Row
    requires |row| == |mask| && f <= |row|
  {
    row[..f] + FilterFrom(row, mask, f)
  }

  /** The lowest column not yet removed once the columns `cols[i..]` are gone. */
  function Frontier(cols: seq<nat>, i: nat, n: nat): nat
    requires i <= |cols|
  {
    if i < |cols| then cols[i] else n
  }

  /** `cols` lists, in increasing order, exactly the unmarked columns of the mask. */
  ghost predicate ListsUnmarked(cols: seq<nat>, mask: seq<bool>) {
    (forall i, j | 0 <= i < j < |cols| :: cols[i] < cols[j]) &&
    (forall i | 0 <= i < |cols| :: cols[i] < |mask|) &&
    (forall x :: x in cols <==> 0 <= x < |mask| && !mask[x])
  }

  lemma FrontierBound(cols: seq<nat>, mask: seq<bool>, i: nat)
    requires ListsUnmarked(cols, mask) && i <= |cols|
    ensures Frontier(cols, i, |mask|) <= |mask|
    ensures forall q | 0 <= q < Frontier(cols, i, |mask|) && (i == 0 || cols[i - 1] < q) :: mask[q]
  {
    forall q | 0 <= q < Frontier(cols, i, |mask|) && (i == 0 || cols[i - 1] < q) ensures mask[q] {
      forall j | 0 <= j < |cols| ensures cols[j] != q {
        if j < i {
          assert cols[j] <= cols[i - 1];
        } else {
          assert cols[i] <= cols[j];
        }
      }
      assert q !in cols;
    }
  }

  /**
   * Removing column `cols[i]` after the higher ones takes out exactly the
   * original cell of that column, and leaves the row with all unmarked
   * columns from `cols[i]` on removed.
   */
  lemma StripStep(row: Row, mask: seq<bool>, cols: seq<nat>, i: nat)
    requires |row| == |mask| && ListsUnmarked(cols, mask) && i < |cols|
    ensures cols[i] < Frontier(cols, i + 1, |row|) <= |row|
    ensures cols[i] < |Partial(row, mask, Frontier(cols, i + 1, |row|))|
    ensures Partial(row, mask, Frontier(cols, i + 1, |row|))[cols[i]] == row[cols[i]]
    ensures RemoveAt(Partial(row, mask, Frontier(cols, i + 1, |row|)), cols[i]) == Partial(row, mask, cols[i])
    ensures DroppedFrom(row, mask, cols[i]) == DroppedFrom(row, mask, Frontier(cols, i + 1, |row|)) + CellSet(row[cols[i]])
  {
    var p, f := cols[i], Frontier(cols, i + 1, |row|);
    FrontierBound(cols, mask, i + 1);
    assert p in cols;
    if i + 1 < |cols| {
      assert cols[i] < cols[i + 1];
    }
    TrueRun(row, mask, p + 1, f);
    RemoveUnmarked(row, mask, p, f);
  }

  /**
   * Column `p` is unmarked and the columns after it, up to `f`, are marked:
   * removing column `p` from the partly filtered row extends the filtering down to `p`.
   */
  lemma RemoveUnmarked(row: Row, mask: seq<bool>, p: nat, f: nat)
    requires |row| == |mask| && p < f <= |row| && !mask[p]
    requires FilterFrom(row, mask, p + 1) == row[p + 1..f] + FilterFrom(row, mask, f)
    requires DroppedFrom(row, mask, p + 1) == DroppedFrom(row, mask, f)
    ensures p < |Partial(row, mask, f)| && Partial(row, mask, f)[p] == row[p]
    ensures RemoveAt(Partial(row, mask, f), p) == Partial(row, mask, p)
    ensures DroppedFrom(row, mask, p) == DroppedFrom(row, mask, f) + CellSet(row[p])
  {
    var tail := FilterFrom(row, mask, f);
    assert FilterFrom(row, mask, p) == row[p + 1..f] + tail;
    var whole := Partial(row, mask, f);
    assert whole == row[..f] + tail;
    assert whole[..p] == row[..p];
    assert whole[p + 1..] == row[p + 1..f] + tail;
  }

  /** Before any removal the row is whole; after the last one it is the filtered row. */
  lemma StripEnds(row: Row, mask: seq<bool>, cols: seq<nat>)
    requires |row| == |mask| && ListsUnmarked(cols, mask)
    ensures Partial(row, mask, Frontier(cols, |cols|, |row|)) == row
    ensures DroppedFrom(row, mask, Frontier(cols, |cols|, |row|)) == {}
    ensures Frontier(cols, 0, |row|) <= |row|
    ensures Partial(row, mask, Frontier(cols, 0, |row|)) == FilterFrom(row, mask, 0)
    ensures DroppedFrom(row, mask, Frontier(cols, 0, |row|)) == DroppedFrom(row, mask, 0)
  {
    assert row[..|row|] == row;
    FrontierBound(cols, mask, 0);
    TrueRun(row, mask, 0, Frontier(cols, 0, |row|));
  }
}

module Wrappers {

  /** A value that may be absent: Java's nullable `Integer`. */
  datatype Option<T> = None | Some(value: T)
}

/**
 * The columnar alignment the optimizer edits, and the ledger that ties it to
 * the free pool.
 *
 * A Block is stored as in `Block.getAlignRes()`: one row per structure, one
 * cell per column, a cell holding a residue index or a gap (`null`). The
 * alignment is the flat list of Blocks of `MultipleAlignment.getBlocks()`.
 * The free pool holds, per structure, the residues not placed in any column.
 */
module Alignment {
  import opened Wrappers

  /** One cell: a residue index of one structure, or a gap. */
  type Cell = Option<int>

  /** One structure's cells across the columns of a Block. */
  type Row = seq<Cell>

  /** A Block, indexed [structure][column]. */
  type Block = seq<Row>

  /** Number of columns of a Block: the length of its first row, as `Block.length()`. */
  function BlockLength(blk: Block): nat {
    if |blk| == 0 then 0 else |blk[0]|
  }

  /** A Block has one row per structure and all its rows have the same length. */
  predicate Rectangular(blk: Block, size: nat) {
    |blk| == size && forall s | 0 <= s < |blk| :: |blk[s]| == BlockLength(blk)
  }

  /** Every Block of the alignment is rectangular. */
  predicate WellShaped(blocks: seq<Block>, size: nat) {
    forall b | 0 <= b < |blocks| :: Rectangular(blocks[b], size)
  }

  /** The residue a cell holds, as a set of zero or one element. */
  function CellSet(c: Cell): set<int> {
    if c.Some? then {c.value} else {}
  }

  /** How many times a cell holds residue `k`: zero or one. */
  function CellCount(c: Cell, k: int): nat {
    if c == Some(k) then 1 else 0
  }

  /** How many cells of a row hold residue `k`. */
  function RowCount(row: Row, k: int): nat
    decreases |row|
  {
    if row == [] then 0 else RowCount(row[..|row| - 1], k) + CellCount(row[|row| - 1], k)
  }

  /** How many cells of structure `s`'s row in one Block hold residue `k`. */
  function BlockRowCount(blk: Block, s: nat, k: int): nat {
    if s < |blk| then RowCount(blk[s], k) else 0
  }

  /** How many cells of structure `s` hold residue `k` anywhere in the alignment. */
  function Count(blocks: seq<Block>, s: nat, k: int): nat
    decreases |blocks|
  {
    if blocks == [] then 0
    else Count(blocks[..|blocks| - 1], s, k) + BlockRowCount(blocks[|blocks| - 1], s, k)
  }

  /** 1 when `k` is a residue index of a structure of length `n`, else 0. */
  function InRange(k: int, n: nat): nat {
    if 0 <= k < n then 1 else 0
  }

  /** 1 when `k` is in the pool `free`, else 0. */
  function FreeCount(free: set<int>, k: int): nat {
    if k in free then 1 else 0
  }

  /**
   * The ledger: for every structure and every residue index of it, the
   * residue is either aligned exactly once or free, never both; any other
   * integer appears neither in the alignment nor in the pool. So the pool is
   * disjoint from the aligned residues, no residue is aligned twice, and
   * every aligned residue is a valid index.
   */
  ghost predicate Partitioned(blocks: seq<Block>, pool: seq<set<int>>, lengths: seq<nat>) {
    |pool| == |lengths| &&
    forall s, k | 0 <= s < |lengths| :: Count(blocks, s, k) + FreeCount(pool[s], k) == InRange(k, lengths[s])
  }

  /** `List.remove(int)`: the row without its cell at `p`. */
  function RemoveAt(row: Row, p: nat): (r: Row)
    requires p < |row|
    ensures |r| == |row| - 1
  {
    row[..p] + row[p + 1..]
  }

  /** `List.add(int, E)`: the row with cell `c` inserted before position `p`. */
  function InsertAt(row: Row, p: nat, c: Cell): (r: Row)
    requires p <= |row|
    ensures |r| == |row| + 1
  {
    row[..p] + [c] + row[p..]
  }

  lemma {:induction false} RowCountAppend(a: Row, b: Row, k: int)
    ensures RowCount(a + b, k) == RowCount(a, k) + RowCount(b, k)
    decreases |b|
  {
    if b == [] {
      assert a + b == a;
    } else {
      var b' := b[..|b| - 1];
      assert (a + b)[..|a + b| - 1] == a + b';
      assert (a + b)[|a + b| - 1] == b[|b| - 1];
      RowCountAppend(a, b', k);
    }
  }

  lemma RowCountSingle(c: Cell, k: int)
    ensures RowCount([c], k) == CellCount(c, k)
  {
    assert [c][..0] == [];
  }

  /** A row's count of `k` is that before `p`, at `p` and after `p`. */
  lemma RowCountSplit(row: Row, p: nat, k: int)
    requires p < |row|
    ensures RowCount(row, k) == RowCount(row[..p], k) + CellCount(row[p], k) + RowCount(row[p + 1..], k)
  {
    assert row == row[..p] + [row[p]] + row[p + 1..];
    RowCountAppend(row[..p] + [row[p]], row[p + 1..], k);
    RowCountAppend(row[..p], [row[p]], k);
    RowCountSingle(row[p], k);
  }

  lemma RemoveAtCount(row: Row, p: nat, k: int)
    requires p < |row|
    ensures RowCount(RemoveAt(row, p), k) + CellCount(row[p], k) == RowCount(row, k)
  {
    RowCountSplit(row, p, k);
    RowCountAppend(row[..p], row[p + 1..], k);
  }

  lemma InsertAtCount(row: Row, p: nat, c: Cell, k: int)
    requires p <= |row|
    ensures RowCount(InsertAt(row, p, c), k) == RowCount(row, k) + CellCount(c, k)
  {
    assert row == row[..p] + row[p..];
    RowCountAppend(row[..p], row[p..], k);
    RowCountAppend(row[..p] + [c], row[p..], k);
    RowCountAppend(row[..p], [c], k);
    RowCountSingle(c, k);
  }

  lemma UpdateCount(row: Row, p: nat, c: Cell, k: int)
    requires p < |row|
    ensures RowCount(row[p := c], k) + CellCount(row[p], k) == RowCount(row, k) + CellCount(c, k)
  {
    RowCountSplit(row, p, k);
    RowCountSplit(row[p := c], p, k);
    assert row[p := c][..p] == row[..p];
    assert row[p := c][p + 1..] == row[p + 1..];
  }

  /** Replacing one Block changes a structure's count by exactly that Block's row. */
  lemma {:induction false} CountReplace(blocks: seq<Block>, b: nat, blk: Block, s: nat, k: int)
    requires b < |blocks|
    ensures Count(blocks[b := blk], s, k) + BlockRowCount(blocks[b], s, k)
         == Count(blocks, s, k) + BlockRowCount(blk, s, k)
    decreases |blocks|
  {
    var n := |blocks|;
    var blocks' := blocks[b := blk];
    if b < n - 1 {
      assert blocks'[..n - 1] == blocks[..n - 1][b := blk];
      CountReplace(blocks[..n - 1], b, blk, s, k);
    } else {
      assert blocks'[..n - 1] == blocks[..n - 1];
    }
  }

  /** A Block's row of structure `s` counts towards that structure's total. */
  lemma CountContainsRow(blocks: seq<Block>, b: nat, s: nat, k: int)
    requires b < |blocks|
    ensures BlockRowCount(blocks[b], s, k) <= Count(blocks, s, k)
  {
    CountReplace(blocks, b, [], s, k);
  }

  /**
   * Replacing Block `b` by `blk` and the pool by `pool'` keeps the ledger
   * balanced when, residue by residue, what the Block's rows and the pool
   * hold together does not change.
   */
  lemma ReplaceBlock(blocks: seq<Block>, pool: seq<set<int>>, lengths: seq<nat>,
                     b: nat, blk: Block, pool': seq<set<int>>)
    requires Partitioned(blocks, pool, lengths)
    requires b < |blocks| && |pool'| == |lengths|
    requires forall s, k | 0 <= s < |lengths| ::
      BlockRowCount(blk, s, k) + FreeCount(pool'[s], k) == BlockRowCount(blocks[b], s, k) + FreeCount(pool[s], k)
    ensures Partitioned(blocks[b := blk], pool', lengths)
  {
    forall s, k | 0 <= s < |lengths|
      ensures Count(blocks[b := blk], s, k) + FreeCount(pool'[s], k) == InRange(k, lengths[s])
    {
      CountReplace(blocks, b, blk, s, k);
    }
  }

  /** Residue by residue, `row'` and `free'` together hold what `row` and `free` held. */
  ghost predicate SameHoldings(row: Row, free: set<int>, row': Row, free': set<int>) {
    forall k :: RowCount(row', k) + FreeCount(free', k) == RowCount(row, k) + FreeCount(free, k)
  }

  /**
   * Row `s` of Block `b` becomes `row'` and that structure's pool becomes
   * `free'`: the ledger stays balanced when, residue by residue, the row and
   * the pool hold together what they held before.
   */
  lemma ReplaceRow(blocks: seq<Block>, pool: seq<set<int>>, lengths: seq<nat>,
                   b: nat, s: nat, row': Row, free': set<int>)
    requires Partitioned(blocks, pool, lengths)
    requires b < |blocks| && s < |blocks[b]| && s < |lengths|
    requires SameHoldings(blocks[b][s], pool[s], row', free')
    ensures Partitioned(blocks[b := blocks[b][s := row']], pool[s := free'], lengths)
  {
    var blk := blocks[b][s := row'];
    var pool' := pool[s := free'];
    forall t, k | 0 <= t < |lengths|
      ensures BlockRowCount(blk, t, k) + FreeCount(pool'[t], k) == BlockRowCount(blocks[b], t, k) + FreeCount(pool[t], k)
    {
    }
    ReplaceBlock(blocks, pool, lengths, b, blk, pool');
  }

  /**
   * Row `s` of Block `b` loses the residue of cell `c`, and that residue
   * joins the pool: the ledger stays balanced.
   */
  lemma ReplaceRowReturning(blocks: seq<Block>, pool: seq<set<int>>, lengths: seq<nat>,
                            b: nat, s: nat, row': Row, c: Cell)
    requires Partitioned(blocks, pool, lengths)
    requires b < |blocks| && s < |blocks[b]| && s < |lengths|
    requires forall k :: RowCount(row', k) + CellCount(c, k) == RowCount(blocks[b][s], k)
    ensures Partitioned(blocks[b := blocks[b][s := row']], pool[s := pool[s] + CellSet(c)], lengths)
  {
    forall k ensures RowCount(row', k) + FreeCount(pool[s] + CellSet(c), k) == RowCount(blocks[b][s], k) + FreeCount(pool[s], k) {
      if c == Some(k) {
        assert Count(blocks, s, k) + FreeCount(pool[s], k) == InRange(k, lengths[s]);
        CountContainsRow(blocks, b, s, k);
      }
    }
    ReplaceRow(blocks, pool, lengths, b, s, row', pool[s] + CellSet(c));
  }

  /**
   * Row `s` of Block `b` gains the residue of cell `c`, taken out of the
   * pool: the ledger stays balanced.
   */
  lemma ReplaceRowTaking(blocks: seq<Block>, pool: seq<set<int>>, lengths: seq<nat>,
                         b: nat, s: nat, row': Row, c: Cell)
    requires Partitioned(blocks, pool, lengths)
    requires b < |blocks| && s < |blocks[b]| && s < |lengths|
    requires c.Some? ==> c.value in pool[s]
    requires forall k :: RowCount(row', k) == RowCount(blocks[b][s], k) + CellCount(c, k)
    ensures Partitioned(blocks[b := blocks[b][s := row']], pool[s := pool[s] - CellSet(c)], lengths)
  {
    forall k ensures RowCount(row', k) + FreeCount(pool[s] - CellSet(c), k) == RowCount(blocks[b][s], k) + FreeCount(pool[s], k) {
    }
    ReplaceRow(blocks, pool, lengths, b, s, row', pool[s] - CellSet(c));
  }

  /**
   * Under the ledger, an aligned residue is a valid index of its structure,
   * is not in that structure's pool, and is aligned nowhere else.
   */
  lemma AlignedResidue(blocks: seq<Block>, pool: seq<set<int>>, lengths: seq<nat>, b: nat, s: nat, p: nat)
    requires Partitioned(blocks, pool, lengths)
    requires b < |blocks| && s < |blocks[b]| && s < |lengths| && p < |blocks[b][s]|
    requires blocks[b][s][p].Some?
    ensures 0 <= blocks[b][s][p].value < lengths[s]
    ensures blocks[b][s][p].value !in pool[s]
    ensures Count(blocks, s, blocks[b][s][p].value) == 1
  {
    var v := blocks[b][s][p].value;
    RowCountSplit(blocks[b][s], p, v);
    CountContainsRow(blocks, b, s, v);
    assert Count(blocks, s, v) + FreeCount(pool[s], v) == InRange(v, lengths[s]);
  }

  /** Under the ledger, a valid index missing from the pool is aligned exactly once. */
  lemma NotFreeMeansAligned(blocks: seq<Block>, pool: seq<set<int>>, lengths: seq<nat>, s: nat, v: int)
    requires Partitioned(blocks, pool, lengths)
    requires s < |lengths| && 0 <= v < lengths[s] && v !in pool[s]
    ensures Count(blocks, s, v) == 1
  {
    assert Count(blocks, s, v) + FreeCount(pool[s], v) == InRange(v, lengths[s]);
  }

  /** Under the ledger, a row and its structure's pool hold each residue at most once between them. */
  lemma RowBound(blocks: seq<Block>, pool: seq<set<int>>, lengths: seq<nat>, b: nat, s: nat)
    requires Partitioned(blocks, pool, lengths)
    requires b < |blocks| && s < |blocks[b]| && s < |lengths|
    ensures forall k :: RowCount(blocks[b][s], k) + FreeCount(pool[s], k) <= 1
  {
    forall k ensures RowCount(blocks[b][s], k) + FreeCount(pool[s], k) <= 1 {
      CountContainsRow(blocks, b, s, k);
      assert Count(blocks, s, k) + FreeCount(pool[s], k) == InRange(k, lengths[s]);
    }
  }

  /** A cell holding `v` makes the row's count of `v` positive. */
  lemma CellCounted(row: Row, p: nat)
    requires p < |row| && row[p].Some?
    ensures RowCount(row, row[p].value) >= 1
  {
    RowCountSplit(row, p, row[p].value);
  }

  /** Replacing a row by one of the same length keeps the alignment well shaped. */
  lemma ReplaceRowShape(blocks: seq<Block>, size: nat, b: nat, s: nat, row': Row)
    requires WellShaped(blocks, size) && b < |blocks| && s < |blocks[b]|
    requires |row'| == |blocks[b][s]|
    ensures WellShaped(blocks[b := blocks[b][s := row']], size)
  {
  }

  /** Removing cell `r` and inserting `c` at `l <= r` slides cells l .. r-1 one place right. */
  lemma RemoveThenInsert(row: Row, l: nat, r: nat, c: Cell)
    requires l <= r < |row|
    ensures InsertAt(RemoveAt(row, r), l, c) == row[..l] + [c] + row[l..r] + row[r + 1..]
  {
    var t := RemoveAt(row, r);
    assert t[..l] == row[..l];
    assert t[l..] == row[l..r] + row[r + 1..];
  }

  /** Inserting `c` after cell `r` and removing cell `l <= r` slides cells l+1 .. r one place left. */
  lemma InsertThenRemove(row: Row, l: nat, r: nat, c: Cell)
    requires l <= r < |row|
    ensures RemoveAt(InsertAt(row, r + 1, c), l) == row[..l] + row[l + 1..r + 1] + [c] + row[r + 1..]
  {
    var t := InsertAt(row, r + 1, c);
    assert t[..l] == row[..l];
    assert t[l + 1..] == row[l + 1..r + 1] + [c] + row[r + 1..];
  }
}

/**
 * What each move does to the alignment and the pool, beyond keeping the
 * invariant: which rows and cells change and how, when a move leaves the
 * state alone, and that no move makes a covered alignment uncovered.
 */
module MoveProperties {
  import opened Wrappers
  import opened Alignment
  import opened Coverage
  import opened Searches
  import opened Moves

  // ---------------------------------------------------------------------------
  // Column counts under edits

  /** Turning gaps into residues never adds a gap to a column. */
  lemma {:induction false} GapCountFill(blk: Block, blk': Block, c: nat, n: nat)
    requires n <= |blk| && n <= |blk'| && HasColumn(blk, c) && HasColumn(blk', c)
    requires forall s | 0 <= s < n :: blk'[s][c].None? ==> blk[s][c].None?
    ensures GapCount(blk', c, n) <= GapCount(blk, c, n)
  {
    if n > 0 {
      GapCountFill(blk, blk', c, n - 1);
    }
  }

  /** A column holding the same cells as a covered column is covered. */
  lemma SameColumnCovered(blk: Block, blk': Block, c: nat, c': nat, rmin: int)
    requires |blk'| == |blk| && HasColumn(blk, c) && HasColumn(blk', c')
    requires forall s | 0 <= s < |blk| :: blk'[s][c'] == blk[s][c]
    requires !Low(blk, c, rmin)
    ensures !Low(blk', c', rmin)
  {
    GapCountMatches(blk, blk', c, c', |blk|);
  }

  /** Replacing one Block of a covered alignment by a covered Block keeps it covered. */
  lemma CoveredReplace(blocks: seq<Block>, size: nat, rmin: int, b: nat, blk': Block)
    requires WellShaped(blocks, size) && Covered(blocks, size, rmin) && b < |blocks| && Rectangular(blk', size)
    requires forall c | 0 <= c < BlockLength(blk') :: !Low(blk', c, rmin)
    ensures WellShaped(blocks[b := blk'], size) && Covered(blocks[b := blk'], size, rmin)
  {
    var blocks' := blocks[b := blk'];
    forall b', c | 0 <= b' < |blocks'| && 0 <= c < BlockLength(blocks'[b'])
      ensures !Low(blocks'[b'], c, rmin)
    {
      if b' != b {
        assert blocks'[b'] == blocks[b'];
      }
    }
  }

  /** Asking for fewer residues per column keeps an alignment covered. */
  lemma CoveredWeaker(blocks: seq<Block>, size: nat, rmin: int, rmin': int)
    requires WellShaped(blocks, size) && Covered(blocks, size, rmin) && rmin' <= rmin
    ensures Covered(blocks, size, rmin')
  {
    forall b, c | 0 <= b < |blocks| && 0 <= c < BlockLength(blocks[b]) ensures !Low(blocks[b], c, rmin') {
      assert !Low(blocks[b], c, rmin);
    }
  }

  // ---------------------------------------------------------------------------
  // insertGap and shrinkBlock

  /**
   * `insertGap` acts exactly when the chosen cell lies in a Block longer
   * than `Lmin` and holds a residue; then the residue, which was not free,
   * is free afterwards and no pool loses a residue. Otherwise nothing changes,
   * and a Block no longer than `Lmin` or a cell that is already a gap gives false.
   */
  lemma InsertGapEffect(st: State, cfg: Config, lengths: seq<nat>, structure: nat, block: nat, position: nat)
    requires ValidState(st, cfg, lengths) && structure < cfg.size
    ensures var r := InsertGap(st, cfg, structure, block, position);
      (r.outcome == Done(true) <==>
        block < |st.blocks| && cfg.lmin < BlockLength(st.blocks[block]) &&
        position < BlockLength(st.blocks[block]) && st.blocks[block][structure][position].Some?) &&
      (r.outcome != Done(true) ==> r.after == st) &&
      (block < |st.blocks| && BlockLength(st.blocks[block]) <= cfg.lmin ==> r == Step(Done(false), st)) &&
      ((block < |st.blocks| && position < BlockLength(st.blocks[block]) &&
        st.blocks[block][structure][position].None?) ==> r == Step(Done(false), st)) &&
      (r.outcome == Done(true) ==>
        var v := st.blocks[block][structure][position].value;
        v !in st.pool[structure] && v in r.after.pool[structure] &&
        |r.after.pool| == |st.pool| && forall s | 0 <= s < |st.pool| :: st.pool[s] <= r.after.pool[s])
  {
    var r := InsertGap(st, cfg, structure, block, position);
    if r.outcome == Done(true) {
      AlignedResidue(st.blocks, st.pool, lengths, block, structure, position);
      var e := Cleared(st, cfg, structure, block, position);
      ClearedValid(st, cfg, lengths, structure, block, position);
      assert r.after.pool == CheckedPool(e.blocks, e.pool, cfg.size, cfg.rmin);
    }
  }

  /**
   * `shrinkBlock` acts exactly when the Block is longer than `Lmin` and the
   * column exists; then every row of that Block loses exactly that column,
   * its residues, none of which was free, join their pools, and the other
   * Blocks are unchanged. Otherwise nothing changes.
   */
  lemma ShrinkBlockEffect(st: State, cfg: Config, lengths: seq<nat>, block: nat, position: nat)
    requires ValidState(st, cfg, lengths)
    ensures var r := ShrinkBlock(st, cfg, block, position);
      (r.outcome == Done(true) <==>
        block < |st.blocks| && cfg.lmin < BlockLength(st.blocks[block]) && position < BlockLength(st.blocks[block])) &&
      (r.outcome != Done(true) ==> r.after == st) &&
      (block < |st.blocks| && BlockLength(st.blocks[block]) <= cfg.lmin ==> r == Step(Done(false), st)) &&
      (r.outcome == Done(true) ==>
        var blk: Block, blk': Block := st.blocks[block], r.after.blocks[block];
        |r.after.blocks| == |st.blocks| &&
        (forall b | 0 <= b < |st.blocks| && b != block :: r.after.blocks[b] == st.blocks[b]) &&
        |blk'| == |blk| && |r.after.pool| == |st.pool| &&
        forall s | 0 <= s < |blk| ::
          |blk'[s]| == |blk[s]| - 1 && blk'[s][..position] == blk[s][..position] &&
          blk'[s][position..] == blk[s][position + 1..] &&
          r.after.pool[s] == st.pool[s] + CellSet(blk[s][position]) &&
          (blk[s][position].Some? ==> blk[s][position].value !in st.pool[s]))
  {
    var r := ShrinkBlock(st, cfg, block, position);
    if r.outcome == Done(true) {
      var blk: Block, blk': Block := st.blocks[block], r.after.blocks[block];
      forall s | 0 <= s < |blk|
        ensures blk'[s][..position] == blk[s][..position] && blk'[s][position..] == blk[s][position + 1..]
        ensures blk[s][position].Some? ==> blk[s][position].value !in st.pool[s]
      {
        assert blk'[s] == blk[s][..position] + blk[s][position + 1..];
        if blk[s][position].Some? {
          AlignedResidue(st.blocks, st.pool, lengths, block, s, position);
        }
      }
    }
  }

  // ---------------------------------------------------------------------------
  // shiftRow

  /**
   * At a gap pivot only the pivot cell can change, and only by taking a
   * residue out of the structure's pool; the coverage pass is not run.
   */
  lemma GapStepEffect(st: State, cfg: Config, str: nat, bk: nat, res: nat, offset: nat)
    requires Shaped(st, cfg) && str < cfg.size && bk < |st.blocks| && res < BlockLength(st.blocks[bk])
    requires st.blocks[bk][str][res].None?
    ensures var r := GapStep(st, cfg, str, bk, res, offset);
      (r.outcome == Done(true) <==> r.after != st) &&
      (r.outcome != Done(true) ==> r.after == st) &&
      (r.outcome == Done(true) ==>
        exists x | x in st.pool[str] ::
          r.after == State(st.blocks[bk := st.blocks[bk][str := st.blocks[bk][str][res := Some(x)]]],
                           st.pool[str := st.pool[str] - {x}]))
  {
    var r := GapStep(st, cfg, str, bk, res, offset);
    var f := GapFill(st.blocks[bk][str], st.pool[str], res, offset);
    if f.FillWith? {
      var x := f.residue;
      var row' := st.blocks[bk][str][res := Some(x)];
      assert r.after.blocks[bk][str] == row' && row' != st.blocks[bk][str] by {
        assert row'[res] != st.blocks[bk][str][res];
      }
    }
  }

  /**
   * The pool test of the in-between fill fails with an exception exactly
   * when both neighbours are residues that are not consecutive and the
   * drawn residue between them is not free.
   */
  lemma GapStepThrowsIff(st: State, cfg: Config, str: nat, bk: nat, res: nat, offset: nat)
    requires Shaped(st, cfg) && str < cfg.size && bk < |st.blocks| && res < BlockLength(st.blocks[bk])
    requires st.blocks[bk][str][res].None?
    ensures var row := st.blocks[bk][str];
      var left, right := row[PrevFilled(row, res)], row[NextFilled(row, res)];
      GapStep(st, cfg, str, bk, res, offset).outcome == Thrown(MissingInBetween) <==>
        left.Some? && right.Some? && right.value - left.value - 1 > 0 &&
        offset % (right.value - left.value - 1) + left.value + 1 !in st.pool[str]
  {
  }

  /**
   * At a residue pivot, before the coverage pass, only row `str` of Block
   * `bk` and the pool of structure `str` change, and the row keeps its
   * length: one cell leaves the row and one comes in.
   */
  lemma ShiftResidueEffect(st: State, cfg: Config, str: nat, bk: nat, res: nat, right: bool)
    requires Shaped(st, cfg) && str < cfg.size && bk < |st.blocks| && res < BlockLength(st.blocks[bk])
    requires st.blocks[bk][str][res].Some?
    ensures var r := ShiftResidue(st, cfg, str, bk, res, right);
      var row, l, e := st.blocks[bk][str], RunStart(st.blocks[bk][str], res), RunEnd(st.blocks[bk][str], res);
      |r.blocks| == |st.blocks| && |r.pool| == |st.pool| &&
      (forall b | 0 <= b < |st.blocks| && b != bk :: r.blocks[b] == st.blocks[b]) &&
      |r.blocks[bk]| == |st.blocks[bk]| &&
      (forall s | 0 <= s < |st.blocks[bk]| && s != str :: r.blocks[bk][s] == st.blocks[bk][s]) &&
      (forall s | 0 <= s < |st.pool| && s != str :: r.pool[s] == st.pool[s]) &&
      |r.blocks[bk][str]| == |row| &&
      (right ==> r.pool[str] == st.pool[str] + {row[e].value} - CellSet(r.blocks[bk][str][l])) &&
      (!right ==> r.pool[str] == st.pool[str] + {row[l].value} && r.blocks[bk][str][e] == None)
  {
  }

  // ---------------------------------------------------------------------------
  // expandBlock

  /**
   * An expansion, before any coverage pass, grows every row of the Block by
   * exactly one cell, inserted before position `at`; an inserted residue is
   * the frontier residue plus `delta`, and it leaves the pool. Other Blocks
   * are unchanged.
   */
  lemma ExpandedEffect(st: State, cfg: Config, bk: nat, w: Site)
    requires Shaped(st, cfg) && bk < |st.blocks|
    requires w.frontier < BlockLength(st.blocks[bk]) && w.at <= BlockLength(st.blocks[bk])
    ensures var e, blk := Expanded(st, cfg, bk, w), st.blocks[bk];
      |e.blocks| == |st.blocks| && (forall b | 0 <= b < |st.blocks| && b != bk :: e.blocks[b] == st.blocks[b]) &&
      |e.blocks[bk]| == |blk| && |e.pool| == |st.pool| &&
      forall s | 0 <= s < |blk| ::
        |e.blocks[bk][s]| == |blk[s]| + 1 &&
        e.blocks[bk][s][..w.at] == blk[s][..w.at] && e.blocks[bk][s][w.at + 1..] == blk[s][w.at..] &&
        (e.blocks[bk][s][w.at].Some? ==>
           blk[s][w.frontier].Some? && e.blocks[bk][s][w.at].value == blk[s][w.frontier].value + w.delta &&
           e.blocks[bk][s][w.at].value in st.pool[s] && e.pool[s] == st.pool[s] - {e.blocks[bk][s][w.at].value}) &&
        (e.blocks[bk][s][w.at].None? ==> e.pool[s] == st.pool[s])
  {
    var e, blk := Expanded(st, cfg, bk, w), st.blocks[bk];
    forall s | 0 <= s < |blk|
      ensures e.blocks[bk][s][..w.at] == blk[s][..w.at] && e.blocks[bk][s][w.at + 1..] == blk[s][w.at..]
    {
      var c := NewCell(blk[s][w.frontier], st.pool[s], w.delta);
      assert e.blocks[bk][s] == blk[s][..w.at] + [c] + blk[s][w.at..];
    }
  }

  /**
   * `expandBlock` succeeds exactly when the inserted column holds at least
   * `Rmin` residues; otherwise the coverage pass runs on the expanded state.
   */
  lemma ExpandBlockOutcome(st: State, cfg: Config, d: ExpandDraw)
    requires Shaped(st, cfg) && |st.blocks| > 0 && BlockLength(st.blocks[d.bk % |st.blocks|]) > 0
    ensures var bk := d.bk % |st.blocks|;
      var blk := st.blocks[bk];
      var w := ExpandSite(blk, cfg.rmin, d.res % BlockLength(blk), d.rl % 2 == 0);
      var e := Expanded(st, cfg, bk, w);
      var newBlk := ExpandedBlock(blk, st.pool, w.frontier, w.at, w.delta);
      var r := ExpandBlock(st, cfg, d);
      HasColumn(newBlk, w.at) &&
      (r.outcome == Done(true) <==> cfg.size - GapCount(newBlk, w.at, cfg.size) >= cfg.rmin) &&
      (r.outcome == Done(true) ==> r.after == e) &&
      (r.outcome != Done(true) ==> r.outcome == Done(false) && r.after == Checked(e, cfg))
  {
    var bk := d.bk % |st.blocks|;
    var blk := st.blocks[bk];
    var w := ExpandSite(blk, cfg.rmin, d.res % BlockLength(blk), d.rl % 2 == 0);
    ExpandedBlockShape(blk, st.pool, w.frontier, w.at, w.delta);
  }

  /** A column of the expanded Block other than the inserted one is an old column. */
  lemma ExpandedColumn(blk: Block, pool: seq<set<int>>, f: nat, at: nat, delta: int, j: nat)
    requires Rectangular(blk, |blk|) && |blk| > 0 && f < BlockLength(blk) && at <= BlockLength(blk) && |pool| == |blk|
    requires j <= BlockLength(blk) && j != at
    ensures var old_j := if j < at then j else j - 1;
      old_j < BlockLength(blk) && HasColumn(ExpandedBlock(blk, pool, f, at, delta), j) &&
      forall s | 0 <= s < |blk| :: ExpandedBlock(blk, pool, f, at, delta)[s][j] == blk[s][old_j]
  {
  }

  /**
   * A failed expansion of a covered alignment changes nothing: the inserted
   * column is the only low one, and the coverage pass takes it out again,
   * returning its residues to the pool.
   */
  lemma ExpandFailRestores(st: State, cfg: Config, d: ExpandDraw)
    requires Shaped(st, cfg) && Covered(st.blocks, cfg.size, cfg.rmin)
    requires ExpandBlock(st, cfg, d).outcome == Done(false)
    ensures ExpandBlock(st, cfg, d).after == st
  {
    var bk := d.bk % |st.blocks|;
    var blk := st.blocks[bk];
    var w := ExpandSite(blk, cfg.rmin, d.res % BlockLength(blk), d.rl % 2 == 0);
    var e := Expanded(st, cfg, bk, w);
    ExpandedBlockShape(blk, st.pool, w.frontier, w.at, w.delta);
    assert Low(e.blocks[bk], w.at, cfg.rmin);
    ExpandFailBlocks(st, cfg, bk, w);
    forall s | 0 <= s < cfg.size ensures CheckedPool(e.blocks, e.pool, cfg.size, cfg.rmin)[s] == st.pool[s] {
      ExpandFailRow(blk, st.pool, w.frontier, w.at, w.delta, cfg.rmin, s);
      ExpandFailPool(st, cfg, bk, w, s);
    }
  }

  /** The alignment half of `ExpandFailRestores`. */
  lemma ExpandFailBlocks(st: State, cfg: Config, bk: nat, w: Site)
    requires Shaped(st, cfg) && Covered(st.blocks, cfg.size, cfg.rmin) && bk < |st.blocks|
    requires w.frontier < BlockLength(st.blocks[bk]) && w.at <= BlockLength(st.blocks[bk])
    requires HasColumn(Expanded(st, cfg, bk, w).blocks[bk], w.at) && Low(Expanded(st, cfg, bk, w).blocks[bk], w.at, cfg.rmin)
    ensures WellShaped(Expanded(st, cfg, bk, w).blocks, cfg.size)
    ensures CheckedBlocks(Expanded(st, cfg, bk, w).blocks, cfg.size, cfg.rmin) == st.blocks
  {
    var e := Expanded(st, cfg, bk, w);
    var blk := st.blocks[bk];
    var newBlk := e.blocks[bk];
    forall b | 0 <= b < |st.blocks| ensures CheckedBlocks(e.blocks, cfg.size, cfg.rmin)[b] == st.blocks[b] {
      if b == bk {
        forall s | 0 <= s < cfg.size ensures CheckedBlock(newBlk, cfg.rmin)[s] == blk[s] {
          ExpandFailRow(blk, st.pool, w.frontier, w.at, w.delta, cfg.rmin, s);
        }
      } else {
        CoveredUnchanged(st.blocks, st.pool, cfg.size, cfg.rmin);
        assert CheckedBlock(st.blocks[b], cfg.rmin) == CheckedBlocks(st.blocks, cfg.size, cfg.rmin)[b];
      }
    }
  }

  /**
   * A covered Block expanded by a low column: the pass keeps exactly the old
   * columns of each row and drops the residue of the new cell.
   */
  lemma ExpandFailRow(blk: Block, pool: seq<set<int>>, f: nat, at: nat, delta: int, rmin: int, s: nat)
    requires Rectangular(blk, |blk|) && |blk| > 0 && f < BlockLength(blk) && at <= BlockLength(blk) && |pool| == |blk|
    requires s < |blk|
    requires forall c | 0 <= c < BlockLength(blk) :: !Low(blk, c, rmin)
    requires HasColumn(ExpandedBlock(blk, pool, f, at, delta), at) && Low(ExpandedBlock(blk, pool, f, at, delta), at, rmin)
    ensures var newBlk := ExpandedBlock(blk, pool, f, at, delta);
      FilterFrom(newBlk[s], Kept(newBlk, rmin), 0) == blk[s] &&
      DroppedFrom(newBlk[s], Kept(newBlk, rmin), 0) == CellSet(newBlk[s][at])
  {
    var newBlk := ExpandedBlock(blk, pool, f, at, delta);
    var mask := Kept(newBlk, rmin);
    forall j | 0 <= j < |mask| && j != at ensures mask[j] {
      ExpandedColumn(blk, pool, f, at, delta, j);
      var old_j := if j < at then j else j - 1;
      SameColumnCovered(blk, newBlk, old_j, j, rmin);
    }
    var row := newBlk[s];
    assert row == blk[s][..at] + [row[at]] + blk[s][at..];
    FilterOneColumn(row, mask, at, blk[s], row[at]);
  }

  /** A row whose only unmarked column is `at`, holding `c`: the filter removes exactly that cell. */
  lemma FilterOneColumn(row: Row, mask: seq<bool>, at: nat, orig: Row, c: Cell)
    requires |row| == |mask| && at < |row| && !mask[at]
    requires forall j | 0 <= j < |mask| && j != at :: mask[j]
    requires at <= |orig| && row == orig[..at] + [c] + orig[at..]
    ensures FilterFrom(row, mask, 0) == orig
    ensures DroppedFrom(row, mask, 0) == CellSet(c)
  {
    TrueRun(row, mask, at + 1, |row|);
    assert FilterFrom(row, mask, |row|) == [] && DroppedFrom(row, mask, |row|) == {};
    assert FilterFrom(row, mask, at) == FilterFrom(row, mask, at + 1);
    assert DroppedFrom(row, mask, at) == CellSet(row[at]) + DroppedFrom(row, mask, at + 1);
    TrueRun(row, mask, 0, at);
    assert row[0..at] == orig[..at];
    assert row[at + 1..|row|] == orig[at..];
    assert row[at] == c;
    assert orig == orig[..at] + orig[at..];
  }

  /** The pool half of `ExpandFailRestores`, for one structure. */
  lemma ExpandFailPool(st: State, cfg: Config, bk: nat, w: Site, s: nat)
    requires Shaped(st, cfg) && Covered(st.blocks, cfg.size, cfg.rmin) && bk < |st.blocks| && s < cfg.size
    requires w.frontier < BlockLength(st.blocks[bk]) && w.at <= BlockLength(st.blocks[bk])
    requires DroppedFrom(Expanded(st, cfg, bk, w).blocks[bk][s], Kept(Expanded(st, cfg, bk, w).blocks[bk], cfg.rmin), 0)
             == CellSet(Expanded(st, cfg, bk, w).blocks[bk][s][w.at])
    ensures CheckedPool(Expanded(st, cfg, bk, w).blocks, Expanded(st, cfg, bk, w).pool, cfg.size, cfg.rmin)[s] == st.pool[s]
  {
    var e := Expanded(st, cfg, bk, w);
    ExpandedBlockShape(st.blocks[bk], st.pool, w.frontier, w.at, w.delta);
    assert WellShaped(e.blocks, cfg.size);
    DroppedSplit(e.blocks, st.blocks, cfg.size, cfg.rmin, s, bk, |e.blocks|);
    var c := NewCell(st.blocks[bk][s][w.frontier], st.pool[s], w.delta);
    assert e.blocks[bk][s][w.at] == c;
    assert e.pool[s] == st.pool[s] - CellSet(c);
  }

  /**
   * When every Block but `bk` is covered and unchanged, the residues the
   * pass drops are exactly those it drops from Block `bk`.
   */
  lemma {:induction false} DroppedSplit(blocks: seq<Block>, orig: seq<Block>, size: nat, rmin: int, s: nat, bk: nat, n: nat)
    requires WellShaped(blocks, size) && WellShaped(orig, size) && |blocks| == |orig| && Covered(orig, size, rmin)
    requires bk < |blocks| && n <= |blocks| && s < size
    requires forall b | 0 <= b < |blocks| && b != bk :: blocks[b] == orig[b]
    ensures DroppedBlocks(blocks, size, rmin, s, n) ==
      if bk < n then DroppedFrom(blocks[bk][s], Kept(blocks[bk], rmin), 0) else {}
  {
    if n > 0 {
      DroppedSplit(blocks, orig, size, rmin, s, bk, n - 1);
      var b := n - 1;
      if b != bk {
        var blk := orig[b];
        AllTrueKeeps(blk[s], Kept(blk, rmin));
      }
    }
  }

  // ---------------------------------------------------------------------------
  // No move uncovers a covered alignment

  /** Filling a gap pivot only turns a gap into a residue, so no column becomes low. */
  lemma GapStepCovered(st: State, cfg: Config, str: nat, bk: nat, res: nat, offset: nat)
    requires Shaped(st, cfg) && str < cfg.size && bk < |st.blocks| && res < BlockLength(st.blocks[bk])
    requires st.blocks[bk][str][res].None? && Covered(st.blocks, cfg.size, cfg.rmin)
    ensures var r := GapStep(st, cfg, str, bk, res, offset).after;
      WellShaped(r.blocks, cfg.size) && Covered(r.blocks, cfg.size, cfg.rmin)
  {
    var r := GapStep(st, cfg, str, bk, res, offset).after;
    var f := GapFill(st.blocks[bk][str], st.pool[str], res, offset);
    if f.FillWith? {
      var blk := st.blocks[bk];
      var blk' := blk[str := blk[str][res := Some(f.residue)]];
      assert r.blocks[bk] == blk';
      ReplaceRowShape(st.blocks, cfg.size, bk, str, blk'[str]);
      forall c | 0 <= c < BlockLength(blk') ensures !Low(blk', c, cfg.rmin) {
        assert BlockLength(blk') == BlockLength(blk) && HasColumn(blk, c);
        assert !Low(st.blocks[bk], c, cfg.rmin);
        GapCountFill(blk, blk', c, |blk|);
      }
      CoveredReplace(st.blocks, cfg.size, cfg.rmin, bk, blk');
      assert st.blocks[bk := blk'] == r.blocks;
    }
  }

  /** Removing a column keeps every other column, so a covered alignment stays covered. */
  lemma ShrinkBlockCovered(st: State, cfg: Config, block: nat, position: nat)
    requires Shaped(st, cfg) && Covered(st.blocks, cfg.size, cfg.rmin)
    ensures var r := ShrinkBlock(st, cfg, block, position).after;
      WellShaped(r.blocks, cfg.size) && Covered(r.blocks, cfg.size, cfg.rmin)
  {
    if block < |st.blocks| && BlockLength(st.blocks[block]) > cfg.lmin && position < BlockLength(st.blocks[block]) {
      var blk := st.blocks[block];
      var blk' := ShrunkBlock(blk, position);
      forall c | 0 <= c < BlockLength(blk') ensures !Low(blk', c, cfg.rmin) {
        var c0 := if c < position then c else c + 1;
        forall s | 0 <= s < |blk| ensures blk'[s][c] == blk[s][c0] {
          assert blk'[s] == blk[s][..position] + blk[s][position + 1..];
        }
        SameColumnCovered(blk, blk', c0, c, cfg.rmin);
      }
      CoveredReplace(st.blocks, cfg.size, cfg.rmin, block, blk');
    }
  }

  /**
   * An expansion that succeeds adds a column with at least `Rmin` residues
   * and moves the others without changing them; one that fails takes the
   * new column out again.
   */
  lemma ExpandBlockCovered(st: State, cfg: Config, d: ExpandDraw)
    requires Shaped(st, cfg) && Covered(st.blocks, cfg.size, cfg.rmin)
    ensures var r := ExpandBlock(st, cfg, d).after;
      WellShaped(r.blocks, cfg.size) && Covered(r.blocks, cfg.size, cfg.rmin)
  {
    var r := ExpandBlock(st, cfg, d);
    if r.outcome == Done(true) {
      var bk := d.bk % |st.blocks|;
      var blk := st.blocks[bk];
      var w := ExpandSite(blk, cfg.rmin, d.res % BlockLength(blk), d.rl % 2 == 0);
      var blk' := ExpandedBlock(blk, st.pool, w.frontier, w.at, w.delta);
      ExpandedBlockShape(blk, st.pool, w.frontier, w.at, w.delta);
      forall c | 0 <= c < BlockLength(blk') ensures !Low(blk', c, cfg.rmin) {
        if c != w.at {
          ExpandedColumn(blk, st.pool, w.frontier, w.at, w.delta, c);
          SameColumnCovered(blk, blk', if c < w.at then c else c - 1, c, cfg.rmin);
        }
      }
      CoveredReplace(st.blocks, cfg.size, cfg.rmin, bk, blk');
    } else if r.outcome == Done(false) {
      ExpandFailRestores(st, cfg, d);
    }
  }

  /** A residue pivot's shift ends with the coverage pass; a gap pivot's fill adds no gap. */
  lemma ShiftRowCovered(st: State, cfg: Config, d: ShiftDraw)
    requires Shaped(st, cfg) && Covered(st.blocks, cfg.size, cfg.rmin)
    ensures var r := ShiftRow(st, cfg, d).after;
      WellShaped(r.blocks, cfg.size) && Covered(r.blocks, cfg.size, cfg.rmin)
  {
    if |st.blocks| > 0 {
      var str, bk := d.str % cfg.size, d.bk % |st.blocks|;
      if BlockLength(st.blocks[bk]) > 0 {
        var res := d.res % BlockLength(st.blocks[bk]);
        if st.blocks[bk][str][res].None? {
          GapStepCovered(st, cfg, str, bk, res, d.offset);
        } else {
          var e := ShiftResidue(st, cfg, str, bk, res, d.rl % 2 == 0);
          ReplaceRowShape(st.blocks, cfg.size, bk, str, e.blocks[bk][str]);
          CheckedCovered(e.blocks, cfg.size, cfg.rmin);
        }
      }
    }
  }

  /** `insertGap` ends with the coverage pass. */
  lemma InsertGapCovered(st: State, cfg: Config, structure: nat, block: nat, position: nat)
    requires Shaped(st, cfg) && structure < cfg.size && Covered(st.blocks, cfg.size, cfg.rmin)
    ensures var r := InsertGap(st, cfg, structure, block, position).after;
      WellShaped(r.blocks, cfg.size) && Covered(r.blocks, cfg.size, cfg.rmin)
  {
    if block < |st.blocks| && BlockLength(st.blocks[block]) > cfg.lmin && position < BlockLength(st.blocks[block]) {
      if st.blocks[block][structure][position].Some? {
        var e := Cleared(st, cfg, structure, block, position);
        ReplaceRowShape(st.blocks, cfg.size, block, structure, e.blocks[block][structure]);
        CheckedCovered(e.blocks, cfg.size, cfg.rmin);
      }
    }
  }
}

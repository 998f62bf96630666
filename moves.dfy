/**
 * The four moves of the Monte Carlo optimizer and the coverage pass they
 * end with, as functions from one alignment state to the next.
 *
 * A move either finishes, reporting whether it changed the alignment, or
 * throws; every exception it can raise is raised before it changes
 * anything, so a thrown move leaves the state as it was.
 */
module Moves {
  import opened Wrappers
  import opened Alignment
  import opened Coverage
  import opened Searches

  /** The exceptions the moves can raise. */
  datatype Fault =
    | NonPositiveBound   // `Random.nextInt` called with a bound that is not positive
    | MissingInBetween   // the residue drawn between two aligned neighbours is not free
    | IndexOutOfRange    // a list index past the end

  /** What a move returns. */
  datatype Outcome = Done(moved: bool) | Thrown(fault: Fault)

  /** The mutable part of the optimizer: the Blocks and the per-structure free pool. */
  datatype State = State(blocks: seq<Block>, pool: seq<set<int>>)

  /** A move's result and the state after it. */
  datatype Step = Step(outcome: Outcome, after: State)

  /** The settings the moves read: the number of structures, `Rmin` and `Lmin`. */
  datatype Config = Config(size: nat, rmin: int, lmin: int)

  /** The state has one pool per structure and one rectangular row set per Block. */
  predicate Shaped(st: State, cfg: Config) {
    cfg.size >= 1 && WellShaped(st.blocks, cfg.size) && |st.pool| == cfg.size
  }

  /** The optimizer's invariant: well shaped, and the pool and the alignment partition every structure. */
  ghost predicate ValidState(st: State, cfg: Config, lengths: seq<nat>) {
    Shaped(st, cfg) && |lengths| == cfg.size && Partitioned(st.blocks, st.pool, lengths)
  }

  /** `Random.nextInt(bound)` fed the raw draw `raw`: a value below the bound, or the exception. */
  function NextInt(raw: nat, bound: int): (r: Option<nat>)
    ensures r.Some? <==> bound > 0
    ensures r.Some? ==> r.value < bound
  {
    if bound <= 0 then None else Some(raw % bound)
  }

  // ---------------------------------------------------------------------------
  // initialize

  /** The free pool `initialize` builds: per structure, every residue index not aligned in the seed. */
  function InitialPool(seed: seq<Block>, lengths: seq<nat>): seq<set<int>> {
    seq(|lengths|, s requires 0 <= s < |lengths| => set k | 0 <= k < lengths[s] && Count(seed, s, k) == 0)
  }

  /**
   * When the seed aligns each residue index of a structure at most once and
   * nothing else, the initial pool completes the ledger: every residue is
   * either aligned or free, never both.
   */
  lemma InitialPoolValid(seed: seq<Block>, lengths: seq<nat>, cfg: Config)
    requires cfg.size == |lengths| >= 1 && WellShaped(seed, cfg.size)
    requires forall s, k | 0 <= s < |lengths| :: Count(seed, s, k) <= InRange(k, lengths[s])
    ensures ValidState(State(seed, InitialPool(seed, lengths)), cfg, lengths)
    ensures forall s, k | 0 <= s < |lengths| :: k in InitialPool(seed, lengths)[s] ==> Count(seed, s, k) == 0
  {
    var pool := InitialPool(seed, lengths);
    forall s, k | 0 <= s < |lengths| ensures Count(seed, s, k) + FreeCount(pool[s], k) == InRange(k, lengths[s]) {
      assert k in pool[s] <==> 0 <= k < lengths[s] && Count(seed, s, k) == 0;
    }
  }

  // ---------------------------------------------------------------------------
  // checkGaps

  /** The state after `checkGaps`. */
  function Checked(st: State, cfg: Config): State
    requires Shaped(st, cfg)
  {
    State(CheckedBlocks(st.blocks, cfg.size, cfg.rmin), CheckedPool(st.blocks, st.pool, cfg.size, cfg.rmin))
  }

  /** `checkGaps` keeps the invariant and leaves every column covered. */
  lemma CheckedValid(st: State, cfg: Config, lengths: seq<nat>)
    requires ValidState(st, cfg, lengths)
    ensures ValidState(Checked(st, cfg), cfg, lengths)
    ensures Covered(Checked(st, cfg).blocks, cfg.size, cfg.rmin)
  {
    CheckedCovered(st.blocks, cfg.size, cfg.rmin);
    CheckedLedger(st.blocks, st.pool, lengths, cfg.size, cfg.rmin);
  }

  // ---------------------------------------------------------------------------
  // shiftRow

  /** The random draws of one `shiftRow`, raw: each is reduced by its bound. */
  datatype ShiftDraw = ShiftDraw(str: nat, rl: nat, bk: nat, res: nat, offset: nat)

  /** What filling a gap pivot from the pool comes to. */
  datatype Fill = NoFill | FillWith(residue: int) | Fails(fault: Fault)

  /**
   * Filling the gap at `res` from the pool. The residue tried is the one
   * just before the right neighbour when there is no left neighbour, or one
   * drawn in between when both neighbours exist and are not consecutive.
   * When only the left neighbour exists nothing is filled: the membership
   * test there is made on the list of pools rather than on this
   * structure's pool, so it never succeeds.
   */
  function GapFill(row: Row, free: set<int>, res: nat, offset: nat): (f: Fill)
    requires res < |row| && row[res].None?
    ensures f.FillWith? ==> f.residue in free && row[NextFilled(row, res)].Some?
    ensures f.FillWith? && row[PrevFilled(row, res)].None? ==> f.residue == row[NextFilled(row, res)].value - 1
    ensures f.FillWith? && row[PrevFilled(row, res)].Some? ==>
      row[PrevFilled(row, res)].value < f.residue < row[NextFilled(row, res)].value
    ensures row[PrevFilled(row, res)].Some? && row[NextFilled(row, res)].None? ==> f == NoFill
    ensures row[PrevFilled(row, res)].None? && row[NextFilled(row, res)].None? ==> f == NoFill
    ensures f.Fails? ==> (row[PrevFilled(row, res)].Some? && row[NextFilled(row, res)].Some? &&
      row[NextFilled(row, res)].value != row[PrevFilled(row, res)].value + 1)
    ensures f == Fails(NonPositiveBound) ==> row[NextFilled(row, res)].value <= row[PrevFilled(row, res)].value
  {
    var right, left := NextFilled(row, res), PrevFilled(row, res);
    if row[left].None? && row[right].None? then NoFill
    else if row[left].None? then
      (var x := row[right].value - 1; if x in free then FillWith(x) else NoFill)
    else if row[right].None? then NoFill
    else if row[right].value == row[left].value + 1 then NoFill
    else
      match NextInt(offset, row[right].value - row[left].value - 1)
      case None => Fails(NonPositiveBound)
      case Some(d) =>
        var x := d + row[left].value + 1;
        if x in free then FillWith(x) else Fails(MissingInBetween)
  }

  /** A row and its structure's pool after an edit of that row. */
  datatype RowEdit = RowEdit(row: Row, free: set<int>)

  /**
   * Moving the cells `l .. r` one place to the right: cell `r` goes back to
   * the pool and a cell is inserted at `l`, holding the residue before cell
   * `l`'s one if that is free once cell `r`'s residue has been returned.
   */
  function RightShift(row: Row, free: set<int>, l: nat, r: nat): (e: RowEdit)
    requires l <= r < |row| && row[l].Some? && row[r].Some?
    ensures |e.row| == |row|
  {
    var free1 := free + {row[r].value};
    var x := row[l].value - 1;
    var cell: Cell := if x in free1 then Some(x) else None;
    RowEdit(InsertAt(RemoveAt(row, r), l, cell), free1 - CellSet(cell))
  }

  /**
   * Moving the cells `l .. r` one place to the left: a gap is inserted after
   * cell `r` and cell `l` goes back to the pool.
   */
  function LeftShift(row: Row, free: set<int>, l: nat, r: nat): (e: RowEdit)
    requires l <= r < |row| && row[l].Some?
    ensures |e.row| == |row|
  {
    RowEdit(RemoveAt(InsertAt(row, r + 1, None), l), free + {row[l].value})
  }

  /**
   * Shifting the run through `res` one place to the right. The membership
   * test is made on this structure's pool, so the cell at the run's start
   * can be filled.
   */
  function ShiftRight(row: Row, free: set<int>, res: nat): RowEdit
    requires res < |row| && row[res].Some?
  {
    RightShift(row, free, RunStart(row, res), RunEnd(row, res))
  }

  /**
   * Shifting the run through `res` one place to the left. The pool test that
   * would fill the gap after the run is made on the list of pools and never
   * succeeds, so that gap stays.
   */
  function ShiftLeft(row: Row, free: set<int>, res: nat): RowEdit
    requires res < |row| && row[res].Some?
  {
    LeftShift(row, free, RunStart(row, res), RunEnd(row, res))
  }

  /**
   * A right shift lays the row out as: the cells before `l`, the placed
   * cell, the cells `l .. r-1`, and the cells after `r`. The placed cell
   * holds the residue before cell `l`'s one exactly when that residue is
   * free once cell `r`'s residue has gone back to the pool, and the placed
   * residue leaves the pool.
   */
  lemma RightShiftLayout(row: Row, free: set<int>, l: nat, r: nat)
    requires l <= r < |row| && row[l].Some? && row[r].Some?
    ensures var e := RightShift(row, free, l, r);
      e.row == row[..l] + [e.row[l]] + row[l..r] + row[r + 1..] &&
      (e.row[l].Some? <==> row[l].value - 1 in free + {row[r].value}) &&
      (e.row[l].Some? ==> e.row[l].value == row[l].value - 1) &&
      e.free == free + {row[r].value} - CellSet(e.row[l])
  {
    var x := row[l].value - 1;
    var cell: Cell := if x in free + {row[r].value} then Some(x) else None;
    RemoveThenInsert(row, l, r, cell);
    assert (row[..l] + [cell] + row[l..r] + row[r + 1..])[l] == cell;
  }

  /**
   * A left shift lays the row out as: the cells before `l`, the cells
   * `l+1 .. r`, a gap, and the cells after `r`; cell `l`'s residue goes back
   * to the pool.
   */
  lemma LeftShiftLayout(row: Row, free: set<int>, l: nat, r: nat)
    requires l <= r < |row| && row[l].Some?
    ensures var e := LeftShift(row, free, l, r);
      e.row == row[..l] + row[l + 1..r + 1] + [None] + row[r + 1..] && e.free == free + {row[l].value}
  {
    InsertThenRemove(row, l, r, None);
  }

  /** The alignment with row `s` of Block `b` replaced. */
  function WithRow(blocks: seq<Block>, b: nat, s: nat, row: Row): seq<Block>
    requires b < |blocks| && s < |blocks[b]|
  {
    blocks[b := blocks[b][s := row]]
  }

  /** A residue pivot's shift, before the coverage pass. */
  function ShiftResidue(st: State, cfg: Config, str: nat, bk: nat, res: nat, right: bool): (r: State)
    requires Shaped(st, cfg) && str < cfg.size && bk < |st.blocks| && res < BlockLength(st.blocks[bk])
    requires st.blocks[bk][str][res].Some?
  {
    var row := st.blocks[bk][str];
    var e := if right then ShiftRight(row, st.pool[str], res) else ShiftLeft(row, st.pool[str], res);
    State(WithRow(st.blocks, bk, str, e.row), st.pool[str := e.free])
  }

  /** A gap pivot's move: filled from the pool, without a coverage pass, or left alone. */
  function GapStep(st: State, cfg: Config, str: nat, bk: nat, res: nat, offset: nat): Step
    requires Shaped(st, cfg) && str < cfg.size && bk < |st.blocks| && res < BlockLength(st.blocks[bk])
    requires st.blocks[bk][str][res].None?
  {
    var row := st.blocks[bk][str];
    match GapFill(row, st.pool[str], res, offset)
    case NoFill => Step(Done(false), st)
    case Fails(f) => Step(Thrown(f), st)
    case FillWith(x) =>
      Step(Done(true), State(WithRow(st.blocks, bk, str, row[res := Some(x)]), st.pool[str := st.pool[str] - {x}]))
  }

  /** `shiftRow`. */
  function ShiftRow(st: State, cfg: Config, d: ShiftDraw): Step
    requires Shaped(st, cfg)
  {
    var str := d.str % cfg.size;
    var right := d.rl % 2 == 0;
    match NextInt(d.bk, |st.blocks|)
    case None => Step(Thrown(NonPositiveBound), st)
    case Some(bk) =>
      match NextInt(d.res, BlockLength(st.blocks[bk]))
      case None => Step(Thrown(NonPositiveBound), st)
      case Some(res) =>
        if st.blocks[bk][str][res].None? then GapStep(st, cfg, str, bk, res, d.offset)
        else Step(Done(true), Checked(ShiftResidue(st, cfg, str, bk, res, right), cfg))
  }

  // ---------------------------------------------------------------------------
  // expandBlock

  /** The random draws of one `expandBlock`, raw. */
  datatype ExpandDraw = ExpandDraw(rl: nat, bk: nat, res: nat)

  /**
   * The cell inserted next to a structure's frontier cell: the neighbouring
   * residue (`delta` is +1 to the right, -1 to the left) if it is free, a gap otherwise.
   */
  function NewCell(frontier: Cell, free: set<int>, delta: int): (c: Cell)
    ensures c.Some? ==> frontier.Some? && c.value == frontier.value + delta && c.value in free
    ensures frontier.Some? && frontier.value + delta in free ==> c.Some?
  {
    if frontier.None? then None
    else if frontier.value + delta in free then Some(frontier.value + delta)
    else None
  }

  /** The Block with a column inserted before position `at`, built from frontier column `f`. */
  function ExpandedBlock(blk: Block, pool: seq<set<int>>, f: nat, at: nat, delta: int): (r: Block)
    requires Rectangular(blk, |blk|) && f < BlockLength(blk) && at <= BlockLength(blk) && |pool| == |blk|
    ensures Rectangular(r, |blk|) && (|blk| > 0 ==> BlockLength(r) == BlockLength(blk) + 1)
  {
    seq(|blk|, s requires 0 <= s < |blk| => InsertAt(blk[s], at, NewCell(blk[s][f], pool[s], delta)))
  }

  /** The pool after the expansion: each inserted residue has left its structure's pool. */
  function ExpandedPool(blk: Block, pool: seq<set<int>>, f: nat, delta: int): seq<set<int>>
    requires Rectangular(blk, |blk|) && f < BlockLength(blk) && |pool| == |blk|
  {
    seq(|pool|, s requires 0 <= s < |pool| => pool[s] - CellSet(NewCell(blk[s][f], pool[s], delta)))
  }

  /** Where an expansion of Block `bk` at pivot `res` inserts, and from which frontier column. */
  datatype Site = Site(frontier: nat, at: nat, delta: int)

  function ExpandSite(blk: Block, rmin: int, res: nat, right: bool): (w: Site)
    requires Rectangular(blk, |blk|) && res < BlockLength(blk)
    ensures w.frontier < BlockLength(blk) && w.at <= BlockLength(blk)
    ensures right ==> w.at == w.frontier + 1 && w.delta == 1
    ensures !right ==> w.at == w.frontier && w.delta == -1
  {
    if right then
      var f := RightFrontier(blk, rmin, res);
      Site(f, f + 1, 1)
    else
      var f := LeftStop(blk, rmin, res, res);
      Site(f, f, -1)
  }

  /** An expansion at a given site, before any coverage pass. */
  function Expanded(st: State, cfg: Config, bk: nat, w: Site): State
    requires Shaped(st, cfg) && bk < |st.blocks|
    requires w.frontier < BlockLength(st.blocks[bk]) && w.at <= BlockLength(st.blocks[bk])
  {
    var blk := st.blocks[bk];
    State(st.blocks[bk := ExpandedBlock(blk, st.pool, w.frontier, w.at, w.delta)],
          ExpandedPool(blk, st.pool, w.frontier, w.delta))
  }

  /** `expandBlock`. */
  function ExpandBlock(st: State, cfg: Config, d: ExpandDraw): Step
    requires Shaped(st, cfg)
  {
    var right := d.rl % 2 == 0;
    match NextInt(d.bk, |st.blocks|)
    case None => Step(Thrown(NonPositiveBound), st)
    case Some(bk) =>
      match NextInt(d.res, BlockLength(st.blocks[bk]))
      case None => Step(Thrown(NonPositiveBound), st)
      case Some(res) =>
        var w := ExpandSite(st.blocks[bk], cfg.rmin, res, right);
        var e := Expanded(st, cfg, bk, w);
        ExpandedBlockShape(st.blocks[bk], st.pool, w.frontier, w.at, w.delta);
        if !Low(e.blocks[bk], w.at, cfg.rmin) then Step(Done(true), e)
        else Step(Done(false), Checked(e, cfg))
  }

  // ---------------------------------------------------------------------------
  // shrinkBlock and insertGap, from the chosen column or cell on

  /** The Block without column `p`. */
  function ShrunkBlock(blk: Block, p: nat): (r: Block)
    requires Rectangular(blk, |blk|) && p < BlockLength(blk)
    ensures Rectangular(r, |blk|) && (|blk| > 0 ==> BlockLength(r) == BlockLength(blk) - 1)
  {
    seq(|blk|, s requires 0 <= s < |blk| => RemoveAt(blk[s], p))
  }

  /** The pool after removing column `p`: each of its residues has joined its structure's pool. */
  function ShrunkPool(blk: Block, pool: seq<set<int>>, p: nat): seq<set<int>>
    requires Rectangular(blk, |blk|) && p < BlockLength(blk) && |pool| == |blk|
  {
    seq(|pool|, s requires 0 <= s < |pool| => pool[s] + CellSet(blk[s][p]))
  }

  /** `shrinkBlock` from the chosen column on: the coverage pass is not run. */
  function ShrinkBlock(st: State, cfg: Config, block: nat, position: nat): Step
    requires Shaped(st, cfg)
  {
    if block >= |st.blocks| then Step(Thrown(IndexOutOfRange), st)
    else if BlockLength(st.blocks[block]) <= cfg.lmin then Step(Done(false), st)
    else if position >= BlockLength(st.blocks[block]) then Step(Thrown(IndexOutOfRange), st)
    else
      var blk := st.blocks[block];
      Step(Done(true), State(st.blocks[block := ShrunkBlock(blk, position)], ShrunkPool(blk, st.pool, position)))
  }

  /** The state once the cell of `structure` at `position` of Block `block` is made a gap. */
  function Cleared(st: State, cfg: Config, structure: nat, block: nat, position: nat): State
    requires Shaped(st, cfg) && structure < cfg.size && block < |st.blocks|
    requires position < BlockLength(st.blocks[block]) && st.blocks[block][structure][position].Some?
  {
    var row := st.blocks[block][structure];
    State(WithRow(st.blocks, block, structure, row[position := None]),
          st.pool[structure := st.pool[structure] + {row[position].value}])
  }

  /** `insertGap` from the chosen cell on. */
  function InsertGap(st: State, cfg: Config, structure: nat, block: nat, position: nat): Step
    requires Shaped(st, cfg) && structure < cfg.size
  {
    if block >= |st.blocks| then Step(Thrown(IndexOutOfRange), st)
    else if BlockLength(st.blocks[block]) <= cfg.lmin then Step(Done(false), st)
    else if position >= BlockLength(st.blocks[block]) then Step(Thrown(IndexOutOfRange), st)
    else if st.blocks[block][structure][position].None? then Step(Done(false), st)
    else Step(Done(true), Checked(Cleared(st, cfg, structure, block, position), cfg))
  }

  // ---------------------------------------------------------------------------
  // Shape lemmas

  lemma ExpandedBlockShape(blk: Block, pool: seq<set<int>>, f: nat, at: nat, delta: int)
    requires Rectangular(blk, |blk|) && f < BlockLength(blk) && at <= BlockLength(blk) && |pool| == |blk|
    ensures HasColumn(ExpandedBlock(blk, pool, f, at, delta), at)
  {
  }

  // ---------------------------------------------------------------------------
  // Every move keeps the invariant

  /**
   * A right shift keeps the row and its pool balanced: the residue of cell
   * `r` leaves the row for the pool, and the placed residue, if any, leaves
   * the pool for the row.
   */
  lemma RightShiftBalanced(row: Row, free: set<int>, l: nat, r: nat)
    requires l <= r < |row| && row[l].Some? && row[r].Some?
    requires forall k :: RowCount(row, k) + FreeCount(free, k) <= 1
    ensures SameHoldings(row, free, RightShift(row, free, l, r).row, RightShift(row, free, l, r).free)
  {
    var x := row[l].value - 1;
    var c: Cell := if x in free + {row[r].value} then Some(x) else None;
    CellCounted(row, r);
    assert row[r].value !in free by {
      assert RowCount(row, row[r].value) + FreeCount(free, row[r].value) <= 1;
    }
    forall k ensures RowCount(InsertAt(RemoveAt(row, r), l, c), k) + FreeCount(free + {row[r].value} - CellSet(c), k)
                  == RowCount(row, k) + FreeCount(free, k)
    {
      RemoveInsertCount(row, free, r, l, c, k);
    }
  }

  lemma RemoveInsertCount(row: Row, free: set<int>, r: nat, l: nat, c: Cell, k: int)
    requires l <= r < |row| && row[r].Some? && row[r].value !in free
    requires c.Some? ==> c.value in free + {row[r].value}
    ensures RowCount(InsertAt(RemoveAt(row, r), l, c), k) + FreeCount(free + {row[r].value} - CellSet(c), k)
         == RowCount(row, k) + FreeCount(free, k)
  {
    RemoveAtCount(row, r, k);
    InsertAtCount(RemoveAt(row, r), l, c, k);
  }

  /** A left shift keeps the row and its pool balanced: the residue of cell `l` leaves the row for the pool. */
  lemma LeftShiftBalanced(row: Row, free: set<int>, l: nat, r: nat)
    requires l <= r < |row| && row[l].Some?
    requires forall k :: RowCount(row, k) + FreeCount(free, k) <= 1
    ensures SameHoldings(row, free, LeftShift(row, free, l, r).row, LeftShift(row, free, l, r).free)
  {
    CellCounted(row, l);
    assert row[l].value !in free by {
      assert RowCount(row, row[l].value) + FreeCount(free, row[l].value) <= 1;
    }
    forall k ensures RowCount(RemoveAt(InsertAt(row, r + 1, None), l), k) + FreeCount(free + {row[l].value}, k)
                  == RowCount(row, k) + FreeCount(free, k)
    {
      InsertRemoveCount(row, free, r, l, k);
    }
  }

  lemma InsertRemoveCount(row: Row, free: set<int>, r: nat, l: nat, k: int)
    requires l <= r < |row| && row[l].Some? && row[l].value !in free
    ensures RowCount(RemoveAt(InsertAt(row, r + 1, None), l), k) + FreeCount(free + {row[l].value}, k)
         == RowCount(row, k) + FreeCount(free, k)
  {
    var row1 := InsertAt(row, r + 1, None);
    InsertAtCount(row, r + 1, None, k);
    assert row1[l] == row[l];
    RemoveAtCount(row1, l, k);
  }

  /** A residue pivot's shift, before the coverage pass, keeps the invariant. */
  lemma ShiftResidueValid(st: State, cfg: Config, lengths: seq<nat>, str: nat, bk: nat, res: nat, right: bool)
    requires ValidState(st, cfg, lengths) && str < cfg.size && bk < |st.blocks| && res < BlockLength(st.blocks[bk])
    requires st.blocks[bk][str][res].Some?
    ensures ValidState(ShiftResidue(st, cfg, str, bk, res, right), cfg, lengths)
  {
    var row := st.blocks[bk][str];
    var l, r := RunStart(row, res), RunEnd(row, res);
    var e := if right then RightShift(row, st.pool[str], l, r) else LeftShift(row, st.pool[str], l, r);
    RowBound(st.blocks, st.pool, lengths, bk, str);
    if right {
      RightShiftBalanced(row, st.pool[str], l, r);
    } else {
      LeftShiftBalanced(row, st.pool[str], l, r);
    }
    ReplaceRow(st.blocks, st.pool, lengths, bk, str, e.row, e.free);
    ReplaceRowShape(st.blocks, cfg.size, bk, str, e.row);
  }

  /** Filling a gap pivot keeps the invariant. */
  lemma GapStepValid(st: State, cfg: Config, lengths: seq<nat>, str: nat, bk: nat, res: nat, offset: nat)
    requires ValidState(st, cfg, lengths) && str < cfg.size && bk < |st.blocks| && res < BlockLength(st.blocks[bk])
    requires st.blocks[bk][str][res].None?
    ensures ValidState(GapStep(st, cfg, str, bk, res, offset).after, cfg, lengths)
  {
    var row := st.blocks[bk][str];
    var f := GapFill(row, st.pool[str], res, offset);
    if f.FillWith? {
      var row' := row[res := Some(f.residue)];
      forall k ensures RowCount(row', k) == RowCount(row, k) + CellCount(Some(f.residue), k) {
        UpdateCount(row, res, Some(f.residue), k);
      }
      ReplaceRowTaking(st.blocks, st.pool, lengths, bk, str, row', Some(f.residue));
      ReplaceRowShape(st.blocks, cfg.size, bk, str, row');
    }
  }

  /** `shiftRow` keeps the invariant. */
  lemma ShiftRowValid(st: State, cfg: Config, lengths: seq<nat>, d: ShiftDraw)
    requires ValidState(st, cfg, lengths)
    ensures ValidState(ShiftRow(st, cfg, d).after, cfg, lengths)
  {
    if |st.blocks| > 0 {
      var str, bk := d.str % cfg.size, d.bk % |st.blocks|;
      if BlockLength(st.blocks[bk]) > 0 {
        var res := d.res % BlockLength(st.blocks[bk]);
        if st.blocks[bk][str][res].None? {
          GapStepValid(st, cfg, lengths, str, bk, res, d.offset);
        } else {
          ShiftResidueValid(st, cfg, lengths, str, bk, res, d.rl % 2 == 0);
          CheckedValid(ShiftResidue(st, cfg, str, bk, res, d.rl % 2 == 0), cfg, lengths);
        }
      }
    }
  }

  /** An expansion, before any coverage pass, keeps the invariant. */
  lemma ExpandedValid(st: State, cfg: Config, lengths: seq<nat>, bk: nat, w: Site)
    requires ValidState(st, cfg, lengths) && bk < |st.blocks|
    requires w.frontier < BlockLength(st.blocks[bk]) && w.at <= BlockLength(st.blocks[bk])
    ensures ValidState(Expanded(st, cfg, bk, w), cfg, lengths)
  {
    var blk := st.blocks[bk];
    var blk' := ExpandedBlock(blk, st.pool, w.frontier, w.at, w.delta);
    var pool' := ExpandedPool(blk, st.pool, w.frontier, w.delta);
    forall s, k | 0 <= s < |lengths|
      ensures BlockRowCount(blk', s, k) + FreeCount(pool'[s], k) == BlockRowCount(blk, s, k) + FreeCount(st.pool[s], k)
    {
      InsertAtCount(blk[s], w.at, NewCell(blk[s][w.frontier], st.pool[s], w.delta), k);
    }
    ReplaceBlock(st.blocks, st.pool, lengths, bk, blk', pool');
  }

  /** `expandBlock` keeps the invariant. */
  lemma ExpandBlockValid(st: State, cfg: Config, lengths: seq<nat>, d: ExpandDraw)
    requires ValidState(st, cfg, lengths)
    ensures ValidState(ExpandBlock(st, cfg, d).after, cfg, lengths)
  {
    if |st.blocks| > 0 {
      var bk := d.bk % |st.blocks|;
      if BlockLength(st.blocks[bk]) > 0 {
        var res := d.res % BlockLength(st.blocks[bk]);
        var w := ExpandSite(st.blocks[bk], cfg.rmin, res, d.rl % 2 == 0);
        ExpandedValid(st, cfg, lengths, bk, w);
        CheckedValid(Expanded(st, cfg, bk, w), cfg, lengths);
      }
    }
  }

  /** `shrinkBlock` keeps the invariant. */
  lemma ShrinkBlockValid(st: State, cfg: Config, lengths: seq<nat>, block: nat, position: nat)
    requires ValidState(st, cfg, lengths)
    ensures ValidState(ShrinkBlock(st, cfg, block, position).after, cfg, lengths)
  {
    if block < |st.blocks| && BlockLength(st.blocks[block]) > cfg.lmin && position < BlockLength(st.blocks[block]) {
      var blk := st.blocks[block];
      var blk', pool' := ShrunkBlock(blk, position), ShrunkPool(blk, st.pool, position);
      forall s, k | 0 <= s < |lengths|
        ensures BlockRowCount(blk', s, k) + FreeCount(pool'[s], k) == BlockRowCount(blk, s, k) + FreeCount(st.pool[s], k)
      {
        RemoveAtCount(blk[s], position, k);
        if blk[s][position].Some? {
          RowBound(st.blocks, st.pool, lengths, block, s);
          CellCounted(blk[s], position);
          assert RowCount(blk[s], blk[s][position].value) + FreeCount(st.pool[s], blk[s][position].value) <= 1;
        }
      }
      ReplaceBlock(st.blocks, st.pool, lengths, block, blk', pool');
    }
  }

  /** Making an aligned cell a gap, before the coverage pass, keeps the invariant. */
  lemma ClearedValid(st: State, cfg: Config, lengths: seq<nat>, structure: nat, block: nat, position: nat)
    requires ValidState(st, cfg, lengths) && structure < cfg.size && block < |st.blocks|
    requires position < BlockLength(st.blocks[block]) && st.blocks[block][structure][position].Some?
    ensures ValidState(Cleared(st, cfg, structure, block, position), cfg, lengths)
  {
    var row := st.blocks[block][structure];
    var row' := row[position := None];
    forall k ensures RowCount(row', k) + CellCount(row[position], k) == RowCount(row, k) {
      UpdateCount(row, position, None, k);
    }
    ReplaceRowReturning(st.blocks, st.pool, lengths, block, structure, row', row[position]);
    ReplaceRowShape(st.blocks, cfg.size, block, structure, row');
  }

  /** `insertGap` keeps the invariant. */
  lemma InsertGapValid(st: State, cfg: Config, lengths: seq<nat>, structure: nat, block: nat, position: nat)
    requires ValidState(st, cfg, lengths) && structure < cfg.size
    ensures ValidState(InsertGap(st, cfg, structure, block, position).after, cfg, lengths)
  {
    if block < |st.blocks| && BlockLength(st.blocks[block]) > cfg.lmin && position < BlockLength(st.blocks[block]) {
      if st.blocks[block][structure][position].Some? {
        ClearedValid(st, cfg, lengths, structure, block, position);
        CheckedValid(Cleared(st, cfg, structure, block, position), cfg, lengths);
      }
    }
  }

  /** Every aligned residue is a non-negative index, so the scans may use -1 as "none yet". */
  lemma ValidNonNegative(st: State, cfg: Config, lengths: seq<nat>, b: nat)
    requires ValidState(st, cfg, lengths) && b < |st.blocks|
    ensures NonNegative(st.blocks[b])
  {
    forall s, q | 0 <= s < |st.blocks[b]| && 0 <= q < |st.blocks[b][s]| && st.blocks[b][s][q].Some?
      ensures st.blocks[b][s][q].value >= 0
    {
      AlignedResidue(st.blocks, st.pool, lengths, b, s, q);
    }
  }
}

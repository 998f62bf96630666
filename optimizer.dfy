/**
 * The optimizer object: the alignment and the free pool it edits in place,
 * the coverage pass, the four moves and the Monte Carlo loop.
 *
 * Every method that changes the object is proved to leave it in the state
 * the corresponding function of `Moves` describes, so the properties proved
 * there carry over.
 */
module OptimizerMC {
  import opened Wrappers
  import opened Alignment
  import opened Coverage
  import opened Searches
  import opened Moves
  import opened MonteCarlo

  /**
   * The columns of a rectangular Block holding fewer than `rmin` residues,
   * in increasing order: the first half of `checkGaps` for one Block.
   */
  method LowColumns(blk: Block, size: nat, rmin: int) returns (shrinkCol: seq<nat>)
    requires Rectangular(blk, size)
    ensures forall i, j | 0 <= i < j < |shrinkCol| :: shrinkCol[i] < shrinkCol[j]
    ensures forall i | 0 <= i < |shrinkCol| :: shrinkCol[i] < BlockLength(blk)
    ensures forall x :: x in shrinkCol <==> 0 <= x < BlockLength(blk) && Low(blk, x, rmin)
  {
    shrinkCol := [];
    var res := 0;
    while res < BlockLength(blk)
      invariant res <= BlockLength(blk)
      invariant forall i, j | 0 <= i < j < |shrinkCol| :: shrinkCol[i] < shrinkCol[j]
      invariant forall i | 0 <= i < |shrinkCol| :: shrinkCol[i] < res
      invariant forall x :: x in shrinkCol <==> 0 <= x < res && Low(blk, x, rmin)
    {
      var gapCount := 0;
      var su := 0;
      while su < size
        invariant su <= size && gapCount == GapCount(blk, res, su)
      {
        if blk[su][res].None? {
          gapCount := gapCount + 1;
        }
        su := su + 1;
      }
      if size - gapCount < rmin {
        shrinkCol := shrinkCol + [res];
      }
      res := res + 1;
    }
  }

  /** The first half of `checkGaps`: the low columns of every Block, each list increasing. */
  method LowColumnLists(blocks: seq<Block>, size: nat, rmin: int) returns (lists: seq<seq<nat>>)
    requires WellShaped(blocks, size)
    ensures |lists| == |blocks|
    ensures forall b | 0 <= b < |blocks| :: ListsUnmarked(lists[b], Kept(blocks[b], rmin))
  {
    lists := [];
    var b := 0;
    while b < |blocks|
      invariant b <= |blocks| && |lists| == b
      invariant forall b' | 0 <= b' < b :: ListsUnmarked(lists[b'], Kept(blocks[b'], rmin))
    {
      var shrinkCol := LowColumns(blocks[b], size, rmin);
      lists := lists + [shrinkCol];
      b := b + 1;
    }
  }

  /** The residues of structure `s` aligned anywhere in the seed, as `initialize` collects them. */
  method AlignedOf(seed: seq<Block>, size: nat, s: nat) returns (residues: seq<int>)
    requires WellShaped(seed, size) && s < size
    ensures forall k :: k in residues <==> Count(seed, s, k) > 0
  {
    residues := [];
    var b := 0;
    while b < |seed|
      invariant b <= |seed|
      invariant forall k :: k in residues <==> Count(seed[..b], s, k) > 0
    {
      var l := 0;
      var row := seed[b][s];
      while l < BlockLength(seed[b])
        invariant l <= |row|
        invariant forall k :: k in residues <==> Count(seed[..b], s, k) + RowCount(row[..l], k) > 0
      {
        var residue := row[l];
        assert row[..l + 1][..l] == row[..l];
        if residue.Some? {
          residues := residues + [residue.value];
        }
        l := l + 1;
      }
      assert row[..l] == row;
      assert seed[..b + 1][..b] == seed[..b];
      b := b + 1;
    }
    assert seed[..b] == seed;
  }

  /**
   * The free-pool construction of `initialize`: the aligned residues of
   * every structure are collected first, then every residue index of the
   * structure that is not among them goes to its pool.
   */
  method BuildPool(seed: seq<Block>, lengths: seq<nat>) returns (pool: seq<set<int>>)
    requires WellShaped(seed, |lengths|)
    ensures pool == InitialPool(seed, lengths)
  {
    var size := |lengths|;
    var aligned: seq<seq<int>> := [];
    pool := [];
    var i := 0;
    while i < size
      invariant i <= size && |aligned| == i && |pool| == i
      invariant forall s | 0 <= s < i :: pool[s] == {}
      invariant forall s, k | 0 <= s < i :: k in aligned[s] <==> Count(seed, s, k) > 0
    {
      var residues := AlignedOf(seed, size, i);
      aligned := aligned + [residues];
      pool := pool + [{}];
      i := i + 1;
    }
    i := 0;
    while i < size
      invariant i <= size && |pool| == size
      invariant forall s | 0 <= s < i :: pool[s] == InitialPool(seed, lengths)[s]
      invariant forall s | i <= s < size :: pool[s] == {}
    {
      var k := 0;
      while k < lengths[i]
        invariant k <= lengths[i] && |pool| == size
        invariant forall s | 0 <= s < i :: pool[s] == InitialPool(seed, lengths)[s]
        invariant forall s | i < s < size :: pool[s] == {}
        invariant forall x :: x in pool[i] <==> 0 <= x < k && Count(seed, i, x) == 0
      {
        if k !in aligned[i] {
          pool := pool[i := pool[i] + {k}];
        }
        k := k + 1;
      }
      assert pool[i] == InitialPool(seed, lengths)[i];
      i := i + 1;
    }
    assert pool == InitialPool(seed, lengths);
  }

  /** One column of the `insertGap` selection: every structure's cell in Block `b`, position `col`. */
  method ScanColumn(ghost cols: seq<(nat, nat)>, size: nat, dist: (nat, nat) -> real, coin: (nat, nat) -> bool,
                    column: nat, b: nat, col: nat, structure0: nat, block0: nat, position0: nat)
    returns (structure: nat, block: nat, position: nat)
    requires column < |cols| && cols[column] == (b, col)
    requires CellPick(structure0, block0, position0) == GapScan(cols, size, dist, coin, column, 0)
    ensures CellPick(structure, block, position) == GapScan(cols, size, dist, coin, column + 1, 0)
  {
    var maxDist := MinDouble;
    structure, block, position := structure0, block0, position0;
    var str := 0;
    while str < size
      invariant str <= size
      invariant CellPick(structure, block, position) == GapScan(cols, size, dist, coin, column, str)
    {
      if dist(str, column) != -1.0 {
        if dist(str, column) > maxDist {
          if coin(column, str) {
            structure, block, position := str, b, col;
          }
        }
      }
      str := str + 1;
    }
  }

  /**
   * The selection loop of `insertGap`: every cell of every column, in
   * alignment order, that passes the distance tests and wins its coin
   * becomes the choice. `maxDist` is never updated.
   */
  method SelectGapCell(blocks: seq<Block>, size: nat, dist: (nat, nat) -> real, coin: (nat, nat) -> bool)
    returns (structure: nat, block: nat, position: nat)
    ensures CellPick(structure, block, position) == GapPick(blocks, size, dist, coin)
  {
    ghost var cols := Columns(blocks, |blocks|);
    structure, block, position := 0, 0, 0;
    var column := 0;
    var b := 0;
    while b < |blocks|
      invariant b <= |blocks| && column == Offset(blocks, b) <= |cols|
      invariant CellPick(structure, block, position) == GapScan(cols, size, dist, coin, column, 0)
    {
      OffsetGrows(blocks, b + 1, |blocks|);
      var col := 0;
      while col < BlockLength(blocks[b])
        invariant col <= BlockLength(blocks[b]) && column == Offset(blocks, b) + col <= |cols|
        invariant CellPick(structure, block, position) == GapScan(cols, size, dist, coin, column, 0)
      {
        ColumnAt(blocks, |blocks|, b, col);
        structure, block, position := ScanColumn(cols, size, dist, coin, column, b, col, structure, block, position);
        column := column + 1;
        col := col + 1;
      }
      b := b + 1;
    }
  }

  /** The settings of the optimizer that `MultipleMcParameters` supplies. */
  datatype Params = Params(convergenceSteps: int, minAlignedStructures: int, minBlockLen: int)

  class Optimizer {
    /** The number of structures. */
    const size: nat
    /** The number of residues of each structure. */
    const lengths: seq<nat>
    /** `Lmin`: Blocks this long or shorter are not shortened by `insertGap` or `shrinkBlock`. */
    const lmin: int
    /** `Rmin`: the fewest residues a column may hold. */
    var rmin: int
    var convergenceSteps: int
    /** The alignment, one entry per Block. */
    var blocks: seq<Block>
    /** The free pool: per structure, the residues not aligned. */
    var pool: seq<set<int>>
    var mcScore: real

    function Cfg(): Config
      reads this
    {
      Config(size, rmin, lmin)
    }

    function Current(): State
      reads this
    {
      State(blocks, pool)
    }

    ghost predicate Valid()
      reads this
    {
      ValidState(Current(), Cfg(), lengths)
    }

    /**
     * The constructor with `initialize`: the seed is taken as the alignment,
     * the pool is built from the residues it leaves out, the coverage pass
     * runs with the default `Rmin`, and then the configured `Rmin`, the
     * convergence setting and `Lmin` are set.
     */
    constructor (seed: seq<Block>, lengths: seq<nat>, params: Params, env: Env)
      requires |lengths| >= 1 && WellShaped(seed, |lengths|)
      requires forall s, k | 0 <= s < |lengths| :: Count(seed, s, k) <= InRange(k, lengths[s])
      ensures Valid()
      ensures size == |lengths| && this.lengths == lengths && lmin == params.minBlockLen
      ensures Current() == Checked(State(seed, InitialPool(seed, lengths)), Config(|lengths|, DefaultRmin(|lengths|), lmin))
      ensures Covered(blocks, size, DefaultRmin(size))
      ensures mcScore == env.score(blocks)
      ensures rmin == SetRmin(params.minAlignedStructures, size)
      ensures convergenceSteps == ConvergenceSteps(params.convergenceSteps, lengths)
    {
      size := |lengths|;
      this.lengths := lengths;
      lmin := params.minBlockLen;
      new;
      blocks := seed;
      rmin := DefaultRmin(size);
      pool := BuildPool(seed, lengths);
      InitialPoolValid(seed, lengths, Cfg());
      var _ := CheckGaps();
      CheckedValid(State(seed, InitialPool(seed, lengths)), Cfg(), lengths);
      mcScore := env.score(blocks);
      convergenceSteps := ConvergenceSteps(params.convergenceSteps, lengths);
      rmin := SetRmin(params.minAlignedStructures, size);
    }

    /**
     * `checkGaps`: removes every column holding fewer than `Rmin` residues,
     * each Block's from the highest index down, and returns whether it
     * removed any.
     */
    method CheckGaps() returns (shrunkAny: bool)
      requires Valid()
      modifies this
      ensures Valid() && Current() == Checked(old(Current()), Cfg())
      ensures shrunkAny == AnyLow(old(blocks), size, rmin)
      ensures rmin == old(rmin) && convergenceSteps == old(convergenceSteps) && mcScore == old(mcScore)
    {
      ghost var blocks0, pool0 := blocks, pool;
      var shrinkColumns := LowColumnLists(blocks, size, rmin);
      shrunkAny := StripAll(blocks0, pool0, shrinkColumns);
      PassDone(State(blocks0, pool0), State(blocks, pool), Cfg(), lengths, shrinkColumns);
    }

    /** The second loop of `checkGaps`: every Block loses its listed columns; reports whether any list was non-empty. */
    method StripAll(ghost blocks0: seq<Block>, ghost pool0: seq<set<int>>, lists: seq<seq<nat>>) returns (shrunkAny: bool)
      requires CheckPass(blocks0, pool0, 0) && |lists| == |blocks0|
      requires forall b | 0 <= b < |blocks0| :: ListsUnmarked(lists[b], Kept(blocks0[b], rmin))
      modifies this
      ensures CheckPass(blocks0, pool0, |blocks0|)
      ensures shrunkAny == Listed(lists, |lists|)
      ensures rmin == old(rmin) && convergenceSteps == old(convergenceSteps) && mcScore == old(mcScore)
    {
      shrunkAny := false;
      var b := 0;
      while b < |lists|
        invariant b <= |lists|
        invariant CheckPass(blocks0, pool0, b)
        invariant shrunkAny == Listed(lists, b)
        invariant rmin == old(rmin) && convergenceSteps == old(convergenceSteps) && mcScore == old(mcScore)
      {
        CheckBlock(blocks0, pool0, b, lists[b]);
        ListedStep(lists, b);
        if |lists[b]| > 0 {
          shrunkAny := true;
        }
        b := b + 1;
      }
      assert b == |blocks0|;
    }

    /** The pass has handled the first `b` Blocks of `blocks0` and not yet the others. */
    ghost predicate CheckPass(blocks0: seq<Block>, pool0: seq<set<int>>, b: nat)
      reads this
    {
      WellShaped(blocks0, size) && |pool0| == size && b <= |blocks0| && |blocks| == |blocks0| && |pool| == size &&
      (forall b' | 0 <= b' < b :: blocks[b'] == CheckedBlock(blocks0[b'], rmin)) &&
      (forall b' | b <= b' < |blocks0| :: blocks[b'] == blocks0[b']) &&
      (forall s | 0 <= s < size :: pool[s] == pool0[s] + DroppedBlocks(blocks0, size, rmin, s, b))
    }

    /** One round of the second loop of `checkGaps`: Block `b` loses its listed columns. */
    method CheckBlock(ghost blocks0: seq<Block>, ghost pool0: seq<set<int>>, b: nat, cols: seq<nat>)
      requires CheckPass(blocks0, pool0, b) && b < |blocks0|
      requires ListsUnmarked(cols, Kept(blocks0[b], rmin))
      modifies this
      ensures CheckPass(blocks0, pool0, b + 1)
      ensures rmin == old(rmin) && convergenceSteps == old(convergenceSteps) && mcScore == old(mcScore)
    {
      var stripped, free := StripColumns(blocks[b], pool, rmin, cols);
      blocks, pool := blocks[b := stripped], free;
      forall s | 0 <= s < size ensures pool[s] == pool0[s] + DroppedBlocks(blocks0, size, rmin, s, b + 1) { }
    }

    /**
     * `insertGap` from the chosen cell on: on a Block longer than `Lmin`,
     * the residue at the cell goes back to the pool, the cell becomes a gap
     * and the coverage pass runs.
     */
    method InsertGap(structure: nat, block: nat, position: nat) returns (o: Outcome)
      requires Valid() && structure < size
      modifies this
      ensures Valid() && Step(o, Current()) == Moves.InsertGap(old(Current()), Cfg(), structure, block, position)
      ensures rmin == old(rmin) && convergenceSteps == old(convergenceSteps) && mcScore == old(mcScore)
    {
      if block >= |blocks| {
        return Thrown(IndexOutOfRange);
      }
      if BlockLength(blocks[block]) <= lmin {
        return Done(false);
      }
      if position >= BlockLength(blocks[block]) {
        return Thrown(IndexOutOfRange);
      }
      var residueL := blocks[block][structure][position];
      if residueL.Some? {
        ClearedValid(Current(), Cfg(), lengths, structure, block, position);
        pool := pool[structure := pool[structure] + {residueL.value}];
      } else {
        return Done(false);
      }
      blocks := blocks[block := blocks[block][structure := blocks[block][structure][position := None]]];
      var _ := CheckGaps();
      return Done(true);
    }

    /**
     * `shrinkBlock` from the chosen column on: on a Block longer than
     * `Lmin`, the column is removed and its residues go back to the pool.
     */
    method ShrinkBlock(block: nat, position: nat) returns (o: Outcome)
      requires Valid()
      modifies this
      ensures Valid() && Step(o, Current()) == Moves.ShrinkBlock(old(Current()), Cfg(), block, position)
      ensures rmin == old(rmin) && convergenceSteps == old(convergenceSteps) && mcScore == old(mcScore)
    {
      if block >= |blocks| {
        return Thrown(IndexOutOfRange);
      }
      if BlockLength(blocks[block]) <= lmin {
        return Done(false);
      }
      if position >= BlockLength(blocks[block]) {
        return Thrown(IndexOutOfRange);
      }
      ShrinkBlockValid(Current(), Cfg(), lengths, block, position);
      ghost var blk0, pool0 := blocks[block], pool;
      var shrunk, free := RemoveColumn(blocks[block], pool, position);
      blocks, pool := blocks[block := shrunk], free;
      assert blocks[block] == ShrunkBlock(blk0, position);
      assert blocks == old(blocks)[block := ShrunkBlock(blk0, position)];
      assert pool == ShrunkPool(blk0, pool0, position);
      return Done(true);
    }

    /**
     * `shiftRow`. A gap pivot is filled from the pool, with no coverage pass;
     * a residue pivot's run of consecutive residues is moved one place, and
     * the coverage pass runs.
     */
    method ShiftRow(d: ShiftDraw) returns (o: Outcome)
      requires Valid()
      modifies this
      ensures Valid() && Step(o, Current()) == Moves.ShiftRow(old(Current()), Cfg(), d)
      ensures rmin == old(rmin) && convergenceSteps == old(convergenceSteps) && mcScore == old(mcScore)
    {
      var str := d.str % size;
      var rl := d.rl % 2;
      if |blocks| <= 0 {
        return Thrown(NonPositiveBound);
      }
      var bk := d.bk % |blocks|;
      if BlockLength(blocks[bk]) <= 0 {
        return Thrown(NonPositiveBound);
      }
      var res := d.res % BlockLength(blocks[bk]);
      if blocks[bk][str][res].None? {
        o := FillGap(str, bk, res, d.offset);
      } else {
        ShiftRun(str, bk, res, rl == 0);
        o := Done(true);
      }
    }

    /** The gap pivot branch of `shiftRow`. */
    method FillGap(str: nat, bk: nat, res: nat, offset: nat) returns (o: Outcome)
      requires Valid() && str < size && bk < |blocks| && res < BlockLength(blocks[bk])
      requires blocks[bk][str][res].None?
      modifies this
      ensures Valid() && Step(o, Current()) == GapStep(old(Current()), Cfg(), str, bk, res, offset)
      ensures rmin == old(rmin) && convergenceSteps == old(convergenceSteps) && mcScore == old(mcScore)
    {
      GapStepValid(Current(), Cfg(), lengths, str, bk, res, offset);
      var row := blocks[bk][str];
      var rightRes := FindNextFilled(row, res);
      var leftRes := FindPrevFilled(row, res);
      var residue: int;
      if row[leftRes].None? && row[rightRes].None? {
        return Done(false);
      } else if row[leftRes].None? {
        residue := row[rightRes].value - 1;
        if residue !in pool[str] {
          return Done(false);
        }
      } else if row[rightRes].None? {
        // The membership test is made on the list of pools, which holds no
        // residues, so it fails.
        return Done(false);
      } else {
        if row[rightRes].value == row[leftRes].value + 1 {
          return Done(false);
        }
        var bound := row[rightRes].value - row[leftRes].value - 1;
        if bound <= 0 {
          return Thrown(NonPositiveBound);
        }
        residue := offset % bound + row[leftRes].value + 1;
        if residue !in pool[str] {
          return Thrown(MissingInBetween);
        }
      }
      assert GapFill(row, pool[str], res, offset) == FillWith(residue);
      blocks := blocks[bk := blocks[bk][str := row[res := Some(residue)]]];
      pool := pool[str := pool[str] - {residue}];
      return Done(true);
    }

    /** The residue pivot branch of `shiftRow`: moves the pivot's run right or left. */
    method ShiftRun(str: nat, bk: nat, res: nat, right: bool)
      requires Valid() && str < size && bk < |blocks| && res < BlockLength(blocks[bk])
      requires blocks[bk][str][res].Some?
      modifies this
      ensures Valid() && Current() == Checked(ShiftResidue(old(Current()), Cfg(), str, bk, res, right), Cfg())
      ensures rmin == old(rmin) && convergenceSteps == old(convergenceSteps) && mcScore == old(mcScore)
    {
      ShiftResidueValid(Current(), Cfg(), lengths, str, bk, res, right);
      var row, free := MoveRun(blocks[bk][str], pool[str], res, right);
      blocks := blocks[bk := blocks[bk][str := row]];
      pool := pool[str := free];
      var _ := CheckGaps();
    }

    /**
     * `expandBlock`: a column is inserted next to the frontier column the
     * scan finds, each structure taking its neighbouring residue from the
     * pool or a gap. It succeeds when the new column holds at least `Rmin`
     * residues; otherwise the coverage pass runs.
     */
    method ExpandBlock(d: ExpandDraw) returns (o: Outcome)
      requires Valid()
      modifies this
      ensures Valid() && Step(o, Current()) == Moves.ExpandBlock(old(Current()), Cfg(), d)
      ensures rmin == old(rmin) && convergenceSteps == old(convergenceSteps) && mcScore == old(mcScore)
    {
      var rl := d.rl % 2;
      if |blocks| <= 0 {
        return Thrown(NonPositiveBound);
      }
      var bk := d.bk % |blocks|;
      if BlockLength(blocks[bk]) <= 0 {
        return Thrown(NonPositiveBound);
      }
      var res := d.res % BlockLength(blocks[bk]);
      ValidNonNegative(Current(), Cfg(), lengths, bk);
      var frontier: nat, at: nat, delta: int;
      if rl == 0 {
        frontier := ScanRight(blocks[bk], rmin, res);
        at, delta := frontier + 1, 1;
      } else {
        frontier := ScanLeft(blocks[bk], rmin, res);
        at, delta := frontier, -1;
      }
      ghost var w := Site(frontier, at, delta);
      assert w == ExpandSite(blocks[bk], rmin, res, rl == 0);
      ExpandedValid(Current(), Cfg(), lengths, bk, w);
      ExpandedBlockShape(blocks[bk], pool, frontier, at, delta);
      var gaps := InsertColumn(bk, frontier, at, delta);
      if size - gaps >= rmin {
        return Done(true);
      }
      var _ := CheckGaps();
      return Done(false);
    }

    /**
     * The insertion loop of `expandBlock`: each structure's new cell goes in
     * before position `at`, and the gaps among them are counted.
     */
    method InsertColumn(bk: nat, frontier: nat, at: nat, delta: int) returns (gaps: nat)
      requires bk < |blocks| && Rectangular(blocks[bk], size) && |pool| == size
      requires frontier < BlockLength(blocks[bk]) && at <= BlockLength(blocks[bk])
      requires delta == 1 ==> at == frontier + 1
      modifies this
      ensures blocks == old(blocks)[bk := ExpandedBlock(old(blocks[bk]), old(pool), frontier, at, delta)]
      ensures pool == ExpandedPool(old(blocks[bk]), old(pool), frontier, delta)
      ensures HasColumn(ExpandedBlock(old(blocks[bk]), old(pool), frontier, at, delta), at)
      ensures gaps == GapCount(ExpandedBlock(old(blocks[bk]), old(pool), frontier, at, delta), at, size)
      ensures rmin == old(rmin) && convergenceSteps == old(convergenceSteps) && mcScore == old(mcScore)
    {
      var rows, free;
      rows, free, gaps := GrowBlock(blocks[bk], pool, frontier, at, delta);
      blocks, pool := blocks[bk := rows], free;
    }

    /** One draw of the move loop: the move `Random.nextDouble` selects, applied in place. */
    method Attempt(env: Env, m: MoveDraw) returns (o: Outcome)
      requires Valid()
      modifies this
      ensures Valid() && Step(o, Current()) == MonteCarlo.Attempt(old(Current()), Cfg(), env, m)
      ensures rmin == old(rmin) && convergenceSteps == old(convergenceSteps) && mcScore == old(mcScore)
    {
      var move := m.u;
      if move < 0.5 {
        o := ShiftRow(m.shift);
      } else if move < 0.8 {
        o := ExpandBlock(m.expand);
      } else if move < 0.9 {
        var pick := ShrinkPick(blocks, m.shrinkBlock, m.shrinkPosition);
        o := ShrinkBlock(pick.0, pick.1);
      } else {
        var structure, block, position := SelectGapCell(blocks, size, env.distances(blocks), m.gapCoin);
        o := InsertGap(structure, block, position);
      }
    }

    /**
     * The `while (!moved)` loop of `optimizeMC`, over a finite list of
     * draws: moves are tried in turn until one moves.
     */
    method Retries(env: Env, attempts: seq<MoveDraw>) returns (r: Retried)
      requires Valid()
      modifies this
      ensures Valid() && r == Retry(old(Current()), Cfg(), lengths, env, attempts)
      ensures r.Moved? ==> Current() == r.st
      ensures rmin == old(rmin) && convergenceSteps == old(convergenceSteps) && mcScore == old(mcScore)
    {
      var moved := false;
      var k := 0;
      while !moved
        invariant Valid() && rmin == old(rmin) && convergenceSteps == old(convergenceSteps) && mcScore == old(mcScore)
        invariant k <= |attempts|
        invariant !moved ==> Retry(Current(), Cfg(), lengths, env, attempts[k..]) == Retry(old(Current()), Cfg(), lengths, env, attempts)
        invariant moved ==> Retry(old(Current()), Cfg(), lengths, env, attempts) == Moved(Current())
        decreases |attempts| - k
      {
        if k == |attempts| {
          return Exhausted;
        }
        assert attempts[k..][1..] == attempts[k + 1..];
        var o := Attempt(env, attempts[k]);
        if o.Thrown? {
          return Failed(o.fault);
        }
        moved := o.moved;
        k := k + 1;
      }
      return Moved(Current());
    }

    /**
     * The end of an iteration of `optimizeMC`: the new alignment is scored
     * and kept, or the snapshot is restored when the score fell and the
     * draw rejects it.
     */
    method Decide(env: Env, lastBlocks: seq<Block>, lastPool: seq<set<int>>, lastScore: real, rejects: bool, conv: int)
      returns (conv': int)
      modifies this
      ensures Accepted(Current(), mcScore, conv')
           == MonteCarlo.Decide(State(lastBlocks, lastPool), lastScore, old(Current()), env.score(old(blocks)), rejects, conv)
      ensures rmin == old(rmin) && convergenceSteps == old(convergenceSteps)
    {
      mcScore := env.score(blocks);
      var change := mcScore - lastScore;
      if change < 0.0 {
        if rejects {
          blocks, pool, mcScore := lastBlocks, lastPool, lastScore;
          conv' := conv + 1;
        } else {
          conv' := 0;
        }
      } else {
        conv' := 0;
      }
    }

    /** `call`: the optimization with a hundred iterations per convergence step. */
    method Call(env: Env, iters: int -> Iteration) returns (r: RunOutcome)
      requires Valid()
      modifies this
      ensures Valid()
      ensures r == Run(old(Current()), old(mcScore), Cfg(), lengths, env, iters, Int32(convergenceSteps * 100),
                       StepsToConverge(Int32(convergenceSteps * 100)), 1, 0)
      ensures r.Finished? ==> Current() == r.st && mcScore == r.score
    {
      r := OptimizeMC(Int32(convergenceSteps * 100), env, iters);
    }

    /**
     * `optimizeMC`: each iteration snapshots the alignment, the pool and the
     * score, retries moves until one moves, and accepts or rolls back, until
     * `maxIter` iterations or `max(maxIter / 50, 1000)` steps without change.
     */
    method OptimizeMC(maxIter: int, env: Env, iters: int -> Iteration) returns (r: RunOutcome)
      requires Valid()
      modifies this
      ensures Valid()
      ensures r == Run(old(Current()), old(mcScore), Cfg(), lengths, env, iters, maxIter, StepsToConverge(maxIter), 1, 0)
      ensures r.Finished? ==> Current() == r.st && mcScore == r.score
      ensures rmin == old(rmin) && convergenceSteps == old(convergenceSteps)
    {
      var conv := 0;
      var stepsToConverge := StepsToConverge(maxIter);
      var i := 1;
      while i < maxIter && conv < stepsToConverge
        invariant Valid() && rmin == old(rmin) && convergenceSteps == old(convergenceSteps)
        invariant Run(Current(), mcScore, Cfg(), lengths, env, iters, maxIter, stepsToConverge, i, conv)
               == Run(old(Current()), old(mcScore), Cfg(), lengths, env, iters, maxIter, stepsToConverge, 1, 0)
        decreases maxIter - i
      {
        var lastBlocks, lastPool, lastScore := blocks, pool, mcScore;
        ghost var snapshot := Current();
        assert ValidState(snapshot, Cfg(), lengths);
        var it := iters(i);
        var rt := Retries(env, it.attempts);
        if rt.Failed? {
          return Aborted(rt.fault);
        }
        if rt.Exhausted? {
          return Stalled(i);
        }
        ghost var a := MonteCarlo.Decide(snapshot, lastScore, rt.st, env.score(rt.st.blocks), it.rejects, conv);
        assert Run(snapshot, lastScore, Cfg(), lengths, env, iters, maxIter, stepsToConverge, i, conv)
            == Run(a.st, a.score, Cfg(), lengths, env, iters, maxIter, stepsToConverge, i + 1, a.conv);
        conv := Decide(env, lastBlocks, lastPool, lastScore, it.rejects, conv);
        i := i + 1;
      }
      return Finished(Current(), mcScore);
    }
  }

  /**
   * The row edit of `shiftRow` at a residue pivot: the run through `res` is
   * found by its two boundary scans and moved one place right or left.
   */
  method MoveRun(row: Row, free: set<int>, res: nat, right: bool) returns (row': Row, free': set<int>)
    requires res < |row| && row[res].Some?
    ensures right ==> RowEdit(row', free') == ShiftRight(row, free, res)
    ensures !right ==> RowEdit(row', free') == ShiftLeft(row, free, res)
  {
    var leftBoundary := FindRunStart(row, res);
    var rightBoundary := FindRunEnd(row, res);
    row', free' := MoveCells(row, free, leftBoundary, rightBoundary, right);
  }

  /**
   * The second half of `checkGaps` for one Block: removes the listed columns
   * from the highest down, each cell's residue going to its structure's pool.
   */
  method StripColumns(blk: Block, pool: seq<set<int>>, rmin: int, cols: seq<nat>)
    returns (stripped: Block, free: seq<set<int>>)
    requires Rectangular(blk, |blk|) && |pool| == |blk|
    requires ListsUnmarked(cols, Kept(blk, rmin))
    ensures stripped == CheckedBlock(blk, rmin) && |free| == |pool|
    ensures forall s | 0 <= s < |blk| :: free[s] == pool[s] + DroppedFrom(blk[s], Kept(blk, rmin), 0)
  {
    ghost var mask := Kept(blk, rmin);
    forall s | 0 <= s < |blk|
      ensures Partial(blk[s], mask, Frontier(cols, |cols|, BlockLength(blk))) == blk[s]
      ensures DroppedFrom(blk[s], mask, Frontier(cols, |cols|, BlockLength(blk))) == {}
    {
      StripEnds(blk[s], mask, cols);
    }
    stripped, free := blk, pool;
    var col := |cols| - 1;
    while col >= 0
      invariant -1 <= col < |cols| && |stripped| == |blk| && |free| == |blk|
      invariant forall s | 0 <= s < |blk| ::
        stripped[s] == Partial(blk[s], mask, Frontier(cols, col + 1, BlockLength(blk)))
      invariant forall s | 0 <= s < |blk| ::
        free[s] == pool[s] + DroppedFrom(blk[s], mask, Frontier(cols, col + 1, BlockLength(blk)))
    {
      forall s | 0 <= s < |blk|
        ensures cols[col] < |stripped[s]| && stripped[s][cols[col]] == blk[s][cols[col]]
        ensures RemoveAt(stripped[s], cols[col]) == Partial(blk[s], mask, cols[col])
        ensures DroppedFrom(blk[s], mask, cols[col]) == DroppedFrom(blk[s], mask, Frontier(cols, col + 1, BlockLength(blk))) + CellSet(blk[s][cols[col]])
      {
        StripStep(blk[s], mask, cols, col);
      }
      stripped, free := RemoveColumn(stripped, free, cols[col]);
      col := col - 1;
    }
    assert stripped == CheckedBlock(blk, rmin) by {
      forall s | 0 <= s < |blk| ensures stripped[s] == CheckedBlock(blk, rmin)[s] {
        StripEnds(blk[s], mask, cols);
      }
    }
    forall s | 0 <= s < |blk| ensures free[s] == pool[s] + DroppedFrom(blk[s], mask, 0) {
      StripEnds(blk[s], mask, cols);
    }
  }

  /** Removes column `c` from every row of a Block, each residue going to its structure's pool. */
  method RemoveColumn(blk: Block, pool: seq<set<int>>, c: nat) returns (shrunk: Block, free: seq<set<int>>)
    requires |pool| == |blk| && forall s | 0 <= s < |blk| :: c < |blk[s]|
    ensures |shrunk| == |blk| && |free| == |pool|
    ensures forall s | 0 <= s < |blk| :: shrunk[s] == RemoveAt(blk[s], c)
    ensures forall s | 0 <= s < |blk| :: free[s] == pool[s] + CellSet(blk[s][c])
  {
    shrunk, free := blk, pool;
    var str := 0;
    while str < |blk|
      invariant str <= |blk| && |shrunk| == |blk| && |free| == |blk|
      invariant forall s | 0 <= s < str :: shrunk[s] == RemoveAt(blk[s], c)
      invariant forall s | str <= s < |blk| :: shrunk[s] == blk[s]
      invariant forall s | 0 <= s < str :: free[s] == pool[s] + CellSet(blk[s][c])
      invariant forall s | str <= s < |blk| :: free[s] == pool[s]
    {
      var residue := shrunk[str][c];
      shrunk := shrunk[str := RemoveAt(shrunk[str], c)];
      if residue.Some? {
        free := free[str := free[str] + {residue.value}];
      }
      str := str + 1;
    }
  }

  /**
   * The insertion loop of `expandBlock` on the Block's value: each structure's
   * new cell goes in before position `at`, and the gaps among them are counted.
   */
  method GrowBlock(blk: Block, pool: seq<set<int>>, frontier: nat, at: nat, delta: int)
    returns (grown: Block, free: seq<set<int>>, gaps: nat)
    requires Rectangular(blk, |blk|) && |pool| == |blk|
    requires frontier < BlockLength(blk) && at <= BlockLength(blk)
    requires delta == 1 ==> at == frontier + 1
    ensures grown == ExpandedBlock(blk, pool, frontier, at, delta)
    ensures free == ExpandedPool(blk, pool, frontier, delta)
    ensures HasColumn(grown, at) && gaps == GapCount(grown, at, |blk|)
  {
    ghost var want := ExpandedBlock(blk, pool, frontier, at, delta);
    ExpandedBlockShape(blk, pool, frontier, at, delta);
    gaps := 0;
    var str := 0;
    grown, free := blk, pool;
    while str < |blk|
      invariant str <= |blk| && |grown| == |blk| && |free| == |blk|
      invariant forall s | 0 <= s < str :: grown[s] == want[s]
      invariant forall s | str <= s < |blk| :: grown[s] == blk[s]
      invariant forall s | 0 <= s < str :: free[s] == ExpandedPool(blk, pool, frontier, delta)[s]
      invariant forall s | str <= s < |blk| :: free[s] == pool[s]
      invariant gaps == GapCount(want, at, str)
    {
      var append := delta == 1 && frontier == BlockLength(grown) - 1;
      var row, left, gap := GrowRow(grown[str], free[str], frontier, at, delta, append);
      if gap {
        gaps := gaps + 1;
      }
      grown, free := grown[str := row], free[str := left];
      str := str + 1;
    }
    assert grown == want;
    assert free == ExpandedPool(blk, pool, frontier, delta);
  }

  /** One structure's step of the `expandBlock` insertion loop: the new cell and whether it is a gap. */
  method GrowRow(row: Row, free: set<int>, frontier: nat, at: nat, delta: int, append: bool)
    returns (row': Row, free': set<int>, gap: bool)
    requires frontier < |row| && at <= |row| && (append ==> at == |row|)
    ensures row' == InsertAt(row, at, NewCell(row[frontier], free, delta))
    ensures free' == free - CellSet(NewCell(row[frontier], free, delta))
    ensures gap <==> row'[at].None?
  {
    var residue := row[frontier];
    var cell: Cell;
    if residue.None? {
      cell := None;
      gap := true;
      free' := free;
    } else if residue.value + delta in free {
      cell := Some(residue.value + delta);
      free' := free - {residue.value + delta};
      gap := false;
    } else {
      cell := None;
      gap := true;
      free' := free;
    }
    if append {
      row' := row + [cell];
    } else {
      row' := InsertAt(row, at, cell);
    }
  }

  /** The list operations that move the cells `l .. r` of a row one place right or left. */
  method MoveCells(row: Row, free: set<int>, l: nat, r: nat, right: bool) returns (row': Row, free': set<int>)
    requires l <= r < |row| && row[l].Some? && row[r].Some?
    ensures right ==> RowEdit(row', free') == RightShift(row, free, l, r)
    ensures !right ==> RowEdit(row', free') == LeftShift(row, free, l, r)
  {
    // Both ends of a run hold residues, so the source's null tests on them pass.
    var residueR := row[r].value;
    var residueL := row[l].value;
    if right {
      row' := RemoveAt(row, r);
      free' := free + {residueR};
      if residueL - 1 in free' {
        row' := InsertAt(row', l, Some(residueL - 1));
        free' := free' - {residueL - 1};
      } else {
        row' := InsertAt(row', l, None);
      }
    } else {
      // The membership test for the residue after the run is made on the
      // list of pools and fails, so a gap is inserted after the run.
      row' := InsertAt(row, r + 1, None);
      row' := RemoveAt(row', l);
      free' := free + {residueL};
    }
  }

  /** Some list among the first `n` is non-empty. */
  predicate Listed(lists: seq<seq<nat>>, n: nat)
    requires n <= |lists|
  {
    exists b | 0 <= b < n :: |lists[b]| > 0
  }

  lemma ListedStep(lists: seq<seq<nat>>, n: nat)
    requires n < |lists|
    ensures Listed(lists, n + 1) == (Listed(lists, n) || |lists[n]| > 0)
  {
    if Listed(lists, n + 1) && |lists[n]| == 0 {
      var b :| 0 <= b < n + 1 && |lists[b]| > 0;
      assert b < n;
    }
  }

  /** Once every Block is handled, the state is the one `Checked` gives, and a Block was shrunk exactly when a column was low. */
  lemma PassDone(st0: State, st: State, cfg: Config, lengths: seq<nat>, lists: seq<seq<nat>>)
    requires ValidState(st0, cfg, lengths) && |st.blocks| == |st0.blocks| && |st.pool| == cfg.size
    requires forall b | 0 <= b < |st.blocks| :: st.blocks[b] == CheckedBlock(st0.blocks[b], cfg.rmin)
    requires forall s | 0 <= s < cfg.size :: st.pool[s] == st0.pool[s] + DroppedBlocks(st0.blocks, cfg.size, cfg.rmin, s, |st0.blocks|)
    requires |lists| == |st0.blocks|
    requires forall b | 0 <= b < |st0.blocks| :: ListsUnmarked(lists[b], Kept(st0.blocks[b], cfg.rmin))
    ensures st == Checked(st0, cfg) && ValidState(st, cfg, lengths)
    ensures AnyLow(st0.blocks, cfg.size, cfg.rmin) == Listed(lists, |lists|)
  {
    PointwiseChecked(st0.blocks, st0.pool, st.blocks, st.pool, cfg.size, cfg.rmin);
    CheckedValid(st0, cfg, lengths);
    AnyLowIffListed(st0.blocks, cfg.size, cfg.rmin, lists);
  }

  lemma PointwiseChecked(blocks0: seq<Block>, pool0: seq<set<int>>, blocks: seq<Block>, pool: seq<set<int>>,
                         size: nat, rmin: int)
    requires WellShaped(blocks0, size) && |pool0| == size && |blocks| == |blocks0| && |pool| == size
    requires forall b | 0 <= b < |blocks| :: blocks[b] == CheckedBlock(blocks0[b], rmin)
    requires forall s | 0 <= s < size :: pool[s] == pool0[s] + DroppedBlocks(blocks0, size, rmin, s, |blocks0|)
    ensures blocks == CheckedBlocks(blocks0, size, rmin) && pool == CheckedPool(blocks0, pool0, size, rmin)
  {
  }

  lemma AnyLowIffListed(blocks: seq<Block>, size: nat, rmin: int, lists: seq<seq<nat>>)
    requires WellShaped(blocks, size) && |lists| == |blocks|
    requires forall b | 0 <= b < |blocks| :: ListsUnmarked(lists[b], Kept(blocks[b], rmin))
    ensures AnyLow(blocks, size, rmin) <==> exists b | 0 <= b < |blocks| :: |lists[b]| > 0
  {
    if AnyLow(blocks, size, rmin) {
      var b, c :| 0 <= b < |blocks| && 0 <= c < BlockLength(blocks[b]) && Low(blocks[b], c, rmin);
      assert c in lists[b];
    }
    if exists b | 0 <= b < |blocks| :: |lists[b]| > 0 {
      var b :| 0 <= b < |blocks| && |lists[b]| > 0;
      assert lists[b][0] in lists[b];
    }
  }
}

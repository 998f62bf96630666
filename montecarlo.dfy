/**
 * The Monte Carlo layer over the moves: the cell `insertGap` chooses, the
 * choice of a move, the retries until one moves, the accept or reject
 * step with its rollback, and the loop with its convergence counter.
 *
 * Scores, residue distances and the acceptance probability come from
 * floating-point geometry that is not modelled: they are parameters, given
 * as functions of the alignment or as the outcome of the draw.
 */
module MonteCarlo {
  import opened Wrappers
  import opened Alignment
  import opened Coverage
  import opened Moves
  import opened MoveProperties

  // ---------------------------------------------------------------------------
  // The columns of the alignment, numbered across Blocks

  /** The number of columns in the first `n` Blocks. */
  function Offset(blocks: seq<Block>, n: nat): nat
    requires n <= |blocks|
  {
    if n == 0 then 0 else Offset(blocks, n - 1) + BlockLength(blocks[n - 1])
  }

  /** The columns of the first `n` Blocks in alignment order, each as (Block, position). */
  function Columns(blocks: seq<Block>, n: nat): (cols: seq<(nat, nat)>)
    requires n <= |blocks|
    ensures |cols| == Offset(blocks, n)
  {
    if n == 0 then []
    else Columns(blocks, n - 1) + seq(BlockLength(blocks[n - 1]), c requires 0 <= c => (n - 1, c))
  }

  /** Position `c` of Block `b` is column `Offset(b) + c` of the alignment. */
  lemma {:induction false} ColumnAt(blocks: seq<Block>, n: nat, b: nat, c: nat)
    requires b < n <= |blocks| && c < BlockLength(blocks[b])
    ensures Offset(blocks, b) + c < Offset(blocks, n)
    ensures Columns(blocks, n)[Offset(blocks, b) + c] == (b, c)
  {
    if b < n - 1 {
      ColumnAt(blocks, n - 1, b, c);
    }
  }

  /** Column numbers grow with the Blocks counted. */
  lemma {:induction false} OffsetGrows(blocks: seq<Block>, n: nat, m: nat)
    requires n <= m <= |blocks|
    ensures Offset(blocks, n) <= Offset(blocks, m)
    decreases m - n
  {
    if n < m {
      OffsetGrows(blocks, n, m - 1);
    }
  }

  // ---------------------------------------------------------------------------
  // The cell insertGap chooses

  /** 2 to the power `n`. */
  function Pow2(n: nat): (r: nat)
    ensures r > 0
  {
    if n == 0 then 1 else 2 * Pow2(n - 1)
  }

  /** `Double.MIN_VALUE`, 2^-1074, the starting value of `maxDist`. */
  const MinDouble: real := 1.0 / (Pow2(1074) as real)

  /** A residue distance that passes both tests of the selection loop. */
  predicate GapEligible(d: real) {
    d != -1.0 && d > MinDouble
  }

  /** A chosen cell: structure, Block and position within the Block. */
  datatype CellPick = CellPick(structure: nat, block: nat, position: nat)

  /** The cell at alignment column `g`, structure `s`. */
  function PickAt(cols: seq<(nat, nat)>, g: nat, s: nat): CellPick
    requires g < |cols|
  {
    CellPick(s, cols[g].0, cols[g].1)
  }

  /** The cell at column `g`, structure `s`, passes the distance tests and wins its coin. */
  predicate Wins(cols: seq<(nat, nat)>, size: nat, dist: (nat, nat) -> real, coin: (nat, nat) -> bool, g: nat, s: nat) {
    g < |cols| && s < size && GapEligible(dist(s, g)) && coin(g, s)
  }

  /** Cell (g', s') comes before cell (g, s) in the scan: by column, then by structure. */
  predicate Before(g': nat, s': nat, g: nat, s: nat) {
    g' < g || (g' == g && s' < s)
  }

  /**
   * The choice of the selection loop of `insertGap` once it has scanned
   * every column before `g` and the first `s` structures of column `g`.
   * `maxDist` stays at `Double.MIN_VALUE`, so every winning cell replaces
   * the earlier choice.
   */
  function GapScan(cols: seq<(nat, nat)>, size: nat, dist: (nat, nat) -> real, coin: (nat, nat) -> bool,
                   g: nat, s: nat): (r: CellPick)
    requires g <= |cols| && s <= size && (g == |cols| ==> s == 0)
    ensures r == CellPick(0, 0, 0) || r.structure < size
    decreases g, s
  {
    if s == 0 then
      if g == 0 then CellPick(0, 0, 0) else GapScan(cols, size, dist, coin, g - 1, size)
    else if Wins(cols, size, dist, coin, g, s - 1) then PickAt(cols, g, s - 1)
    else GapScan(cols, size, dist, coin, g, s - 1)
  }

  /** With no winning cell scanned so far, the choice is still the initial (0, 0, 0). */
  lemma {:induction false} GapScanNone(cols: seq<(nat, nat)>, size: nat, dist: (nat, nat) -> real,
                                       coin: (nat, nat) -> bool, g: nat, s: nat)
    requires g <= |cols| && s <= size && (g == |cols| ==> s == 0)
    requires forall g', s' | Before(g', s', g, s) :: !Wins(cols, size, dist, coin, g', s')
    ensures GapScan(cols, size, dist, coin, g, s) == CellPick(0, 0, 0)
    decreases g, s
  {
    if s == 0 {
      if g > 0 {
        GapScanNone(cols, size, dist, coin, g - 1, size);
      }
    } else {
      assert Before(g, s - 1, g, s);
      GapScanNone(cols, size, dist, coin, g, s - 1);
    }
  }

  /** The choice is the last winning cell scanned so far. */
  lemma {:induction false} GapScanLast(cols: seq<(nat, nat)>, size: nat, dist: (nat, nat) -> real,
                                       coin: (nat, nat) -> bool, g: nat, s: nat, g': nat, s': nat)
    requires g <= |cols| && s <= size && (g == |cols| ==> s == 0)
    requires Before(g', s', g, s) && Wins(cols, size, dist, coin, g', s')
    requires forall g'', s'' | Before(g', s', g'', s'') && Before(g'', s'', g, s) :: !Wins(cols, size, dist, coin, g'', s'')
    ensures GapScan(cols, size, dist, coin, g, s) == PickAt(cols, g', s')
    decreases g, s
  {
    if s == 0 {
      GapScanLast(cols, size, dist, coin, g - 1, size, g', s');
    } else if g' == g && s' == s - 1 {
    } else {
      assert Before(g', s', g, s - 1) && Before(g, s - 1, g, s);
      GapScanLast(cols, size, dist, coin, g, s - 1, g', s');
    }
  }

  /** Unless it is the initial (0, 0, 0), the choice is a winning cell already scanned. */
  lemma {:induction false} GapScanWinner(cols: seq<(nat, nat)>, size: nat, dist: (nat, nat) -> real,
                                         coin: (nat, nat) -> bool, g: nat, s: nat)
    requires g <= |cols| && s <= size && (g == |cols| ==> s == 0)
    ensures GapScan(cols, size, dist, coin, g, s) == CellPick(0, 0, 0) ||
      exists g', s' | Before(g', s', g, s) && Wins(cols, size, dist, coin, g', s') ::
        GapScan(cols, size, dist, coin, g, s) == PickAt(cols, g', s')
    decreases g, s
  {
    if s == 0 {
      if g > 0 {
        GapScanWinner(cols, size, dist, coin, g - 1, size);
      }
    } else if Wins(cols, size, dist, coin, g, s - 1) {
      assert Before(g, s - 1, g, s);
    } else {
      GapScanWinner(cols, size, dist, coin, g, s - 1);
    }
  }

  /** The cell `insertGap` chooses in the alignment `blocks`. */
  function GapPick(blocks: seq<Block>, size: nat, dist: (nat, nat) -> real, coin: (nat, nat) -> bool): (r: CellPick)
    ensures r == CellPick(0, 0, 0) || r.structure < size
  {
    GapScan(Columns(blocks, |blocks|), size, dist, coin, |Columns(blocks, |blocks|)|, 0)
  }

  /** The chosen cell is the initial one or a real cell of the alignment. */
  lemma GapPickInRange(blocks: seq<Block>, size: nat, dist: (nat, nat) -> real, coin: (nat, nat) -> bool)
    ensures var r := GapPick(blocks, size, dist, coin);
      r == CellPick(0, 0, 0) ||
      (r.structure < size && r.block < |blocks| && r.position < BlockLength(blocks[r.block]))
  {
    var cols := Columns(blocks, |blocks|);
    var g := |cols|;
    GapScanWinner(cols, size, dist, coin, g, 0);
    var r := GapPick(blocks, size, dist, coin);
    if r != CellPick(0, 0, 0) {
      var g', s' :| Before(g', s', g, 0) && Wins(cols, size, dist, coin, g', s') && r == PickAt(cols, g', s');
      ColumnsInRange(blocks, |blocks|, g');
    }
  }

  /** Every numbered column names a real position of a real Block. */
  lemma {:induction false} ColumnsInRange(blocks: seq<Block>, n: nat, g: nat)
    requires n <= |blocks| && g < Offset(blocks, n)
    ensures Columns(blocks, n)[g].0 < n && Columns(blocks, n)[g].1 < BlockLength(blocks[Columns(blocks, n)[g].0])
  {
    if g < Offset(blocks, n - 1) {
      ColumnsInRange(blocks, n - 1, g);
    }
  }

  // ---------------------------------------------------------------------------
  // One attempt at a move

  /** The four moves. */
  datatype Move = Shift | Expand | Shrink | Gap

  /** The move a uniform draw in [0, 1) selects: half shifts, then expansions, shrinks and gaps. */
  function MoveFor(u: real): (m: Move)
    ensures m == Shift <==> u < 0.5
    ensures m == Expand <==> 0.5 <= u < 0.8
    ensures m == Shrink <==> 0.8 <= u < 0.9
    ensures m == Gap <==> 0.9 <= u
  {
    if u < 0.5 then Shift else if u < 0.8 then Expand else if u < 0.9 then Shrink else Gap
  }

  /**
   * The draws of one attempt: the move draw, the draws of whichever move it
   * selects, the column `shrinkBlock` chooses, and the coin flips of the
   * cell selection of `insertGap`, indexed by (alignment column, structure).
   */
  datatype MoveDraw = MoveDraw(u: real, shift: ShiftDraw, expand: ExpandDraw,
                               shrinkBlock: nat, shrinkPosition: nat, gapCoin: (nat, nat) -> bool)

  /**
   * What the optimizer learns from the structures' geometry: the score of
   * an alignment, and the residue distance of each (structure, column) cell
   * of an alignment, -1 for a gap.
   */
  datatype Env = Env(score: seq<Block> -> real, distances: seq<Block> -> (nat, nat) -> real)

  /**
   * The column `shrinkBlock` picks. Its selection loop starts from (0, 0) and
   * only ever moves to a real column, so the pick is the drawn column when
   * that is a column of the alignment, and (0, 0) otherwise.
   */
  function ShrinkPick(blocks: seq<Block>, b: nat, p: nat): (c: (nat, nat))
    ensures c == (0, 0) || (c.0 < |blocks| && c.1 < BlockLength(blocks[c.0]))
    ensures b < |blocks| && p < BlockLength(blocks[b]) ==> c == (b, p)
  {
    if b < |blocks| && p < BlockLength(blocks[b]) then (b, p) else (0, 0)
  }

  /** One attempt: the selected move applied to the state. */
  function Attempt(st: State, cfg: Config, env: Env, m: MoveDraw): Step
    requires Shaped(st, cfg)
  {
    match MoveFor(m.u)
    case Shift => ShiftRow(st, cfg, m.shift)
    case Expand => ExpandBlock(st, cfg, m.expand)
    case Shrink =>
      var c := ShrinkPick(st.blocks, m.shrinkBlock, m.shrinkPosition);
      ShrinkBlock(st, cfg, c.0, c.1)
    case Gap =>
      var c := GapPick(st.blocks, cfg.size, env.distances(st.blocks), m.gapCoin);
      InsertGap(st, cfg, c.structure, c.block, c.position)
  }

  /** An attempt keeps the invariant. */
  lemma AttemptValid(st: State, cfg: Config, lengths: seq<nat>, env: Env, m: MoveDraw)
    requires ValidState(st, cfg, lengths)
    ensures ValidState(Attempt(st, cfg, env, m).after, cfg, lengths)
  {
    match MoveFor(m.u)
    case Shift => ShiftRowValid(st, cfg, lengths, m.shift);
    case Expand => ExpandBlockValid(st, cfg, lengths, m.expand);
    case Shrink =>
      var c := ShrinkPick(st.blocks, m.shrinkBlock, m.shrinkPosition);
      ShrinkBlockValid(st, cfg, lengths, c.0, c.1);
    case Gap =>
      var c := GapPick(st.blocks, cfg.size, env.distances(st.blocks), m.gapCoin);
      InsertGapValid(st, cfg, lengths, c.structure, c.block, c.position);
  }

  /** No attempt leaves a column of a covered alignment low. */
  lemma AttemptCovered(st: State, cfg: Config, env: Env, m: MoveDraw)
    requires Shaped(st, cfg) && Covered(st.blocks, cfg.size, cfg.rmin)
    ensures var r := Attempt(st, cfg, env, m).after;
      WellShaped(r.blocks, cfg.size) && Covered(r.blocks, cfg.size, cfg.rmin)
  {
    match MoveFor(m.u)
    case Shift => ShiftRowCovered(st, cfg, m.shift);
    case Expand => ExpandBlockCovered(st, cfg, m.expand);
    case Shrink =>
      var c := ShrinkPick(st.blocks, m.shrinkBlock, m.shrinkPosition);
      ShrinkBlockCovered(st, cfg, c.0, c.1);
    case Gap =>
      var c := GapPick(st.blocks, cfg.size, env.distances(st.blocks), m.gapCoin);
      InsertGapCovered(st, cfg, c.structure, c.block, c.position);
  }

  // ---------------------------------------------------------------------------
  // Retrying until a move succeeds

  /** How the retries of one iteration end. */
  datatype Retried = Moved(st: State) | Failed(fault: Fault) | Exhausted

  /**
   * Attempts are made in turn until one moves. A move that does not move
   * may still have changed the state, and the next attempt starts from
   * there; a fault ends the optimization.
   */
  function Retry(st: State, cfg: Config, lengths: seq<nat>, env: Env, attempts: seq<MoveDraw>): (r: Retried)
    requires ValidState(st, cfg, lengths)
    ensures r.Moved? ==> ValidState(r.st, cfg, lengths)
    decreases |attempts|
  {
    if |attempts| == 0 then Exhausted
    else
      var step := Attempt(st, cfg, env, attempts[0]);
      AttemptValid(st, cfg, lengths, env, attempts[0]);
      if step.outcome.Thrown? then Failed(step.outcome.fault)
      else if step.outcome.moved then Moved(step.after)
      else Retry(step.after, cfg, lengths, env, attempts[1..])
  }

  /** The state the retries reach from a covered alignment is covered. */
  lemma {:induction false} RetryCovered(st: State, cfg: Config, lengths: seq<nat>, env: Env, attempts: seq<MoveDraw>)
    requires ValidState(st, cfg, lengths) && Covered(st.blocks, cfg.size, cfg.rmin)
    ensures var r := Retry(st, cfg, lengths, env, attempts);
      r.Moved? ==> WellShaped(r.st.blocks, cfg.size) && Covered(r.st.blocks, cfg.size, cfg.rmin)
    decreases |attempts|
  {
    if |attempts| > 0 {
      AttemptValid(st, cfg, lengths, env, attempts[0]);
      AttemptCovered(st, cfg, env, attempts[0]);
      var step := Attempt(st, cfg, env, attempts[0]);
      if step.outcome.Done? && !step.outcome.moved {
        RetryCovered(step.after, cfg, lengths, env, attempts[1..]);
      }
    }
  }

  // ---------------------------------------------------------------------------
  // The optimization loop

  /** The draws of one iteration: the attempts, and whether a worse alignment is rejected. */
  datatype Iteration = Iteration(attempts: seq<MoveDraw>, rejects: bool)

  /** How a run ends: converged or out of iterations, ended by a fault, or out of attempt draws. */
  datatype RunOutcome = Finished(st: State, score: real) | Aborted(fault: Fault) | Stalled(iteration: int)

  /** A `maxIter` of at most 1 runs no iteration: the state and the score stay as they are. */
  lemma RunNotStarted(st: State, score: real, cfg: Config, lengths: seq<nat>, env: Env, iters: int -> Iteration,
                      maxIter: int, limit: int, conv: int)
    requires ValidState(st, cfg, lengths) && maxIter <= 1
    ensures Run(st, score, cfg, lengths, env, iters, maxIter, limit, 1, conv) == Finished(st, score)
  {
  }

  /** The snapshot an iteration starts from, and the state it accepts. */
  datatype Accepted = Accepted(st: State, score: real, conv: int)

  /**
   * The accept or reject step: an alignment whose score is not lower is
   * kept; a worse one is kept or, when the draw rejects it, the snapshot of
   * alignment, pool and score is restored and the counter of steps without
   * change goes up.
   */
  function Decide(snapshot: State, lastScore: real, next: State, newScore: real, rejects: bool, conv: int): (a: Accepted)
    ensures newScore - lastScore >= 0.0 ==> a == Accepted(next, newScore, 0)
    ensures newScore - lastScore < 0.0 && rejects ==> a == Accepted(snapshot, lastScore, conv + 1)
    ensures newScore - lastScore < 0.0 && !rejects ==> a == Accepted(next, newScore, 0)
  {
    var change := newScore - lastScore;
    if change < 0.0 && rejects then Accepted(snapshot, lastScore, conv + 1)
    else Accepted(next, newScore, 0)
  }

  /**
   * The loop of `optimizeMC` from iteration `i` with `conv` steps without
   * change: it goes on while `i < maxIter` and `conv < limit`.
   */
  function Run(st: State, score: real, cfg: Config, lengths: seq<nat>, env: Env, iters: int -> Iteration,
               maxIter: int, limit: int, i: int, conv: int): RunOutcome
    requires ValidState(st, cfg, lengths)
    decreases maxIter - i
  {
    if !(i < maxIter && conv < limit) then Finished(st, score)
    else
      match Retry(st, cfg, lengths, env, iters(i).attempts)
      case Failed(f) => Aborted(f)
      case Exhausted => Stalled(i)
      case Moved(next) =>
        var a := Decide(st, score, next, env.score(next.blocks), iters(i).rejects, conv);
        Run(a.st, a.score, cfg, lengths, env, iters, maxIter, limit, i + 1, a.conv)
  }

  /** A finished run leaves a state that keeps the invariant. */
  lemma {:induction false} RunValid(st: State, score: real, cfg: Config, lengths: seq<nat>, env: Env,
                                    iters: int -> Iteration, maxIter: int, limit: int, i: int, conv: int)
    requires ValidState(st, cfg, lengths)
    ensures var r := Run(st, score, cfg, lengths, env, iters, maxIter, limit, i, conv);
      r.Finished? ==> ValidState(r.st, cfg, lengths)
    decreases maxIter - i
  {
    if i < maxIter && conv < limit {
      var rt := Retry(st, cfg, lengths, env, iters(i).attempts);
      if rt.Moved? {
        var a := Decide(st, score, rt.st, env.score(rt.st.blocks), iters(i).rejects, conv);
        RunValid(a.st, a.score, cfg, lengths, env, iters, maxIter, limit, i + 1, a.conv);
      }
    }
  }

  /**
   * The score kept beside the alignment is always that alignment's score:
   * a rollback restores both together.
   */
  lemma {:induction false} RunScoreMatches(st: State, score: real, cfg: Config, lengths: seq<nat>, env: Env,
                                           iters: int -> Iteration, maxIter: int, limit: int, i: int, conv: int)
    requires ValidState(st, cfg, lengths) && score == env.score(st.blocks)
    ensures var r := Run(st, score, cfg, lengths, env, iters, maxIter, limit, i, conv);
      r.Finished? ==> r.score == env.score(r.st.blocks)
    decreases maxIter - i
  {
    if i < maxIter && conv < limit {
      var rt := Retry(st, cfg, lengths, env, iters(i).attempts);
      if rt.Moved? {
        var a := Decide(st, score, rt.st, env.score(rt.st.blocks), iters(i).rejects, conv);
        RunScoreMatches(a.st, a.score, cfg, lengths, env, iters, maxIter, limit, i + 1, a.conv);
      }
    }
  }

  /**
   * From a covered alignment, every accepted state is covered: moves keep
   * coverage and a rollback restores a covered snapshot.
   */
  lemma {:induction false} RunCovered(st: State, score: real, cfg: Config, lengths: seq<nat>, env: Env,
                                      iters: int -> Iteration, maxIter: int, limit: int, i: int, conv: int)
    requires ValidState(st, cfg, lengths) && Covered(st.blocks, cfg.size, cfg.rmin)
    ensures var r := Run(st, score, cfg, lengths, env, iters, maxIter, limit, i, conv);
      r.Finished? ==> WellShaped(r.st.blocks, cfg.size) && Covered(r.st.blocks, cfg.size, cfg.rmin)
    decreases maxIter - i
  {
    if i < maxIter && conv < limit {
      var rt := Retry(st, cfg, lengths, env, iters(i).attempts);
      if rt.Moved? {
        RetryCovered(st, cfg, lengths, env, iters(i).attempts);
        var a := Decide(st, score, rt.st, env.score(rt.st.blocks), iters(i).rejects, conv);
        RunCovered(a.st, a.score, cfg, lengths, env, iters, maxIter, limit, i + 1, a.conv);
      }
    }
  }

  // ---------------------------------------------------------------------------
  // The settings

  /** Java's `/` on `int`: the quotient truncated toward zero. */
  function JavaDiv(a: int, b: int): (q: int)
    requires b > 0
    ensures a >= 0 ==> 0 <= a - b * q < b
    ensures a < 0 ==> -b < a - b * q <= 0
  {
    if a >= 0 then a / b else -((-a) / b)
  }

  /** The default `Rmin`: a third of the structures, and at least 2. */
  function DefaultRmin(size: nat): (r: int)
    ensures r >= 2 && r >= size / 3 && (r == 2 || r == size / 3)
  {
    if size / 3 >= 2 then size / 3 else 2
  }

  /** The `Rmin` the constructor sets: the default when the setting is 0. */
  function SetRmin(p: int, size: nat): (r: int)
    ensures p == 0 ==> r == DefaultRmin(size)
    ensures p != 0 && size >= 2 ==> 2 <= r <= size
    ensures p != 0 && 2 <= p <= size ==> r == p
    ensures p != 0 && p < 2 ==> r == (if size < 2 then size else 2)
    ensures p != 0 && p > size ==> r == size
  {
    if p == 0 then DefaultRmin(size)
    else
      var atLeast2 := if p >= 2 then p else 2;
      if atLeast2 <= size then atLeast2 else size
  }

  /** The smallest of a non-empty list of lengths. */
  function MinOf(xs: seq<nat>): (m: nat)
    requires |xs| > 0
    ensures m in xs && forall i | 0 <= i < |xs| :: m <= xs[i]
  {
    if |xs| == 1 then xs[0]
    else var rest := MinOf(xs[1..]);
      assert forall i | 1 <= i < |xs| :: xs[i] == xs[1..][i - 1];
      if xs[0] <= rest then xs[0] else rest
  }

  /** Java's `int` arithmetic: a value reduced to 32 bits in two's complement. */
  function Int32(x: int): (w: int)
    ensures -0x8000_0000 <= w < 0x8000_0000
    ensures (x - w) % 0x1_0000_0000 == 0
  {
    var m := x % 0x1_0000_0000;
    if m >= 0x8000_0000 then m - 0x1_0000_0000 else m
  }

  /** A value that fits in an `int` is kept as it is. */
  lemma Int32Keeps(x: int)
    requires -0x8000_0000 <= x < 0x8000_0000
    ensures Int32(x) == x
  {
    var w := Int32(x);
    var d := x - w;
    assert -0x1_0000_0000 < d < 0x1_0000_0000 && d % 0x1_0000_0000 == 0;
  }

  /** With a convergence setting of 21474837, `convergenceSteps * 100` wraps to a negative `int`. */
  lemma LargeSettingWraps()
    ensures Int32(21474837 * 100) < 0
  {
  }

  /**
   * The convergence setting: when it is 0, the shortest structure's length
   * times the number of structures, as an `int` product.
   */
  function ConvergenceSteps(p: int, lengths: seq<nat>): (c: int)
    requires |lengths| > 0
    ensures p == 0 ==> c == Int32(MinOf(lengths) * |lengths|)
    ensures p != 0 ==> c == p
  {
    if p == 0 then Int32(MinOf(lengths) * |lengths|) else p
  }

  /** The convergence limit of `optimizeMC`: a fiftieth of `maxIter`, and at least 1000. */
  function StepsToConverge(maxIter: int): (n: int)
    ensures n >= 1000 && n >= JavaDiv(maxIter, 50)
    ensures n == 1000 || n == JavaDiv(maxIter, 50)
  {
    var q := JavaDiv(maxIter, 50);
    if q >= 1000 then q else 1000
  }
}

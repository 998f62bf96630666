# Monte Carlo multiple-alignment optimizer: the editing engine

This project models the discrete core of BioJava's `MultipleAlignmentOptimizerMC`.
That core is the part of the Monte Carlo optimizer that edits a multiple
structure alignment in place. It proves properties of the model in Dafny.

The alignment is a list of Blocks. A Block has one row per structure and one
cell per column. Each cell holds a residue index of that structure, or a gap
(Java's `null`). Beside the alignment, each structure has a free pool: the
residues not placed in any column. The engine changes both in place:

- `checkGaps` removes every column with fewer than `Rmin` residues. It works
  on each Block from the highest index down, and the removed residues go back
  to the pool.
- `insertGap` makes one chosen cell a gap.
- `shiftRow` either fills a gap from the pool or slides a run of continuous
  residues by one column.
- `expandBlock` inserts a column of neighbouring residues taken from the pool.
- `shrinkBlock` deletes a chosen column.

Around these sit three more pieces. `initialize` builds the pool. The
constructor sets `Rmin`, `Lmin` and the convergence steps. `optimizeMC` runs
the loop that snapshots the state, retries moves, accepts or rolls back, and
counts steps without change.

**The invariant** (`Moves.ValidState`) covers three things:

- Every Block is rectangular.
- There is one pool per structure.
- The pool and the alignment together partition each structure's residue
  indices. `Alignment.Partitioned` says this as counts: for every structure
  and integer `k`, the aligned occurrences of `k` plus its presence in the
  pool equal 1 when `k` is an index of that structure, and 0 otherwise.

So the pool is disjoint from the aligned residues, no residue is aligned
twice, and every aligned residue is a valid index. Every move keeps this
invariant.

**How the model is laid out.**

- Modules `Alignment`, `Coverage`, `Searches` and `Moves` give each operation
  as a function from one state (`Moves.State`: Blocks and pool) to the next.
- `MoveProperties` proves what each move does.
- `MonteCarlo` models the move choice, the retries and the accept/reject loop.
- Module `OptimizerMC` is the optimizer object. Class `Optimizer` has the
  alignment, the pool, `Rmin` and the score as fields. Its methods edit them
  with the source's loops, and each method is proved to reach the state the
  matching function gives.

**Behaviour kept as the source has it.**

- In the gap-pivot branch of `shiftRow` (:381) and in the left shift (:485),
  the source tests `freePool.contains(residue)` on the list of pools rather
  than on one structure's pool. That test never succeeds. So a gap with only a
  left neighbour is never filled, and a left shift always inserts a gap after
  the run.
- A gap with only a right neighbour whose predecessor is not free makes the
  move return false (:376). A missing residue between two neighbours throws
  (:395).
- The gap-pivot branch returns without a coverage pass (:398).
- `insertGap` never updates `maxDist`, so its choice is the last cell that
  passes the distance tests and wins its coin.
- The scans of `expandBlock` compare against the first residue seen in each
  row (`previousPos` and `nextPos`), not the previous one.
- The `Integer == int` comparison at :388 unboxes the left side, so it
  compares values (section 15.21.1 of the Java Language Specification). The
  model uses value equality there, and this is what Java does.
- `initialize` runs `checkGaps` with the default `Rmin`, `max(size / 3, 2)`,
  before the constructor sets the configured `Rmin`. So the fresh state is
  covered under the default. `MoveProperties.CoveredWeaker` covers the case
  where the configured value is no larger than the default.
- `Block.length()` is taken as the length of the Block's first row. The Block
  implementation is not part of this model.

**What the random draws and the geometry become.**

- Every random draw becomes an explicit parameter: `ShiftDraw`, `ExpandDraw`,
  the `MoveDraw` of one attempt, and `Iteration` per loop step.
- Residue distances and scores become functions supplied in `Env`.
- An exception becomes a `Thrown` outcome. Every exception the moves can raise
  is raised before the state changes.

## Model

| member | source | states |
|---|---|---|
| OptimizerMC.AlignedOf | biojava-structure/src/main/java/org/biojava/nbio/structure/align/multiple/mc/MultipleAlignmentOptimizerMC.java:129-139 | the residues collected for a structure are exactly those aligned somewhere in the seed |
| OptimizerMC.BuildPool | biojava-structure/src/main/java/org/biojava/nbio/structure/align/multiple/mc/MultipleAlignmentOptimizerMC.java:123-145 | the initial pool of structure `i` is exactly `{k | 0 <= k < len_i}` minus every residue aligned in a row `i` of any Block |
| Moves.InitialPoolValid | biojava-structure/src/main/java/org/biojava/nbio/structure/align/multiple/mc/MultipleAlignmentOptimizerMC.java:129-148 | when the seed aligns each residue index at most once, pool and alignment partition every structure: the pool starts disjoint from the aligned residues |
| OptimizerMC.Optimizer.constructor | biojava-structure/src/main/java/org/biojava/nbio/structure/align/multiple/mc/MultipleAlignmentOptimizerMC.java:82-155 | the state is the seed after one coverage pass with the default `Rmin` over the initial pool; afterwards the configured `Rmin`, convergence steps and `Lmin` are set and the invariant holds |
| MonteCarlo.DefaultRmin | biojava-structure/src/main/java/org/biojava/nbio/structure/align/multiple/mc/MultipleAlignmentOptimizerMC.java:118-118 | the default `Rmin` is `max(size / 3, 2)` |
| MonteCarlo.SetRmin | biojava-structure/src/main/java/org/biojava/nbio/structure/align/multiple/mc/MultipleAlignmentOptimizerMC.java:90-91 | `Rmin` is the default when the setting is 0, and otherwise the setting clamped to `[2, size]` |
| MonteCarlo.MinOf | biojava-structure/src/main/java/org/biojava/nbio/structure/align/multiple/mc/MultipleAlignmentOptimizerMC.java:88-88 | `Collections.min`: the least length, and one of them |
| MonteCarlo.ConvergenceSteps | biojava-structure/src/main/java/org/biojava/nbio/structure/align/multiple/mc/MultipleAlignmentOptimizerMC.java:88-89 | when the setting is 0, the shortest structure length times the number of structures as a 32-bit `int` product; the setting otherwise |
| MonteCarlo.Int32 | biojava-structure/src/main/java/org/biojava/nbio/structure/align/multiple/mc/MultipleAlignmentOptimizerMC.java:88-99 | Java `int` arithmetic: the result lies in the 32-bit range and differs from the exact value by a multiple of 2^32 |
| MonteCarlo.Int32Keeps | biojava-structure/src/main/java/org/biojava/nbio/structure/align/multiple/mc/MultipleAlignmentOptimizerMC.java:88-99 | a value that fits in an `int` is not changed by the reduction |
| OptimizerMC.LowColumns | biojava-structure/src/main/java/org/biojava/nbio/structure/align/multiple/mc/MultipleAlignmentOptimizerMC.java:269-284 | the shrink list of a Block is, in increasing order, exactly its columns with fewer than `Rmin` residues |
| OptimizerMC.Optimizer.CheckGaps | biojava-structure/src/main/java/org/biojava/nbio/structure/align/multiple/mc/MultipleAlignmentOptimizerMC.java:263-297 | the new state is the coverage pass applied to the old one, the invariant is kept and the result is true iff some column was low |
| OptimizerMC.LowColumnLists | biojava-structure/src/main/java/org/biojava/nbio/structure/align/multiple/mc/MultipleAlignmentOptimizerMC.java:267-284 | the first loop of the pass lists, for every Block, exactly its low columns in increasing order |
| OptimizerMC.Optimizer.StripAll | biojava-structure/src/main/java/org/biojava/nbio/structure/align/multiple/mc/MultipleAlignmentOptimizerMC.java:286-295 | the second loop handles every Block in turn, and its flag is true iff some Block had a non-empty list |
| OptimizerMC.PassDone | biojava-structure/src/main/java/org/biojava/nbio/structure/align/multiple/mc/MultipleAlignmentOptimizerMC.java:263-297 | once every Block is handled the state is the coverage pass of the old one, the invariant holds, and a list was non-empty iff some column was low |
| OptimizerMC.StripColumns | biojava-structure/src/main/java/org/biojava/nbio/structure/align/multiple/mc/MultipleAlignmentOptimizerMC.java:286-295 | removing the listed columns of one Block from the highest index down leaves exactly the surviving columns, and the pool gains exactly the removed residues |
| OptimizerMC.RemoveColumn | biojava-structure/src/main/java/org/biojava/nbio/structure/align/multiple/mc/MultipleAlignmentOptimizerMC.java:288-292 | every row of the Block loses its cell in the column and each residue there joins its structure's pool; nothing else changes |
| Coverage.StripStep | biojava-structure/src/main/java/org/biojava/nbio/structure/align/multiple/mc/MultipleAlignmentOptimizerMC.java:287-292 | removing column `cols[i]` after the higher ones removes exactly the original cell of that column |
| Coverage.CheckedCovered | biojava-structure/src/main/java/org/biojava/nbio/structure/align/multiple/mc/MultipleAlignmentOptimizerMC.java:263-297 | after the pass every column of every Block has at least `Rmin` residues |
| Coverage.CheckedShape | biojava-structure/src/main/java/org/biojava/nbio/structure/align/multiple/mc/MultipleAlignmentOptimizerMC.java:263-297 | after the pass all rows of a Block still have the same length |
| Coverage.CheckedKeepsColumns | biojava-structure/src/main/java/org/biojava/nbio/structure/align/multiple/mc/MultipleAlignmentOptimizerMC.java:272-292 | a surviving column is, cell for cell, an original column that was not low, and surviving columns keep their order |
| Coverage.CheckedLedger | biojava-structure/src/main/java/org/biojava/nbio/structure/align/multiple/mc/MultipleAlignmentOptimizerMC.java:286-292 | every removed residue joins its structure's pool; no residue is lost or duplicated |
| Coverage.CoveredUnchanged | biojava-structure/src/main/java/org/biojava/nbio/structure/align/multiple/mc/MultipleAlignmentOptimizerMC.java:263-297 | on an alignment with no low column the pass changes neither the alignment nor the pool |
| Coverage.CheckGapsIdempotent | biojava-structure/src/main/java/org/biojava/nbio/structure/align/multiple/mc/MultipleAlignmentOptimizerMC.java:263-297 | a second pass right after the first removes nothing and reports false |
| Coverage.AnyLowIffShrunk | biojava-structure/src/main/java/org/biojava/nbio/structure/align/multiple/mc/MultipleAlignmentOptimizerMC.java:293-296 | the pass reports true iff some Block lost a column |
| Moves.CheckedValid | biojava-structure/src/main/java/org/biojava/nbio/structure/align/multiple/mc/MultipleAlignmentOptimizerMC.java:263-297 | the pass keeps the invariant and leaves every column covered |
| Moves.NextInt | biojava-structure/src/main/java/org/biojava/nbio/structure/align/multiple/mc/MultipleAlignmentOptimizerMC.java:352-355 | `Random.nextInt(bound)` yields a value below the bound exactly when the bound is positive, and throws otherwise |
| Searches.FindNextFilled | biojava-structure/src/main/java/org/biojava/nbio/structure/align/multiple/mc/MultipleAlignmentOptimizerMC.java:365-365 | the walk right from a gap stops at the first residue or at the last column |
| Searches.FindPrevFilled | biojava-structure/src/main/java/org/biojava/nbio/structure/align/multiple/mc/MultipleAlignmentOptimizerMC.java:366-366 | the walk left from a gap stops at the last residue before it or at column 0 |
| Searches.FindRunStart | biojava-structure/src/main/java/org/biojava/nbio/structure/align/multiple/mc/MultipleAlignmentOptimizerMC.java:405-416 | the walk left from a residue stops at the start of its run: the first column, a gap or a jump of more than one |
| Searches.FindRunEnd | biojava-structure/src/main/java/org/biojava/nbio/structure/align/multiple/mc/MultipleAlignmentOptimizerMC.java:418-429 | the walk right from a residue stops at the end of its run |
| Searches.RunStart | biojava-structure/src/main/java/org/biojava/nbio/structure/align/multiple/mc/MultipleAlignmentOptimizerMC.java:405-416 | the run start is a residue, every pair from it to the pivot is linked, and the pair before it is not |
| Searches.RunEnd | biojava-structure/src/main/java/org/biojava/nbio/structure/align/multiple/mc/MultipleAlignmentOptimizerMC.java:418-429 | the run end is a residue, every pair up to it is linked, and the pair after it is not |
| Moves.GapFill | biojava-structure/src/main/java/org/biojava/nbio/structure/align/multiple/mc/MultipleAlignmentOptimizerMC.java:360-397 | a fill takes a free residue: the one before the right neighbour when there is no left neighbour, one strictly between the neighbours otherwise; nothing is filled with only a left neighbour or no neighbour; a failure needs two non-consecutive neighbours |
| Moves.RightShiftLayout | biojava-structure/src/main/java/org/biojava/nbio/structure/align/multiple/mc/MultipleAlignmentOptimizerMC.java:432-446 | the run `l .. r` moves one column right: its last residue joins the pool, and the cell before the run receives the residue before the run's first one exactly when it is free, a gap otherwise |
| Moves.RightShiftBalanced | biojava-structure/src/main/java/org/biojava/nbio/structure/align/multiple/mc/MultipleAlignmentOptimizerMC.java:432-446 | a right shift keeps every residue of the structure counted once between the row and its pool |
| Moves.LeftShiftLayout | biojava-structure/src/main/java/org/biojava/nbio/structure/align/multiple/mc/MultipleAlignmentOptimizerMC.java:479-494 | the run `l .. r` moves one column left: a gap goes in after the run and its first residue joins the pool |
| Moves.LeftShiftBalanced | biojava-structure/src/main/java/org/biojava/nbio/structure/align/multiple/mc/MultipleAlignmentOptimizerMC.java:479-494 | a left shift keeps every residue of the structure counted once between the row and its pool |
| OptimizerMC.MoveRun | biojava-structure/src/main/java/org/biojava/nbio/structure/align/multiple/mc/MultipleAlignmentOptimizerMC.java:402-496 | the in-place row edit of a residue pivot on the run found from the pivot equals the right or left shift of that run |
| OptimizerMC.MoveCells | biojava-structure/src/main/java/org/biojava/nbio/structure/align/multiple/mc/MultipleAlignmentOptimizerMC.java:432-494 | the list removals and insertions on a run `l .. r` give exactly the right or the left shift of that run |
| OptimizerMC.Optimizer.FillGap | biojava-structure/src/main/java/org/biojava/nbio/structure/align/multiple/mc/MultipleAlignmentOptimizerMC.java:360-399 | the gap-pivot branch leaves the state its specification gives, without a coverage pass |
| OptimizerMC.Optimizer.ShiftRun | biojava-structure/src/main/java/org/biojava/nbio/structure/align/multiple/mc/MultipleAlignmentOptimizerMC.java:402-499 | the residue-pivot branch shifts the run and then runs the coverage pass |
| OptimizerMC.Optimizer.ShiftRow | biojava-structure/src/main/java/org/biojava/nbio/structure/align/multiple/mc/MultipleAlignmentOptimizerMC.java:350-500 | `shiftRow` leaves the state its specification gives and keeps the invariant |
| Moves.ShiftRowValid | biojava-structure/src/main/java/org/biojava/nbio/structure/align/multiple/mc/MultipleAlignmentOptimizerMC.java:350-500 | `shiftRow` keeps the pool disjoint from the aligned residues and the Blocks rectangular |
| MoveProperties.GapStepEffect | biojava-structure/src/main/java/org/biojava/nbio/structure/align/multiple/mc/MultipleAlignmentOptimizerMC.java:360-399 | at a gap pivot only the pivot cell can change, only by taking a residue out of the pool, and the result is true exactly when it changes |
| MoveProperties.GapStepThrowsIff | biojava-structure/src/main/java/org/biojava/nbio/structure/align/multiple/mc/MultipleAlignmentOptimizerMC.java:386-396 | a gap fill throws exactly when both neighbours are residues that are not consecutive and the drawn residue between them is not free |
| MoveProperties.ShiftResidueEffect | biojava-structure/src/main/java/org/biojava/nbio/structure/align/multiple/mc/MultipleAlignmentOptimizerMC.java:402-496 | at a residue pivot only row `str` of Block `bk` and pool `str` change, the row keeps its length, and the dropped boundary residue goes to the pool |
| MoveProperties.ShiftRowCovered | biojava-structure/src/main/java/org/biojava/nbio/structure/align/multiple/mc/MultipleAlignmentOptimizerMC.java:350-500 | `shiftRow` leaves a covered alignment covered |
| Searches.ScanRight | biojava-structure/src/main/java/org/biojava/nbio/structure/align/multiple/mc/MultipleAlignmentOptimizerMC.java:520-535 | the rightward scan with `previousPos` returns the frontier its specification gives |
| Searches.RightColumn | biojava-structure/src/main/java/org/biojava/nbio/structure/align/multiple/mc/MultipleAlignmentOptimizerMC.java:526-531 | one column of the rightward scan counts exactly the structures that break continuity there and moves each `previousPos` entry to the first residue seen so far |
| Searches.FirstInFirst | biojava-structure/src/main/java/org/biojava/nbio/structure/align/multiple/mc/MultipleAlignmentOptimizerMC.java:529-529 | what `previousPos` holds is the residue of the lowest non-gap position scanned, or none when all were gaps |
| Searches.ScanLeft | biojava-structure/src/main/java/org/biojava/nbio/structure/align/multiple/mc/MultipleAlignmentOptimizerMC.java:559-573 | the leftward scan with `nextPos` returns the frontier its specification gives |
| Searches.LeftColumn | biojava-structure/src/main/java/org/biojava/nbio/structure/align/multiple/mc/MultipleAlignmentOptimizerMC.java:565-570 | one column of the leftward scan counts exactly the structures that break continuity there and moves each `nextPos` entry to the first residue seen so far |
| Searches.LastInLast | biojava-structure/src/main/java/org/biojava/nbio/structure/align/multiple/mc/MultipleAlignmentOptimizerMC.java:568-568 | what `nextPos` holds is the residue of the highest non-gap position scanned, or none when all were gaps |
| Moves.NewCell | biojava-structure/src/main/java/org/biojava/nbio/structure/align/multiple/mc/MultipleAlignmentOptimizerMC.java:539-553 | an inserted residue is the frontier residue plus or minus one and was free; a free neighbour is always taken |
| Moves.ExpandSite | biojava-structure/src/main/java/org/biojava/nbio/structure/align/multiple/mc/MultipleAlignmentOptimizerMC.java:535-583 | a right expansion inserts just after the frontier column, a left one just before it |
| OptimizerMC.Optimizer.InsertColumn | biojava-structure/src/main/java/org/biojava/nbio/structure/align/multiple/mc/MultipleAlignmentOptimizerMC.java:538-589 | every row of the Block gets the new cell before the insertion column, inserted residues leave the pool, and the gap counter is the column's gap count |
| OptimizerMC.GrowBlock | biojava-structure/src/main/java/org/biojava/nbio/structure/align/multiple/mc/MultipleAlignmentOptimizerMC.java:538-589 | the insertion loop on the Block builds exactly the expanded Block and pool, and counts the gaps of the new column |
| OptimizerMC.GrowRow | biojava-structure/src/main/java/org/biojava/nbio/structure/align/multiple/mc/MultipleAlignmentOptimizerMC.java:539-553 | one structure's new cell is the frontier residue plus or minus one when that residue is free, a gap otherwise; an inserted residue leaves the pool, and the gap flag is set exactly for a gap |
| OptimizerMC.Optimizer.ExpandBlock | biojava-structure/src/main/java/org/biojava/nbio/structure/align/multiple/mc/MultipleAlignmentOptimizerMC.java:508-595 | `expandBlock` leaves the state its specification gives and keeps the invariant |
| MoveProperties.ExpandedEffect | biojava-structure/src/main/java/org/biojava/nbio/structure/align/multiple/mc/MultipleAlignmentOptimizerMC.java:538-589 | every row of the chosen Block grows by exactly one cell; a non-gap inserted value is the frontier residue plus or minus one and is removed from the pool; other Blocks are unchanged |
| MoveProperties.ExpandBlockOutcome | biojava-structure/src/main/java/org/biojava/nbio/structure/align/multiple/mc/MultipleAlignmentOptimizerMC.java:592-594 | the move returns true iff the new column holds at least `Rmin` residues, and otherwise runs the coverage pass and returns false |
| MoveProperties.ExpandFailRestores | biojava-structure/src/main/java/org/biojava/nbio/structure/align/multiple/mc/MultipleAlignmentOptimizerMC.java:592-594 | on a covered alignment a failed expansion leaves alignment and pool exactly as they were |
| Moves.ExpandBlockValid | biojava-structure/src/main/java/org/biojava/nbio/structure/align/multiple/mc/MultipleAlignmentOptimizerMC.java:508-595 | `expandBlock` keeps the invariant |
| MoveProperties.ExpandBlockCovered | biojava-structure/src/main/java/org/biojava/nbio/structure/align/multiple/mc/MultipleAlignmentOptimizerMC.java:508-595 | `expandBlock` leaves a covered alignment covered |
| MonteCarlo.ShrinkPick | biojava-structure/src/main/java/org/biojava/nbio/structure/align/multiple/mc/MultipleAlignmentOptimizerMC.java:605-625 | the shrink pick is the initial (0, 0) or a real (Block, column) of the alignment, and a drawn real column is kept |
| OptimizerMC.Optimizer.ShrinkBlock | biojava-structure/src/main/java/org/biojava/nbio/structure/align/multiple/mc/MultipleAlignmentOptimizerMC.java:630-638 | `shrinkBlock` from the chosen column on leaves the state its specification gives |
| MoveProperties.ShrinkBlockEffect | biojava-structure/src/main/java/org/biojava/nbio/structure/align/multiple/mc/MultipleAlignmentOptimizerMC.java:630-638 | it returns false and changes nothing on a Block of length at most `Lmin`; otherwise every row of that Block loses exactly the chosen column, its residues join their pools and the other Blocks are unchanged |
| Moves.ShrinkBlockValid | biojava-structure/src/main/java/org/biojava/nbio/structure/align/multiple/mc/MultipleAlignmentOptimizerMC.java:630-638 | `shrinkBlock` keeps the invariant |
| MoveProperties.ShrinkBlockCovered | biojava-structure/src/main/java/org/biojava/nbio/structure/align/multiple/mc/MultipleAlignmentOptimizerMC.java:630-638 | `shrinkBlock` leaves a covered alignment covered |
| OptimizerMC.SelectGapCell | biojava-structure/src/main/java/org/biojava/nbio/structure/align/multiple/mc/MultipleAlignmentOptimizerMC.java:308-329 | the selection loop's choice is the choice its specification gives |
| OptimizerMC.ScanColumn | biojava-structure/src/main/java/org/biojava/nbio/structure/align/multiple/mc/MultipleAlignmentOptimizerMC.java:316-326 | one column of the selection loop advances the choice exactly as the scan specification does over that column's cells |
| MonteCarlo.GapScan | biojava-structure/src/main/java/org/biojava/nbio/structure/align/multiple/mc/MultipleAlignmentOptimizerMC.java:314-329 | the choice is the initial cell (0, 0, 0) or a cell of a real structure |
| MonteCarlo.GapScanLast | biojava-structure/src/main/java/org/biojava/nbio/structure/align/multiple/mc/MultipleAlignmentOptimizerMC.java:314-329 | since `maxDist` never changes, the choice is the last cell scanned that passes both distance tests and wins its coin |
| MonteCarlo.GapScanNone | biojava-structure/src/main/java/org/biojava/nbio/structure/align/multiple/mc/MultipleAlignmentOptimizerMC.java:309-329 | with no winning cell the choice stays (0, 0, 0) |
| MonteCarlo.GapScanWinner | biojava-structure/src/main/java/org/biojava/nbio/structure/align/multiple/mc/MultipleAlignmentOptimizerMC.java:314-329 | the choice is (0, 0, 0) or a winning cell |
| MonteCarlo.GapPickInRange | biojava-structure/src/main/java/org/biojava/nbio/structure/align/multiple/mc/MultipleAlignmentOptimizerMC.java:309-329 | the choice is (0, 0, 0) or a real cell of the alignment |
| OptimizerMC.Optimizer.InsertGap | biojava-structure/src/main/java/org/biojava/nbio/structure/align/multiple/mc/MultipleAlignmentOptimizerMC.java:331-340 | `insertGap` from the chosen cell on leaves the state its specification gives |
| MoveProperties.InsertGapEffect | biojava-structure/src/main/java/org/biojava/nbio/structure/align/multiple/mc/MultipleAlignmentOptimizerMC.java:331-340 | it returns false and changes nothing on a Block of length at most `Lmin` or on a gap; otherwise the residue, not free before, is in its structure's pool afterwards and no pool loses a residue |
| Moves.InsertGapValid | biojava-structure/src/main/java/org/biojava/nbio/structure/align/multiple/mc/MultipleAlignmentOptimizerMC.java:331-340 | `insertGap` keeps the invariant |
| MoveProperties.InsertGapCovered | biojava-structure/src/main/java/org/biojava/nbio/structure/align/multiple/mc/MultipleAlignmentOptimizerMC.java:331-340 | `insertGap` leaves a covered alignment covered |
| MonteCarlo.MoveFor | biojava-structure/src/main/java/org/biojava/nbio/structure/align/multiple/mc/MultipleAlignmentOptimizerMC.java:195-210 | a draw below 0.5 shifts, below 0.8 expands, below 0.9 shrinks, and otherwise inserts a gap |
| OptimizerMC.Optimizer.Attempt | biojava-structure/src/main/java/org/biojava/nbio/structure/align/multiple/mc/MultipleAlignmentOptimizerMC.java:195-211 | one move draw applied in place gives the state its specification gives |
| MonteCarlo.AttemptValid | biojava-structure/src/main/java/org/biojava/nbio/structure/align/multiple/mc/MultipleAlignmentOptimizerMC.java:192-211 | every attempt keeps the invariant |
| MonteCarlo.AttemptCovered | biojava-structure/src/main/java/org/biojava/nbio/structure/align/multiple/mc/MultipleAlignmentOptimizerMC.java:192-211 | no attempt uncovers a covered alignment |
| MonteCarlo.Retry | biojava-structure/src/main/java/org/biojava/nbio/structure/align/multiple/mc/MultipleAlignmentOptimizerMC.java:192-212 | a retry sequence that moves ends in a state keeping the invariant |
| OptimizerMC.Optimizer.Retries | biojava-structure/src/main/java/org/biojava/nbio/structure/align/multiple/mc/MultipleAlignmentOptimizerMC.java:192-212 | the retry loop stops at the first attempt that moves or throws, as its specification says |
| MonteCarlo.RetryCovered | biojava-structure/src/main/java/org/biojava/nbio/structure/align/multiple/mc/MultipleAlignmentOptimizerMC.java:192-212 | the retries from a covered alignment reach a covered one |
| MonteCarlo.Decide | biojava-structure/src/main/java/org/biojava/nbio/structure/align/multiple/mc/MultipleAlignmentOptimizerMC.java:219-236 | a score change of at least 0 keeps the new state and resets `conv`; a rejected worse one restores alignment, pool and score exactly and increments `conv`; an accepted worse one resets `conv` |
| OptimizerMC.Optimizer.Decide | biojava-structure/src/main/java/org/biojava/nbio/structure/align/multiple/mc/MultipleAlignmentOptimizerMC.java:216-236 | scoring and the accept or rollback step leave the state and counter the specification gives |
| MonteCarlo.JavaDiv | biojava-structure/src/main/java/org/biojava/nbio/structure/align/multiple/mc/MultipleAlignmentOptimizerMC.java:175-175 | Java's `int` division truncates toward zero: the remainder `a - b * q` is in `[0, b)` for a non-negative `a` and in `(-b, 0]` for a negative one |
| MonteCarlo.StepsToConverge | biojava-structure/src/main/java/org/biojava/nbio/structure/align/multiple/mc/MultipleAlignmentOptimizerMC.java:175-175 | the convergence limit is `max(maxIter / 50, 1000)` |
| OptimizerMC.Optimizer.OptimizeMC | biojava-structure/src/main/java/org/biojava/nbio/structure/align/multiple/mc/MultipleAlignmentOptimizerMC.java:167-253 | the loop runs from `i = 1` only while `i < maxIter` and `conv < max(maxIter / 50, 1000)`, and ends in the state of the run its specification gives |
| OptimizerMC.Optimizer.Call | biojava-structure/src/main/java/org/biojava/nbio/structure/align/multiple/mc/MultipleAlignmentOptimizerMC.java:97-101 | the optimization runs with `maxIter` equal to 100 times the convergence steps, as a 32-bit `int` product |
| MonteCarlo.LargeSettingWraps | biojava-structure/src/main/java/org/biojava/nbio/structure/align/multiple/mc/MultipleAlignmentOptimizerMC.java:99-99 | a convergence setting of 21474837 makes `convergenceSteps * 100` a negative `int` |
| MonteCarlo.RunNotStarted | biojava-structure/src/main/java/org/biojava/nbio/structure/align/multiple/mc/MultipleAlignmentOptimizerMC.java:176-178 | with `maxIter` at most 1 the loop runs no iteration, so alignment, pool and score stay as they were |
| MonteCarlo.RunValid | biojava-structure/src/main/java/org/biojava/nbio/structure/align/multiple/mc/MultipleAlignmentOptimizerMC.java:177-246 | a finished run keeps the invariant |
| MonteCarlo.RunScoreMatches | biojava-structure/src/main/java/org/biojava/nbio/structure/align/multiple/mc/MultipleAlignmentOptimizerMC.java:219-228 | the kept score is always the score of the kept alignment, because a rollback restores both |
| MonteCarlo.RunCovered | biojava-structure/src/main/java/org/biojava/nbio/structure/align/multiple/mc/MultipleAlignmentOptimizerMC.java:177-246 | from a covered alignment every finished run is covered |
| MoveProperties.CoveredWeaker | biojava-structure/src/main/java/org/biojava/nbio/structure/align/multiple/mc/MultipleAlignmentOptimizerMC.java:90-91 | an alignment covered under one `Rmin` stays covered under any smaller one |
| Alignment.AlignedResidue | biojava-structure/src/main/java/org/biojava/nbio/structure/align/multiple/mc/MultipleAlignmentOptimizerMC.java:129-148 | under the invariant an aligned residue is a valid index, is not free and is aligned exactly once |

## Left out

- Superposition, scoring and distances (`ReferenceSuperimposer`, `MultipleAlignmentScorer`, `MultipleAlignmentTools.getAverageResidueDistances`): floating-point geometry from code that is not part of this model. The score is a function `Env.score` of the alignment, and the distances are a function `Env.distances`.
- `probabilityFunction` and the acceptance draw: floating-point numerics. Whether a worse alignment is rejected is the boolean `Iteration.rejects`. Scores are `real`, so the rounding of `double` is not modelled.
- `MonteCarlo.Decide`: compares the score change with 0 on exact reals, not on `double`.
- The column averaging of `shrinkBlock` (:603-628) and its `colDistances` array: floating-point numerics. The chosen (Block, position) comes from the input `MoveDraw.shrinkBlock`/`shrinkPosition`. `MonteCarlo.ShrinkPick` keeps it when it names a real column and gives (0, 0) otherwise, as the selection loop can only end there. `Moves.ShrinkBlock` models the move from the chosen column on.
- `MonteCarlo.GapPick`: uses one coin per (column, structure) cell in place of the stream of `Random.nextDouble` calls. The stream draws only for cells that pass the distance tests.
- The `java.util.Random` stream: each draw is a parameter reduced by its bound, as `nextInt(bound)` is.
- `MonteCarlo.Retry`: models the `while (!moved)` loop (:192-212) over a finite list of attempt draws, because the source's loop has no bound. Running out of draws ends the run as `Stalled`, which the source cannot do.
- `OptimizerMC.Optimizer.Retries`: the same finite list of draws as `MonteCarlo.Retry`.
- `saveHistory` and the history lists (`lengthHistory`, `rmsdHistory`, `scoreHistory`): file I/O and floating-point statistics.
- The debug prints.
- The final superposition and score bookkeeping of `optimizeMC` (:250-252): geometry.
- The `Callable` interface: it exists for parallel runs. Only the `maxIter` choice of `call()` is modelled, by `OptimizerMC.Optimizer.Call`.
- The gap-penalty settings `Gopen`, `Gextend` and `C`: they feed only the score and `probabilityFunction`.
- Java `int` overflow: indices, residue numbers, `i`, `conv` and the residue arithmetic (`+1`, `-1` and the in-between draw) are unbounded integers. None of them can reach the `int` limits for real structure lengths. The two products that can overflow, `Collections.min(structureLengths) * size` (:88) and `convergenceSteps * 100` (:99), are reduced to 32 bits by `MonteCarlo.Int32`.
- `OptimizerMC.Optimizer.constructor`: requires a seed that aligns each residue index of a structure at most once and no out-of-range index. The source assumes this of its input and does not check it.
- `OptimizerMC.Optimizer.constructor`: requires at least one structure and every Block rectangular with one row per structure. With no structure and a convergence setting of 0 the source throws at `Collections.min` (:88); the zero-structure case is not modelled. A seed whose Blocks are ragged is taken to be outside what `MultipleAlignment` holds.
- The demo `DemoMultipleMC.java` and the test `InsdcParserTest.java`: network access, a GUI, and a parser that is not shown. They have no logic of the optimizer.

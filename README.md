# Minesweeper engine, modelled in Dafny

This project models the engine of a browser Minesweeper game and proves properties of it. The engine has four parts.

- **Cell codec** (`src/modules/cell/cell-keeper.ts`, `cell.types.ts`). One integer encodes one cell. The tens band is the state: 10 Hidden, 20 Revealed, 30 Flagged. The low digit is 9 for a mine, or the neutral cell's count of neighbouring mines (0..8).
- **Board engine** (`src/modules/board/board-keeper.ts`). It enumerates neighbours, counts the mines next to each cell, handles clicks and right-clicks, and runs the flood fill that opens zero-count regions.
- **Deductive solver** (`getNextStep`). It makes at most two row-major scans. Each scan applies two rules: "the closed neighbours are exactly the missing mines" and "all mines are known, so the closed neighbours are safe".
- **Application glue** (`src/App.tsx`). It covers field generation with random mine placement, copy-then-update click handlers, and the duplicate filter over the solver's moves.

Files:

| file | models |
|---|---|
| `Wrappers.dfy` | `Option` |
| `CellTypes.dfy` | the `CellState` and `CellType` enums |
| `CellKeeper.dfy` | `CellKeeper`, plus an abstract `Cell` value and agreement lemmas |
| `Grids.dfy` | coordinates, grids as values, the neighbour enumeration as a function |
| `Mines.dfy` | mine counts, the consistency invariant of a board, the counting pass's progress |
| `FloodFill.dfy` | the specification of the flood fill and its step lemmas |
| `Solver.dfy` | the specification of `getNextStep`, its soundness, and the flagged-mine counterexample |
| `BoardKeeper.dfy` | the `BoardKeeper` methods, in place on an `array2<int>` |
| `App.dfy` | generation, the `App` handlers as a class `AppState`, and the unique-moves filter |

Board methods work in place on an `array2<int>`. Their contracts speak of `Snap(board)`, the board's contents as a `seq<seq<int>>`. The lemmas are stated over those values.

A board is *consistent* (`Mines.Consistent`) when two things hold:
- every cell is in one of the three bands;
- every neutral cell's digit equals the number of mines among its neighbours.

Generation establishes this invariant. Clicks, right-clicks and flood fills preserve it.

The flood fill from a cell p is specified by `FloodFill.Cascade(g0, g1, p)`, which has four parts:
- g1 differs from g0 only by reveals;
- every neighbour of p is revealed;
- every open blank cell (Hidden, not a mine, count 0) has no Hidden neighbour;
- every cell it opened ends a *walk* from p whose inner cells are blank cells that were opened.

`FloodFill.CascadeUnique` proves that these four parts fix the outcome: two boards that both satisfy them for the same g0 and p are equal.

## Model

| member | source | states |
|---|---|---|
| CellTypes.StateCode | src/modules/cell/cell.types.ts:1-5 | each state's code is a multiple of 10 between 10 and 30 |
| CellTypes.StateOf | src/modules/cell/cell.types.ts:1-5 | a code maps back to a state exactly when it is 10, 20 or 30, and the state maps back to that code |
| CellTypes.TypeCode | src/modules/cell/cell.types.ts:7-10 | the code is 9 exactly for Mine |
| CellTypes.StateCodesDistinct | src/modules/cell/cell.types.ts:1-5 | distinct states have distinct codes |
| CellTypes.BandOffsets | src/modules/cell/cell.types.ts:1-5 | Revealed is Hidden + 10 and Flagged is Hidden + 20, the offsets the codec adds |
| CellKeeper.JsRem10 | src/modules/cell/cell-keeper.ts:5 | `value % 10` with JavaScript's sign rule: the remainder lies in -9..9, has the sign of the value, and differs from it by a multiple of 10 |
| CellKeeper.GetCellInfo | src/modules/cell/cell-keeper.ts:4-10 | state + digit gives back the value; the type is Mine iff the digit is 9; each band 10-19, 20-29, 30-39 is recognised as its state and only it; inside the bands the digit is 0..9 |
| CellKeeper.IncrementCell | src/modules/cell/cell-keeper.ts:12-20 | a mine is unchanged; every other value becomes value + 1, so a neutral cell below 8 keeps its state and counts one more, and a neutral cell at digit 8 (18, 28, 38) becomes a mine |
| CellKeeper.RevealCell | src/modules/cell/cell-keeper.ts:22-32 | a non-Hidden value is unchanged; a Hidden one becomes Revealed with the same digit; the type never changes |
| CellKeeper.FlagCell | src/modules/cell/cell-keeper.ts:34-44 | Revealed is unchanged; Flagged becomes Hidden and Hidden becomes Flagged, keeping the digit |
| CellKeeper.RevealIdempotent | src/modules/cell/cell-keeper.ts:22-32 | revealing twice equals revealing once |
| CellKeeper.FlagInvolution | src/modules/cell/cell-keeper.ts:34-44 | toggling a flag twice restores a Hidden or Flagged value |
| CellKeeper.MineIffDigitNine | src/modules/cell/cell-keeper.ts:5-6 | a value is a mine iff its digit is 9, in every band |
| CellKeeper.DigitAfterCount | src/modules/cell/cell-keeper.ts:12-20 | adding a count of at most 8 to a digit-0 value gives a neutral cell with that count, in the same band |
| CellKeeper.Encode | src/App.tsx:9-21 | a well-formed cell encodes into 10..39 |
| CellKeeper.Decode | src/App.tsx:9-21 | a value decodes iff it is in 10..39, and it decodes to a well-formed cell that encodes back to it |
| CellKeeper.DecodeEncode | src/App.tsx:9-21 | decoding an encoded cell gives the cell back |
| CellKeeper.RevealAgrees | src/modules/cell/cell-keeper.ts:22-32 | `revealCell` on the integer is Hidden-to-Revealed on the decoded cell |
| CellKeeper.FlagAgrees | src/modules/cell/cell-keeper.ts:34-44 | `flagCell` on the integer is the flag toggle on the decoded cell |
| CellKeeper.IncrementAgrees | src/modules/cell/cell-keeper.ts:12-20 | `incrementCell` on the integer is one more count (a mine is unchanged) on the decoded cell |
| Grids.Set | src/modules/board/board-keeper.ts:55 | writing one cell keeps the shape and changes only that cell |
| Grids.UpToMembers | src/modules/board/board-keeper.ts:107-131 | the scan over the offsets lists exactly the in-bounds non-centre cells of the offsets seen so far |
| Grids.UpToOrdered | src/modules/board/board-keeper.ts:107-131 | the scan lists cells in strictly increasing row-major order, so without repeats |
| Grids.UpToLength | src/modules/board/board-keeper.ts:107-131 | the scan lists at most as many cells as the offsets it has seen |
| Grids.CandidateAt | src/modules/board/board-keeper.ts:107-120 | the offset pair (dr, dc) is visited at step 3(dr+1)+dc+1 of the scan and names the cell (row+dr, col+dc) |
| Grids.CandidateKey | src/modules/board/board-keeper.ts:107-120 | the scan visits the offsets in row-major order around the centre |
| Grids.NeighboursMembers | src/modules/board/board-keeper.ts:103-134 | a cell is listed iff it is in bounds, differs from the centre, and is at most one step away in each direction |
| Grids.NeighboursShape | src/modules/board/board-keeper.ts:103-134 | no repeats, at most 8 neighbours, and exactly 8 for a cell away from the border |
| Grids.NeighboursSymmetric | src/modules/board/board-keeper.ts:103-134 | q is a neighbour of p iff p is a neighbour of q |
| Grids.NeighboursInGrid | src/modules/board/board-keeper.ts:103-134 | every neighbour is inside the grid |
| Grids.ConnectedCover | src/modules/board/board-keeper.ts:83-98 | a set of cells that holds one cell and every in-grid neighbour of its members holds every cell of the grid |
| Mines.CountMines | src/modules/board/board-keeper.ts:28-32 | the number of mines in a list of cells is at most its length |
| Mines.MineCount | src/modules/board/board-keeper.ts:28-32 | a cell has at most 8 neighbouring mines |
| Mines.CountMinesSame | src/modules/board/board-keeper.ts:28-32 | boards with the same mines give the same counts |
| Mines.SameMinesConsistent | src/modules/board/board-keeper.ts:28-32 | changing only states, with the same mines and digits, keeps a board consistent |
| Mines.FlagKeepsMines | src/modules/board/board-keeper.ts:72-81 | toggling a flag keeps the mines and keeps the board consistent |
| Mines.CountZeroNoMine | src/modules/board/board-keeper.ts:28-32 | a zero count means that no listed cell is a mine |
| Mines.CountFullAllMines | src/modules/board/board-keeper.ts:28-32 | a count equal to the length means that every listed cell is a mine |
| Mines.ZeroCellHasNoMineNeighbour | src/modules/board/board-keeper.ts:63-66 | on a consistent board, a neutral cell with digit 0 has no mine neighbour |
| Mines.CountBefore | src/modules/board/board-keeper.ts:10-19 | the mines of a list visited before a point of the scan are at most the listed cells |
| Mines.CountBeforeStep | src/modules/board/board-keeper.ts:10-19 | advancing the scan by one cell adds one iff that cell is a mine among the listed cells |
| Mines.CountBeforeRowEnd | src/modules/board/board-keeper.ts:11-16 | the end of one row is the start of the next |
| Mines.CountBeforeEnds | src/modules/board/board-keeper.ts:10-19 | before the scan starts nothing is counted; after it ends, everything is |
| Mines.PartialCountEnds | src/modules/board/board-keeper.ts:10-19 | the progress invariant is the initial board at the start and the counted board at the end |
| Mines.PartialCountRowEnd | src/modules/board/board-keeper.ts:11-16 | the invariant at a row's end is the invariant at the next row's start |
| Mines.CountedConsistent | src/modules/board/board-keeper.ts:10-34 | counting a board of Hidden 10s and 19s gives a consistent board with the same mines, all Hidden |
| FloodFill.BlankIsTen | src/modules/board/board-keeper.ts:94 | a Hidden neutral cell with digit 0 is the value 10 |
| FloodFill.PartialStart | src/modules/board/board-keeper.ts:83-85 | the flood fill's loop invariant holds before the first neighbour |
| FloodFill.PartialDone | src/modules/board/board-keeper.ts:83-98 | the invariant after the last neighbour is the full flood-fill specification |
| FloodFill.HiddenShrinks | src/modules/board/board-keeper.ts:88 | revealing a Hidden cell removes it from the Hidden cells |
| FloodFill.StepPlain | src/modules/board/board-keeper.ts:86-92 | revealing a neighbour that does not recurse keeps the invariant |
| FloodFill.StepPlainReveals | src/modules/board/board-keeper.ts:86-88 | revealing a neighbour that does not recurse is a reveal, and every neighbour seen so far is revealed |
| FloodFill.StepPlainClosed | src/modules/board/board-keeper.ts:86-92 | after such a reveal every revealed blank still has all its neighbours revealed |
| FloodFill.StepPlainReached | src/modules/board/board-keeper.ts:86-92 | after such a reveal every opened cell is still the end of a walk from the origin through opened blank cells |
| FloodFill.OpeningStaysOpen | src/modules/board/board-keeper.ts:88 | revealing one neighbour closes no open cell |
| FloodFill.WalkStaysOpen | src/modules/board/board-keeper.ts:83-98 | a walk through cells that stay open remains a walk |
| FloodFill.StepBlankReveals | src/modules/board/board-keeper.ts:94-96 | after a recursive call the board still differs from the start only by reveals |
| FloodFill.BlankStepStaysOpen | src/modules/board/board-keeper.ts:94-96 | the recursive call closes no cell that was open |
| FloodFill.ClosedAfterBlank | src/modules/board/board-keeper.ts:94-96 | blanks opened before the recursive call, by it, or the neighbour itself have no Hidden neighbour afterwards |
| FloodFill.StepBlankClosed | src/modules/board/board-keeper.ts:94-96 | after a recursive call every revealed blank still has all its neighbours revealed |
| FloodFill.ReachedInner | src/modules/board/board-keeper.ts:94-96 | a walk of the recursive call from a blank neighbour, with the origin put in front, is a walk from the origin and reaches the same cell |
| FloodFill.PickWalk | src/modules/board/board-keeper.ts:83-98 | every cell a cascade opened is the end of a walk from its origin through opened blank cells |
| FloodFill.WalkUnrevealed | src/modules/board/board-keeper.ts:94-96 | the inner cells of a walk of the recursive call, blank and Hidden before it, are as they were on the board the outer call started from |
| FloodFill.HiddenUnrevealed | src/modules/board/board-keeper.ts:83-98 | a cell still Hidden after reveals was not changed |
| FloodFill.PrependWalk | src/modules/board/board-keeper.ts:94-96 | a walk from a blank neighbour of the origin that is open extends, with the origin in front, to a walk from the origin |
| FloodFill.ReachedNeighbour | src/modules/board/board-keeper.ts:86-96 | a neighbour of the origin ends the two-cell walk from the origin |
| FloodFill.ReachedOuter | src/modules/board/board-keeper.ts:94-96 | a cell opened earlier in the loop still ends a walk from the origin after the recursive call |
| FloodFill.StepBlankReached | src/modules/board/board-keeper.ts:94-96 | after a recursive call every opened cell ends a walk from the origin through opened blank cells |
| FloodFill.ReachedAfterBlank | src/modules/board/board-keeper.ts:94-96 | a cell open after the recursive call from a blank neighbour was opened by it, is that neighbour, or was open before; each case ends a walk from the origin |
| FloodFill.StepBlank | src/modules/board/board-keeper.ts:94-96 | revealing a blank neighbour and recursing into it keeps the invariant |
| FloodFill.RevealsOnlyMeaning | src/modules/board/board-keeper.ts:83-98 | under reveals only, a non-Hidden cell is unchanged, a Hidden one is Hidden or Revealed, and mines and digits never change |
| FloodFill.RevealsOnlyTrans | src/modules/board/board-keeper.ts:83-98 | reveals-only composes |
| FloodFill.OpeningShrinks | src/modules/board/board-keeper.ts:88-95 | opening a Hidden neighbour is a reveal and strictly shrinks the Hidden cells, which makes the recursion terminate |
| FloodFill.RevealsOnlyConsistent | src/modules/board/board-keeper.ts:83-98 | reveals keep a board consistent and keep its mines |
| FloodFill.CascadeSparesMines | src/modules/board/board-keeper.ts:83-98 | on a consistent board the flood fill never reveals a mine |
| FloodFill.WalkOpens | src/modules/board/board-keeper.ts:83-98 | every cell after the start of a walk from the origin is open on any board with the origin's neighbours revealed and every open blank's neighbours open |
| FloodFill.OpenedByEvery | src/modules/board/board-keeper.ts:83-98 | a cell one cascade from the origin opens, every cascade from it opens |
| FloodFill.CascadeUnique | src/modules/board/board-keeper.ts:83-98 | the cascade from a cell has exactly one outcome: the cells that walks through blank cells reach |
| FloodFill.ClickOpens | src/modules/board/board-keeper.ts:49-66 | a click only reveals cells, and reveals the clicked cell when it was Hidden; on a consistent board it keeps the mines, keeps consistency and reveals no mine besides the clicked cell |
| FloodFill.ClickedUnique | src/modules/board/board-keeper.ts:36-70 | a click has exactly one outcome |
| FloodFill.CascadeOpens | src/modules/board/board-keeper.ts:63-66 | revealing a blank cell and then flooding from it only reveals cells; on a consistent board it keeps the mines and consistency, and opens no mine |
| FloodFill.CascadeKeepsMines | src/modules/board/board-keeper.ts:63-66 | on a consistent board, revealing a blank cell and cascading from it keeps every mine and the board's consistency |
| FloodFill.CascadeOnEmptyBoard | src/modules/board/board-keeper.ts:83-98 | on a board of all 10s, the flood fill from any cell reveals every cell |
| FloodFill.ClickOnEmptyBoard | src/modules/board/board-keeper.ts:36-70 | a click on a board without mines reveals every cell |
| FloodFill.SplitRowNeighbour | src/modules/board/board-keeper.ts:103-134 | in the row `[20, 11, 19, 11, 10, 10]` the only neighbour of (0,0) is (0,1) |
| FloodFill.SplitRowOpens | src/modules/board/board-keeper.ts:83-98 | on that row the cascade from (0,0) opens (0,1) and nothing else |
| FloodFill.SplitRowWalks | src/modules/board/board-keeper.ts:83-98 | on that row every walk from (0,0) ends at (0,1), since (0,1) is not blank |
| FloodFill.SplitRowStops | src/modules/board/board-keeper.ts:83-98 | on that row, opening the zero region behind the mine as well is not a cascade from (0,0) |
| FloodFill.SplitRowUnreached | src/modules/board/board-keeper.ts:83-98 | on that row no walk from (0,0) ends at (0,4), in the zero region behind the mine |
| Solver.KnownBombs | src/modules/board/board-keeper.ts:172-173 | the neighbours already in the mine set are no more than the neighbours, and each of them is a neighbour |
| Solver.ClosedOnes | src/modules/board/board-keeper.ts:174-175 | the closed neighbours are at most the neighbours, all inside the grid |
| Solver.HiddenOnes | src/modules/board/board-keeper.ts:174-175 | the Hidden cells kept from a list are at most as many as the list |
| Solver.Proposals | src/modules/board/board-keeper.ts:186-187 | the cells proposed are at most the closed cells |
| Solver.KnownBombsMembers | src/modules/board/board-keeper.ts:172-173 | a neighbour is in the known list iff it is in the mine set |
| Solver.ClosedOnesMembers | src/modules/board/board-keeper.ts:172-176 | a neighbour is closed iff it is not in the mine set and its state is unknown under the rule |
| Solver.HiddenOnesMembers | src/modules/board/board-keeper.ts:174-175 | the Hidden cells kept are exactly the Hidden ones of the list |
| Solver.ProposalsMembers | src/modules/board/board-keeper.ts:186-187 | the proposed moves lie within the closed cells and include every closed cell that is Hidden; under `FlagsUnknown` every proposed move is Hidden |
| Solver.ScanStep | src/modules/board/board-keeper.ts:147-148 | the sweep visits the cells row by row, left to right, starting from the given knowledge |
| Solver.ScanKeeps | src/modules/board/board-keeper.ts:147-189 | a property every visit keeps holds after any part of the sweep |
| Solver.SweepsKeep | src/modules/board/board-keeper.ts:147-197 | such a property holds after the first sweep and after the second one, which starts from the first one's knowledge |
| Solver.SweepGrows | src/modules/board/board-keeper.ts:179-188 | a sweep only adds to the mine set and only appends moves |
| Solver.ClassifyStep | src/modules/board/board-keeper.ts:169-177 | one more neighbour extends the known, closed and proposed lists by its own classification |
| Solver.CountMinesAppend | src/modules/board/board-keeper.ts:169-177 | mine counts add over concatenation |
| Solver.CountSplit | src/modules/board/board-keeper.ts:169-177 | when every neighbour that is neither in the mine set nor closed is free of mines, the mines around a cell are those among the known ones plus those among the closed ones |
| Solver.CountAllMines | src/modules/board/board-keeper.ts:169-177 | a list whose cells are all mines has as many mines as cells |
| Solver.Deductions | src/modules/board/board-keeper.ts:179-188 | on a consistent board whose mines are all unknown, and with a mine set of real mines: when the closed neighbours are as many as the missing mines they are all mines, and when the known mines make up the digit no closed neighbour is a mine |
| Solver.VisitSound | src/modules/board/board-keeper.ts:179-188 | on a consistent board whose mines are all unknown, a visit keeps the mine set made of real mines and adds only safe Hidden moves |
| Solver.NextStepSound | src/modules/board/board-keeper.ts:139-207 | on a consistent board whose mines are all unknown, every proposed move is an in-grid Hidden cell that is not a mine |
| Solver.FlagsUnknownAssumes | src/modules/board/board-keeper.ts:150-154 | under the corrected rule, "all mines unknown" just says no mine is revealed |
| Solver.VisitJustified | src/modules/board/board-keeper.ts:165-188 | each move a visit adds is a Hidden neighbour of the visited cell, not in the mine set |
| Solver.NextStepJustified | src/modules/board/board-keeper.ts:139-207 | every move is a Hidden cell next to a non-Hidden neutral cell with a non-zero digit |
| Solver.ClosedOnesAgree | src/modules/board/board-keeper.ts:174-175 | with no flag on the board, both rules find the same closed cells |
| Solver.HiddenOnesAll | src/modules/board/board-keeper.ts:186-187 | with no flag on the board, every closed cell is Hidden |
| Solver.VisitAgrees | src/modules/board/board-keeper.ts:149-188 | with no flag on the board, a visit is the same under both rules |
| Solver.ScanAgrees | src/modules/board/board-keeper.ts:147-189 | with no flag on the board, any part of the sweep is the same under both rules |
| Solver.NoFlagsSameMoves | src/modules/board/board-keeper.ts:139-207 | with no flag on the board, the corrected solver returns exactly the moves of the solver as written |
| Solver.OneRowNeighbours | src/modules/board/board-keeper.ts:103-134 | in a one-row board the neighbours of a cell are its left and right cells |
| Solver.CountTwo | src/modules/board/board-keeper.ts:28-32 | the mines among two cells are counted one by one |
| Solver.FlaggedMineRowCells | src/modules/board/board-keeper.ts:139-207 | type, state and digit of each cell of the counterexample row |
| Solver.FlaggedMineRowDigit | src/modules/board/board-keeper.ts:139-207 | type, state and digit of each cell of the counterexample row |
| Solver.FlaggedMineRowConsistent | src/modules/board/board-keeper.ts:139-207 | the counterexample row is consistent and no mine on it is revealed |
| Solver.FlaggedMineRowShape | src/modules/board/board-keeper.ts:139-207 | the counterexample is a rectangular 1 by 5 board |
| Solver.KnownBombsTwo | src/modules/board/board-keeper.ts:172-173 | among two neighbours, the known mines are those in the mine set, in order |
| Solver.SingleMember | src/modules/board/board-keeper.ts:181-183 | adding the cells of a one-cell list adds that cell |
| Solver.ClosedOnesTwo | src/modules/board/board-keeper.ts:172-176 | among two neighbours, the closed ones are those outside the mine set and unknown under the rule, in order |
| Solver.FlaggedMineRowQuiet | src/modules/board/board-keeper.ts:152-163 | the flagged mine, the hidden 0 and the hidden mine of the row are skipped by the sweep |
| Solver.AsWrittenVisitFirst | src/modules/board/board-keeper.ts:165-188 | as written, the first 1 takes its flagged neighbour for safe and declares the hidden 0 a mine |
| Solver.AsWrittenVisitSecond | src/modules/board/board-keeper.ts:165-188 | as written, the second 1 counts the hidden 0 as its mine and proposes (0,4) |
| Solver.AsWrittenFirstOne | src/modules/board/board-keeper.ts:147-189 | as written, the sweep of the counterexample row has declared (0,2) a mine and proposed nothing once it passes (0,1) |
| Solver.AsWrittenSecondOne | src/modules/board/board-keeper.ts:147-189 | as written, the sweep has also proposed (0,4) once it passes (0,3) |
| Solver.AsWrittenProposesMine | src/modules/board/board-keeper.ts:172-188 | as written, the solver proposes (0,4), which is a mine |
| Solver.FlagsUnknownVisitFirst | src/modules/board/board-keeper.ts:165-188 | corrected, the first 1 has two unknown neighbours and learns nothing |
| Solver.FlagsUnknownVisitSecond | src/modules/board/board-keeper.ts:165-188 | corrected, the second 1 has two unknown neighbours and learns nothing |
| Solver.FlagsUnknownSweep | src/modules/board/board-keeper.ts:147-197 | corrected, a full sweep of the counterexample row learns no mine and proposes no move |
| Solver.FlagsUnknownProposesNothing | src/modules/board/board-keeper.ts:139-207 | corrected, the solver proposes no move on the counterexample row |
| BoardKeeper.Snap | src/modules/board/board-keeper.ts:10-19 | the snapshot is a rectangular grid with the board's cells |
| BoardKeeper.SnapIs | src/modules/board/board-keeper.ts:10-19 | a grid with the board's shape and cells is its snapshot |
| BoardKeeper.SnapNeighbours | src/modules/board/board-keeper.ts:103-134 | the neighbours on the board are the neighbours on its snapshot |
| BoardKeeper.SetCell | src/modules/board/board-keeper.ts:55 | writing one cell of the board changes its contents at that cell only |
| BoardKeeper.GetNeighbours | src/modules/board/board-keeper.ts:103-134 | the loops over the offsets build exactly the neighbour list |
| BoardKeeper.RowOffBoard | src/modules/board/board-keeper.ts:108-111 | a row offset that leaves the board adds no neighbour |
| BoardKeeper.AddRowNeighbours | src/modules/board/board-keeper.ts:114-130 | the inner loop over the column offsets appends exactly the neighbours of one row |
| BoardKeeper.IncrementNeighboursForCell | src/modules/board/board-keeper.ts:22-34 | a mine increments each of its neighbours once; any other cell changes nothing |
| BoardKeeper.IncrementNeighbours | src/modules/board/board-keeper.ts:10-19 | on a board of Hidden 10s and 19s, every neutral cell ends with its neighbouring-mine count and mines are unchanged |
| BoardKeeper.CountRow | src/modules/board/board-keeper.ts:13-15 | one row of the pass moves the counting invariant from the row's start to the next row's start |
| BoardKeeper.CountStep | src/modules/board/board-keeper.ts:14 | one cell of the pass moves the counting invariant one cell on |
| BoardKeeper.RevealNeutralNeighbours | src/modules/board/board-keeper.ts:83-98 | the board differs only by reveals; the origin's neighbours are revealed; every revealed blank has its neighbours revealed; every opened cell ends a walk from the origin through opened blank cells, so the result is the one cascade from the origin |
| BoardKeeper.HandleCellClick | src/modules/board/board-keeper.ts:36-70 | the board is updated iff the cell was Hidden, with a boom iff it was a mine; the new board is the click's specification: unchanged for a non-Hidden cell, the cell alone revealed for a non-blank one, the reveal followed by the flood fill for a blank one |
| BoardKeeper.HandleCellRightClick | src/modules/board/board-keeper.ts:72-81 | only the cell changes, to its flag toggle; consistency and mines are kept |
| BoardKeeper.GetNextStep | src/modules/board/board-keeper.ts:139-207 | the nested loops with the one retry compute exactly the specified scan: one pass, and a second pass that keeps the mine set when the first gave no move |
| BoardKeeper.SweepRow | src/modules/board/board-keeper.ts:148-189 | one row of the loop carries the sweep from the start of the row to the start of the next |
| BoardKeeper.VisitCellAt | src/modules/board/board-keeper.ts:149-188 | one visit of the loop computes the specified visit |
| BoardKeeper.ClassifyNeighbours | src/modules/board/board-keeper.ts:167-177 | the neighbour loop splits the neighbours into known mines and closed cells, as specified |
| BoardKeeper.AddAll | src/modules/board/board-keeper.ts:179-184 | adding the closed cells one by one adds exactly the cells of the list |
| App.GenerateEmptyFields | src/App.tsx:33-38 | a fresh side by side board of 10s |
| App.GetRandomCell | src/App.tsx:46-51 | the drawn index maps into the board, and row times side plus column gives it back |
| App.CellIndexBound | src/App.tsx:46-51 | row times side plus column lies in 0 .. side*side-1 for an in-bounds cell |
| App.MulAtLeast | src/App.tsx:46-51 | a positive multiple of the side is at least the side |
| App.DivUnique | src/App.tsx:48-49 | division and remainder by the side recover quotient and remainder |
| App.RandomCellOnto | src/App.tsx:46-51 | every cell is drawn by exactly one index |
| App.Hits | src/App.tsx:54-61 | the cells hit by the draws are in bounds and at most as many as the draws |
| App.HitsStep | src/App.tsx:54-61 | one more draw adds its cell; the number of hit cells grows by one iff that cell was not hit before |
| App.PlaceMines | src/App.tsx:54-61 | the loop stops once totalBombs distinct cells are mines or the draws run out; the mines are exactly the cells the used draws name (a repeated cell is drawn again), all 19, and every other cell is 10 |
| App.PlaceDraw | src/App.tsx:55-60 | one turn of the loop: the drawn cell becomes a mine, and the turn counts iff the cell held none |
| App.MineCells | src/App.tsx:54-61 | the mine cells of a board are the in-grid cells holding a mine |
| App.MinesPlaced | src/App.tsx:54-63 | the placed board is ready for counting |
| App.CountedField | src/App.tsx:54-63 | after counting, the board is consistent, all Hidden, and its mines are the drawn cells |
| App.DrawnField | src/App.tsx:40-63 | placing the mines the draws name and counting gives a consistent, all-Hidden board whose mines are the hit cells, at most totalBombs of them and exactly that many unless the draws ran out |
| App.BuildField | src/App.tsx:41-63 | an empty board, then the placement loop, then the counting pass, give a fresh board of a new game |
| App.AppState.constructor | src/App.tsx:24-31 | the component starts with no moves and a fresh side by side field that is the new-game board: consistent, every cell Hidden, the drawn mines, at most totalBombs of them |
| App.AppState.GenerateField | src/App.tsx:40-66 | a fresh consistent side by side board, all Hidden, whose mines are the cells hit by the draws it used, at most totalBombs of them and exactly that many unless the draws ran out |
| App.AppState.HandleCellClick | src/App.tsx:69-79 | a click on a non-Hidden cell changes nothing; otherwise a copy is clicked and replaces the board, with a boom iff the cell was a mine; the new board is the click's one outcome; consistency is kept |
| App.AppState.HandleCellRightClick | src/App.tsx:81-91 | a copy with the cell's flag toggled replaces the board; consistency is kept |
| App.AppState.HandleNextStep | src/App.tsx:95-103 | the moves are the solver's result without repeats; they are distinct Hidden cells next to a cell whose digit the solver read; on a consistent board whose mines are all unknown to the rule none is a mine; without flags both rules give the same moves |
| App.CopyBoard | src/App.tsx:72 | a fresh board with the same contents |
| App.FindIndex | src/App.tsx:100 | -1 iff the cell is absent, otherwise the index of its first occurrence |
| App.UniqueUpToCells | src/App.tsx:99-101 | the kept prefix holds exactly the cells of the input prefix |
| App.UniqueUpToDistinct | src/App.tsx:99-101 | the kept prefix has no repeats |
| App.UniqueMovesSameCells | src/App.tsx:99-101 | the filter keeps exactly the cells of its input |
| App.UniqueMovesDistinct | src/App.tsx:99-101 | the filter's output has no repeats |
| App.UniqueUpToOrdered | src/App.tsx:99-101 | the kept prefix lists first occurrences in input order |
| App.UniqueMovesOrdered | src/App.tsx:99-101 | the output keeps the order of first occurrences |
| App.UniqueUpToKeepsDistinct | src/App.tsx:99-101 | a prefix of a repeat-free input is kept as is |
| App.UniqueMovesKeepsDistinct | src/App.tsx:99-101 | a repeat-free input passes the filter unchanged |

## Left out

- Randomness. `Math.random()` becomes a sequence of drawn indices (`draws`), each in `0 .. side*side-1`. `Math.floor(totalCells * coef)` becomes the parameter `totalBombs`, because floating point is not modelled.
- App.PlaceMines: the source loops until `totalBombs` mines are placed. The model has finitely many draws, so it guarantees exactly `totalBombs` mines only when the draws suffice. The bound `totalBombs <= side*side`, which the source needs to terminate, is not proved.
- App.AppState.GenerateField: the same weaker count as `PlaceMines`.
- React state (`useState`, `useEffect`), rendering, `toast` and `console.log` are left out. `setFields` and `setMoves` become assignments to the fields of `AppState`.
- `handleMoveClick` (src/App.tsx:105-107) only calls `handleCellClick`, which is modelled.
- The `typeof ... !== 'number'` test in `getNeighbours` always passes on a board of numbers, so it is left out.
- Ragged boards are left out: a board is a rectangular `array2`, while the source reads each row's own length.
- The solver's mine set uses the string keys `` `${r}-${c}` ``. The model uses a `set<Coord>`. The keys are injective, so the two agree.
- App.AppState.HandleNextStep: it takes the solver's rule as a parameter, while `src/App.tsx:96` always runs the solver as written (`AsWritten`). Under that rule its moves are safe only when every mine is still Hidden (no flag and no revealed mine), which is what `Solver.MinesUnknown` asks for `AsWritten`. On the board of the Finding below, the program's moves are `[(0,4)]`, a mine.
- BoardKeeper.GetNextStep: it takes the rule as a parameter. `AsWritten` is the source's behaviour. `FlagsUnknown` is the correction described under Findings.
- The solver reads every non-Hidden neutral cell, Flagged ones included, because the source tests `state === Hidden` (board-keeper.ts:152). A description of the solver as reading only Revealed cells would differ from this; the model follows the code.
- Removing duplicate moves happens in `App.tsx` (lines 99-101), not in `getNextStep`. The model keeps that split.
- `CountRow`, `CountStep`, `AddRowNeighbours`, `SweepRow`, `VisitCellAt`, `ClassifyNeighbours`, `AddAll` and `PlaceDraw` are the bodies of loops that the source writes inline, split out as methods. `SetCell` is a single array write and `BuildField` the body of `generateField`, split out the same way.
- Integers are unbounded. Cell values stay in 10..39, so JavaScript number precision never matters.

## Findings

| source | as written | input that shows it | evidently intended | confidence | as-written member | corrected member |
|---|---|---|---|---|---|---|
| src/modules/board/board-keeper.ts:172-188 | a neighbour counts as closed only if it is Hidden, so a correctly Flagged mine is neither a known mine nor closed and is ignored | the one-row board `[39, 21, 10, 21, 19]`, which is consistent and has no revealed mine: the first `1` takes its only Hidden neighbour (0,2) for its mine, and the second `1` then proposes (0,4), which is a mine | a move is proposed only when it is safe, so Flagged cells must count as unknown (closed) while only Hidden cells are proposed | not executed | Solver.AsWrittenProposesMine | Solver.NextStepSound |

Under the corrected rule (`Rule.FlagsUnknown`), `Solver.FlagsUnknownProposesNothing` shows that the counterexample row gets no move. `Solver.NoFlagsSameMoves` shows that the correction changes nothing on boards without flags. `App.AppState.HandleNextStep` takes the rule as a parameter, like `BoardKeeper.GetNextStep`.

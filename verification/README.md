# Sudoku propagation solver, modelled in Dafny

This project models the solving engine of a small PHP Sudoku solver. The engine has three classes:

- `SudokuCell` holds a value, a solved flag and a set of excluded values. It has three rules:
  - the exclusion refresh (`updateCannotBe`);
  - resolution by naked or hidden single (`checkCanBeSolved`);
  - band-forced placement (`solveFor` / `solveForContainer`).
- `CellContainer` is a line, column or box: an index plus an append-only list of cells.
- `SudokuPuzzle` builds 81 cells and 27 containers from a seed. It then alternates an unsolved-cell pass and a solved-cell pass until the grid is solved or 1000 passes have run.

The model keeps the source's form, which is imperative:

- `Container.CellContainer` is a class whose `cells` field `AddCell` appends to.
- `Puzzle.SudokuPuzzle` is a class. It holds the fields of the 81 cells side by side in three arrays indexed by cell: `value`, `solved` and `cannotBe`. It also holds the three sequences of container objects and the `passes` counter.
- In the source a cell and its containers point at each other. Here a container lists cell indices, and a cell reaches its line, column and box through the index arithmetic in `Geometry`.
- The methods of `SudokuCell` that change a cell (`solveWithValue`, `updateCannotBe`, `checkCanBeSolved`, `solveFor`, `solveForContainer`) become methods of `SudokuPuzzle` that take the cell index. The query `canBe` becomes the predicate `Cell.CanBe`. The cell constructor becomes the initial board `Cell.NewBoard`, which the `SudokuPuzzle` constructor writes through `NewCells`.

Every `SudokuPuzzle` method that changes cell state is proved against a specification function on `Cell.Board`, a snapshot of the three arrays. Its contract has the form `State() == Spec(old(State()))`, for example:

- `UpdateCannotBe` against `Cell.UpdateCannotBe`;
- `CheckCanBeSolved` against `Cell.CheckCanBeSolved`;
- `UnsolvedCellPass` against `UnsolvedPass`;
- `Solve` against `Solution`.

Lemmas then state what those functions mean:

- exact characterisations of the exclusion refresh, the naked single, the hidden single and band-forced placement;
- monotonicity: solved cells keep their values and exclusions only grow;
- the container memberships the constructor builds;
- the sibling bands;
- the behaviour of the solve loop on an all-blank seed and on a complete one.

Modules:

- `Geometry` (geometry.dfy): index arithmetic and container membership.
- `Container` (cell_container.dfy): the container class.
- `Cell` (sudoku_cell.dfy): the cell rules as functions on `Board`, with their lemmas.
- `Puzzle` (sudoku_puzzle.dfy): pass and loop specifications, their lemmas, and the `SudokuPuzzle` class.

Two behaviours of the code worth noting:

- `updateCannotBe` (app/SudokuCell.php:157-168) has no guard for an already solved cell. It refreshes a solved cell's exclusions too. The solver never calls it on a solved cell, because the unsolved-cell pass only visits unsolved cells.
- `hasCellWithValue` (app/CellContainer.php:39-44) compares values only. A value of 0 therefore matches any blank cell, not only "a solved cell with that value".

`canBe` (app/SudokuCell.php:185-188) is the predicate `Cell.CanBe`: the cell is unsolved and the value is not excluded. `Cell.PossibleCellsHas` and `Cell.SoleCandidate` state what follows from it.

## Model

| member | source | states |
|---|---|---|
| Geometry.IndexInRange | app/SudokuPuzzle.php:30-32 | every cell 0..80 falls in a line, a column and a box numbered 0..8 |
| Geometry.MembersUpTo | app/SudokuPuzzle.php:29-37 | the cells appended to container k while cells 0..n-1 are linked all lie below n and belong to k |
| Geometry.MembersUpToHas | app/SudokuPuzzle.php:29-37 | a cell is in container k after n cells exactly when it is below n and its index for that kind is k |
| Geometry.MembersUpToIncreasing | app/SudokuPuzzle.php:29-37 | cells are appended in increasing index order |
| Geometry.AtCoordinates | app/SudokuPuzzle.php:30-32 | the cell in line r, column c is 9r+c; its line is r, its column is c and its box is c/3 + 3(r/3) |
| Geometry.BoxSlot | app/SudokuPuzzle.php:32 | slot 3p+q of box 3a+b is the cell in line 3a+p, column 3b+q, and that cell's box is 3a+b |
| Geometry.LineMembers | app/SudokuPuzzle.php:29-37 | line k holds cells 9k..9k+8, in order |
| Geometry.ColumnMembers | app/SudokuPuzzle.php:29-37 | column k holds cells k, k+9, ..., k+72, in order |
| Geometry.BoxMembers | app/SudokuPuzzle.php:29-37 | box k holds its 3x3 block line by line, in increasing order |
| Geometry.MembersExact | app/SudokuPuzzle.php:23-43 | each of the 27 containers ends with exactly 9 cells, in increasing index order |
| Geometry.MemberOfOwn | app/SudokuPuzzle.php:35-37 | every cell is a member of its own line, column and box |
| Container.ValuesOf | app/CellContainer.php:32-37 | one value per member, in member order |
| Container.CellContainer.constructor | app/CellContainer.php:13-25 | a new container has the given index and no cells; getIndex returns that index |
| Container.CellContainer.AddCell | app/CellContainer.php:27-30 | appends exactly one cell at the end; the earlier members and their order are unchanged |
| Container.CellContainer.GetValues | app/CellContainer.php:32-37 | as many values as members; the j-th is the value of the j-th member |
| Container.CellContainer.HasCellWithValue | app/CellContainer.php:39-44 | true exactly when some member's current value equals v |
| Cell.ExtendsTransitive | app/SudokuCell.php:190-197 | "solved cells keep their values, exclusions only grow" composes over successive steps |
| Cell.NewBoardWellFormed | app/SudokuCell.php:99-109 | a new cell keeps its seed value, is solved exactly when that value is non-zero, and excludes nothing |
| Cell.SolveWithValueKeeps | app/SudokuCell.php:190-197 | a solved cell is left as it is; an unsolved one gets v and is marked solved; no other cell and no exclusion changes |
| Cell.OwnMembersHas | app/SudokuPuzzle.php:35-37 | cell m is in cell i's container of a kind exactly when both have the same index for that kind |
| Cell.ValuesOfHas | app/CellContainer.php:32-37 | x is among a container's values exactly when some member holds x |
| Cell.KindValuesHas | app/SudokuCell.php:163-165 | x is among the values of cell i's line, column or box exactly when a cell sharing that index holds x |
| Cell.PeerValuesHas | app/SudokuCell.php:163-165 | the gathered values are exactly the values held by cells sharing a line, column or box with cell i |
| Cell.UpdateCannotBeExact | app/SudokuCell.php:157-168 | afterwards x is excluded iff x is non-zero and was excluded or is held by a peer; values, flags and the other cells are untouched |
| Cell.UpdateCannotBeKeeps | app/SudokuCell.php:157-168 | the refresh only grows the exclusions, keeps them within 1..9 and keeps the board well formed |
| Cell.PeerValuesRange | app/SudokuCell.php:163-165 | on a well-formed board every gathered value is 0..9 |
| Cell.UpdateCannotBeIdempotent | app/SudokuCell.php:157-168 | a second refresh with nothing changed in between leaves the board as the first one left it |
| Cell.FirstMissingIsLeast | app/SudokuCell.php:139-145 | the scan returns the least value from `from` to 9 that is not excluded, or nothing when all are excluded |
| Cell.NakedSingleUnique | app/SudokuCell.php:138-145 | with exactly eight of 1..9 excluded, the scan finds a value and it is the only one left |
| Cell.PossibleCellsHas | app/SudokuCell.php:207-209 | a cell is a candidate exactly when it is a member and canBe(v) holds for it |
| Cell.PossibleCellsIncreasing | app/SudokuCell.php:207-209 | the filter keeps member order |
| Cell.SoleCandidate | app/SudokuCell.php:205-214 | the candidates are exactly [i] iff i is a member that can take v and no other member can (`OnlyCandidate`) |
| Cell.SolveForContainerUnnamed | app/SudokuCell.php:205-214 | with no cell named, v is placed in the container's only candidate when there is one, and the board is unchanged when no member or several members can take v |
| Cell.SolveForContainerNamed | app/SudokuCell.php:205-214 | with a cell named, v is placed in that cell exactly when it is the container's only candidate; a solved named cell makes the call a no-op |
| Cell.FirstSoleIsLeast | app/SudokuCell.php:146-153 | the first hidden single found is the least value from v up to 9 for which the cell is the sole candidate in its line, column or box; if there is none, no value qualifies |
| Cell.HiddenSingleStepEffect | app/SudokuCell.php:149-153 | one value of the scan places v in cell i exactly when i is the sole candidate for v in its line, column or box, and does nothing otherwise |
| Cell.HiddenSingleFromResult | app/SudokuCell.php:146-153 | the scan assigns cell i at most one value, the first hidden single in ascending order, and leaves a solved cell as it is |
| Cell.NakedSingleRule | app/SudokuCell.php:138-145 | with exactly eight exclusions the cell gets the unique value of 1..9 that is not excluded |
| Cell.HiddenSingleRule | app/SudokuCell.php:146-153 | otherwise the cell gets its first hidden single, if it has one |
| Cell.FullyExcludedUnchanged | app/SudokuCell.php:138-153 | a cell that excludes all nine values is assigned nothing |
| Cell.CheckCanBeSolvedKeeps | app/SudokuCell.php:132-155 | resolution changes at most cell i, only if it was unsolved, and only by placing one of 1..9; exclusions are untouched and the board stays well formed |
| Cell.NakedSingleKeeps | app/SudokuCell.php:138-145 | the naked-single branch places a value of 1..9 and keeps the board well formed |
| Cell.HiddenSingleKeeps | app/SudokuCell.php:146-153 | the hidden-single branch places nothing or one value of 1..9 in cell i and keeps the board well formed |
| Cell.PlacementKeeps | app/SudokuCell.php:190-197 | placing a found value of 1..9, or nothing, keeps the board well formed and never undoes anything |
| Cell.FirstSoleRange | app/SudokuCell.php:147-148 | a value the hidden-single scan finds from v lies between v and 9 |
| Cell.ContainersWithoutValue | app/SudokuCell.php:172-174 | the kept containers are exactly those of the input that hold no cell with value v |
| Cell.ContainersWithoutValueEmpty | app/SudokuCell.php:172-174 | nothing is kept exactly when every container holds a cell with value v |
| Cell.ContainersWithoutValueOne | app/SudokuCell.php:172-176 | the filter keeps exactly one container only when exactly one position of the input lacks v |
| Cell.ContainersWithoutValueSole | app/SudokuCell.php:172-176 | when exactly one position lacks v, the filter keeps that position's container and nothing else |
| Cell.NoCandidatesWhenFull | app/SudokuCell.php:207-209 | in a well-formed board a container with no blank cell has no candidate |
| Cell.SolveForOutcome | app/SudokuCell.php:170-183 | band-forced placement changes nothing, or places the cell's value in the only cell that can take it inside the only container that lacks the value |
| Cell.SolveForPlaces | app/SudokuCell.php:170-183 | conversely, when exactly one container lacks the cell's value and exactly one of its cells can take it, that cell gets the value |
| Cell.SolveForNoSoleLacking | app/SudokuCell.php:176-178 | when no container, or more than one, lacks the value, band-forced placement changes nothing |
| Cell.SolveForNoOnlyCandidate | app/SudokuCell.php:176-182 | when the one container lacking the value has no cell, or several cells, that can take it, band-forced placement changes nothing |
| Cell.SolveForContainerKeeps | app/SudokuCell.php:205-214 | a container placement keeps the board well formed, never undoes anything and leaves exclusions alone |
| Cell.SolveForKeeps | app/SudokuCell.php:170-183 | band-forced placement keeps the board well formed, never undoes anything and leaves exclusions alone |
| Cell.AddAll | app/SudokuCell.php:159-165 | adding a container's values one by one yields the old set united with all of them |
| Puzzle.CellsWhere | app/SudokuPuzzle.php:76-78 | the snapshot lists only cells below n whose solved flag is the one asked for |
| Puzzle.CellsWhereHas | app/SudokuPuzzle.php:76-78 | the snapshot holds exactly the cells below n with that flag |
| Puzzle.CellsWhereIncreasing | app/SudokuPuzzle.php:76-78 | the snapshot is in increasing index order |
| Puzzle.WithoutOneOfThree | app/SudokuPuzzle.php:106-108 | dropping one of three consecutive indices leaves the other two, in order |
| Puzzle.SiblingIndicesExact | app/SudokuPuzzle.php:103-109 | getSiblings keeps exactly two indices, in order, namely those of k's band of three other than k |
| Puzzle.BandOf | app/SudokuPuzzle.php:105 | the band of container k is 3(k/3), 3(k/3)+1 and 3(k/3)+2, and k is one of them |
| Puzzle.WithoutHas | app/SudokuPuzzle.php:106-108 | x survives the filter iff it was present and is not k |
| Puzzle.AllTrueMeans | app/SudokuPuzzle.php:96-101 | isSolved holds iff every cell's solved flag is set |
| Puzzle.Solution | app/SudokuPuzzle.php:58-66 | the loop ends with the grid solved or at least 1000 passes; it never lowers the count, and starting at most 1000 it ends at most 1000 |
| Puzzle.NextRound | app/SudokuPuzzle.php:60-66 | a due round raises the pass count by at least one and at most to 1000 |
| Puzzle.VisitUnsolvedKeeps | app/SudokuPuzzle.php:78-81 | a visit changes only the visited cell, keeps the board well formed and never undoes anything |
| Puzzle.UnsolvedVisitsKeep | app/SudokuPuzzle.php:74-83 | the visits of a pass keep the board well formed and never undo anything |
| Puzzle.UnsolvedVisitsSkip | app/SudokuPuzzle.php:74-83 | a cell the pass does not visit is left exactly as it was |
| Puzzle.VisitUnsolvedGrows | app/SudokuPuzzle.php:78-81 | a visit never drops an exclusion of any cell |
| Puzzle.VisitUnsolvedExcludes | app/SudokuPuzzle.php:78-81 | after its visit a cell excludes every non-zero value one of its peers held |
| Puzzle.UnsolvedVisitsExclude | app/SudokuPuzzle.php:74-83 | every visited cell ends the pass excluding each non-zero value its peers held when the pass began |
| Puzzle.LastVisitExcludes | app/SudokuPuzzle.php:78-81 | the last visit leaves its cell excluding the values its peers held at the start |
| Puzzle.LaterVisitKeepsExclusion | app/SudokuPuzzle.php:78-81 | a later visit keeps an exclusion made earlier in the pass |
| Puzzle.VisitSolvedKeeps | app/SudokuPuzzle.php:89-93 | a solved-cell visit keeps the board well formed, never undoes anything and changes no exclusion |
| Puzzle.SolvedVisitsKeep | app/SudokuPuzzle.php:85-94 | the same holds for the visits of a whole pass |
| Puzzle.UnsolvedPassFacts | app/SudokuPuzzle.php:74-83 | the pass keeps the board well formed and monotone, leaves the exclusions of cells solved at its start alone, and makes every cell unsolved at its start exclude its peers' values |
| Puzzle.SolvedPassFacts | app/SudokuPuzzle.php:85-94 | the pass keeps the board well formed and monotone and changes no exclusion |
| Puzzle.RoundKeeps | app/SudokuPuzzle.php:60-65 | a round keeps the board well formed and never undoes anything |
| Puzzle.SolutionKeeps | app/SudokuPuzzle.php:58-66 | solving keeps the board well formed; no placed value is changed or removed and no exclusion is dropped |
| Puzzle.SolutionStops | app/SudokuPuzzle.php:60 | on a solved grid, or with 1000 passes done, the loop runs no round |
| Puzzle.SolutionStep | app/SudokuPuzzle.php:60-66 | while the grid is unsolved and passes remain, the loop is one round followed by the loop from the next count |
| Puzzle.BlankCandidates | app/SudokuCell.php:207-209 | on a blank board every member of a container is a candidate for every value |
| Puzzle.BlankNoSole | app/SudokuCell.php:146-153 | on a blank board no value is a hidden single for any cell |
| Puzzle.BlankVisit | app/SudokuPuzzle.php:78-81 | an unsolved-cell visit leaves a blank board as it is |
| Puzzle.BlankVisits | app/SudokuPuzzle.php:74-83 | the whole unsolved-cell pass leaves a blank board as it is |
| Puzzle.BlankRound | app/SudokuPuzzle.php:60-65 | a round leaves a blank board as it is, so it stays blank, and a blank board is not solved |
| Puzzle.BlankSolution | app/SudokuPuzzle.php:58-66 | from a blank board the loop runs to the 1000-pass limit and leaves the board blank |
| Puzzle.EmptySeedNeverSolved | app/SudokuPuzzle.php:58-66 | an all-zero seed is never solved: solve stops at 1000 passes with the board unchanged |
| Puzzle.FullSeedSolved | app/SudokuPuzzle.php:58-66 | a seed without a blank gives a solved grid, on which solve runs no pass |
| Puzzle.Lacking | app/SudokuCell.php:172-174 | every container kept by the filter is one of the input and has no member holding v |
| Puzzle.LackingLists | app/SudokuCell.php:172-174 | filtering the container objects by hasCellWithValue agrees with filtering their member lists |
| Puzzle.OtherThanPick | app/SudokuPuzzle.php:106-108 | on containers listed at their own indices, filtering by index k after picking is picking without k |
| Puzzle.PickLists | app/SudokuPuzzle.php:103-109 | the picked containers' member lists are the members of the picked indices |
| Puzzle.SliceIsBand | app/SudokuPuzzle.php:105-106 | the three-container slice starting at k/3*3 is the band of k |
| Puzzle.GetSiblingsExact | app/SudokuPuzzle.php:103-109 | on containers in index order, getSiblings yields the two other containers of k's band, in order, with their full member lists |
| Puzzle.Attach | app/SudokuCell.php:46-51 | linking cell i to its container of one kind appends i there and nowhere else; the same holds for the column and box setters at lines 65-70 and 84-89 |
| Puzzle.LinkCell | app/SudokuPuzzle.php:34-37 | the chained setters append cell i to its line, column and box |
| Puzzle.NewContainers | app/SudokuPuzzle.php:23-27 | nine fresh, empty lines, columns and boxes with indices 0..8 |
| Puzzle.LinkContainers | app/SudokuPuzzle.php:23-43 | after the construction loops, container k of each kind holds exactly its cells, in increasing order |
| Puzzle.NewCells | app/SudokuPuzzle.php:34 | one fresh cell per seed entry: the entry's value, solved iff it is non-zero, nothing excluded |
| Puzzle.SudokuPuzzle.constructor | app/SudokuPuzzle.php:16-44 | the built puzzle has the seed's cells, 27 containers with their exact members, and no passes |
| Puzzle.SudokuPuzzle.SolveWithValue | app/SudokuCell.php:190-197 | follows Cell.SolveWithValue: a solved cell is untouched, an unsolved one gets v and is marked solved |
| Puzzle.SudokuPuzzle.GatherExclusions | app/SudokuCell.php:159-165 | collects the cell's exclusions together with all values of its line, column and box |
| Puzzle.SudokuPuzzle.UpdateCannotBe | app/SudokuCell.php:157-168 | follows Cell.UpdateCannotBe and keeps the puzzle valid |
| Puzzle.SudokuPuzzle.SetCannotBe | app/SudokuCell.php:167 | replaces one cell's exclusions and nothing else |
| Puzzle.SudokuPuzzle.SolveForContainer | app/SudokuCell.php:205-214 | follows Cell.SolveForContainer and keeps the puzzle valid |
| Puzzle.SudokuPuzzle.SolveFor | app/SudokuCell.php:170-183 | follows Cell.SolveFor on the member lists of the given containers |
| Puzzle.SudokuPuzzle.CheckCanBeSolved | app/SudokuCell.php:132-155 | follows Cell.CheckCanBeSolved through both loops of the source |
| Puzzle.SudokuPuzzle.IsSolved | app/SudokuPuzzle.php:96-101 | true iff every cell is solved |
| Puzzle.SudokuPuzzle.VisitUnsolvedCell | app/SudokuPuzzle.php:78-81 | updateCannotBe then checkCanBeSolved on one cell, as VisitUnsolved states |
| Puzzle.SudokuPuzzle.UnsolvedCellPass | app/SudokuPuzzle.php:74-83 | follows UnsolvedPass: each cell unsolved at the start is visited, in index order |
| Puzzle.SudokuPuzzle.SolveForSiblings | app/SudokuPuzzle.php:90-92 | solveFor over getSiblings of container k acts on the sibling members of k |
| Puzzle.SudokuPuzzle.VisitSolvedCell | app/SudokuPuzzle.php:89-93 | solveFor over the sibling lines, then columns, then boxes, as VisitSolved states |
| Puzzle.SudokuPuzzle.SolvedCellPass | app/SudokuPuzzle.php:85-94 | follows SolvedPass: each cell solved at the start is visited, in index order |
| Puzzle.SudokuPuzzle.SolveRound | app/SudokuPuzzle.php:61-64 | one round: the unsolved-cell pass, then the solved-cell pass unless the grid is solved |
| Puzzle.SudokuPuzzle.NextPass | app/SudokuPuzzle.php:65 | raises the pass count by one and changes no cell |
| Puzzle.SudokuPuzzle.SolveStep | app/SudokuPuzzle.php:61-65 | one loop iteration: a round and one more pass |
| Puzzle.SudokuPuzzle.Solve | app/SudokuPuzzle.php:58-72 | ends in Solution's state, solved or at 1000 passes; on an already solved grid it runs no pass; placed values and exclusions are never undone |

## Left out

- Text output is not modelled: `print` (app/SudokuPuzzle.php:46-56), the message `echo`ed at the end of `solve` (app/SudokuPuzzle.php:68-70) and `getPrintValue` (app/SudokuCell.php:127-130).
- The link setters and getters (app/SudokuCell.php:28-97) are not separate members:
  - each setter's `addCell` call is `Puzzle.Attach`;
  - the getters are the index functions `Geometry.LineOf`, `ColumnOf` and `BoxOf`;
  - `setSolved`, `isSolved`, `getValue` and `getIndex` of a cell are reads and writes of the puzzle's arrays.
- `Container.CellContainer.GetIndex` and `Container.CellContainer.GetCells` are plain accessors without contracts of their own. What they return is stated by the constructor and `AddCell` contracts.
- The Laravel `Collection` class is not part of this model. Collections are sequences and sets:
  - `filter` is an eager snapshot in order;
  - `first()` is the head of the filtered sequence;
  - `filter()->unique()` on exclusions is set difference with {0}.
- Cells are indices rather than objects. The loose `contains` in `solveForContainer` compares cell objects. Distinct cells differ in their index, so it is modelled as index equality.
- PHP's `floor` returns floats (app/SudokuPuzzle.php:32, 105). The model uses integer division, which gives the same indices for 0..80. PHP integer overflow cannot occur with these values.
- The `SudokuLine`, `SudokuColumn` and `SudokuBox` subclasses are not part of this model. They are represented by the `kind` field of the single container class.
- Puzzle parsing and the entry point are not part of this model.
- Whether the solver reaches a correct or complete solution is not modelled. The code promises only bounded, monotone propagation.
- Puzzle.SudokuPuzzle.constructor: requires exactly 81 seed entries, each 0..9. The source accepts any array; other inputs are the business of the code that parses the puzzle.
- Puzzle.SudokuPuzzle.SolveWithValue: requires a value 1..9, which every caller in the source passes. Placing anything else would break the invariant that a cell is solved exactly when its value is non-zero.
- Puzzle.SudokuPuzzle.SolveForContainer: requires a value 1..9, or no candidate for the value. In the source it is called either with a value 1..9 or from `solveFor` on a solved cell.
- Puzzle.SudokuPuzzle.SolveFor: requires the given containers to list grid cells only, which holds for every container the constructor builds.
- The per-cell methods and helpers are decompositions of the source's loop bodies, not methods of the source:
  - `GatherExclusions`, `SetCannotBe`, `VisitUnsolvedCell`, `VisitSolvedCell`, `SolveForSiblings`, `SolveRound`, `NextPass` and `SolveStep`;
  - `Attach`, `LinkCell`, `NewContainers`, `LinkContainers` and `NewCells`.

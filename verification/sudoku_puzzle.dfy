/**
 * The puzzle: 81 cells and 27 containers built from a seed, and the pass
 * loop that applies the cell rules until the grid is solved or 1000 passes
 * have run. The first half states the passes as functions on Cell.Board;
 * the class SudokuPuzzle below is proved to follow them.
 */
module Puzzle {
  import opened Geometry
  import opened Container
  import Cell

  /**
   * The cells among 0..n-1 whose solved flag equals `want`, in index order:
   * the snapshot a pass takes before it visits any cell.
   */
  function CellsWhere(g: Cell.Board, want: bool, n: nat): (r: seq<int>)
    requires Cell.Shaped(g) && n <= CellCount
    ensures forall j :: 0 <= j < |r| ==> 0 <= r[j] < n && g.solved[r[j]] == want
  {
    if n == 0 then []
    else CellsWhere(g, want, n - 1) + (if g.solved[n - 1] == want then [n - 1] else [])
  }

  lemma {:induction false} CellsWhereHas(g: Cell.Board, want: bool, n: nat, x: int)
    requires Cell.Shaped(g) && n <= CellCount
    ensures x in CellsWhere(g, want, n) <==> 0 <= x < n && g.solved[x] == want
  {
    if n > 0 {
      CellsWhereHas(g, want, n - 1, x);
    }
  }

  lemma {:induction false} CellsWhereIncreasing(g: Cell.Board, want: bool, n: nat)
    requires Cell.Shaped(g) && n <= CellCount
    ensures Increasing(CellsWhere(g, want, n))
  {
    if n > 0 {
      CellsWhereIncreasing(g, want, n - 1);
    }
  }

  /** One visit of the unsolved-cell pass: refresh the exclusions of cell i, then try to resolve it. */
  function VisitUnsolved(g: Cell.Board, i: int): (r: Cell.Board)
    requires Cell.Shaped(g) && 0 <= i < CellCount
    ensures Cell.Shaped(r)
  {
    Cell.CheckCanBeSolved(Cell.UpdateCannotBe(g, i), i)
  }

  /** The visits of the unsolved-cell pass to the listed cells, in list order. */
  function UnsolvedVisits(g: Cell.Board, cells: seq<int>): (r: Cell.Board)
    requires Cell.Shaped(g) && Within(cells, CellCount)
    ensures Cell.Shaped(r)
  {
    if cells == [] then g
    else VisitUnsolved(UnsolvedVisits(g, cells[..|cells| - 1]), cells[|cells| - 1])
  }

  /** The unsolved-cell pass: a visit to every cell unsolved at the start, in index order. */
  function UnsolvedPass(g: Cell.Board): (r: Cell.Board)
    requires Cell.Shaped(g)
    ensures Cell.Shaped(r)
  {
    UnsolvedVisits(g, CellsWhere(g, false, CellCount))
  }

  /** Drops k from a list of container indices. */
  function Without(s: seq<int>, k: int): (r: seq<int>)
    ensures |r| <= |s|
  {
    if s == [] then []
    else (if s[0] != k then [s[0]] else []) + Without(s[1..], k)
  }

  /** The three containers of k's band: k/3*3 and the two after it. */
  function Band(k: int): seq<int>
  {
    var start := k / 3 * 3;
    [start, start + 1, start + 2]
  }

  /** The other two containers of k's band, in index order. */
  function SiblingIndices(k: int): seq<int>
  {
    Without(Band(k), k)
  }

  /** Dropping one of three consecutive indices leaves the other two, in order. */
  lemma WithoutOneOfThree(start: int, k: int)
    requires start <= k < start + 3
    ensures Without([start, start + 1, start + 2], k) ==
      if k == start then [start + 1, start + 2]
      else if k == start + 1 then [start, start + 2]
      else [start, start + 1]
  {
    var b := [start, start + 1, start + 2];
    assert b[1..] == [start + 1, start + 2] && b[1..][1..] == [start + 2] && b[1..][1..][1..] == [];
    var last := Without(b[1..][1..], k);
    assert last == (if start + 2 != k then [start + 2] else []) + Without([], k);
    var rest := Without(b[1..], k);
    assert rest == (if start + 1 != k then [start + 1] else []) + last;
    assert Without(b, k) == (if start != k then [start] else []) + rest;
  }

  /** A container's siblings are exactly the two other containers of its band of three. */
  lemma SiblingIndicesExact(k: int)
    requires 0 <= k < Size
    ensures var s := SiblingIndices(k);
      && |s| == 2 && s[0] < s[1]
      && (forall x :: x in s <==> 0 <= x < Size && x / 3 == k / 3 && x != k)
  {
    var b := k / 3;
    BandOf(k, b);
    WithoutOneOfThree(3 * b, k);
    forall x
      ensures x in SiblingIndices(k) <==> 0 <= x < Size && x / 3 == b && x != k
    {
      WithoutHas(Band(k), k, x);
      InBand(x, b);
    }
  }

  /** The band of container k in 0..8 is 3b, 3b+1, 3b+2 for b = k / 3, with k among them. */
  lemma BandOf(k: int, b: int)
    requires 0 <= k < Size && b == k / 3
    ensures 0 <= b < 3 && 3 * b <= k < 3 * b + 3
    ensures Band(k) == [3 * b, 3 * b + 1, 3 * b + 2]
  {
    InBand(k, b);
  }

  lemma {:induction false} WithoutHas(s: seq<int>, k: int, x: int)
    ensures x in Without(s, k) <==> x in s && x != k
  {
    if s != [] {
      WithoutHas(s[1..], k, x);
      assert s == [s[0]] + s[1..];
    }
  }

  /** x lies in band b (x / 3 == b) exactly when 3b <= x < 3b + 3. */
  lemma InBand(x: int, b: int)
    ensures x / 3 == b <==> 3 * b <= x < 3 * b + 3
  {
    assert x == 3 * (x / 3) + x % 3 && 0 <= x % 3 < 3;
    if 3 * b <= x < 3 * b + 3 {
      assert x - 3 * b == x % 3 + 3 * (x / 3 - b);
    }
  }

  /** The member lists of the given containers of one kind. */
  function MembersOf(kind: Kind, ks: seq<int>): (r: seq<seq<int>>)
    ensures |r| == |ks| && forall j :: 0 <= j < |ks| ==> r[j] == Members(kind, ks[j])
    ensures forall c :: c in r ==> Within(c, CellCount)
  {
    seq(|ks|, j requires 0 <= j < |ks| => Members(kind, ks[j]))
  }

  /** The member lists of the two sibling containers of container k. */
  function SiblingMembers(kind: Kind, k: int): (r: seq<seq<int>>)
    ensures forall c :: c in r ==> Within(c, CellCount)
  {
    MembersOf(kind, SiblingIndices(k))
  }

  /** One visit of the solved-cell pass: band-forced placement in the line, column and box bands of cell i. */
  function VisitSolved(g: Cell.Board, i: int): (r: Cell.Board)
    requires Cell.Shaped(g) && 0 <= i < CellCount
    ensures Cell.Shaped(r)
  {
    var inLines := Cell.SolveFor(g, i, SiblingMembers(Line, LineOf(i)));
    var inColumns := Cell.SolveFor(inLines, i, SiblingMembers(Column, ColumnOf(i)));
    Cell.SolveFor(inColumns, i, SiblingMembers(Box, BoxOf(i)))
  }

  function SolvedVisits(g: Cell.Board, cells: seq<int>): (r: Cell.Board)
    requires Cell.Shaped(g) && Within(cells, CellCount)
    ensures Cell.Shaped(r)
  {
    if cells == [] then g
    else VisitSolved(SolvedVisits(g, cells[..|cells| - 1]), cells[|cells| - 1])
  }

  /** The solved-cell pass: a visit to every cell solved at the start, in index order. */
  function SolvedPass(g: Cell.Board): (r: Cell.Board)
    requires Cell.Shaped(g)
    ensures Cell.Shaped(r)
  {
    SolvedVisits(g, CellsWhere(g, true, CellCount))
  }

  /** Whether every flag is set (isSolved over the cells' solved flags). */
  function AllTrue(s: seq<bool>): bool
  {
    if s == [] then true else s[0] && AllTrue(s[1..])
  }

  /** isSolved holds exactly when every cell is solved. */
  lemma {:induction false} AllTrueMeans(s: seq<bool>)
    ensures AllTrue(s) <==> forall j :: 0 <= j < |s| ==> s[j]
  {
    if s != [] {
      AllTrueMeans(s[1..]);
      assert forall j :: 1 <= j < |s| ==> s[j] == s[1..][j - 1];
    }
  }

  /** One round of the solve loop: the unsolved-cell pass, then the solved-cell pass unless the grid is solved. */
  function Round(g: Cell.Board): (r: Cell.Board)
    requires Cell.Shaped(g)
    ensures Cell.Shaped(r)
  {
    var h := UnsolvedPass(g);
    if AllTrue(h.solved) then h else SolvedPass(h)
  }

  const MaxPasses := 1000

  /**
   * The solve loop from a board and a pass count: the final board and pass
   * count. It stops once the grid is solved or MaxPasses passes have run.
   */
  function Solution(g: Cell.Board, passes: int): (r: (Cell.Board, int))
    requires Cell.Shaped(g)
    ensures Cell.Shaped(r.0)
    ensures AllTrue(r.0.solved) || r.1 >= MaxPasses
    ensures passes <= r.1 && (passes <= MaxPasses ==> r.1 <= MaxPasses)
    decreases MaxPasses - passes, 1
  {
    if AllTrue(g.solved) || passes >= MaxPasses then (g, passes)
    else NextRound(g, passes)
  }

  /** The rest of the solve loop once another round is due: that round, then the loop from there. */
  function NextRound(g: Cell.Board, passes: int): (r: (Cell.Board, int))
    requires Cell.Shaped(g) && passes < MaxPasses
    ensures Cell.Shaped(r.0)
    ensures AllTrue(r.0.solved) || r.1 >= MaxPasses
    ensures passes < r.1 <= MaxPasses
    decreases MaxPasses - passes, 0
  {
    Solution(Round(g), passes + 1)
  }

  // ---------------------------------------------------------------------
  // Properties of the passes

  lemma VisitUnsolvedKeeps(g: Cell.Board, i: int)
    requires Cell.WellFormed(g) && 0 <= i < CellCount
    ensures var r := VisitUnsolved(g, i);
      && Cell.WellFormed(r) && Cell.Extends(g, r)
      && (forall j :: 0 <= j < CellCount && j != i ==>
            r.value[j] == g.value[j] && r.solved[j] == g.solved[j] && r.cannotBe[j] == g.cannotBe[j])
  {
    var h := Cell.UpdateCannotBe(g, i);
    Cell.UpdateCannotBeKeeps(g, i);
    Cell.UpdateCannotBeExact(g, i, 0);
    Cell.CheckCanBeSolvedKeeps(h, i);
    Cell.ExtendsTransitive(g, h, VisitUnsolved(g, i));
  }

  /** The unsolved-cell visits keep the board well formed and never undo anything. */
  lemma {:induction false} UnsolvedVisitsKeep(g: Cell.Board, cells: seq<int>)
    requires Cell.WellFormed(g) && Within(cells, CellCount)
    ensures var r := UnsolvedVisits(g, cells);
      Cell.WellFormed(r) && Cell.Extends(g, r)
  {
    if cells != [] {
      var prefix := cells[..|cells| - 1];
      var h := UnsolvedVisits(g, prefix);
      UnsolvedVisitsKeep(g, prefix);
      VisitUnsolvedKeeps(h, cells[|cells| - 1]);
      Cell.ExtendsTransitive(g, h, UnsolvedVisits(g, cells));
    }
  }

  /** A cell the unsolved-cell visits do not reach is left exactly as it was. */
  lemma {:induction false} UnsolvedVisitsSkip(g: Cell.Board, cells: seq<int>, j: int)
    requires Cell.WellFormed(g) && Within(cells, CellCount)
    requires 0 <= j < CellCount && j !in cells
    ensures var r := UnsolvedVisits(g, cells);
      r.value[j] == g.value[j] && r.solved[j] == g.solved[j] && r.cannotBe[j] == g.cannotBe[j]
  {
    if cells != [] {
      var prefix := cells[..|cells| - 1];
      assert j !in prefix;
      UnsolvedVisitsSkip(g, prefix, j);
      UnsolvedVisitsKeep(g, prefix);
      VisitUnsolvedKeeps(UnsolvedVisits(g, prefix), cells[|cells| - 1]);
    }
  }

  lemma VisitUnsolvedGrows(g: Cell.Board, i: int, m: int)
    requires Cell.WellFormed(g) && 0 <= i < CellCount && 0 <= m < CellCount
    ensures g.cannotBe[m] <= VisitUnsolved(g, i).cannotBe[m]
  {
    VisitUnsolvedKeeps(g, i);
  }

  /** A visit to cell i leaves it excluding every non-zero value one of its peers holds. */
  lemma VisitUnsolvedExcludes(g: Cell.Board, i: int, j: int)
    requires Cell.WellFormed(g) && 0 <= i < CellCount
    requires 0 <= j < CellCount && Cell.Peers(i, j) && g.value[j] != 0
    ensures g.value[j] in VisitUnsolved(g, i).cannotBe[i]
  {
    Cell.UpdateCannotBeExact(g, i, g.value[j]);
    Cell.UpdateCannotBeKeeps(g, i);
    Cell.CheckCanBeSolvedKeeps(Cell.UpdateCannotBe(g, i), i);
  }

  /**
   * Every visited cell ends the unsolved-cell visits excluding every
   * non-zero value its line, column and box held when they began.
   */
  lemma {:induction false} UnsolvedVisitsExclude(g: Cell.Board, cells: seq<int>, i: int, j: int)
    requires Cell.WellFormed(g) && Within(cells, CellCount)
    requires i in cells && 0 <= j < CellCount && Cell.Peers(i, j) && g.value[j] != 0
    ensures g.value[j] in UnsolvedVisits(g, cells).cannotBe[i]
  {
    var prefix := cells[..|cells| - 1];
    var last := cells[|cells| - 1];
    if i == last {
      LastVisitExcludes(g, prefix, i, j);
    } else {
      assert cells == prefix + [last];
      assert i in prefix;
      UnsolvedVisitsExclude(g, prefix, i, j);
      LaterVisitKeepsExclusion(g, prefix, last, i, g.value[j]);
    }
    assert UnsolvedVisits(g, cells) == VisitUnsolved(UnsolvedVisits(g, prefix), last);
  }

  lemma LastVisitExcludes(g: Cell.Board, prefix: seq<int>, i: int, j: int)
    requires Cell.WellFormed(g) && Within(prefix, CellCount) && 0 <= i < CellCount
    requires 0 <= j < CellCount && Cell.Peers(i, j) && g.value[j] != 0
    ensures g.value[j] in VisitUnsolved(UnsolvedVisits(g, prefix), i).cannotBe[i]
  {
    var h := UnsolvedVisits(g, prefix);
    UnsolvedVisitsKeep(g, prefix);
    assert h.value[j] == g.value[j];
    VisitUnsolvedExcludes(h, i, j);
  }

  lemma LaterVisitKeepsExclusion(g: Cell.Board, prefix: seq<int>, last: int, i: int, v: int)
    requires Cell.WellFormed(g) && Within(prefix, CellCount) && 0 <= last < CellCount && 0 <= i < CellCount
    requires v in UnsolvedVisits(g, prefix).cannotBe[i]
    ensures v in VisitUnsolved(UnsolvedVisits(g, prefix), last).cannotBe[i]
  {
    var h := UnsolvedVisits(g, prefix);
    UnsolvedVisitsKeep(g, prefix);
    VisitUnsolvedGrows(h, last, i);
  }

  lemma VisitSolvedKeeps(g: Cell.Board, i: int)
    requires Cell.WellFormed(g) && 0 <= i < CellCount
    ensures var r := VisitSolved(g, i);
      Cell.WellFormed(r) && Cell.Extends(g, r) && r.cannotBe == g.cannotBe
  {
    var inLines := Cell.SolveFor(g, i, SiblingMembers(Line, LineOf(i)));
    var inColumns := Cell.SolveFor(inLines, i, SiblingMembers(Column, ColumnOf(i)));
    Cell.SolveForKeeps(g, i, SiblingMembers(Line, LineOf(i)));
    Cell.SolveForKeeps(inLines, i, SiblingMembers(Column, ColumnOf(i)));
    Cell.SolveForKeeps(inColumns, i, SiblingMembers(Box, BoxOf(i)));
    Cell.ExtendsTransitive(g, inLines, inColumns);
    Cell.ExtendsTransitive(g, inColumns, VisitSolved(g, i));
  }

  /** The solved-cell visits keep the board well formed, never undo anything and leave every exclusion alone. */
  lemma {:induction false} SolvedVisitsKeep(g: Cell.Board, cells: seq<int>)
    requires Cell.WellFormed(g) && Within(cells, CellCount)
    ensures var r := SolvedVisits(g, cells);
      Cell.WellFormed(r) && Cell.Extends(g, r) && r.cannotBe == g.cannotBe
  {
    if cells != [] {
      var prefix := cells[..|cells| - 1];
      var h := SolvedVisits(g, prefix);
      SolvedVisitsKeep(g, prefix);
      VisitSolvedKeeps(h, cells[|cells| - 1]);
      Cell.ExtendsTransitive(g, h, SolvedVisits(g, cells));
    }
  }

  /**
   * The unsolved-cell pass: the board stays well formed, solved cells keep
   * their values, exclusions only grow, cells solved at the start are
   * untouched, and every cell unsolved at the start now excludes the
   * non-zero values its peers held at the start.
   */
  lemma UnsolvedPassFacts(g: Cell.Board)
    requires Cell.WellFormed(g)
    ensures var r := UnsolvedPass(g);
      && Cell.WellFormed(r) && Cell.Extends(g, r)
      && (forall j :: 0 <= j < CellCount && g.solved[j] ==> r.cannotBe[j] == g.cannotBe[j])
      && (forall i, j :: 0 <= i < CellCount && !g.solved[i] && 0 <= j < CellCount && Cell.Peers(i, j) && g.value[j] != 0
            ==> g.value[j] in r.cannotBe[i])
  {
    var cells := CellsWhere(g, false, CellCount);
    UnsolvedVisitsKeep(g, cells);
    forall j | 0 <= j < CellCount && g.solved[j]
      ensures UnsolvedPass(g).cannotBe[j] == g.cannotBe[j]
    {
      CellsWhereHas(g, false, CellCount, j);
      UnsolvedVisitsSkip(g, cells, j);
    }
    forall i, j | 0 <= i < CellCount && !g.solved[i] && 0 <= j < CellCount && Cell.Peers(i, j) && g.value[j] != 0
      ensures g.value[j] in UnsolvedPass(g).cannotBe[i]
    {
      CellsWhereHas(g, false, CellCount, i);
      UnsolvedVisitsExclude(g, cells, i, j);
    }
  }

  /** The solved-cell pass keeps the board well formed, never undoes anything and changes no exclusion. */
  lemma SolvedPassFacts(g: Cell.Board)
    requires Cell.WellFormed(g)
    ensures var r := SolvedPass(g);
      Cell.WellFormed(r) && Cell.Extends(g, r) && r.cannotBe == g.cannotBe
  {
    SolvedVisitsKeep(g, CellsWhere(g, true, CellCount));
  }

  lemma RoundKeeps(g: Cell.Board)
    requires Cell.WellFormed(g)
    ensures Cell.WellFormed(Round(g)) && Cell.Extends(g, Round(g))
  {
    var h := UnsolvedPass(g);
    UnsolvedPassFacts(g);
    if !AllTrue(h.solved) {
      SolvedPassFacts(h);
      Cell.ExtendsTransitive(g, h, Round(g));
    }
  }

  /**
   * Solving keeps the board well formed and monotone: a placed value is
   * never changed or removed and no exclusion is dropped.
   */
  lemma {:induction false} SolutionKeeps(g: Cell.Board, passes: int)
    requires Cell.WellFormed(g)
    ensures var r := Solution(g, passes).0;
      Cell.WellFormed(r) && Cell.Extends(g, r)
    decreases MaxPasses - passes
  {
    if !AllTrue(g.solved) && passes < MaxPasses {
      var h := Round(g);
      RoundKeeps(g);
      SolutionKeeps(h, passes + 1);
      assert Solution(g, passes) == NextRound(g, passes) == Solution(h, passes + 1);
      var r := Solution(h, passes + 1).0;
      Cell.ExtendsTransitive(g, h, r);
    } else {
      SolutionStops(g, passes);
      Cell.ExtendsReflexive(g);
    }
  }

  lemma SolutionStops(g: Cell.Board, passes: int)
    requires Cell.Shaped(g) && (AllTrue(g.solved) || passes >= MaxPasses)
    ensures Solution(g, passes) == (g, passes)
  {
  }

  /** One more round while the grid is unsolved and passes remain. */
  lemma SolutionStep(g: Cell.Board, passes: int)
    requires Cell.Shaped(g) && !AllTrue(g.solved) && passes < MaxPasses
    ensures Solution(g, passes) == Solution(Round(g), passes + 1)
  {
    assert Solution(g, passes) == NextRound(g, passes);
  }

  /** The visits to a prefix one longer: the visit to the next cell after the shorter prefix. */
  lemma UnsolvedVisitsSnoc(g: Cell.Board, cells: seq<int>, j: int)
    requires Cell.Shaped(g) && Within(cells, CellCount) && 0 <= j < |cells|
    ensures UnsolvedVisits(g, cells[..j + 1]) == VisitUnsolved(UnsolvedVisits(g, cells[..j]), cells[j])
  {
    assert cells[..j + 1][..j] == cells[..j];
  }

  lemma SolvedVisitsSnoc(g: Cell.Board, cells: seq<int>, j: int)
    requires Cell.Shaped(g) && Within(cells, CellCount) && 0 <= j < |cells|
    ensures SolvedVisits(g, cells[..j + 1]) == VisitSolved(SolvedVisits(g, cells[..j]), cells[j])
  {
    assert cells[..j + 1][..j] == cells[..j];
  }

  // ---------------------------------------------------------------------
  // The all-blank grid

  /** Every cell blank, unsolved and excluding nothing: the board built from an all-zero seed. */
  ghost predicate Blank(g: Cell.Board)
  {
    && Cell.Shaped(g)
    && forall i :: 0 <= i < CellCount ==> g.value[i] == 0 && !g.solved[i] && g.cannotBe[i] == {}
  }

  /** On a blank board every member of a container is a candidate for every value. */
  lemma {:induction false} BlankCandidates(g: Cell.Board, members: seq<int>, v: int)
    requires Blank(g) && Within(members, CellCount)
    ensures Cell.PossibleCells(g, members, v) == members
  {
    if members != [] {
      BlankCandidates(g, members[1..], v);
      assert members == [members[0]] + members[1..];
    }
  }

  /** No value is a hidden single on a blank board: each container offers nine candidates. */
  lemma BlankNoSole(g: Cell.Board, i: int, v: int)
    requires Blank(g) && 0 <= i < CellCount
    ensures !Cell.SoleIn(g, i, v)
  {
    forall kind: Kind
      ensures Cell.PossibleCells(g, Cell.OwnMembers(kind, i), v) != [i]
    {
      IndexInRange(kind, i);
      MembersExact(kind, IndexOf(kind, i));
      BlankCandidates(g, Cell.OwnMembers(kind, i), v);
    }
  }

  /** A visit of the unsolved-cell pass leaves a blank board as it is. */
  lemma BlankVisit(g: Cell.Board, i: int)
    requires Blank(g) && 0 <= i < CellCount
    ensures VisitUnsolved(g, i) == g
  {
    forall x | x in Cell.PeerValues(g, i)
      ensures x == 0
    {
      Cell.PeerValuesHas(g, i, x);
    }
    assert (g.cannotBe[i] + Cell.PeerValues(g, i)) - {0} == {};
    assert g.cannotBe[i := {}] == g.cannotBe;
    assert Cell.UpdateCannotBe(g, i) == g;
    Cell.HiddenSingleRule(g, i);
    Cell.FirstSoleIsLeast(g, i, 1);
    forall w | 1 <= w <= 9
      ensures !Cell.SoleIn(g, i, w)
    {
      BlankNoSole(g, i, w);
    }
  }

  lemma {:induction false} BlankVisits(g: Cell.Board, cells: seq<int>)
    requires Blank(g) && Within(cells, CellCount)
    ensures UnsolvedVisits(g, cells) == g
  {
    if cells != [] {
      BlankVisits(g, cells[..|cells| - 1]);
      BlankVisit(g, cells[|cells| - 1]);
    }
  }

  /** A round of the solve loop changes nothing on a blank board. */
  lemma BlankRound(g: Cell.Board)
    requires Blank(g)
    ensures Round(g) == g && Blank(Round(g)) && !AllTrue(g.solved)
  {
    BlankVisits(g, CellsWhere(g, false, CellCount));
    AllTrueMeans(g.solved);
  }

  /** From a blank board the loop runs to the pass limit and leaves the board blank. */
  lemma {:induction false} BlankSolution(g: Cell.Board, passes: int)
    requires Blank(g) && passes <= MaxPasses
    ensures Blank(Solution(g, passes).0) && Solution(g, passes).1 == MaxPasses
    decreases MaxPasses - passes
  {
    BlankRound(g);
    if passes < MaxPasses {
      SolutionStep(g, passes);
      BlankSolution(Round(g), passes + 1);
    } else {
      SolutionStops(g, passes);
    }
  }

  /** There is only one blank board. */
  lemma BlankUnique(g: Cell.Board, h: Cell.Board)
    requires Blank(g) && Blank(h)
    ensures g == h
  {
    assert g.value == h.value;
    assert g.solved == h.solved;
    assert g.cannotBe == h.cannotBe;
  }

  /** An all-zero seed is never solved: solve stops at the pass limit with every cell still blank. */
  lemma EmptySeedNeverSolved()
    ensures var g := Cell.NewBoard(seq(CellCount, i => 0));
      Solution(g, 0) == (g, MaxPasses) && !AllTrue(g.solved)
  {
    var g := Cell.NewBoard(seq(CellCount, i => 0));
    BlankSolution(g, 0);
    BlankUnique(g, Solution(g, 0).0);
    BlankRound(g);
  }

  /** A seed without a blank gives a solved grid, on which solve runs no pass. */
  lemma FullSeedSolved(seed: seq<int>)
    requires |seed| == CellCount && forall i :: 0 <= i < |seed| ==> 1 <= seed[i] <= 9
    ensures var g := Cell.NewBoard(seed);
      AllTrue(g.solved) && Solution(g, 0) == (g, 0)
  {
    var g := Cell.NewBoard(seed);
    AllTrueMeans(g.solved);
    SolutionStops(g, 0);
  }

  // ---------------------------------------------------------------------
  // Containers as objects

  /** The member lists of the given containers, in order. */
  function CellLists(cs: seq<CellContainer>): (r: seq<seq<int>>)
    reads cs
    ensures |r| == |cs| && forall j :: 0 <= j < |cs| ==> r[j] == cs[j].cells
  {
    if cs == [] then [] else [cs[0].cells] + CellLists(cs[1..])
  }

  /** The containers of `cs` with no member holding v (the filter in solveFor). */
  function Lacking(cs: seq<CellContainer>, vals: seq<int>, v: int): (r: seq<CellContainer>)
    reads cs
    requires forall c :: c in cs ==> Within(c.cells, |vals|)
    ensures forall c :: c in r ==> c in cs && v !in ValuesOf(c.cells, vals)
  {
    if cs == [] then []
    else
      assert cs[0] in cs;
      (if !cs[0].HasCellWithValue(vals, v) then [cs[0]] else []) + Lacking(cs[1..], vals, v)
  }

  /** Filtering the objects and filtering their member lists agree. */
  lemma {:induction false} LackingLists(g: Cell.Board, cs: seq<CellContainer>, v: int)
    requires Cell.Shaped(g) && forall c :: c in cs ==> Within(c.cells, CellCount)
    ensures CellLists(Lacking(cs, g.value, v)) == Cell.ContainersWithoutValue(g, CellLists(cs), v)
  {
    if cs != [] {
      LackingLists(g, cs[1..], v);
      assert CellLists(cs)[1..] == CellLists(cs[1..]);
      var head := if !cs[0].HasCellWithValue(g.value, v) then [cs[0]] else [];
      assert CellLists(head + Lacking(cs[1..], g.value, v)) == CellLists(head) + CellLists(Lacking(cs[1..], g.value, v));
    }
  }

  /** The containers of `cs` whose index is not k, in order. */
  function OtherThan(cs: seq<CellContainer>, k: int): (r: seq<CellContainer>)
  {
    if cs == [] then []
    else (if cs[0].GetIndex() != k then [cs[0]] else []) + OtherThan(cs[1..], k)
  }

  /** The containers of one kind, at their own indices, holding the cells among 0..n-1 that belong to them. */
  ghost predicate Building(cs: seq<CellContainer>, kind: Kind, n: nat)
    reads cs
  {
    && |cs| == Size
    && forall k :: 0 <= k < Size ==> cs[k].kind == kind && cs[k].index == k && cs[k].cells == MembersUpTo(kind, k, n)
  }

  /** getSiblings: the containers of k's band of three, other than k itself. */
  function GetSiblings(containers: seq<CellContainer>, k: int): seq<CellContainer>
    requires 0 <= k < Size && |containers| == Size
  {
    var start := k / 3 * 3;
    OtherThan(containers[start..start + 3], k)
  }

  /** The containers at the given positions, in the given order. */
  function Pick(cs: seq<CellContainer>, ks: seq<int>): (r: seq<CellContainer>)
    requires Within(ks, |cs|)
    ensures |r| == |ks| && forall j :: 0 <= j < |ks| ==> r[j] == cs[ks[j]]
  {
    seq(|ks|, j requires 0 <= j < |ks| => cs[ks[j]])
  }

  lemma {:induction false} WithoutWithin(ks: seq<int>, k: int, n: int)
    requires Within(ks, n)
    ensures Within(Without(ks, k), n)
  {
    if ks != [] {
      WithoutWithin(ks[1..], k, n);
    }
  }

  /** On containers listed at their own indices, filtering out index k commutes with picking. */
  lemma {:induction false} OtherThanPick(cs: seq<CellContainer>, ks: seq<int>, k: int)
    requires Within(ks, |cs|) && forall j :: 0 <= j < |cs| ==> cs[j].index == j
    ensures Within(Without(ks, k), |cs|)
    ensures OtherThan(Pick(cs, ks), k) == Pick(cs, Without(ks, k))
  {
    WithoutWithin(ks, k, |cs|);
    if ks != [] {
      OtherThanPick(cs, ks[1..], k);
      var p := Pick(cs, ks);
      assert p[0] == cs[ks[0]] && p[1..] == Pick(cs, ks[1..]);
      var rest := Without(ks[1..], k);
      if ks[0] != k {
        assert Without(ks, k) == [ks[0]] + rest;
        assert Pick(cs, Without(ks, k)) == [cs[ks[0]]] + Pick(cs, rest);
      } else {
        assert Without(ks, k) == rest;
      }
    }
  }

  lemma PickLists(cs: seq<CellContainer>, kind: Kind, ks: seq<int>)
    requires WellIndexed(cs, kind) && Within(ks, Size)
    ensures forall c :: c in Pick(cs, ks) ==> Within(c.cells, CellCount)
    ensures CellLists(Pick(cs, ks)) == MembersOf(kind, ks)
  {
  }

  /** The three-container slice getSiblings starts from is the band of k. */
  lemma SliceIsBand(cs: seq<CellContainer>, k: int)
    requires 0 <= k < Size && |cs| == Size
    ensures Within(Band(k), Size)
    ensures cs[k / 3 * 3..k / 3 * 3 + 3] == Pick(cs, Band(k))
  {
    var start := k / 3 * 3;
    assert 0 <= k / 3 < 3;
    assert cs[start..start + 3] == [cs[start], cs[start + 1], cs[start + 2]];
  }

  /**
   * On the containers of one kind, listed in index order, getSiblings
   * yields the two other containers of k's band, in index order: their
   * member lists are the sibling members of k.
   */
  lemma GetSiblingsExact(containers: seq<CellContainer>, kind: Kind, k: int)
    requires 0 <= k < Size && WellIndexed(containers, kind)
    ensures var r := GetSiblings(containers, k);
      && (forall c :: c in r ==> Within(c.cells, CellCount))
      && CellLists(r) == SiblingMembers(kind, k)
  {
    SliceIsBand(containers, k);
    OtherThanPick(containers, Band(k), k);
    PickLists(containers, kind, SiblingIndices(k));
  }

  /** Container k of a kind, listed at position k, with the members the constructor gives it. */
  ghost predicate WellIndexed(cs: seq<CellContainer>, kind: Kind)
    reads cs
  {
    Building(cs, kind, CellCount)
  }

  /**
   * Linking cell i to its container k of one kind (setSudokuLine,
   * setSudokuColumn, setSudokuBox): the container appends the cell.
   */
  method Attach(cs: seq<CellContainer>, kind: Kind, k: int, i: int)
    requires 0 <= i < CellCount && k == IndexOf(kind, i) && Building(cs, kind, i)
    modifies cs[k]
    ensures Building(cs, kind, i + 1)
  {
    IndexInRange(kind, i);
    cs[k].AddCell(i);
  }

  /**
   * Linking a new cell i to its line, column and box (the chained setters
   * in the constructor): each of the three containers appends it.
   */
  method LinkCell(ls: seq<CellContainer>, cs: seq<CellContainer>, bs: seq<CellContainer>, line: int, column: int, box: int, i: int)
    requires 0 <= i < CellCount && line == LineOf(i) && column == ColumnOf(i) && box == BoxOf(i)
    requires Building(ls, Line, i) && Building(cs, Column, i) && Building(bs, Box, i)
    modifies ls, cs, bs
    ensures Building(ls, Line, i + 1) && Building(cs, Column, i + 1) && Building(bs, Box, i + 1)
  {
    Attach(ls, Line, line, i);
    Attach(cs, Column, column, i);
    Attach(bs, Box, box, i);
  }

  /** The first loop of the constructor: nine empty lines, columns and boxes, indexed 0..8. */
  method NewContainers() returns (ls: seq<CellContainer>, cs: seq<CellContainer>, bs: seq<CellContainer>)
    ensures Building(ls, Line, 0) && Building(cs, Column, 0) && Building(bs, Box, 0)
    ensures forall k :: 0 <= k < Size ==> fresh(ls[k]) && fresh(cs[k]) && fresh(bs[k])
  {
    ls, cs, bs := [], [], [];
    for k := 0 to Size
      invariant |ls| == k && |cs| == k && |bs| == k
      invariant forall j :: 0 <= j < k ==>
        && fresh(ls[j]) && ls[j].kind == Line && ls[j].index == j && ls[j].cells == []
        && fresh(cs[j]) && cs[j].kind == Column && cs[j].index == j && cs[j].cells == []
        && fresh(bs[j]) && bs[j].kind == Box && bs[j].index == j && bs[j].cells == []
    {
      var line := new CellContainer(Line, k);
      var column := new CellContainer(Column, k);
      var box := new CellContainer(Box, k);
      ls, cs, bs := ls + [line], cs + [column], bs + [box];
    }
  }

  /**
   * The second loop of the constructor: every cell index appended to its
   * line i/9, column i%9 and box (i%9)/3 + (i/9)/3*3.
   */
  method LinkContainers() returns (ls: seq<CellContainer>, cs: seq<CellContainer>, bs: seq<CellContainer>)
    ensures WellIndexed(ls, Line) && WellIndexed(cs, Column) && WellIndexed(bs, Box)
    ensures forall k :: 0 <= k < Size ==> fresh(ls[k]) && fresh(cs[k]) && fresh(bs[k])
  {
    ls, cs, bs := NewContainers();
    for i := 0 to CellCount
      invariant Building(ls, Line, i) && Building(cs, Column, i) && Building(bs, Box, i)
      invariant forall k :: 0 <= k < Size ==> fresh(ls[k]) && fresh(cs[k]) && fresh(bs[k])
    {
      var line := i / 9;
      var column := i % 9;
      var box := column / 3 + line / 3 * 3;
      LinkCell(ls, cs, bs, line, column, box, i);
    }
  }

  /**
   * The cells built from a seed, one per entry (new SudokuCell(index,
   * value)): a cell is solved exactly when its value is non-zero, and
   * excludes nothing yet.
   */
  method NewCells(seed: seq<int>) returns (value: array<int>, solved: array<bool>, cannotBe: array<set<int>>)
    requires |seed| == CellCount
    ensures fresh(value) && fresh(solved) && fresh(cannotBe)
    ensures value.Length == CellCount && solved.Length == CellCount && cannotBe.Length == CellCount
    ensures Cell.Board(value[..], solved[..], cannotBe[..]) == Cell.NewBoard(seed)
  {
    value := new int[CellCount](i requires 0 <= i < CellCount => seed[i]);
    solved := new bool[CellCount](i requires 0 <= i < CellCount => seed[i] != 0);
    cannotBe := new set<int>[CellCount](i => {});
    assert value[..] == seed;
    assert solved[..] == Cell.NewBoard(seed).solved;
    assert cannotBe[..] == Cell.NewBoard(seed).cannotBe;
  }

  /** Adding the line's, then the column's, then the box's values adds the peer values. */
  lemma RefreshRegroup(g: Cell.Board, i: int, excluded: set<int>)
    requires Cell.Shaped(g) && 0 <= i < CellCount
    requires excluded == g.cannotBe[i]
      + Cell.Elements(ValuesOf(Cell.OwnMembers(Line, i), g.value))
      + Cell.Elements(ValuesOf(Cell.OwnMembers(Column, i), g.value))
      + Cell.Elements(ValuesOf(Cell.OwnMembers(Box, i), g.value))
    ensures excluded == g.cannotBe[i] + Cell.PeerValues(g, i)
  {
  }

  /**
   * The puzzle. The fields of the 81 cells are held side by side in three
   * arrays indexed by cell; each container lists its cells by index.
   */
  class SudokuPuzzle {
    const value: array<int>
    const solved: array<bool>
    const cannotBe: array<set<int>>
    const lines: seq<CellContainer>
    const columns: seq<CellContainer>
    const boxes: seq<CellContainer>
    var passes: int

    /** The current fields of all cells. */
    function State(): Cell.Board
      reads this, value, solved, cannotBe
    {
      Cell.Board(value[..], solved[..], cannotBe[..])
    }

    ghost predicate Valid()
      reads this, value, solved, cannotBe, lines, columns, boxes
    {
      && value.Length == CellCount && solved.Length == CellCount && cannotBe.Length == CellCount
      && WellIndexed(lines, Line) && WellIndexed(columns, Column) && WellIndexed(boxes, Box)
      && Cell.WellFormed(State())
      && 0 <= passes <= MaxPasses
    }

    /**
     * Builds the 27 containers, then one cell per seed entry, appending cell
     * i to line i/9, column i%9 and box (i%9)/3 + (i/9)/3*3.
     */
    constructor (seed: seq<int>)
      requires |seed| == CellCount && forall i :: 0 <= i < |seed| ==> 0 <= seed[i] <= 9
      ensures Valid() && State() == Cell.NewBoard(seed) && passes == 0
    {
      var vs, ss, xs := NewCells(seed);
      var ls, cs, bs := LinkContainers();
      value, solved, cannotBe := vs, ss, xs;
      lines, columns, boxes := ls, cs, bs;
      passes := 0;
      new;
      Cell.NewBoardWellFormed(seed);
    }

    /** solveWithValue: places v in cell i unless the cell is already solved. */
    method SolveWithValue(i: int, v: int)
      requires Valid() && 0 <= i < CellCount && 1 <= v <= 9
      modifies value, solved
      ensures Valid()
      ensures State() == Cell.SolveWithValue(old(State()), i, v)
    {
      if solved[i] {
        return;
      }
      Cell.SolveWithValueKeeps(State(), i, v);
      value[i] := v;
      solved[i] := true;
    }

    /**
     * The values updateCannotBe gathers for cell i: its exclusions, then
     * every value of its line, its column and its box, one container at a time.
     */
    method GatherExclusions(i: int) returns (excluded: set<int>)
      requires Valid() && 0 <= i < CellCount
      ensures excluded == cannotBe[i] + Cell.PeerValues(State(), i)
    {
      IndexInRange(Line, i);
      IndexInRange(Column, i);
      IndexInRange(Box, i);
      var vals := value[..];
      excluded := cannotBe[i];
      excluded := Cell.AddAll(excluded, lines[LineOf(i)].GetValues(vals));
      excluded := Cell.AddAll(excluded, columns[ColumnOf(i)].GetValues(vals));
      excluded := Cell.AddAll(excluded, boxes[BoxOf(i)].GetValues(vals));
      assert lines[LineOf(i)].cells == Cell.OwnMembers(Line, i);
      assert columns[ColumnOf(i)].cells == Cell.OwnMembers(Column, i);
      assert boxes[BoxOf(i)].cells == Cell.OwnMembers(Box, i);
      RefreshRegroup(State(), i, excluded);
    }

    /** updateCannotBe: adds the gathered values to the cell's exclusions, then drops 0. */
    method UpdateCannotBe(i: int)
      requires Valid() && 0 <= i < CellCount
      modifies cannotBe
      ensures Valid()
      ensures State() == Cell.UpdateCannotBe(old(State()), i)
    {
      var excluded := GatherExclusions(i);
      Cell.UpdateCannotBeKeeps(State(), i);
      SetCannotBe(i, excluded - {0});
    }

    /** Assigns the exclusions of cell i; the result must keep the board well formed. */
    method SetCannotBe(i: int, excluded: set<int>)
      requires Valid() && 0 <= i < CellCount
      requires Cell.WellFormed(State().(cannotBe := State().cannotBe[i := excluded]))
      modifies cannotBe
      ensures Valid()
      ensures State() == old(State()).(cannotBe := old(State()).cannotBe[i := excluded])
    {
      cannotBe[i] := excluded;
    }

    /**
     * solveForContainer: when exactly one member of the container can take v
     * (and it is cellToSolve, if one is named), that member gets v.
     */
    method SolveForContainer(container: CellContainer, v: int, cellToSolve: Cell.Option<int>)
      requires Valid() && Within(container.cells, CellCount)
      requires 1 <= v <= 9 || Cell.PossibleCells(State(), container.cells, v) == []
      modifies value, solved
      ensures Valid()
      ensures State() == Cell.SolveForContainer(old(State()), container.cells, v, cellToSolve)
    {
      var possible := Cell.PossibleCells(State(), container.GetCells(), v);
      if |possible| == 1 && (cellToSolve.None? || cellToSolve.value in possible) {
        SolveWithValue(possible[0], v);
      }
    }

    /**
     * solveFor: when exactly one of the containers holds no cell with this
     * cell's value, place that value there if only one cell can take it.
     */
    method SolveFor(i: int, containers: seq<CellContainer>)
      requires Valid() && 0 <= i < CellCount
      requires forall c :: c in containers ==> Within(c.cells, CellCount)
      modifies value, solved
      ensures Valid()
      ensures State() == Cell.SolveFor(old(State()), i, old(CellLists(containers)))
    {
      var v := value[i];
      var without := Lacking(containers, value[..], v);
      LackingLists(State(), containers, v);
      if |without| != 1 {
        return;
      }
      var container := without[0];
      assert container in without;
      if v == 0 {
        Cell.NoCandidatesWhenFull(State(), container.cells, v);
      }
      SolveForContainer(container, v, Cell.None);
    }

    /**
     * checkCanBeSolved: nothing for a solved cell; with exactly eight
     * exclusions, the first value not excluded; otherwise, for each value
     * not excluded, try the line, the column and the box with this cell named.
     */
    method CheckCanBeSolved(i: int)
      requires Valid() && 0 <= i < CellCount
      modifies value, solved
      ensures Valid()
      ensures State() == Cell.CheckCanBeSolved(old(State()), i)
    {
      if solved[i] {
        return;
      }
      ghost var g := State();
      if |cannotBe[i]| == 8 {
        var v := 1;
        while v < 10
          invariant 1 <= v <= 10
          invariant Cell.FirstMissing(cannotBe[i], v) == Cell.FirstMissing(cannotBe[i], 1)
          decreases 10 - v
        {
          if v !in cannotBe[i] {
            Cell.CheckCanBeSolvedKeeps(g, i);
            value[i] := v;
            solved[i] := true;
            return;
          }
          v := v + 1;
        }
      } else {
        IndexInRange(Line, i);
        IndexInRange(Column, i);
        IndexInRange(Box, i);
        var excluded := cannotBe[i];
        var v := 1;
        while v < 10
          invariant 1 <= v <= 10 && Valid()
          invariant Cell.HiddenSingleFrom(State(), i, v) == Cell.HiddenSingleFrom(g, i, 1)
          decreases 10 - v
        {
          if v !in excluded {
            SolveForContainer(lines[LineOf(i)], v, Cell.Some(i));
            SolveForContainer(columns[ColumnOf(i)], v, Cell.Some(i));
            SolveForContainer(boxes[BoxOf(i)], v, Cell.Some(i));
          }
          v := v + 1;
        }
      }
    }

    /** isSolved: every cell is solved. */
    function IsSolved(): (r: bool)
      reads this, solved
      ensures r <==> forall j :: 0 <= j < solved.Length ==> solved[j]
    {
      AllTrueMeans(solved[..]);
      AllTrue(solved[..])
    }

    /** The step unsolvedCellPass takes for one cell: updateCannotBe, then checkCanBeSolved. */
    method VisitUnsolvedCell(i: int)
      requires Valid() && 0 <= i < CellCount
      modifies value, solved, cannotBe
      ensures Valid()
      ensures State() == VisitUnsolved(old(State()), i)
    {
      UpdateCannotBe(i);
      CheckCanBeSolved(i);
    }

    /**
     * unsolvedCellPass: for each cell unsolved when the pass begins, in index
     * order, refresh its exclusions and then try to resolve it.
     */
    method UnsolvedCellPass()
      requires Valid()
      modifies value, solved, cannotBe
      ensures Valid()
      ensures State() == UnsolvedPass(old(State()))
    {
      ghost var g := State();
      var unsolved := CellsWhere(State(), false, CellCount);
      for j := 0 to |unsolved|
        invariant Valid()
        invariant State() == UnsolvedVisits(g, unsolved[..j])
      {
        UnsolvedVisitsSnoc(g, unsolved, j);
        VisitUnsolvedCell(unsolved[j]);
      }
      assert unsolved[..|unsolved|] == unsolved;
    }

    /** solveFor applied to getSiblings of container k: the sibling members of k. */
    method SolveForSiblings(i: int, containers: seq<CellContainer>, kind: Kind, k: int)
      requires Valid() && 0 <= i < CellCount && 0 <= k < Size && WellIndexed(containers, kind)
      modifies value, solved
      ensures Valid()
      ensures State() == Cell.SolveFor(old(State()), i, SiblingMembers(kind, k))
    {
      GetSiblingsExact(containers, kind, k);
      SolveFor(i, GetSiblings(containers, k));
    }

    /**
     * The step solvedCellPass takes for one cell: solveFor over the sibling
     * lines, then the sibling columns, then the sibling boxes.
     */
    method VisitSolvedCell(i: int)
      requires Valid() && 0 <= i < CellCount
      modifies value, solved
      ensures Valid()
      ensures State() == VisitSolved(old(State()), i)
    {
      IndexInRange(Line, i);
      IndexInRange(Column, i);
      IndexInRange(Box, i);
      SolveForSiblings(i, lines, Line, LineOf(i));
      SolveForSiblings(i, columns, Column, ColumnOf(i));
      SolveForSiblings(i, boxes, Box, BoxOf(i));
    }

    /**
     * solvedCellPass: for each cell solved when the pass begins, in index
     * order, band-forced placement in its line, column and box siblings.
     */
    method SolvedCellPass()
      requires Valid()
      modifies value, solved
      ensures Valid()
      ensures State() == SolvedPass(old(State()))
    {
      ghost var g := State();
      var placed := CellsWhere(State(), true, CellCount);
      for j := 0 to |placed|
        invariant Valid()
        invariant State() == SolvedVisits(g, placed[..j])
      {
        SolvedVisitsSnoc(g, placed, j);
        VisitSolvedCell(placed[j]);
      }
      assert placed[..|placed|] == placed;
    }

    /** One round of solve's loop: the unsolved-cell pass, then the solved-cell pass unless the grid is solved. */
    method SolveRound()
      requires Valid()
      modifies value, solved, cannotBe
      ensures Valid()
      ensures State() == Round(old(State()))
    {
      UnsolvedCellPass();
      if !IsSolved() {
        SolvedCellPass();
      }
    }

    /** The pass counter's increment at the end of each round. */
    method NextPass()
      requires Valid() && passes < MaxPasses
      modifies this
      ensures Valid() && passes == old(passes) + 1 && State() == old(State())
    {
      passes := passes + 1;
    }

    /** One iteration of solve's loop: a round, then the pass counter. */
    method SolveStep()
      requires Valid() && !IsSolved() && passes < MaxPasses
      modifies this, value, solved, cannotBe
      ensures Valid() && passes == old(passes) + 1
      ensures State() == Round(old(State()))
    {
      SolveRound();
      NextPass();
    }

    /**
     * solve: alternate the two passes until the grid is solved or 1000
     * passes have run; the solved-cell pass is skipped once the grid is solved.
     */
    method Solve()
      requires Valid()
      modifies this, value, solved, cannotBe
      ensures Valid()
      ensures (State(), passes) == Solution(old(State()), old(passes))
      ensures IsSolved() || passes == MaxPasses
      ensures old(IsSolved()) ==> State() == old(State()) && passes == old(passes)
      ensures Cell.Extends(old(State()), State())
    {
      ghost var g0, p0 := State(), passes;
      SolutionKeeps(g0, p0);
      if AllTrue(g0.solved) {
        SolutionStops(g0, p0);
      }
      while !IsSolved() && passes < MaxPasses
        invariant Valid()
        invariant Solution(State(), passes) == Solution(g0, p0)
        decreases MaxPasses - passes
      {
        ghost var g, p := State(), passes;
        SolveStep();
        SolutionStep(g, p);
      }
      SolutionStops(State(), passes);
    }
  }
}

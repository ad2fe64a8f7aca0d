/**
 * The rules of a single cell, stated over the whole grid: the fields of the
 * 81 cells are kept side by side in a Board (an arena indexed by cell), so
 * that a cell's line, column and box are reached through Geometry.Members.
 * Each function here is the specification that the corresponding method of
 * Puzzle.SudokuPuzzle is proved to implement.
 */
module Cell {
  import opened Geometry
  import opened Container

  datatype Option<T> = None | Some(value: T)

  /**
   * value[i] is 0 for a blank cell and 1..9 for a placed one; solved[i] says
   * whether the cell is solved; cannotBe[i] holds the values known to be
   * impossible for it.
   */
  datatype Board = Board(value: seq<int>, solved: seq<bool>, cannotBe: seq<set<int>>)

  /** The values a cell can take (the source's POSSIBLE_VALUES). */
  const Digits: set<int> := {1, 2, 3, 4, 5, 6, 7, 8, 9}

  predicate Shaped(g: Board)
  {
    |g.value| == CellCount && |g.solved| == CellCount && |g.cannotBe| == CellCount
  }

  /**
   * What holds of every board the solver reaches: a cell is solved exactly
   * when it holds a value 1..9, and only values 1..9 are ever excluded.
   */
  ghost predicate WellFormed(g: Board)
  {
    && Shaped(g)
    && (forall i :: 0 <= i < CellCount ==> 0 <= g.value[i] <= 9 && (g.solved[i] <==> g.value[i] != 0))
    && (forall i :: 0 <= i < CellCount ==> g.cannotBe[i] <= Digits)
  }

  /**
   * h is a later state of g: no solved cell became unsolved or changed its
   * value, and no exclusion was dropped.
   */
  ghost predicate Extends(g: Board, h: Board)
    requires Shaped(g) && Shaped(h)
  {
    forall i :: 0 <= i < CellCount ==>
      && (g.solved[i] ==> h.solved[i] && h.value[i] == g.value[i])
      && g.cannotBe[i] <= h.cannotBe[i]
  }

  lemma ExtendsReflexive(g: Board)
    requires Shaped(g)
    ensures Extends(g, g)
  {
  }

  lemma ExtendsTransitive(g: Board, h: Board, k: Board)
    requires Shaped(g) && Shaped(h) && Shaped(k)
    requires Extends(g, h) && Extends(h, k)
    ensures Extends(g, k)
  {
  }

  /** Fresh cells built from a seed: solved exactly where the seed is non-zero, nothing excluded. */
  function NewBoard(seed: seq<int>): (r: Board)
    requires |seed| == CellCount
    ensures Shaped(r)
  {
    Board(seed,
          seq(CellCount, i requires 0 <= i < CellCount => seed[i] != 0),
          seq(CellCount, i => {}))
  }

  /** A fresh cell is solved exactly when its seed value is non-zero and excludes nothing. */
  lemma NewBoardWellFormed(seed: seq<int>)
    requires |seed| == CellCount && forall i :: 0 <= i < |seed| ==> 0 <= seed[i] <= 9
    ensures var r := NewBoard(seed);
      && WellFormed(r)
      && forall i :: 0 <= i < CellCount ==> r.value[i] == seed[i] && (r.solved[i] <==> seed[i] != 0) && r.cannotBe[i] == {}
  {
  }

  predicate CanBe(g: Board, i: int, v: int)
    requires Shaped(g) && 0 <= i < CellCount
  {
    !g.solved[i] && v !in g.cannotBe[i]
  }

  /** Places v in cell i unless the cell is already solved. */
  function SolveWithValue(g: Board, i: int, v: int): (r: Board)
    requires Shaped(g) && 0 <= i < CellCount
    ensures Shaped(r)
  {
    if g.solved[i] then g
    else g.(value := g.value[i := v], solved := g.solved[i := true])
  }

  /**
   * A placement never overwrites a solved cell, touches no other cell and no
   * exclusion, and keeps the board well formed when the value is 1..9.
   */
  lemma SolveWithValueKeeps(g: Board, i: int, v: int)
    requires WellFormed(g) && 0 <= i < CellCount && 1 <= v <= 9
    ensures var r := SolveWithValue(g, i, v);
      && WellFormed(r) && Extends(g, r) && r.cannotBe == g.cannotBe
      && (g.solved[i] ==> r == g)
      && (!g.solved[i] ==> r.value[i] == v && r.solved[i])
      && (forall j :: 0 <= j < CellCount && j != i ==> r.value[j] == g.value[j] && r.solved[j] == g.solved[j])
  {
  }

  /** The cells of the given kind's container that holds cell i. */
  function OwnMembers(kind: Kind, i: int): (r: seq<int>)
    ensures Within(r, CellCount)
  {
    Members(kind, IndexOf(kind, i))
  }

  /** Cell m is in cell i's container of the given kind exactly when it has the same index there. */
  lemma OwnMembersHas(kind: Kind, i: int, m: int)
    ensures m in OwnMembers(kind, i) <==> 0 <= m < CellCount && IndexOf(kind, m) == IndexOf(kind, i)
  {
    MembersUpToHas(kind, IndexOf(kind, i), CellCount);
  }

  function Elements(s: seq<int>): set<int>
  {
    set x | x in s
  }

  /** The values currently held in cell i's line, column and box (0 included). */
  function PeerValues(g: Board, i: int): set<int>
    requires Shaped(g) && 0 <= i < CellCount
  {
    Elements(ValuesOf(OwnMembers(Line, i), g.value))
      + Elements(ValuesOf(OwnMembers(Column, i), g.value))
      + Elements(ValuesOf(OwnMembers(Box, i), g.value))
  }

  /** Cell j shares a line, a column or a box with cell i. */
  predicate Peers(i: int, j: int)
  {
    LineOf(i) == LineOf(j) || ColumnOf(i) == ColumnOf(j) || BoxOf(i) == BoxOf(j)
  }

  /**
   * Exclusion refresh: the values of the cell's line, column and box are
   * added to its exclusions and 0 is dropped.
   */
  function UpdateCannotBe(g: Board, i: int): (r: Board)
    requires Shaped(g) && 0 <= i < CellCount
    ensures Shaped(r)
  {
    g.(cannotBe := g.cannotBe[i := (g.cannotBe[i] + PeerValues(g, i)) - {0}])
  }

  lemma ValuesOfHas(members: seq<int>, vals: seq<int>, x: int)
    requires Within(members, |vals|)
    ensures x in ValuesOf(members, vals) <==> exists m :: m in members && vals[m] == x
  {
    var r := ValuesOf(members, vals);
    if x in r {
      var j :| 0 <= j < |r| && r[j] == x;
      assert members[j] in members;
    }
    if exists m :: m in members && vals[m] == x {
      var m :| m in members && vals[m] == x;
      var j :| 0 <= j < |members| && members[j] == m;
      assert r[j] == x;
    }
  }

  /** The values in cell i's container of one kind are those of the cells sharing that index. */
  lemma KindValuesHas(g: Board, kind: Kind, i: int, x: int)
    requires Shaped(g) && 0 <= i < CellCount
    ensures x in Elements(ValuesOf(OwnMembers(kind, i), g.value)) <==>
      exists j :: 0 <= j < CellCount && IndexOf(kind, j) == IndexOf(kind, i) && g.value[j] == x
  {
    ValuesOfHas(OwnMembers(kind, i), g.value, x);
    if x in ValuesOf(OwnMembers(kind, i), g.value) {
      var m :| m in OwnMembers(kind, i) && g.value[m] == x;
      OwnMembersHas(kind, i, m);
    }
    if exists j :: 0 <= j < CellCount && IndexOf(kind, j) == IndexOf(kind, i) && g.value[j] == x {
      var j :| 0 <= j < CellCount && IndexOf(kind, j) == IndexOf(kind, i) && g.value[j] == x;
      OwnMembersHas(kind, i, j);
    }
  }

  lemma PeerValuesHas(g: Board, i: int, x: int)
    requires Shaped(g) && 0 <= i < CellCount
    ensures x in PeerValues(g, i) <==> exists j :: 0 <= j < CellCount && Peers(i, j) && g.value[j] == x
  {
    KindValuesHas(g, Line, i, x);
    KindValuesHas(g, Column, i, x);
    KindValuesHas(g, Box, i, x);
  }

  /**
   * After a refresh, cell i excludes exactly its old exclusions and every
   * non-zero value held by one of its peers; no other cell changes.
   */
  lemma UpdateCannotBeExact(g: Board, i: int, x: int)
    requires Shaped(g) && 0 <= i < CellCount
    ensures var r := UpdateCannotBe(g, i);
      && (x in r.cannotBe[i] <==>
            x != 0 && (x in g.cannotBe[i] || exists j :: 0 <= j < CellCount && Peers(i, j) && g.value[j] == x))
      && r.value == g.value && r.solved == g.solved
      && (forall j :: 0 <= j < CellCount && j != i ==> r.cannotBe[j] == g.cannotBe[j])
  {
    PeerValuesHas(g, i, x);
  }

  /** Exclusions only grow under a refresh, and stay within 1..9. */
  lemma UpdateCannotBeKeeps(g: Board, i: int)
    requires WellFormed(g) && 0 <= i < CellCount
    ensures var r := UpdateCannotBe(g, i);
      WellFormed(r) && Extends(g, r) && g.cannotBe[i] <= r.cannotBe[i]
  {
    var p := PeerValues(g, i);
    PeerValuesRange(g, i);
    GrownExclusions(g.cannotBe[i], p);
    ReplaceExclusions(g, i, (g.cannotBe[i] + p) - {0});
  }

  /** Adding values 0..9 to an exclusion set and dropping 0 keeps it within 1..9. */
  lemma GrownExclusions(s: set<int>, p: set<int>)
    requires s <= Digits && forall x :: x in p ==> 0 <= x <= 9
    ensures s <= (s + p) - {0} <= Digits
  {
    assert 0 !in s;
    forall x | x in (s + p) - {0}
      ensures x in Digits
    {
      assert 1 <= x <= 9;
    }
  }

  lemma ReplaceExclusions(g: Board, i: int, excluded: set<int>)
    requires WellFormed(g) && 0 <= i < CellCount && excluded <= Digits
    ensures WellFormed(g.(cannotBe := g.cannotBe[i := excluded]))
  {
  }

  /** In a well-formed board every peer value is 0..9. */
  lemma PeerValuesRange(g: Board, i: int)
    requires WellFormed(g) && 0 <= i < CellCount
    ensures forall x :: x in PeerValues(g, i) ==> 0 <= x <= 9
  {
    forall x | x in PeerValues(g, i)
      ensures 0 <= x <= 9
    {
      PeerValuesHas(g, i, x);
    }
  }

  /** A second refresh with nothing changed in between leaves the exclusions as they are. */
  lemma UpdateCannotBeIdempotent(g: Board, i: int)
    requires Shaped(g) && 0 <= i < CellCount
    ensures UpdateCannotBe(UpdateCannotBe(g, i), i) == UpdateCannotBe(g, i)
  {
    var r := UpdateCannotBe(g, i);
    assert r.value == g.value;
    assert PeerValues(r, i) == PeerValues(g, i);
    var a := (g.cannotBe[i] + PeerValues(g, i)) - {0};
    assert (a + PeerValues(g, i)) - {0} == a;
    assert UpdateCannotBe(r, i).cannotBe == r.cannotBe;
  }

  /**
   * The naked-single scan: the first value from `from` up to 9 that is not
   * excluded.
   */
  function FirstMissing(excluded: set<int>, from: int): Option<int>
    decreases 10 - from
  {
    if from > 9 then None
    else if from !in excluded then Some(from)
    else FirstMissing(excluded, from + 1)
  }

  lemma {:induction false} FirstMissingIsLeast(excluded: set<int>, from: int)
    ensures match FirstMissing(excluded, from)
      case Some(v) => from <= v <= 9 && v !in excluded && forall w :: from <= w < v ==> w in excluded
      case None => forall w :: from <= w <= 9 ==> w in excluded
    decreases 10 - from
  {
    if from <= 9 && from in excluded {
      FirstMissingIsLeast(excluded, from + 1);
    }
  }

  lemma DigitsCount()
    ensures |Digits| == 9
  {
  }

  /**
   * With exactly eight of the values 1..9 excluded, the naked-single scan
   * finds a value, and it is the only value left.
   */
  lemma NakedSingleUnique(excluded: set<int>)
    requires excluded <= Digits && |excluded| == 8
    ensures FirstMissing(excluded, 1).Some?
    ensures var v := FirstMissing(excluded, 1).value;
      v in Digits && v !in excluded && forall w :: w in Digits && w !in excluded ==> w == v
  {
    DigitsCount();
    var left := Digits - excluded;
    assert Digits * excluded == excluded;
    assert Digits + excluded == Digits;
    assert |left| == 1;
    var v :| v in left;
    assert |left - {v}| == 0;
    assert left - {v} == {};
    FirstMissingIsLeast(excluded, 1);
  }

  /** The cells of `members`, in member order, that can take v. */
  function PossibleCells(g: Board, members: seq<int>, v: int): (r: seq<int>)
    requires Shaped(g) && Within(members, CellCount)
    ensures Within(r, CellCount) && |r| <= |members|
  {
    if members == [] then []
    else (if CanBe(g, members[0], v) then [members[0]] else []) + PossibleCells(g, members[1..], v)
  }

  /** The candidates are exactly the members that can take v. */
  lemma {:induction false} PossibleCellsHas(g: Board, members: seq<int>, v: int, x: int)
    requires Shaped(g) && Within(members, CellCount)
    ensures x in PossibleCells(g, members, v) <==> x in members && 0 <= x < CellCount && CanBe(g, x, v)
  {
    if members != [] {
      PossibleCellsHas(g, members[1..], v, x);
      assert members == [members[0]] + members[1..];
    }
  }

  /** Filtering keeps the members' order. */
  lemma {:induction false} PossibleCellsIncreasing(g: Board, members: seq<int>, v: int)
    requires Shaped(g) && Within(members, CellCount) && Increasing(members)
    ensures Increasing(PossibleCells(g, members, v))
  {
    if members != [] {
      var rest := PossibleCells(g, members[1..], v);
      PossibleCellsIncreasing(g, members[1..], v);
      PossibleCellsAbove(g, members[1..], v, members[0]);
      assert PossibleCells(g, members, v) == (if CanBe(g, members[0], v) then [members[0]] else []) + rest;
    }
  }

  /** Candidates drawn from members above a bound are above it too. */
  lemma {:induction false} PossibleCellsAbove(g: Board, members: seq<int>, v: int, bound: int)
    requires Shaped(g) && Within(members, CellCount)
    requires forall j :: 0 <= j < |members| ==> bound < members[j]
    ensures forall j :: 0 <= j < |PossibleCells(g, members, v)| ==> bound < PossibleCells(g, members, v)[j]
  {
    if members != [] {
      PossibleCellsAbove(g, members[1..], v, bound);
    }
  }

  /** Cell j is a member that can take v, and no other member can. */
  predicate OnlyCandidate(g: Board, members: seq<int>, v: int, j: int)
    requires Shaped(g)
  {
    && j in members && 0 <= j < CellCount && CanBe(g, j, v)
    && forall m :: m in members && 0 <= m < CellCount && CanBe(g, m, v) ==> m == j
  }

  /** The candidate list of a container (without repeats) is [i] exactly when i is its only candidate. */
  lemma SoleCandidate(g: Board, members: seq<int>, v: int, i: int)
    requires Shaped(g) && Within(members, CellCount) && Increasing(members)
    ensures PossibleCells(g, members, v) == [i] <==> OnlyCandidate(g, members, v, i)
  {
    var p := PossibleCells(g, members, v);
    forall x
      ensures x in p <==> x in members && 0 <= x < CellCount && CanBe(g, x, v)
    {
      PossibleCellsHas(g, members, v, x);
    }
    if OnlyCandidate(g, members, v, i) {
      PossibleCellsIncreasing(g, members, v);
      IncreasingUnique(p, [i]);
    }
  }

  /**
   * The source's solveForContainer: if exactly one member of the container
   * can take v (and, when a cell to solve is named, it is that cell), that
   * member gets v.
   */
  function SolveForContainer(g: Board, members: seq<int>, v: int, cellToSolve: Option<int>): (r: Board)
    requires Shaped(g) && Within(members, CellCount)
    ensures Shaped(r)
  {
    var possible := PossibleCells(g, members, v);
    if |possible| == 1 && (cellToSolve.None? || cellToSolve.value in possible) then
      SolveWithValue(g, possible[0], v)
    else g
  }

  /** With this cell named, the call places v in cell i exactly when i is the container's only candidate. */
  lemma SolveForContainerNamed(g: Board, members: seq<int>, v: int, i: int)
    requires Shaped(g) && Within(members, CellCount) && 0 <= i < CellCount
    ensures SolveForContainer(g, members, v, Some(i)) ==
      if PossibleCells(g, members, v) == [i] then SolveWithValue(g, i, v) else g
    ensures g.solved[i] ==> SolveForContainer(g, members, v, Some(i)) == g
  {
    var p := PossibleCells(g, members, v);
    if |p| == 1 && i in p {
      assert p == [i];
    }
  }

  /** With no cell named, v is placed in the only candidate if there is exactly one, and nowhere otherwise. */
  lemma SolveForContainerUnnamed(g: Board, members: seq<int>, v: int)
    requires Shaped(g) && Within(members, CellCount) && Increasing(members)
    ensures forall j :: OnlyCandidate(g, members, v, j) ==>
      SolveForContainer(g, members, v, None) == SolveWithValue(g, j, v)
    ensures (forall j :: !OnlyCandidate(g, members, v, j)) ==> SolveForContainer(g, members, v, None) == g
  {
    var p := PossibleCells(g, members, v);
    forall j | OnlyCandidate(g, members, v, j)
      ensures SolveForContainer(g, members, v, None) == SolveWithValue(g, j, v)
    {
      SoleCandidate(g, members, v, j);
    }
    if |p| == 1 {
      assert p == [p[0]];
      SoleCandidate(g, members, v, p[0]);
    }
  }

  /** One value of the hidden-single scan: try cell i's line, then its column, then its box. */
  function HiddenSingleStep(g: Board, i: int, v: int): (r: Board)
    requires Shaped(g) && 0 <= i < CellCount
    ensures Shaped(r)
  {
    var inLine := SolveForContainer(g, OwnMembers(Line, i), v, Some(i));
    var inColumn := SolveForContainer(inLine, OwnMembers(Column, i), v, Some(i));
    SolveForContainer(inColumn, OwnMembers(Box, i), v, Some(i))
  }

  /** The hidden-single scan over the values from v up to 9 that cell i does not exclude. */
  function HiddenSingleFrom(g: Board, i: int, v: int): (r: Board)
    requires Shaped(g) && 0 <= i < CellCount
    ensures Shaped(r)
    decreases 10 - v
  {
    if v > 9 then g
    else if v in g.cannotBe[i] then HiddenSingleFrom(g, i, v + 1)
    else HiddenSingleFrom(HiddenSingleStep(g, i, v), i, v + 1)
  }

  /** v is not excluded for cell i and i is the only cell that can take v in one of its containers. */
  predicate SoleIn(g: Board, i: int, v: int)
    requires Shaped(g) && 0 <= i < CellCount
  {
    && v !in g.cannotBe[i]
    && (|| PossibleCells(g, OwnMembers(Line, i), v) == [i]
        || PossibleCells(g, OwnMembers(Column, i), v) == [i]
        || PossibleCells(g, OwnMembers(Box, i), v) == [i])
  }

  /** The first value from v up to 9 that is a hidden single for cell i. */
  function FirstSole(g: Board, i: int, v: int): Option<int>
    requires Shaped(g) && 0 <= i < CellCount
    decreases 10 - v
  {
    if v > 9 then None
    else if SoleIn(g, i, v) then Some(v)
    else FirstSole(g, i, v + 1)
  }

  lemma {:induction false} FirstSoleIsLeast(g: Board, i: int, v: int)
    requires Shaped(g) && 0 <= i < CellCount
    ensures match FirstSole(g, i, v)
      case Some(w) => v <= w <= 9 && SoleIn(g, i, w) && forall u :: v <= u < w ==> !SoleIn(g, i, u)
      case None => forall u :: v <= u <= 9 ==> !SoleIn(g, i, u)
    decreases 10 - v
  {
    if v <= 9 && !SoleIn(g, i, v) {
      FirstSoleIsLeast(g, i, v + 1);
    }
  }

  lemma HiddenSingleStepEffect(g: Board, i: int, v: int)
    requires Shaped(g) && 0 <= i < CellCount
    ensures g.solved[i] ==> HiddenSingleStep(g, i, v) == g
    ensures !g.solved[i] && v !in g.cannotBe[i] ==>
      HiddenSingleStep(g, i, v) == if SoleIn(g, i, v) then SolveWithValue(g, i, v) else g
  {
    var inLine := SolveForContainer(g, OwnMembers(Line, i), v, Some(i));
    var inColumn := SolveForContainer(inLine, OwnMembers(Column, i), v, Some(i));
    SolveForContainerNamed(g, OwnMembers(Line, i), v, i);
    SolveForContainerNamed(inLine, OwnMembers(Column, i), v, i);
    SolveForContainerNamed(inColumn, OwnMembers(Box, i), v, i);
  }

  /**
   * The hidden-single scan assigns cell i at most one value: the first one,
   * in ascending order, that is a hidden single for it; a solved cell is left
   * as it is.
   */
  lemma {:induction false} HiddenSingleFromResult(g: Board, i: int, v: int)
    requires Shaped(g) && 0 <= i < CellCount
    ensures g.solved[i] ==> HiddenSingleFrom(g, i, v) == g
    ensures !g.solved[i] ==>
      (HiddenSingleFrom(g, i, v) ==
         match FirstSole(g, i, v)
         case Some(w) => SolveWithValue(g, i, w)
         case None => g)
    decreases 10 - v
  {
    if v <= 9 {
      if v in g.cannotBe[i] {
        HiddenSingleFromResult(g, i, v + 1);
      } else {
        var h := HiddenSingleStep(g, i, v);
        HiddenSingleStepEffect(g, i, v);
        HiddenSingleFromResult(h, i, v + 1);
        if !g.solved[i] && !SoleIn(g, i, v) {
          assert h == g;
        }
      }
    }
  }

  /**
   * Resolution of cell i: nothing if it is solved; the naked single when
   * exactly eight values are excluded; the hidden-single scan otherwise.
   */
  function CheckCanBeSolved(g: Board, i: int): (r: Board)
    requires Shaped(g) && 0 <= i < CellCount
    ensures Shaped(r)
  {
    if g.solved[i] then g
    else if |g.cannotBe[i]| == 8 then
      match FirstMissing(g.cannotBe[i], 1)
      case Some(v) => SolveWithValue(g, i, v)
      case None => g
    else HiddenSingleFrom(g, i, 1)
  }

  /** The naked single: eight exclusions place the one value left. */
  lemma NakedSingleRule(g: Board, i: int)
    requires WellFormed(g) && 0 <= i < CellCount
    requires !g.solved[i] && |g.cannotBe[i]| == 8
    ensures exists v ::
      && v in Digits && v !in g.cannotBe[i]
      && (forall w :: w in Digits && w !in g.cannotBe[i] ==> w == v)
      && CheckCanBeSolved(g, i) == SolveWithValue(g, i, v)
  {
    NakedSingleUnique(g.cannotBe[i]);
    var v := FirstMissing(g.cannotBe[i], 1).value;
    assert CheckCanBeSolved(g, i) == SolveWithValue(g, i, v);
  }

  /** Otherwise cell i gets the first hidden single, if any. */
  lemma HiddenSingleRule(g: Board, i: int)
    requires Shaped(g) && 0 <= i < CellCount
    requires !g.solved[i] && |g.cannotBe[i]| != 8
    ensures CheckCanBeSolved(g, i) ==
      match FirstSole(g, i, 1)
      case Some(w) => SolveWithValue(g, i, w)
      case None => g
  {
    HiddenSingleFromResult(g, i, 1);
  }

  /** A cell that excludes all of 1..9 is not assigned anything. */
  lemma FullyExcludedUnchanged(g: Board, i: int)
    requires WellFormed(g) && 0 <= i < CellCount
    requires Digits <= g.cannotBe[i]
    ensures CheckCanBeSolved(g, i) == g
  {
    assert g.cannotBe[i] == Digits;
    DigitsCount();
    HiddenSingleFromResult(g, i, 1);
    FirstSoleIsLeast(g, i, 1);
  }

  /**
   * Resolution changes at most cell i, only if it was unsolved, and only by
   * placing a value 1..9; exclusions are untouched.
   */
  lemma CheckCanBeSolvedKeeps(g: Board, i: int)
    requires WellFormed(g) && 0 <= i < CellCount
    ensures var r := CheckCanBeSolved(g, i);
      && WellFormed(r) && Extends(g, r) && r.cannotBe == g.cannotBe
      && (r == g || (!g.solved[i] && exists v :: v in Digits && r == SolveWithValue(g, i, v)))
  {
    if g.solved[i] {
      ExtendsReflexive(g);
    } else if |g.cannotBe[i]| == 8 {
      NakedSingleKeeps(g, i);
    } else {
      HiddenSingleKeeps(g, i);
    }
  }

  lemma NakedSingleKeeps(g: Board, i: int)
    requires WellFormed(g) && 0 <= i < CellCount
    requires !g.solved[i] && |g.cannotBe[i]| == 8
    ensures exists v :: v in Digits && CheckCanBeSolved(g, i) == SolveWithValue(g, i, v)
    ensures var r := CheckCanBeSolved(g, i);
      WellFormed(r) && Extends(g, r) && r.cannotBe == g.cannotBe
  {
    NakedSingleRule(g, i);
    var v :| v in Digits && CheckCanBeSolved(g, i) == SolveWithValue(g, i, v);
    SolveWithValueKeeps(g, i, v);
  }

  lemma HiddenSingleKeeps(g: Board, i: int)
    requires WellFormed(g) && 0 <= i < CellCount
    requires !g.solved[i] && |g.cannotBe[i]| != 8
    ensures var r := CheckCanBeSolved(g, i);
      && WellFormed(r) && Extends(g, r) && r.cannotBe == g.cannotBe
      && (r == g || exists v :: v in Digits && r == SolveWithValue(g, i, v))
  {
    HiddenSingleRule(g, i);
    FirstSoleRange(g, i, 1);
    PlacementKeeps(g, i, FirstSole(g, i, 1));
  }

  /** Placing a found digit, or nothing, keeps the board well formed and changes no exclusion. */
  lemma PlacementKeeps(g: Board, i: int, found: Option<int>)
    requires WellFormed(g) && 0 <= i < CellCount
    requires found.Some? ==> 1 <= found.value <= 9
    ensures var r := match found
        case Some(w) => SolveWithValue(g, i, w)
        case None => g;
      && WellFormed(r) && Extends(g, r) && r.cannotBe == g.cannotBe
      && (r == g || exists v :: v in Digits && r == SolveWithValue(g, i, v))
  {
    match found
    case Some(w) =>
      SolveWithValueKeeps(g, i, w);
      assert w in Digits;
    case None =>
      ExtendsReflexive(g);
  }

  /** A value found by the scan from v lies between v and 9. */
  lemma {:induction false} FirstSoleRange(g: Board, i: int, v: int)
    requires Shaped(g) && 0 <= i < CellCount
    ensures FirstSole(g, i, v).Some? ==> v <= FirstSole(g, i, v).value <= 9
    decreases 10 - v
  {
    if v <= 9 && !SoleIn(g, i, v) {
      FirstSoleRange(g, i, v + 1);
    }
  }

  /** The member lists of `cs` that hold no cell with value v, in order (the filter in solveFor). */
  function ContainersWithoutValue(g: Board, cs: seq<seq<int>>, v: int): (r: seq<seq<int>>)
    requires Shaped(g) && forall c :: c in cs ==> Within(c, CellCount)
    ensures forall c :: c in r ==> c in cs && v !in ValuesOf(c, g.value)
    ensures forall c :: c in cs && v !in ValuesOf(c, g.value) ==> c in r
  {
    if cs == [] then []
    else
      assert cs[0] in cs;
      (if v !in ValuesOf(cs[0], g.value) then [cs[0]] else []) + ContainersWithoutValue(g, cs[1..], v)
  }

  /** Position k is the only one among `cs` whose list holds no cell with value v. */
  predicate SoleLacking(g: Board, cs: seq<seq<int>>, v: int, k: int)
    requires Shaped(g) && forall c :: c in cs ==> Within(c, CellCount)
  {
    && 0 <= k < |cs|
    && v !in ValuesOf(cs[k], g.value)
    && forall k' :: 0 <= k' < |cs| && v !in ValuesOf(cs[k'], g.value) ==> k' == k
  }

  /** The filter in solveFor keeps nothing exactly when every list holds a cell with the value. */
  lemma ContainersWithoutValueEmpty(g: Board, cs: seq<seq<int>>, v: int)
    requires Shaped(g) && forall c :: c in cs ==> Within(c, CellCount)
    ensures ContainersWithoutValue(g, cs, v) == [] <==>
      forall k :: 0 <= k < |cs| ==> v in ValuesOf(cs[k], g.value)
  {
    var r := ContainersWithoutValue(g, cs, v);
    if r != [] {
      assert r[0] in r;
    }
  }

  /** The filter in solveFor keeps exactly one list only when exactly one position lacks the value. */
  lemma {:induction false} ContainersWithoutValueOne(g: Board, cs: seq<seq<int>>, v: int)
    requires Shaped(g) && forall c :: c in cs ==> Within(c, CellCount)
    ensures |ContainersWithoutValue(g, cs, v)| == 1 ==> exists k :: SoleLacking(g, cs, v, k)
  {
    if cs != [] && |ContainersWithoutValue(g, cs, v)| == 1 {
      var rest := cs[1..];
      assert forall c :: c in rest ==> c in cs;
      assert forall k' :: 0 <= k' < |rest| ==> rest[k'] == cs[k' + 1];
      assert cs[0] in cs;
      if v !in ValuesOf(cs[0], g.value) {
        ContainersWithoutValueEmpty(g, rest, v);
        assert SoleLacking(g, cs, v, 0);
      } else {
        ContainersWithoutValueOne(g, rest, v);
        var k :| SoleLacking(g, rest, v, k);
        assert SoleLacking(g, cs, v, k + 1);
      }
    }
  }

  /** When exactly one position lacks the value, the filter in solveFor keeps that position's list alone. */
  lemma {:induction false} ContainersWithoutValueSole(g: Board, cs: seq<seq<int>>, v: int, k: int)
    requires Shaped(g) && forall c :: c in cs ==> Within(c, CellCount)
    requires SoleLacking(g, cs, v, k)
    ensures ContainersWithoutValue(g, cs, v) == [cs[k]]
  {
    var rest := cs[1..];
    assert forall c :: c in rest ==> c in cs;
    assert forall k' :: 0 <= k' < |rest| ==> rest[k'] == cs[k' + 1];
    assert cs[0] in cs;
    if k == 0 {
      ContainersWithoutValueEmpty(g, rest, v);
    } else {
      ContainersWithoutValueSole(g, rest, v, k - 1);
    }
  }

  /**
   * Band-forced placement by solved cell i: if exactly one of the given
   * containers lacks i's value and exactly one of its cells can take that
   * value, that cell gets it.
   */
  function SolveFor(g: Board, i: int, cs: seq<seq<int>>): (r: Board)
    requires Shaped(g) && 0 <= i < CellCount && forall c :: c in cs ==> Within(c, CellCount)
    ensures Shaped(r)
  {
    var v := g.value[i];
    var without := ContainersWithoutValue(g, cs, v);
    if |without| != 1 then g
    else
      assert without[0] in without;
      SolveForContainer(g, without[0], v, None)
  }

  /** In a well-formed board, a container with no cell holding 0 has no candidate for anything. */
  lemma NoCandidatesWhenFull(g: Board, members: seq<int>, v: int)
    requires WellFormed(g) && Within(members, CellCount)
    requires 0 !in ValuesOf(members, g.value)
    ensures PossibleCells(g, members, v) == []
  {
    var p := PossibleCells(g, members, v);
    if p != [] {
      assert p[0] in p;
      PossibleCellsHas(g, members, v, p[0]);
      ValuesOfHas(members, g.value, 0);
    }
  }

  /**
   * Band-forced placement either changes nothing or places cell i's value in
   * the one cell that can take it within the one container lacking it.
   */
  lemma SolveForOutcome(g: Board, i: int, cs: seq<seq<int>>)
    requires WellFormed(g) && 0 <= i < CellCount
    requires forall c :: c in cs ==> Within(c, CellCount) && Increasing(c)
    ensures var r := SolveFor(g, i, cs); var v := g.value[i];
      || r == g
      || exists c, j :: && c in cs && v !in ValuesOf(c, g.value)
                        && (forall d :: d in cs && v !in ValuesOf(d, g.value) ==> d == c)
                        && 0 <= j < CellCount && j in c && CanBe(g, j, v)
                        && (forall m :: m in c && 0 <= m < CellCount && CanBe(g, m, v) ==> m == j)
                        && r == SolveWithValue(g, j, v)
  {
    var v := g.value[i];
    var without := ContainersWithoutValue(g, cs, v);
    if |without| == 1 {
      var c := without[0];
      assert c in without;
      var p := PossibleCells(g, c, v);
      if |p| == 1 {
        var j := p[0];
        assert j in p;
        SoleCandidate(g, c, v, j);
        assert p == [j];
        forall d | d in cs && v !in ValuesOf(d, g.value)
          ensures d == c
        {
          assert d in without;
        }
      }
    }
  }

  /**
   * Band-forced placement does place: when exactly one of the lists lacks
   * cell i's value and exactly one of its cells can take it, that cell gets it.
   */
  lemma SolveForPlaces(g: Board, i: int, cs: seq<seq<int>>, k: int, j: int)
    requires Shaped(g) && 0 <= i < CellCount
    requires forall c :: c in cs ==> Within(c, CellCount) && Increasing(c)
    requires SoleLacking(g, cs, g.value[i], k) && OnlyCandidate(g, cs[k], g.value[i], j)
    ensures SolveFor(g, i, cs) == SolveWithValue(g, j, g.value[i])
  {
    ContainersWithoutValueSole(g, cs, g.value[i], k);
    assert cs[k] in cs;
    SolveForContainerUnnamed(g, cs[k], g.value[i]);
  }

  /** Band-forced placement does nothing unless exactly one of the lists lacks the value. */
  lemma SolveForNoSoleLacking(g: Board, i: int, cs: seq<seq<int>>)
    requires Shaped(g) && 0 <= i < CellCount
    requires forall c :: c in cs ==> Within(c, CellCount)
    requires forall k :: !SoleLacking(g, cs, g.value[i], k)
    ensures SolveFor(g, i, cs) == g
  {
    ContainersWithoutValueOne(g, cs, g.value[i]);
  }

  /** Band-forced placement does nothing when the one list lacking the value has no single candidate for it. */
  lemma SolveForNoOnlyCandidate(g: Board, i: int, cs: seq<seq<int>>, k: int)
    requires Shaped(g) && 0 <= i < CellCount
    requires forall c :: c in cs ==> Within(c, CellCount) && Increasing(c)
    requires SoleLacking(g, cs, g.value[i], k)
    requires forall j :: !OnlyCandidate(g, cs[k], g.value[i], j)
    ensures SolveFor(g, i, cs) == g
  {
    ContainersWithoutValueSole(g, cs, g.value[i], k);
    assert cs[k] in cs;
    SolveForContainerUnnamed(g, cs[k], g.value[i]);
  }

  /**
   * A container placement keeps the board well formed, never undoes anything
   * and leaves exclusions alone, provided a value outside 1..9 has no candidate.
   */
  lemma SolveForContainerKeeps(g: Board, members: seq<int>, v: int, cellToSolve: Option<int>)
    requires WellFormed(g) && Within(members, CellCount)
    requires 1 <= v <= 9 || PossibleCells(g, members, v) == []
    ensures var r := SolveForContainer(g, members, v, cellToSolve);
      WellFormed(r) && Extends(g, r) && r.cannotBe == g.cannotBe
  {
    var p := PossibleCells(g, members, v);
    if |p| == 1 {
      SolveWithValueKeeps(g, p[0], v);
    }
  }

  /** Band-forced placement keeps the board well formed, never undoes anything and leaves exclusions alone. */
  lemma SolveForKeeps(g: Board, i: int, cs: seq<seq<int>>)
    requires WellFormed(g) && 0 <= i < CellCount
    requires forall c :: c in cs ==> Within(c, CellCount)
    ensures var r := SolveFor(g, i, cs);
      WellFormed(r) && Extends(g, r) && r.cannotBe == g.cannotBe
  {
    var v := g.value[i];
    var without := ContainersWithoutValue(g, cs, v);
    if |without| == 1 {
      var c := without[0];
      assert c in without;
      if v == 0 {
        NoCandidatesWhenFull(g, c, v);
      }
      SolveForContainerKeeps(g, c, v, None);
    }
  }

  /** The loop in the exclusion refresh: add every value of a container to the set. */
  method AddAll(acc: set<int>, vs: seq<int>) returns (r: set<int>)
    ensures r == acc + Elements(vs)
  {
    r := acc;
    for j := 0 to |vs|
      invariant r == acc + Elements(vs[..j])
    {
      assert vs[..j + 1] == vs[..j] + [vs[j]];
      r := r + {vs[j]};
    }
    assert vs[..|vs|] == vs;
  }
}

/**
 * A container (line, column or box): an index and the list of its cells,
 * appended one by one while the puzzle is built. Cells are arena indices
 * into the puzzle's arrays; the cell values a query needs are passed in.
 */
module Container {
  import opened Geometry

  /** Every listed cell is a valid index into a sequence of length n. */
  predicate Within(members: seq<int>, n: int)
  {
    forall j :: 0 <= j < |members| ==> 0 <= members[j] < n
  }

  /** The values of the given cells, one per cell, in member order. */
  function ValuesOf(members: seq<int>, vals: seq<int>): (r: seq<int>)
    requires Within(members, |vals|)
    ensures |r| == |members|
    ensures forall j :: 0 <= j < |members| ==> r[j] == vals[members[j]]
  {
    if members == [] then []
    else [vals[members[0]]] + ValuesOf(members[1..], vals)
  }

  class CellContainer {
    /** Which axis this container lies on; the source uses one subclass per kind. */
    const kind: Kind
    const index: int
    var cells: seq<int>

    constructor (kind: Kind, index: int)
      ensures this.kind == kind && GetIndex() == index && GetCells() == []
    {
      this.kind := kind;
      this.index := index;
      cells := [];
    }

    function GetIndex(): int
    {
      index
    }

    /** Appends one cell at the end, keeping the members already there. */
    method AddCell(cell: int)
      modifies this
      ensures cells == old(cells) + [cell]
      ensures |cells| == |old(cells)| + 1 && cells[..|old(cells)|] == old(cells)
    {
      cells := cells + [cell];
    }

    function GetValues(vals: seq<int>): (r: seq<int>)
      reads this
      requires Within(cells, |vals|)
      ensures |r| == |cells|
      ensures forall j :: 0 <= j < |cells| ==> r[j] == vals[cells[j]]
    {
      ValuesOf(cells, vals)
    }

    /** Whether some member currently holds value v (0 matches a blank cell). */
    function HasCellWithValue(vals: seq<int>, v: int): (r: bool)
      reads this
      requires Within(cells, |vals|)
      ensures r <==> exists j :: 0 <= j < |cells| && vals[cells[j]] == v
    {
      v in GetValues(vals)
    }

    function GetCells(): seq<int>
      reads this
    {
      cells
    }
  }
}

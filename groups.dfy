/**
 * One outcome of the search (BinPacker2D/VariantGroup.cs): the rows
 * committed so far, the table space left for the next row and the elements
 * not packed yet.  Committed rows never change again, so a group holds the
 * rows' states.
 */
module Groups {
  import opened Wrappers
  import opened Positions
  import opened Elements
  import opened Rows

  datatype VariantGroup = VariantGroup(groupRows: seq<RowState>, tablePosition: Position, inputElements: seq<RowElement>)

  /** The packed elements of the rows, row after row, each row in insertion order. */
  function Flatten(rows: seq<RowState>): seq<RowElement>
  {
    if |rows| == 0 then [] else Flatten(rows[..|rows| - 1]) + rows[|rows| - 1].packedElements
  }

  /** The sum of the rows' packed element counts. */
  function PackedCount(rows: seq<RowState>): nat
  {
    if |rows| == 0 then 0 else PackedCount(rows[..|rows| - 1]) + |rows[|rows| - 1].packedElements|
  }

  /** The packed count counts exactly the elements the rows hand back. */
  lemma {:induction false} PackedCountIsFlattenLength(rows: seq<RowState>)
    ensures PackedCount(rows) == |Flatten(rows)|
  {
    if |rows| > 0 {
      PackedCountIsFlattenLength(rows[..|rows| - 1]);
    }
  }

  /** VariantGroup.cs:14-25: the count accumulated row by row. */
  method PackedElementsCount(g: VariantGroup) returns (count: int)
    ensures count == PackedCount(g.groupRows) == |Flatten(g.groupRows)|
  {
    var tmpCount := 0;
    for i := 0 to |g.groupRows|
      invariant tmpCount == PackedCount(g.groupRows[..i])
    {
      assert g.groupRows[..i + 1][..i] == g.groupRows[..i];
      tmpCount := tmpCount + |g.groupRows[i].packedElements|;
    }
    assert g.groupRows[..|g.groupRows|] == g.groupRows;
    PackedCountIsFlattenLength(g.groupRows);
    return tmpCount;
  }

  /** The seed constructor: a group of one row; the table and the list are taken as given (copies, as values). */
  function Seeded(rowVariant: RowState, tablePosition: Position, inputElements: seq<RowElement>): (g: VariantGroup)
    ensures Flatten(g.groupRows) == rowVariant.packedElements
    ensures PackedCount(g.groupRows) == |rowVariant.packedElements|
  {
    assert [rowVariant][..0] == [];
    VariantGroup([rowVariant], tablePosition, inputElements)
  }

  /** The extend constructor: the parent's rows followed by one more, the parent's table and list. */
  function Extended(groupToCopy: VariantGroup, rowVariant: RowState): (g: VariantGroup)
    ensures |g.groupRows| == |groupToCopy.groupRows| + 1 && g.groupRows[..|groupToCopy.groupRows|] == groupToCopy.groupRows
    ensures Flatten(g.groupRows) == Flatten(groupToCopy.groupRows) + rowVariant.packedElements
    ensures PackedCount(g.groupRows) == PackedCount(groupToCopy.groupRows) + |rowVariant.packedElements|
  {
    var rows := groupToCopy.groupRows + [rowVariant];
    assert rows[..|rows| - 1] == groupToCopy.groupRows;
    VariantGroup(rows, groupToCopy.tablePosition, groupToCopy.inputElements)
  }

  /** VariantGroup.cs:45: the top edge of the last row's first element (the row's height line). */
  function UsedArea(g: VariantGroup): real
    requires |g.groupRows| > 0 && |g.groupRows[|g.groupRows| - 1].packedElements| > 0
  {
    var first := g.groupRows[|g.groupRows| - 1].packedElements[0];
    first.posY + first.height
  }

  /** VariantGroup.cs:76: the next element of the last row. */
  function GetNextElement(g: VariantGroup): Option<RowElement>
    requires |g.groupRows| > 0
  {
    NextElement(g.groupRows[|g.groupRows| - 1])
  }
}

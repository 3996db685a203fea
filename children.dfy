/**
 * How `PackElements` starts a row and turns a finished row into a new
 * outcome (BinPacker2D/Packer.cs:148-246, 266-303): the orientations a row is
 * seeded in, the table left above a row, and the child group that drops the
 * row's elements from the list and numbers the rest.
 */
module Children {
  import opened Wrappers
  import opened Positions
  import opened Elements
  import opened Rows
  import opened Groups
  import opened Preprocess

  // ---------------------------------------------------------------------
  // Seeding a row

  /**
   * Packer.cs:157-184 and 218-245: the orientations (`isRotated` flags) a
   * row is seeded in, for a first element of height `eH` and width `eW`:
   * upright and rotated when it fits both ways and is not a square, only
   * upright for a square, the one way it fits otherwise, none when it does
   * not fit.
   */
  function SeedOrientations(eH: real, eW: real, isSquare: bool, tablePosition: Position): seq<bool>
  {
    var tabH := tablePosition.height;
    var tabW := tablePosition.width;
    if (eH <= tabH && eW <= tabW) && (eW <= tabH && eH <= tabW) then (if !isSquare then [false, true] else [false])
    else if eH <= tabH && eW <= tabW then [false]
    else if eW <= tabH && eH <= tabW then [true]
    else []
  }

  /**
   * Seeded with an element's own dimensions, every orientation fits the
   * table; there is none exactly when the element fits neither way, and two
   * exactly when it fits both ways and is not a square.
   */
  lemma SeedOrientationsFit(first: RowElement, table: Position)
    ensures var r := SeedOrientations(first.height, first.width, IsSquare(first), table);
            && (forall k :: 0 <= k < |r| ==>
                  Inside(Footprint(PlacedCopy(if r[k] then GetRotatedCopy(first) else first, table.posX, table.posY)), table))
            && (|r| == 0 <==> !CheckFitting(first, table).canFitVertical && !CheckFitting(first, table).canFitHorizontal)
            && (|r| == 2 <==> CheckFitting(first, table).canFitBoth && !IsSquare(first))
            && (false in r <==> CheckFitting(first, table).canFitVertical)
            && (|r| <= 2 && (|r| == 2 ==> r == [false, true]))
  {
    RotatedFitting(first, table);
    if IsSquare(first) {
      SquareFitting(first, table);
    }
  }

  /** The rows seeded in the given orientations. */
  function Seeds(tablePosition: Position, spacing: real, inputElements: seq<RowElement>, orientations: seq<bool>): (r: seq<RowState>)
    requires |inputElements| > 0
    ensures |r| == |orientations|
  {
    seq(|orientations|, k requires 0 <= k < |orientations| => NewRow(tablePosition, spacing, inputElements, orientations[k]))
  }

  // ---------------------------------------------------------------------
  // The table above a row

  /** Packer.cs:204-205: the table loses the row's height and the spacing at the bottom; its top stays. */
  function AdjustedForNextRow(tablePosition: Position, rowHeight: real, spacing: real): (t: Position)
    ensures t.posX == tablePosition.posX && t.width == tablePosition.width
    ensures t.posY == tablePosition.posY + rowHeight + spacing
    ensures t.posY + t.height == tablePosition.posY + tablePosition.height
  {
    tablePosition.(height := tablePosition.height - (rowHeight + spacing),
                   posY := tablePosition.posY + (rowHeight + spacing))
  }

  // ---------------------------------------------------------------------
  // Removing a row's elements from the list

  /** `List.FindIndex`: the position of the first element carrying `index`, or -1. */
  function FindIndex(l: seq<RowElement>, index: int): (r: int)
    ensures -1 <= r < |l|
    ensures r == -1 <==> forall j :: 0 <= j < |l| ==> l[j].index != index
    ensures r >= 0 ==> l[r].index == index && forall j :: 0 <= j < r ==> l[j].index != index
  {
    if |l| == 0 then -1
    else if l[0].index == index then 0
    else
      var k := FindIndex(l[1..], index);
      assert forall j :: 1 <= j < |l| ==> l[j] == l[1..][j - 1];
      if k == -1 then -1 else k + 1
  }

  /** `FindIndex` then `RemoveAt` when found: drop the first element carrying `index`. */
  function RemoveFirstByIndex(l: seq<RowElement>, index: int): seq<RowElement>
  {
    var k := FindIndex(l, index);
    if k != -1 then l[..k] + l[k + 1..] else l
  }

  /** The list after removing, in turn, the first element matching each packed element's index. */
  function RemovedPacked(l: seq<RowElement>, packed: seq<RowElement>): seq<RowElement>
  {
    if |packed| == 0 then l
    else RemoveFirstByIndex(RemovedPacked(l, packed[..|packed| - 1]), packed[|packed| - 1].index)
  }

  /**
   * Removal drops one element when some element carries the index (the
   * first such) and changes nothing otherwise.
   */
  lemma RemoveFirstByIndexSpec(l: seq<RowElement>, index: int)
    ensures var r := RemoveFirstByIndex(l, index);
            && ((forall j :: 0 <= j < |l| ==> l[j].index != index) ==> r == l)
            && ((exists j :: 0 <= j < |l| && l[j].index == index) ==>
                  |r| == |l| - 1 && multiset(r) + multiset{l[FindIndex(l, index)]} == multiset(l) &&
                  l[FindIndex(l, index)].index == index)
  {
    var k := FindIndex(l, index);
    if k != -1 {
      assert l == l[..k] + [l[k]] + l[k + 1..];
    }
  }

  /**
   * When the row's packed elements carry the indices of the list's first
   * elements, in order, removing them leaves exactly the rest of the list.
   * Removal goes by first match, but here the first match is always the
   * head, so this holds even when indices repeat.
   */
  lemma {:induction false} RemovedPackedPrefix(l: seq<RowElement>, packed: seq<RowElement>)
    requires |packed| <= |l|
    requires forall i :: 0 <= i < |packed| ==> packed[i].index == l[i].index
    ensures RemovedPacked(l, packed) == l[|packed|..]
  {
    if |packed| > 0 {
      var n := |packed|;
      RemovedPackedPrefix(l, packed[..n - 1]);
      var rest := l[n - 1..];
      assert rest[0].index == packed[n - 1].index;
      assert FindIndex(rest, packed[n - 1].index) == 0;
      assert rest[1..] == l[n..];
    }
  }

  /** Packer.cs:272-276: the removal loop over the row's packed elements. */
  method RemovePackedElements(inputElements: seq<RowElement>, packedElements: seq<RowElement>) returns (r: seq<RowElement>)
    ensures r == RemovedPacked(inputElements, packedElements)
  {
    r := inputElements;
    for i := 0 to |packedElements|
      invariant r == RemovedPacked(inputElements, packedElements[..i])
    {
      var item := packedElements[i];
      var indexRemove := FindIndex(r, item.index);
      if indexRemove != -1 {
        r := r[..indexRemove] + r[indexRemove + 1..];
      }
      assert packedElements[..i + 1][..i] == packedElements[..i];
    }
    assert packedElements[..|packedElements|] == packedElements;
  }

  // ---------------------------------------------------------------------
  // The child group

  /**
   * Packer.cs:268-282 and 287-301: the group a finished row starts: on the
   * first pass a new group with the pass's table and list, afterwards a copy
   * of the first group extended by the row; then the row's elements are
   * removed from the copy's list and the rest renumbered.
   */
  function Child(parent: Option<VariantGroup>, tablePosition: Position, inputElements: seq<RowElement>, row: RowState): VariantGroup
  {
    var g := if parent.Some? then Extended(parent.value, row) else Seeded(row, tablePosition, inputElements);
    g.(inputElements := Renumbered(RemovedPacked(g.inputElements, row.packedElements)))
  }

  /**
   * A child of a row packed from the front of the list holds the rest of the
   * list, numbered from 0, and its rows are the parent's rows and the row.
   */
  lemma ChildShape(parent: Option<VariantGroup>, tablePosition: Position, inputElements: seq<RowElement>, row: RowState)
    requires var l := if parent.Some? then parent.value.inputElements else inputElements;
             |row.packedElements| <= |l| &&
             forall i :: 0 <= i < |row.packedElements| ==> row.packedElements[i].index == l[i].index
    ensures var l := if parent.Some? then parent.value.inputElements else inputElements;
            var c := Child(parent, tablePosition, inputElements, row);
            && c.inputElements == Renumbered(l[|row.packedElements|..])
            && c.groupRows == (if parent.Some? then parent.value.groupRows else []) + [row]
            && c.tablePosition == (if parent.Some? then parent.value.tablePosition else tablePosition)
  {
    var l := if parent.Some? then parent.value.inputElements else inputElements;
    RemovedPackedPrefix(l, row.packedElements);
  }

  /** The children of one pass: one per completed row, in the rows' order. */
  function ChildGroups(parent: Option<VariantGroup>, tablePosition: Position, inputElements: seq<RowElement>,
                       completedRows: seq<RowState>): (r: seq<VariantGroup>)
    ensures |r| == |completedRows|
  {
    seq(|completedRows|, i requires 0 <= i < |completedRows| => Child(parent, tablePosition, inputElements, completedRows[i]))
  }

  /** A list whose tail holds the children of `rows`, in order, is the list followed by ChildGroups. */
  lemma ChildGroupsAppended(front: seq<VariantGroup>, groups: seq<VariantGroup>, parent: Option<VariantGroup>,
                            tablePosition: Position, inputElements: seq<RowElement>, rows: seq<RowState>)
    requires |groups| == |front| + |rows|
    requires forall k :: 0 <= k < |front| ==> groups[k] == front[k]
    requires forall k :: |front| <= k < |groups| ==> groups[k] == Child(parent, tablePosition, inputElements, rows[k - |front|])
    ensures groups == front + ChildGroups(parent, tablePosition, inputElements, rows)
  {
  }
}

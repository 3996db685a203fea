/**
 * The packer's search (BinPacker2D/Packer.cs, `PackElements`): prepare the
 * elements, then grow outcomes row by row from a worklist of groups, each
 * pass seeding the first group's next row in one or two orientations,
 * filling every seeded row and its clones to completion and turning each
 * completed row into a child group; finally select the best finished group
 * and hand back its elements.
 */
module Packer {
  import opened Wrappers
  import opened Positions
  import opened Elements
  import opened Rows
  import opened RowProperties
  import opened Groups
  import opened Preprocess
  import opened Children
  import opened Selection
  import opened Outcomes
  import opened Search

  /** The one error `PackElements` reports: the first element fits the table neither way. */
  datatype PackError = FirstElementDoesNotFit

  /** Joining two lists of distinct rows that share none gives distinct rows. */
  lemma DistinctConcat(a: seq<RowVariant>, b: seq<RowVariant>)
    requires Distinct(a) && Distinct(b)
    requires forall i, j :: 0 <= i < |a| && 0 <= j < |b| ==> a[i] != b[j]
    ensures Distinct(a + b)
  {
  }

  /**
   * Packer.cs:157-184 and 218-245: seed the rows of a pass for a first
   * element of height `eH` and width `eW`, on the given table.
   */
  method SeedRows(tablePosition: Position, elementsSpacing: real, inputElements: seq<RowElement>, eH: real, eW: real)
    returns (variantsToCheck: seq<RowVariant>)
    requires |inputElements| > 0
    ensures States(variantsToCheck) ==
            Seeds(tablePosition, elementsSpacing, inputElements, SeedOrientations(eH, eW, IsSquare(inputElements[0]), tablePosition))
    ensures Distinct(variantsToCheck) && forall i :: 0 <= i < |variantsToCheck| ==> fresh(variantsToCheck[i])
  {
    var tabH := tablePosition.height;
    var tabW := tablePosition.width;
    variantsToCheck := [];
    if (eH <= tabH && eW <= tabW) && (eW <= tabH && eH <= tabW) {
      var variant := new RowVariant(tablePosition, elementsSpacing, inputElements, false);
      variantsToCheck := variantsToCheck + [variant];
      if !IsSquare(inputElements[0]) {
        var variantRotated := new RowVariant(tablePosition, elementsSpacing, inputElements, true);
        variantsToCheck := variantsToCheck + [variantRotated];
      }
    } else if eH <= tabH && eW <= tabW {
      var variant := new RowVariant(tablePosition, elementsSpacing, inputElements, false);
      variantsToCheck := variantsToCheck + [variant];
    } else if eW <= tabH && eH <= tabW {
      var variantRotated := new RowVariant(tablePosition, elementsSpacing, inputElements, true);
      variantsToCheck := variantsToCheck + [variantRotated];
    }
  }

  /** A list is its first `k` elements followed by the rest. */
  lemma SplitAt<T>(t: seq<T>, k: nat)
    requires k <= |t|
    ensures t == t[..k] + t[k..]
  {
  }

  /**
   * The queue after a turn, its tail and the new clones, and the completed
   * rows with the old head are each distinct and share no row, when the
   * clones are new.
   */
  lemma TurnDistinct(queue: seq<RowVariant>, completedRows: seq<RowVariant>, spawned: seq<RowVariant>)
    requires |queue| > 0 && Distinct(queue) && Distinct(completedRows) && Apart(queue, completedRows)
    requires Distinct(spawned) && Apart(spawned, queue) && Apart(spawned, completedRows)
    ensures Distinct(queue[1..] + spawned) && Distinct(completedRows + [queue[0]])
    ensures Apart(queue[1..] + spawned, completedRows + [queue[0]])
  {
    DistinctConcat(queue[1..], spawned);
    DistinctAppend([queue[0]], completedRows);
  }

  /**
   * One turn in terms of states: the completed rows gain the head's final
   * state and the queue trades the head for its clones, so the rows the
   * whole queue completes as are unchanged, and the queue's measure drops.
   */
  lemma TurnAccounting(done: seq<RowState>, h0: RowState, rest: seq<RowState>, spawned: seq<RowState>)
    requires spawned == Expand(h0, false).spawned
    ensures (done + [Expand(h0, false).final]) + CompleteAll(rest + spawned) == done + CompleteAll([h0] + rest)
    ensures Potential(rest + spawned) < Potential([h0] + rest)
  {
    assert ([h0] + rest)[0] == h0 && ([h0] + rest)[1..] == rest;
    ExpandPotential(h0, false);
    PotentialAppend(rest, spawned);
  }

  /**
   * Packer.cs:259, one turn: the first row of the queue is filled, joins the
   * completed rows, and its clones join the back of the queue.
   */
  method FillFirst(queue: seq<RowVariant>, completedRows: seq<RowVariant>)
    returns (toCheck: seq<RowVariant>, finished: seq<RowVariant>)
    requires |queue| > 0 && Distinct(queue) && Distinct(completedRows) && Apart(queue, completedRows)
    modifies queue[0]
    ensures finished == completedRows + [queue[0]]
    ensures forall i :: 0 <= i < |toCheck| ==> toCheck[i] in queue || fresh(toCheck[i])
    ensures Distinct(toCheck) && Distinct(finished) && Apart(toCheck, finished)
    ensures States(finished) == old(States(completedRows)) + [Expand(old(queue[0].State()), false).final]
    ensures States(toCheck) == old(States(queue[1..])) + Expand(old(queue[0].State()), false).spawned
  {
    var head := queue[0];
    ghost var tail := queue[1..];
    assert head !in tail && head !in completedRows;
    ghost var h0 := head.State();
    ghost var rest := States(tail);
    ghost var done := States(completedRows);
    toCheck, finished := head.InsertElement(queue, completedRows);
    ghost var spawned := toCheck[|tail|..];
    assert toCheck == tail + spawned by {
      SplitAt(toCheck, |tail|);
    }
    assert States(toCheck) == rest + Expand(h0, false).spawned by {
      assert States(tail) == rest;
      StatesAppend(tail, spawned);
    }
    assert States(finished) == done + [Expand(h0, false).final] by {
      assert States(completedRows) == done;
      StatesAppend(completedRows, [head]);
    }
    forall i | 0 <= i < |toCheck| ensures toCheck[i] in queue || fresh(toCheck[i]) {
      if i < |tail| {
        assert toCheck[i] == queue[i + 1];
      }
    }
    TurnDistinct(queue, completedRows, spawned);
  }

  /**
   * Packer.cs:257-260: fill the first row of the queue until none is left;
   * each filled row joins the completed rows, its clones the back of the
   * queue.
   */
  method CompleteRows(variantsToCheck: seq<RowVariant>) returns (completedRows: seq<RowVariant>)
    requires Distinct(variantsToCheck)
    modifies set i | 0 <= i < |variantsToCheck| :: variantsToCheck[i]
    ensures States(completedRows) == CompleteAll(old(States(variantsToCheck)))
  {
    ghost var goal := CompleteAll(States(variantsToCheck));
    var queue := variantsToCheck;
    completedRows := [];
    while |queue| > 0
      invariant Distinct(queue) && Distinct(completedRows) && Apart(queue, completedRows)
      invariant forall i :: 0 <= i < |queue| ==> queue[i] in variantsToCheck || fresh(queue[i])
      invariant States(completedRows) + CompleteAll(States(queue)) == goal
      decreases Potential(States(queue))
    {
      ghost var done := States(completedRows);
      ghost var h0 := queue[0].State();
      ghost var rest := States(queue[1..]);
      assert States(queue) == [h0] + rest;
      queue, completedRows := FillFirst(queue, completedRows);
      TurnAccounting(done, h0, rest, Expand(h0, false).spawned);
    }
  }

  /**
   * Packer.cs:268-302, the body of the loop over completed rows: the child
   * of `row`, with the row's elements removed from its list and the rest
   * renumbered.
   */
  method MakeChild(parent: Option<VariantGroup>, tablePosition: Position, inputElements: seq<RowElement>, row: RowState)
    returns (child: VariantGroup)
    ensures child == Child(parent, tablePosition, inputElements, row)
  {
    var g := if parent.Some? then Extended(parent.value, row) else Seeded(row, tablePosition, inputElements);
    var remaining := RemovePackedElements(g.inputElements, row.packedElements);
    remaining := NumberElements(remaining);
    child := g.(inputElements := remaining);
  }

  /**
   * Packer.cs:266-303: one child group per completed row, appended to the
   * worklist: on later passes a copy of the first group extended by the
   * row, on the first pass a new group with the pass's table and list; then
   * the row's elements are removed from the child's list and the rest
   * renumbered.
   */
  method AddChildGroups(variantGroups: seq<VariantGroup>, completedRows: seq<RowVariant>, deleteFirstGroup: bool,
                        tablePosition: Position, inputElements: seq<RowElement>)
    returns (groups: seq<VariantGroup>)
    requires deleteFirstGroup ==> |variantGroups| > 0
    ensures groups == variantGroups +
              ChildGroups(if deleteFirstGroup then Some(variantGroups[0]) else None, tablePosition, inputElements, States(completedRows))
  {
    var parent := if deleteFirstGroup then Some(variantGroups[0]) else None;
    ghost var rows := States(completedRows);
    groups := variantGroups;
    for i := 0 to |completedRows|
      invariant |groups| == |variantGroups| + i
      invariant forall k :: 0 <= k < |variantGroups| ==> groups[k] == variantGroups[k]
      invariant forall k :: |variantGroups| <= k < |groups| ==> groups[k] == Child(parent, tablePosition, inputElements, rows[k - |variantGroups|])
    {
      var row := completedRows[i].State();
      assert row == rows[i];
      var child := MakeChild(parent, tablePosition, inputElements, row);
      groups := groups + [child];
    }
    ChildGroupsAppended(variantGroups, groups, parent, tablePosition, inputElements, rows);
  }

  /**
   * Packer.cs:66-89: the elements turned upright, sorted widest first and
   * numbered in that order.
   */
  method Prepare(inputElements: seq<RowElement>) returns (elements: seq<RowElement>)
    ensures elements == Prepared(inputElements)
    ensures Numbered(elements)
    ensures (forall i :: 0 <= i < |inputElements| ==> NonNegative(inputElements[i])) ==>
              forall i :: 0 <= i < |elements| ==> NonNegative(elements[i])
  {
    elements := NormaliseElements(inputElements);
    elements := SortByWidthDescending(elements);
    elements := NumberElements(elements);
    RenumberedNumbered(SortByWidthDescending(NormaliseAll(inputElements)));
    if forall i :: 0 <= i < |inputElements| ==> NonNegative(inputElements[i]) {
      PreparedNonNegative(inputElements);
    }
  }

  /**
   * Packer.cs:157-184 or 218-245, then 257-260: the rows of one pass, seeded
   * on `tablePosition` for a first element of height `eH` and width `eW`,
   * then completed.  There is none exactly when that element fits neither
   * way; at most 2^n for a list of n elements; each lies on the table.
   */
  method PassRows(tablePosition: Position, elementsSpacing: real, inputElements: seq<RowElement>, eH: real, eW: real,
                  ghost geo: bool)
    returns (completedRows: seq<RowVariant>)
    requires |inputElements| > 0 && Numbered(inputElements)
    requires eH == inputElements[0].height && eW == inputElements[0].width
    requires geo ==> elementsSpacing >= 0.0 && forall i :: 0 <= i < |inputElements| ==> NonNegative(inputElements[i])
    ensures States(completedRows) == PassRowsOf(tablePosition, elementsSpacing, inputElements, eH, eW)
    ensures |completedRows| == 0 <==>
              !CheckFitting(inputElements[0], tablePosition).canFitVertical &&
              !CheckFitting(inputElements[0], tablePosition).canFitHorizontal
    ensures |completedRows| == 0 <==> |SeedOrientations(eH, eW, IsSquare(inputElements[0]), tablePosition)| == 0
    ensures |completedRows| <= Pow2(|inputElements|)
    ensures forall i :: 0 <= i < |completedRows| ==>
              RowIn(States(completedRows)[i], inputElements, tablePosition, elementsSpacing, geo)
  {
    var variantsToCheck := SeedRows(tablePosition, elementsSpacing, inputElements, eH, eW);
    SeedOrientationsFit(inputElements[0], tablePosition);
    PassOutcome(tablePosition, elementsSpacing, inputElements, geo);
    if |variantsToCheck| == 0 {
      return [];
    }
    completedRows := CompleteRows(variantsToCheck);
  }

  /**
   * Packer.cs:148-188 and 255-303, the first pass: seed the first row on the
   * whole table, complete it and its clones, and start one group per
   * completed row.  There is none exactly when the first element fits the
   * table neither way (where the source throws); every group started keeps
   * the worklist invariant.
   */
  method FirstPass(elements: seq<RowElement>, tablePosition: Position, elementsSpacing: real, ghost geo: bool)
    returns (variantGroups: seq<VariantGroup>)
    requires |elements| > 0 && Numbered(elements)
    requires geo ==> elementsSpacing >= 0.0 && forall i :: 0 <= i < |elements| ==> NonNegative(elements[i])
    ensures variantGroups == FirstGroups(elements, tablePosition, elementsSpacing)
    ensures |variantGroups| == 0 <==>
              !CheckFitting(elements[0], tablePosition).canFitVertical && !CheckFitting(elements[0], tablePosition).canFitHorizontal
    ensures forall i :: 0 <= i < |variantGroups| ==> GroupInv(variantGroups[i], elements, tablePosition, elementsSpacing, geo)
  {
    var eH := elements[0].height;
    var eW := elements[0].width;
    var completedRows := PassRows(tablePosition, elementsSpacing, elements, eH, eW, geo);
    if |completedRows| == 0 {
      return [];
    }
    FirstPassChildren(elements, tablePosition, elementsSpacing, geo, States(completedRows));
    variantGroups := AddChildGroups([], completedRows, false, tablePosition, elements);
    assert [] + ChildGroups(None, tablePosition, elements, States(completedRows)) == variantGroups;
  }

  /**
   * Packer.cs:200-246 and 255-303, a later pass on the first group, whose
   * next element is `element`: its table loses the last row's height and
   * the spacing; when the element fits the table left, one child group per
   * completed row joins the back of the worklist.
   */
  method GrowFirst(variantGroups: seq<VariantGroup>, element: RowElement, elementsSpacing: real,
                   ghost p: seq<RowElement>, ghost t0: Position, ghost geo: bool)
    returns (fits: bool, groups: seq<VariantGroup>)
    requires |variantGroups| > 0 && GroupInv(variantGroups[0], p, t0, elementsSpacing, geo)
    requires GetNextElement(variantGroups[0]) == Some(element)
    requires geo ==> elementsSpacing >= 0.0 && forall i :: 0 <= i < |p| ==> NonNegative(p[i])
    ensures Pending(variantGroups[0]) && |variantGroups[0].inputElements| > 0
    ensures var first := variantGroups[0];
            var adjusted := AdjustedFirst(first, elementsSpacing);
            var t := adjusted.tablePosition;
            && (fits <==> |SeedOrientations(element.height, element.width, IsSquare(first.inputElements[0]), t)| > 0)
            && groups == [adjusted] + variantGroups[1..] +
                         (if fits then ChildGroups(Some(adjusted), t, first.inputElements,
                                                   PassRowsOf(t, elementsSpacing, first.inputElements, element.height, element.width))
                          else [])
    ensures var first := variantGroups[0];
            var t := TableAfter(first.groupRows, t0, elementsSpacing);
            && |groups| >= |variantGroups|
            && groups[0] == first.(tablePosition := t)
            && groups[1..|variantGroups|] == variantGroups[1..]
            && (fits <==> CheckFitting(element, t).canFitVertical || CheckFitting(element, t).canFitHorizontal)
            && (fits <==> |groups| > |variantGroups|)
            && |groups| - |variantGroups| <= Pow2(|first.inputElements|)
            && forall i :: |variantGroups| <= i < |groups| ==>
                 GroupInv(groups[i], p, t0, elementsSpacing, geo) && |groups[i].inputElements| < |first.inputElements|
  {
    var first := variantGroups[0];
    GroupNext(first, p, t0, elementsSpacing, geo);
    GroupTable(first, p, t0, elementsSpacing, geo);
    GroupList(first, p, t0, elementsSpacing, geo);
    var inputElements := first.inputElements;
    var lastRow := first.groupRows[|first.groupRows| - 1];
    var adjusted := first.(tablePosition := AdjustedForNextRow(first.tablePosition, lastRow.packedElements[0].height, elementsSpacing));
    groups := variantGroups[0 := adjusted];
    assert groups == [adjusted] + variantGroups[1..];
    var eH := element.height;
    var eW := element.width;
    var tablePosition := Position(adjusted.tablePosition.height, adjusted.tablePosition.width,
                                  adjusted.tablePosition.posX, adjusted.tablePosition.posY);
    assert tablePosition == adjusted.tablePosition;
    var completedRows := PassRows(tablePosition, elementsSpacing, inputElements, eH, eW, geo);
    if |completedRows| == 0 {
      assert groups == [adjusted] + variantGroups[1..] + [];
      return false, groups;
    }
    ghost var rows := States(completedRows);
    assert rows == PassRowsOf(tablePosition, elementsSpacing, inputElements, eH, eW);
    LaterPassChildren(first, p, t0, elementsSpacing, geo, rows);
    groups := AddChildGroups(groups, completedRows, true, tablePosition, inputElements);
    fits := true;
  }

  /**
   * Packer.cs:189-305, a later pass: the first group moves to the finished
   * groups (no element left, or its next element fits the table left above
   * its rows neither way) or is replaced by one child per completed row.
   * Every group keeps its invariant and the worklist's measure drops.
   */
  method NextPass(variantGroups: seq<VariantGroup>, finishedVariantGroups: seq<VariantGroup>, elementsSpacing: real,
                  ghost p: seq<RowElement>, ghost t0: Position, ghost geo: bool)
    returns (groups: seq<VariantGroup>, finished: seq<VariantGroup>)
    requires |variantGroups| > 0
    requires geo ==> elementsSpacing >= 0.0 && forall i :: 0 <= i < |p| ==> NonNegative(p[i])
    requires forall i :: 0 <= i < |variantGroups| ==> GroupInv(variantGroups[i], p, t0, elementsSpacing, geo)
    ensures Pending(variantGroups[0])
    ensures Worklists(groups, finished) == NextOf(variantGroups, finishedVariantGroups, elementsSpacing)
    ensures forall i :: 0 <= i < |groups| ==> GroupInv(groups[i], p, t0, elementsSpacing, geo)
    ensures || (finished == finishedVariantGroups && |groups| > 0)
            || (&& |finished| == |finishedVariantGroups| + 1
                && finished[..|finishedVariantGroups|] == finishedVariantGroups
                && finished[|finishedVariantGroups|].groupRows == variantGroups[0].groupRows
                && finished[|finishedVariantGroups|].inputElements == variantGroups[0].inputElements
                && FinishedInv(finished[|finishedVariantGroups|], p, t0, elementsSpacing, geo))
    ensures GroupsPotential(groups) < GroupsPotential(variantGroups)
  {
    var first := variantGroups[0];
    NextOfInv(variantGroups, finishedVariantGroups, elementsSpacing, p, t0, geo);
    var element := GetNextElement(first);
    if element.None? {
      NextOfNone(variantGroups, finishedVariantGroups, elementsSpacing);
      finished := finishedVariantGroups + [first];
      groups := variantGroups[1..];
    } else {
      var fits;
      fits, groups := GrowFirst(variantGroups, element.value, elementsSpacing, p, t0, geo);
      NextOfGrown(variantGroups, finishedVariantGroups, elementsSpacing, element.value, fits, groups);
      finished := if fits then finishedVariantGroups else finishedVariantGroups + [groups[0]];
      groups := groups[1..];
    }
  }

  /** The finished groups keep their rows valid when a pass adds at most one with valid rows. */
  lemma FinishedKept(before: seq<VariantGroup>, finished: seq<VariantGroup>, elementsSpacing: real,
                     p: seq<RowElement>, t0: Position, geo: bool)
    requires forall i :: 0 <= i < |before| ==> FinishedInv(before[i], p, t0, elementsSpacing, geo)
    requires || finished == before
             || (&& |finished| == |before| + 1 && finished[..|before|] == before
                 && FinishedInv(finished[|before|], p, t0, elementsSpacing, geo))
    ensures forall i :: 0 <= i < |finished| ==> FinishedInv(finished[i], p, t0, elementsSpacing, geo)
  {
    forall i | 0 <= i < |finished| ensures FinishedInv(finished[i], p, t0, elementsSpacing, geo) {
      if i < |before| {
        assert finished[i] == finished[..|before|][i] == before[i];
      }
    }
  }

  /** Packer.cs:137-308 after the first pass: run passes until the worklist is empty. */
  method RunPasses(variantGroups: seq<VariantGroup>, elementsSpacing: real,
                   ghost p: seq<RowElement>, ghost t0: Position, ghost geo: bool)
    returns (finished: seq<VariantGroup>)
    requires |variantGroups| > 0
    requires geo ==> elementsSpacing >= 0.0 && forall i :: 0 <= i < |p| ==> NonNegative(p[i])
    requires forall i :: 0 <= i < |variantGroups| ==> GroupInv(variantGroups[i], p, t0, elementsSpacing, geo)
    requires forall i :: 0 <= i < |variantGroups| ==> GroupInv(variantGroups[i], p, t0, elementsSpacing, false)
    ensures finished == FinishedGroups(variantGroups, [], elementsSpacing, p, t0)
    ensures |finished| > 0
    ensures forall i :: 0 <= i < |finished| ==> FinishedInv(finished[i], p, t0, elementsSpacing, geo)
  {
    var groups := variantGroups;
    finished := [];
    while |groups| > 0
      invariant forall i :: 0 <= i < |groups| ==> GroupInv(groups[i], p, t0, elementsSpacing, geo)
      invariant forall i :: 0 <= i < |groups| ==> GroupInv(groups[i], p, t0, elementsSpacing, false)
      invariant FinishedGroups(groups, finished, elementsSpacing, p, t0) == FinishedGroups(variantGroups, [], elementsSpacing, p, t0)
      invariant forall i :: 0 <= i < |finished| ==> FinishedInv(finished[i], p, t0, elementsSpacing, geo)
      invariant |groups| > 0 || |finished| > 0
      decreases GroupsPotential(groups)
    {
      ghost var before := finished;
      ghost var previous := groups;
      groups, finished := NextPass(groups, finished, elementsSpacing, p, t0, geo);
      forall i | 0 <= i < |groups| ensures GroupInv(groups[i], p, t0, elementsSpacing, false) {
        GroupInvPlain(groups[i], p, t0, elementsSpacing, geo);
      }
      FinishedGroupsStep(previous, before, elementsSpacing, p, t0);
      FinishedKept(before, finished, elementsSpacing, p, t0, geo);
    }
  }

  /**
   * Packer.cs:311-348: select the best finished group and flatten its rows;
   * the result packs the most elements of all groups, holds the front of
   * the prepared list, and under `geo` lies on the table without overlap.
   */
  method SelectResult(finished: seq<VariantGroup>, elementsSpacing: real,
                      ghost p: seq<RowElement>, ghost t0: Position, ghost geo: bool)
    returns (returnElements: seq<RowElement>)
    requires |finished| > 0
    requires forall i :: 0 <= i < |finished| ==> FinishedInv(finished[i], p, t0, elementsSpacing, geo)
    ensures forall i :: 0 <= i < |finished| ==> Completed(finished[i])
    ensures returnElements == Flatten(finished[BestIndex(finished)].groupRows)
    ensures forall i :: 0 <= i < |finished| ==> PackedCount(finished[i].groupRows) <= |returnElements|
    ensures 0 < |returnElements| <= |p| && forall k :: 0 <= k < |returnElements| ==> SameItem(returnElements[k], p[k])
    ensures geo ==> PlacementsInside(returnElements, t0) && PlacementsDisjoint(returnElements)
  {
    assert forall i :: 0 <= i < |finished| ==> Completed(finished[i]);
    var bestPackedIndex := SelectBest(finished);
    SelectedIsMaximal(finished);
    var best := finished[bestPackedIndex];
    returnElements := FlattenRows(best);
    PackedCountIsFlattenLength(best.groupRows);
    PackedCountPositive(best.groupRows);
    ValidRowsItems(best.groupRows, p, t0, elementsSpacing, geo);
    if geo {
      ValidRowsGeometry(best.groupRows, p, t0, elementsSpacing);
    }
  }

  /**
   * Packer.cs:56-351: pack the elements on a table of the given size and
   * margins.  The elements are prepared (upright, widest first, numbered);
   * packing fails when the first element fits the margin-adjusted table
   * neither way.  Otherwise the result is the flattened rows of the
   * selected finished outcome: it packs the most elements of all outcomes,
   * its elements are the front of the prepared list in order (each possibly
   * rotated), and with non-negative spacing and dimensions every placement
   * lies on the adjusted table and no two overlap.
   */
  method PackElements(tableHeight: real, tableWidth: real, elementsSpacing: real,
                      leftTableMargin: real, rightTableMargin: real, topTableMargin: real, bottomTableMargin: real,
                      inputElements: seq<RowElement>)
    returns (r: Result<seq<RowElement>, PackError>, ghost finishedVariantGroups: seq<VariantGroup>)
    requires |inputElements| > 0
    ensures var p := Prepared(inputElements);
            var t0 := AdjustedTable(tableHeight, tableWidth, leftTableMargin, rightTableMargin, topTableMargin, bottomTableMargin);
            r.Failure? <==> !CheckFitting(p[0], t0).canFitVertical && !CheckFitting(p[0], t0).canFitHorizontal
    ensures r.Success? ==>
              && |finishedVariantGroups| > 0
              && (forall i :: 0 <= i < |finishedVariantGroups| ==> Completed(finishedVariantGroups[i]))
              && r.value == Flatten(finishedVariantGroups[BestIndex(finishedVariantGroups)].groupRows)
              && (forall i :: 0 <= i < |finishedVariantGroups| ==> PackedCount(finishedVariantGroups[i].groupRows) <= |r.value|)
    ensures var p := Prepared(inputElements);
            var t0 := AdjustedTable(tableHeight, tableWidth, leftTableMargin, rightTableMargin, topTableMargin, bottomTableMargin);
            forall i :: 0 <= i < |FirstGroups(p, t0, elementsSpacing)| ==> GroupInv(FirstGroups(p, t0, elementsSpacing)[i], p, t0, elementsSpacing, false)
    ensures r.Success? ==>
              var p := Prepared(inputElements);
              var t0 := AdjustedTable(tableHeight, tableWidth, leftTableMargin, rightTableMargin, topTableMargin, bottomTableMargin);
              finishedVariantGroups == FinishedGroups(FirstGroups(p, t0, elementsSpacing), [], elementsSpacing, p, t0)
    ensures r.Success? ==>
              var p := Prepared(inputElements);
              0 < |r.value| <= |p| && forall k :: 0 <= k < |r.value| ==> SameItem(r.value[k], p[k])
    ensures r.Success? && elementsSpacing >= 0.0 && (forall i :: 0 <= i < |inputElements| ==> NonNegative(inputElements[i])) ==>
              var t0 := AdjustedTable(tableHeight, tableWidth, leftTableMargin, rightTableMargin, topTableMargin, bottomTableMargin);
              PlacementsInside(r.value, t0) && PlacementsDisjoint(r.value)
  {
    var elements := Prepare(inputElements);
    ghost var geo := elementsSpacing >= 0.0 && forall i :: 0 <= i < |inputElements| ==> NonNegative(inputElements[i]);

    var posH := tableHeight;
    var posW := tableWidth;
    var posX := 0.0;
    var posY := 0.0;
    posX := posX + leftTableMargin;
    posY := posY + bottomTableMargin;
    posW := posW - (leftTableMargin + rightTableMargin);
    posH := posH - (topTableMargin + bottomTableMargin);
    var tablePosition := Position(posH, posW, posX, posY);
    assert tablePosition == AdjustedTable(tableHeight, tableWidth, leftTableMargin, rightTableMargin, topTableMargin, bottomTableMargin);

    var variantGroups := FirstPass(elements, tablePosition, elementsSpacing, geo);
    forall i | 0 <= i < |variantGroups| ensures GroupInv(variantGroups[i], elements, tablePosition, elementsSpacing, false) {
      GroupInvPlain(variantGroups[i], elements, tablePosition, elementsSpacing, geo);
    }
    if |variantGroups| == 0 {
      return Failure(FirstElementDoesNotFit), [];
    }
    var finished := RunPasses(variantGroups, elementsSpacing, elements, tablePosition, geo);
    var returnElements := SelectResult(finished, elementsSpacing, elements, tablePosition, geo);
    r := Success(returnElements);
    finishedVariantGroups := finished;
  }
}

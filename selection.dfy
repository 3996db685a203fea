/**
 * Choosing the outcome to return and handing back its elements
 * (BinPacker2D/Packer.cs:311-350).
 */
module Selection {
  import opened Positions
  import opened Elements
  import opened Rows
  import opened Groups

  /** The largest finite double, the initial `bestUnusedArea`. */
  const DoubleMaxValue: real := 179769313486231570814527423731704356798070567525844996598917476803157260780028538760589558632766878171540458953514382464234321326889464182768467546703537516986049910576551282076245490090389328944075868508455133942304583236903222948165808559332123348274797826204144723168738177180919299881250404026184124858368.0

  /** A finished outcome: at least one row, and every row holds at least one element. */
  predicate Completed(g: VariantGroup)
  {
    |g.groupRows| > 0 && forall j :: 0 <= j < |g.groupRows| ==> |g.groupRows[j].packedElements| > 0
  }

  /** The running values of the selection loop. */
  datatype Best = Best(bestUnusedArea: real, bestPackedCount: int, bestPackedIndex: int)

  /** One turn of the selection loop on the group at position `cnt`. */
  function SelectStep(b: Best, finalGroup: VariantGroup, cnt: int): Best
    requires Completed(finalGroup)
  {
    var area := if cnt == 0 then UsedArea(finalGroup) else b.bestUnusedArea;
    var count := PackedCount(finalGroup.groupRows);
    if count >= b.bestPackedCount then
      if count > b.bestPackedCount then Best(area, count, cnt)
      else if UsedArea(finalGroup) < area then Best(UsedArea(finalGroup), count, cnt)
      else b.(bestUnusedArea := area)
    else b.(bestUnusedArea := area)
  }

  /** The running values after the loop has seen the groups of `gs`, in order. */
  function Selected(gs: seq<VariantGroup>): (b: Best)
    requires forall i :: 0 <= i < |gs| ==> Completed(gs[i])
    ensures |gs| > 0 ==> 0 <= b.bestPackedIndex < |gs| && b.bestPackedCount > 0
    ensures |gs| == 0 ==> b.bestPackedIndex == -1 && b.bestPackedCount == 0
  {
    if |gs| == 0 then Best(DoubleMaxValue, 0, -1)
    else
      assert Completed(gs[|gs| - 1]);
      PackedCountPositive(gs[|gs| - 1].groupRows);
      SelectStep(Selected(gs[..|gs| - 1]), gs[|gs| - 1], |gs| - 1)
  }

  /** The index of the outcome returned. */
  function BestIndex(gs: seq<VariantGroup>): (r: int)
    requires forall i :: 0 <= i < |gs| ==> Completed(gs[i])
    ensures |gs| > 0 ==> 0 <= r < |gs|
  {
    Selected(gs).bestPackedIndex
  }

  /**
   * The selected group packs the most elements of all: once a group has been
   * seen, the index is valid, it names a group with the running count, and no
   * group seen has a larger count.
   */
  lemma {:induction false} SelectedIsMaximal(gs: seq<VariantGroup>)
    requires forall i :: 0 <= i < |gs| ==> Completed(gs[i])
    ensures |gs| > 0 ==> 0 <= BestIndex(gs) < |gs| && PackedCount(gs[BestIndex(gs)].groupRows) == Selected(gs).bestPackedCount
    ensures forall i :: 0 <= i < |gs| ==> PackedCount(gs[i].groupRows) <= Selected(gs).bestPackedCount
  {
    if |gs| > 0 {
      var init := gs[..|gs| - 1];
      assert forall i :: 0 <= i < |init| ==> init[i] == gs[i];
      SelectedIsMaximal(init);
      var last := gs[|gs| - 1];
      assert PackedCount(last.groupRows) > 0 by {
        PackedCountPositive(last.groupRows);
      }
    }
  }

  lemma {:induction false} PackedCountPositive(rows: seq<RowState>)
    requires |rows| > 0 && |rows[|rows| - 1].packedElements| > 0
    ensures PackedCount(rows) > 0
  {
  }

  /**
   * Ties: a later group with the running best count replaces the selection
   * exactly when its used area is below the running `bestUnusedArea`, and a
   * larger count always replaces it.
   */
  lemma SelectedTieBreak(gs: seq<VariantGroup>, g: VariantGroup)
    requires |gs| > 0 && Completed(g) && forall i :: 0 <= i < |gs| ==> Completed(gs[i])
    ensures var all := gs + [g];
            forall i :: 0 <= i < |all| ==> Completed(all[i])
    ensures var all := gs + [g];
            var b := Selected(gs);
            BestIndex(all) == |gs| <==>
              PackedCount(g.groupRows) > b.bestPackedCount ||
              (PackedCount(g.groupRows) == b.bestPackedCount && UsedArea(g) < b.bestUnusedArea)
  {
    var all := gs + [g];
    assert all[..|all| - 1] == gs;
    SelectedIsMaximal(gs);
  }

  /** A group of `n` rows, each holding one unit square whose top edge lies at `top`. */
  function Tower(n: nat, top: real): VariantGroup
  {
    var e := RowElement(0, 0, 0.0, top - 1.0, 1.0, 1.0, false);
    var row := RowState(1.0, 0.0, [e], [e], [], Position(1.0, 1.0, 1.0, top - 1.0));
    VariantGroup(seq(n, j => row), Position(0.0, 1.0, 0.0, top), [])
  }

  lemma TowerCount(n: nat, top: real)
    ensures Completed(Tower(n, top)) || n == 0
    ensures PackedCount(Tower(n, top).groupRows) == n
    ensures n > 0 ==> UsedArea(Tower(n, top)) == top
  {
    if n > 0 {
      TowerCount(n - 1, top);
      assert Tower(n, top).groupRows[..n - 1] == Tower(n - 1, top).groupRows;
    }
  }

  /**
   * `bestUnusedArea` is not updated when a larger count is found, so a tie
   * with the new best count is judged against the area of an earlier group:
   * here the second group is kept although the third packs as many elements
   * below a lower line.
   */
  lemma SelectionKeepsStaleArea()
    ensures var gs := [Tower(1, 5.0), Tower(2, 10.0), Tower(2, 7.0)];
            && (forall i :: 0 <= i < |gs| ==> Completed(gs[i]))
            && BestIndex(gs) == 1
            && PackedCount(gs[2].groupRows) == PackedCount(gs[1].groupRows)
            && UsedArea(gs[2]) < UsedArea(gs[1])
  {
    TowerCount(1, 5.0);
    TowerCount(2, 10.0);
    TowerCount(2, 7.0);
    var gs := [Tower(1, 5.0), Tower(2, 10.0), Tower(2, 7.0)];
    assert gs[..2] == [Tower(1, 5.0), Tower(2, 10.0)];
    assert gs[..2][..1] == [Tower(1, 5.0)];
    assert gs[..2][..1][..0] == [];
    assert Selected(gs[..2][..1]) == Best(5.0, 1, 0);
    assert Selected(gs[..2]) == Best(5.0, 2, 1);
    assert Selected(gs) == Best(5.0, 2, 1);
  }

  /** Packer.cs:311-336: the selection loop. */
  method SelectBest(finishedVariantGroups: seq<VariantGroup>) returns (bestPackedIndex: int)
    requires forall i :: 0 <= i < |finishedVariantGroups| ==> Completed(finishedVariantGroups[i])
    ensures bestPackedIndex == BestIndex(finishedVariantGroups)
  {
    var bestUnusedArea := DoubleMaxValue;
    var bestPackedCount := 0;
    bestPackedIndex := -1;
    var cnt := 0;
    while cnt < |finishedVariantGroups|
      invariant 0 <= cnt <= |finishedVariantGroups|
      invariant Best(bestUnusedArea, bestPackedCount, bestPackedIndex) == Selected(finishedVariantGroups[..cnt])
    {
      var finalGroup := finishedVariantGroups[cnt];
      assert finishedVariantGroups[..cnt + 1][..cnt] == finishedVariantGroups[..cnt];
      if cnt == 0 {
        bestUnusedArea := UsedArea(finalGroup);
      }
      var count := PackedElementsCount(finalGroup);
      if count >= bestPackedCount {
        if count > bestPackedCount {
          bestPackedCount := count;
          bestPackedIndex := cnt;
        } else if UsedArea(finalGroup) < bestUnusedArea {
          bestUnusedArea := UsedArea(finalGroup);
          bestPackedCount := count;
          bestPackedIndex := cnt;
        }
      }
      cnt := cnt + 1;
    }
    assert finishedVariantGroups[..cnt] == finishedVariantGroups;
  }

  /** Packer.cs:340-348: the rows' packed elements, row after row, in insertion order. */
  method FlattenRows(g: VariantGroup) returns (returnElements: seq<RowElement>)
    ensures returnElements == Flatten(g.groupRows)
  {
    returnElements := [];
    for j := 0 to |g.groupRows|
      invariant returnElements == Flatten(g.groupRows[..j])
    {
      var row := g.groupRows[j];
      ghost var before := returnElements;
      for k := 0 to |row.packedElements|
        invariant returnElements == before + row.packedElements[..k]
      {
        returnElements := returnElements + [row.packedElements[k]];
        assert row.packedElements[..k + 1] == row.packedElements[..k] + [row.packedElements[k]];
      }
      assert row.packedElements[..|row.packedElements|] == row.packedElements;
      assert g.groupRows[..j + 1][..j] == g.groupRows[..j];
    }
    assert g.groupRows[..|g.groupRows|] == g.groupRows;
  }
}

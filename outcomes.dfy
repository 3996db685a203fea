/**
 * What every outcome the packer builds satisfies (BinPacker2D/Packer.cs:
 * 137-308), stated about the functional model: the rows of a group hold the
 * prepared elements in list order, each row is seeded at the bottom of the
 * table left above the previous one, every placement lies on the table and
 * no two overlap; and the two worklists of the search shrink in a measure.
 */
module Outcomes {
  import opened Wrappers
  import opened Positions
  import opened Elements
  import opened Rows
  import opened RowProperties
  import opened Groups
  import opened Preprocess
  import opened Children

  // ---------------------------------------------------------------------
  // One row on the table

  /**
   * `s` is a row packed from `list`, seeded at the origin of `table`: its
   * packed elements are the front of the list, its first element sits at
   * the table's origin and is no taller than the table.  When `geo` holds
   * (non-negative spacing and dimensions), the row also lies in its band
   * with no overlap.
   */
  predicate RowIn(s: RowState, list: seq<RowElement>, table: Position, spacing: real, geo: bool)
  {
    && s.inputElements == list
    && s.spacing == spacing
    && RowPrefix(s)
    && s.packedElements[0].posX == table.posX
    && s.packedElements[0].posY == table.posY
    && s.packedElements[0].height <= table.height
    && (geo ==> spacing >= 0.0 && InputNonNegative(s) && RowGeometry(s, Band(table, s.packedElements[0].height)))
  }

  /** A row stays on its table while it is filled, and so do all clones it makes. */
  lemma ExpandRowIn(s: RowState, advance: bool, list: seq<RowElement>, table: Position, spacing: real, geo: bool)
    requires RowIn(s, list, table, spacing, geo)
    ensures RowIn(Expand(s, advance).final, list, table, spacing, geo)
    ensures forall c :: c in Expand(s, advance).spawned ==> RowIn(c, list, table, spacing, geo)
  {
    ExpandPrefix(s, advance);
    var band := Band(table, s.packedElements[0].height);
    if geo {
      ExpandGeometry(s, advance, band);
    }
    forall t | t == Expand(s, advance).final || t in Expand(s, advance).spawned
      ensures RowIn(t, list, table, spacing, geo)
    {
      assert Extends(s, t);
      assert t.packedElements[0] == t.packedElements[..|s.packedElements|][0];
    }
  }

  /**
   * A row seeded in any orientation the seeding test allows, for an element
   * with its own dimensions, is a row on the table.
   */
  lemma SeedRowIn(table: Position, spacing: real, list: seq<RowElement>, geo: bool, k: int)
    requires |list| > 0 && Numbered(list)
    requires geo ==> spacing >= 0.0 && forall i :: 0 <= i < |list| ==> NonNegative(list[i])
    requires 0 <= k < |SeedOrientations(list[0].height, list[0].width, IsSquare(list[0]), table)|
    ensures RowIn(NewRow(table, spacing, list, SeedOrientations(list[0].height, list[0].width, IsSquare(list[0]), table)[k]),
                  list, table, spacing, geo)
  {
    var isRotated := SeedOrientations(list[0].height, list[0].width, IsSquare(list[0]), table)[k];
    SeedOrientationsFit(list[0], table);
    var first := if isRotated then GetRotatedCopy(list[0]) else list[0];
    assert Inside(Footprint(PlacedCopy(first, table.posX, table.posY)), table);
    var s := NewRow(table, spacing, list, isRotated);
    assert s.packedElements == [PlacedCopy(first, table.posX, table.posY)];
    assert RowPrefix(s);
    if geo {
      NewRowGeometry(table, spacing, list, isRotated);
    }
  }

  // ---------------------------------------------------------------------
  // Completing the rows of one pass

  /**
   * Packer.cs:257-260: the rows the queue of one pass finishes as: the head
   * is filled (its clones join the back of the queue) until the queue is
   * empty, in queue order.
   */
  function CompleteAll(queue: seq<RowState>): seq<RowState>
    decreases Potential(queue)
  {
    if |queue| == 0 then []
    else
      var x := Expand(queue[0], false);
      ExpandPotential(queue[0], false);
      PotentialAppend(queue[1..], x.spawned);
      [x.final] + CompleteAll(queue[1..] + x.spawned)
  }

  /**
   * Every completed row is one of the queue's rows filled, so on its table;
   * and there are at most Potential(queue) of them.
   */
  lemma {:induction false} CompleteAllRowIn(queue: seq<RowState>, list: seq<RowElement>, table: Position, spacing: real, geo: bool)
    requires forall i :: 0 <= i < |queue| ==> RowIn(queue[i], list, table, spacing, geo)
    ensures forall i :: 0 <= i < |CompleteAll(queue)| ==> RowIn(CompleteAll(queue)[i], list, table, spacing, geo)
    ensures |CompleteAll(queue)| <= Potential(queue)
    decreases Potential(queue)
  {
    if |queue| > 0 {
      var x := Expand(queue[0], false);
      ExpandRowIn(queue[0], false, list, table, spacing, geo);
      ExpandPotential(queue[0], false);
      PotentialAppend(queue[1..], x.spawned);
      var next := queue[1..] + x.spawned;
      forall i | 0 <= i < |next| ensures RowIn(next[i], list, table, spacing, geo) {
        if i >= |queue| - 1 {
          assert next[i] in x.spawned;
        } else {
          assert next[i] == queue[i + 1];
        }
      }
      CompleteAllRowIn(next, list, table, spacing, geo);
    }
  }

  /** A freshly seeded row has all but its first element left. */
  lemma SeedRem(table: Position, spacing: real, list: seq<RowElement>, isRotated: bool)
    requires |list| > 0 && Numbered(list)
    ensures Rem(NewRow(table, spacing, list, isRotated)) == |list| - 1
  {
    var s := NewRow(table, spacing, list, isRotated);
    var first := if isRotated then GetRotatedCopy(list[0]) else list[0];
    assert s.packedElements == [PlacedCopy(first, table.posX, table.posY)];
    assert RowPrefix(s);
    NextOfPrefix(s);
  }

  /** At most two rows with `r` elements left each weigh at most 2^(r+1). */
  lemma PotentialOfTwo(rows: seq<RowState>, r: nat)
    requires |rows| <= 2 && forall k :: 0 <= k < |rows| ==> Rem(rows[k]) == r
    ensures Potential(rows) <= Pow2(r + 1)
  {
    assert Pow2(r + 1) == 2 * Pow2(r);
    if |rows| > 0 {
      assert Rem(rows[0]) == r;
      if |rows| == 2 {
        assert rows[1..][0] == rows[1];
        assert rows[1..][1..] == [];
        assert Potential(rows[1..]) == Pow2(r);
      } else {
        assert rows[1..] == [];
      }
    }
  }

  /** At most two seeded rows, each with all but one element left, weigh at most 2^|list|. */
  lemma SeedsPotential(table: Position, spacing: real, list: seq<RowElement>, orientations: seq<bool>)
    requires |list| > 0 && Numbered(list) && |orientations| <= 2
    ensures Potential(Seeds(table, spacing, list, orientations)) <= Pow2(|list|)
  {
    var seeds := Seeds(table, spacing, list, orientations);
    forall k | 0 <= k < |seeds| ensures Rem(seeds[k]) == |list| - 1 {
      SeedRem(table, spacing, list, orientations[k]);
    }
    PotentialOfTwo(seeds, |list| - 1);
  }

  /**
   * One pass: the rows seeded for a list's first element, filled to
   * completion, all lie on the table; there is at least one exactly when a
   * row was seeded, and no more than 2^|list|.
   */
  lemma PassOutcome(table: Position, spacing: real, list: seq<RowElement>, geo: bool)
    requires |list| > 0 && Numbered(list)
    requires geo ==> spacing >= 0.0 && forall i :: 0 <= i < |list| ==> NonNegative(list[i])
    ensures var orientations := SeedOrientations(list[0].height, list[0].width, IsSquare(list[0]), table);
            var rows := CompleteAll(Seeds(table, spacing, list, orientations));
            && (forall i :: 0 <= i < |rows| ==> RowIn(rows[i], list, table, spacing, geo))
            && |rows| <= Pow2(|list|)
            && (|rows| > 0 <==> |orientations| > 0)
  {
    var orientations := SeedOrientations(list[0].height, list[0].width, IsSquare(list[0]), table);
    SeedOrientationsFit(list[0], table);
    var seeds := Seeds(table, spacing, list, orientations);
    forall i | 0 <= i < |seeds| ensures RowIn(seeds[i], list, table, spacing, geo) {
      SeedRowIn(table, spacing, list, geo, i);
    }
    CompleteAllRowIn(seeds, list, table, spacing, geo);
    SeedsPotential(table, spacing, list, orientations);
  }

  // ---------------------------------------------------------------------
  // The rows of one outcome

  /** The table above the rows: each row takes its first element's height and the spacing off the bottom. */
  function TableAfter(rows: seq<RowState>, t0: Position, spacing: real): Position
    requires forall j :: 0 <= j < |rows| ==> |rows[j].packedElements| > 0
  {
    if |rows| == 0 then t0
    else AdjustedForNextRow(TableAfter(rows[..|rows| - 1], t0, spacing), rows[|rows| - 1].packedElements[0].height, spacing)
  }

  /**
   * Each row was packed from what the earlier rows left of the prepared list
   * `p`, renumbered, and seeded on the table the earlier rows left.
   */
  predicate ValidRows(rows: seq<RowState>, p: seq<RowElement>, t0: Position, spacing: real, geo: bool)
    ensures ValidRows(rows, p, t0, spacing, geo) ==> forall j :: 0 <= j < |rows| ==> |rows[j].packedElements| > 0
  {
    if |rows| == 0 then true
    else
      var init := rows[..|rows| - 1];
      && ValidRows(init, p, t0, spacing, geo)
      && |Flatten(init)| <= |p|
      && RowIn(rows[|rows| - 1], Renumbered(p[|Flatten(init)|..]), TableAfter(init, t0, spacing), spacing, geo)
  }

  /** Every placement tops out at or below `y`. */
  predicate Below(ps: seq<RowElement>, y: real)
  {
    forall i :: 0 <= i < |ps| ==> ps[i].posY + ps[i].height <= y
  }

  /**
   * The rows of a valid outcome hand back the front of the prepared list in
   * order, each element possibly rotated.
   */
  lemma {:induction false} ValidRowsItems(rows: seq<RowState>, p: seq<RowElement>, t0: Position, spacing: real, geo: bool)
    requires ValidRows(rows, p, t0, spacing, geo)
    ensures |Flatten(rows)| <= |p|
    ensures forall k :: 0 <= k < |Flatten(rows)| ==> SameItem(Flatten(rows)[k], p[k])
  {
    if |rows| > 0 {
      var init := rows[..|rows| - 1];
      var last := rows[|rows| - 1];
      ValidRowsItems(init, p, t0, spacing, geo);
      var n := |Flatten(init)|;
      var list := Renumbered(p[n..]);
      RenumberedNumbered(p[n..]);
      NextOfPrefix(last);
      var fl := Flatten(rows);
      assert fl == Flatten(init) + last.packedElements;
      forall k | 0 <= k < |fl| ensures SameItem(fl[k], p[k]) {
        if k >= n {
          assert fl[k] == last.packedElements[k - n];
          assert PlacedFrom(last.packedElements[k - n], list[k - n]);
        } else {
          assert fl[k] == Flatten(init)[k];
        }
      }
    }
  }

  /** The table left above valid rows keeps the original's left edge, width and top. */
  lemma {:induction false} ValidRowsTable(rows: seq<RowState>, p: seq<RowElement>, t0: Position, spacing: real, geo: bool)
    requires ValidRows(rows, p, t0, spacing, geo)
    ensures var t := TableAfter(rows, t0, spacing);
            t.posX == t0.posX && t.width == t0.width && t.posY + t.height == t0.posY + t0.height
    ensures geo ==> t0.posY <= TableAfter(rows, t0, spacing).posY
  {
    if |rows| > 0 {
      var init := rows[..|rows| - 1];
      var last := rows[|rows| - 1];
      ValidRowsTable(init, p, t0, spacing, geo);
      if geo {
        RenumberedNumbered(p[|Flatten(init)|..]);
        assert PlacedFrom(last.packedElements[0], last.inputElements[0]) && NonNegative(last.inputElements[0]);
      }
    }
  }

  /**
   * With non-negative spacing and dimensions, every placement of valid rows
   * lies on the original table, none overlaps another, and all lie below the
   * table the rows leave.
   */
  lemma {:induction false} ValidRowsGeometry(rows: seq<RowState>, p: seq<RowElement>, t0: Position, spacing: real)
    requires ValidRows(rows, p, t0, spacing, true)
    ensures PlacementsInside(Flatten(rows), t0)
    ensures PlacementsDisjoint(Flatten(rows))
    ensures Below(Flatten(rows), TableAfter(rows, t0, spacing).posY)
  {
    if |rows| > 0 {
      var init := rows[..|rows| - 1];
      var last := rows[|rows| - 1];
      ValidRowsGeometry(init, p, t0, spacing);
      ValidRowsTable(init, p, t0, spacing, true);
      var fl := Flatten(rows);
      var n := |Flatten(init)|;
      assert fl == Flatten(init) + last.packedElements;
      var t := TableAfter(init, t0, spacing);
      var h := last.packedElements[0].height;
      var band := Band(t, h);
      assert PlacedFrom(last.packedElements[0], last.inputElements[0]) && NonNegative(last.inputElements[0]);
      assert Inside(band, t0);
      forall k | 0 <= k < |fl| ensures Inside(Footprint(fl[k]), t0) && fl[k].posY + fl[k].height <= t.posY + h + spacing {
        if k >= n {
          assert fl[k] == last.packedElements[k - n];
          assert Inside(Footprint(last.packedElements[k - n]), band);
          InsideTransitive(Footprint(fl[k]), band, t0);
        } else {
          assert fl[k] == Flatten(init)[k];
        }
      }
      forall i, j | 0 <= i < j < |fl| ensures Disjoint(Footprint(fl[i]), Footprint(fl[j])) {
        if i >= n {
          assert fl[i] == last.packedElements[i - n] && fl[j] == last.packedElements[j - n];
        } else if j >= n {
          assert fl[i] == Flatten(init)[i] && fl[j] == last.packedElements[j - n];
          assert Inside(Footprint(last.packedElements[j - n]), band);
        } else {
          assert fl[i] == Flatten(init)[i] && fl[j] == Flatten(init)[j];
        }
      }
    }
  }

  /**
   * VariantGroup.cs:42-45: a finished group's used area, the top of its last
   * row's first element, lies one spacing below the table its rows leave;
   * with non-negative spacing and dimensions no placement of the group
   * reaches above it.
   */
  lemma UsedAreaTop(g: VariantGroup, p: seq<RowElement>, t0: Position, spacing: real, geo: bool)
    requires FinishedInv(g, p, t0, spacing, geo)
    ensures |g.groupRows[|g.groupRows| - 1].packedElements| > 0
    ensures UsedArea(g) + spacing == TableAfter(g.groupRows, t0, spacing).posY
    ensures geo ==> Below(Flatten(g.groupRows), UsedArea(g))
  {
    var rows := g.groupRows;
    var init := rows[..|rows| - 1];
    var last := rows[|rows| - 1];
    var t := TableAfter(init, t0, spacing);
    assert RowIn(last, Renumbered(p[|Flatten(init)|..]), t, spacing, geo);
    if geo {
      ValidRowsGeometry(init, p, t0, spacing);
      var fl := Flatten(rows);
      var n := |Flatten(init)|;
      assert fl == Flatten(init) + last.packedElements;
      var h := last.packedElements[0].height;
      var band := Band(t, h);
      assert PlacedFrom(last.packedElements[0], last.inputElements[0]) && NonNegative(last.inputElements[0]);
      forall k | 0 <= k < |fl| ensures fl[k].posY + fl[k].height <= t.posY + h {
        if k >= n {
          assert fl[k] == last.packedElements[k - n];
          assert Inside(Footprint(last.packedElements[k - n]), band);
        } else {
          assert fl[k] == Flatten(init)[k];
        }
      }
    }
  }

  // ---------------------------------------------------------------------
  // Outcomes in the worklists

  /**
   * A group still in the worklist: its rows are valid, its table is the one
   * its rows leave, and its list is what they leave of `p`, numbered.
   */
  predicate GroupInv(g: VariantGroup, p: seq<RowElement>, t0: Position, spacing: real, geo: bool)
  {
    && |g.groupRows| > 0
    && ValidRows(g.groupRows, p, t0, spacing, geo)
    && |Flatten(g.groupRows)| <= |p|
    && g.tablePosition == TableAfter(g.groupRows[..|g.groupRows| - 1], t0, spacing)
    && g.inputElements == Renumbered(p[|Flatten(g.groupRows)|..])
  }

  /** A finished group: at least one row, and valid rows. */
  predicate FinishedInv(g: VariantGroup, p: seq<RowElement>, t0: Position, spacing: real, geo: bool)
  {
    |g.groupRows| > 0 && ValidRows(g.groupRows, p, t0, spacing, geo)
  }

  /**
   * A group's next element is missing exactly when its list is empty, and
   * otherwise has the dimensions of the list's first element.
   */
  lemma GroupNext(g: VariantGroup, p: seq<RowElement>, t0: Position, spacing: real, geo: bool)
    requires GroupInv(g, p, t0, spacing, geo)
    ensures GetNextElement(g).None? <==> |g.inputElements| == 0
    ensures GetNextElement(g).Some? ==>
              GetNextElement(g).value.height == g.inputElements[0].height &&
              GetNextElement(g).value.width == g.inputElements[0].width
  {
    var rows := g.groupRows;
    var init := rows[..|rows| - 1];
    var last := rows[|rows| - 1];
    assert Flatten(rows) == Flatten(init) + last.packedElements;
    var n := |Flatten(init)|;
    var k := |last.packedElements|;
    assert last.inputElements == Renumbered(p[n..]);
    assert g.inputElements == Renumbered(p[n..][k..]) by {
      assert p[n + k..] == p[n..][k..];
    }
    NextOfPrefix(last);
    RenumberedShift(p[n..], k);
  }

  /** The element at `k` of a numbered list and the first of its numbered suffix from `k` have the same size. */
  lemma RenumberedShift(l: seq<RowElement>, k: nat)
    requires k <= |l|
    ensures k < |l| ==> Renumbered(l)[k].width == Renumbered(l[k..])[0].width &&
                        Renumbered(l)[k].height == Renumbered(l[k..])[0].height
  {
  }

  /** The table the group's next row is seeded on is the table its rows leave. */
  lemma GroupTable(g: VariantGroup, p: seq<RowElement>, t0: Position, spacing: real, geo: bool)
    requires GroupInv(g, p, t0, spacing, geo)
    ensures var last := g.groupRows[|g.groupRows| - 1];
            AdjustedForNextRow(g.tablePosition, last.packedElements[0].height, spacing) == TableAfter(g.groupRows, t0, spacing)
  {
  }

  lemma ValidRowsSnoc(init: seq<RowState>, p: seq<RowElement>, t0: Position, spacing: real, geo: bool, row: RowState)
    requires ValidRows(init, p, t0, spacing, geo) && |Flatten(init)| <= |p|
    requires RowIn(row, Renumbered(p[|Flatten(init)|..]), TableAfter(init, t0, spacing), spacing, geo)
    ensures ValidRows(init + [row], p, t0, spacing, geo)
    ensures Flatten(init + [row]) == Flatten(init) + row.packedElements
    ensures |Flatten(init + [row])| <= |p|
  {
    var rows := init + [row];
    assert rows[..|rows| - 1] == init;
    NextOfPrefix(row);
  }

  /** The child of a first-pass row has that row alone and the rest of `p`, numbered. */
  lemma FirstChildShape(p: seq<RowElement>, t0: Position, spacing: real, geo: bool, row: RowState)
    requires RowIn(row, p, t0, spacing, geo)
    ensures var c := Child(None, t0, p, row);
            && c.inputElements == Renumbered(p[|row.packedElements|..])
            && c.groupRows == [row]
            && c.tablePosition == t0
            && 0 < |row.packedElements| <= |p|
  {
    forall i | 0 <= i < |row.packedElements| ensures row.packedElements[i].index == p[i].index {
      assert PlacedFrom(row.packedElements[i], p[i]);
    }
    ChildShape(None, t0, p, row);
  }

  /** On the first pass, each completed row starts a group that keeps the invariant. */
  lemma FirstChildInv(p: seq<RowElement>, t0: Position, spacing: real, geo: bool, row: RowState)
    requires Numbered(p)
    requires RowIn(row, p, t0, spacing, geo)
    ensures GroupInv(Child(None, t0, p, row), p, t0, spacing, geo)
    ensures |Child(None, t0, p, row).inputElements| < |p|
  {
    FirstChildShape(p, t0, spacing, geo, row);
    RenumberedNumbered(p);
    assert p[0..] == p;
    assert Flatten([]) == [];
    ValidRowsSnoc([], p, t0, spacing, geo, row);
    assert [] + [row] == [row];
    assert [row][..0] == [];
  }

  /**
   * On a later pass, each completed row extends the (table-adjusted) first
   * group into a group that keeps the invariant and holds fewer elements.
   */
  lemma LaterChildInv(g: VariantGroup, p: seq<RowElement>, t0: Position, spacing: real, geo: bool, row: RowState)
    requires GroupInv(g, p, t0, spacing, geo)
    requires RowIn(row, g.inputElements, TableAfter(g.groupRows, t0, spacing), spacing, geo)
    ensures var adjusted := g.(tablePosition := TableAfter(g.groupRows, t0, spacing));
            GroupInv(Child(Some(adjusted), TableAfter(g.groupRows, t0, spacing), g.inputElements, row), p, t0, spacing, geo)
    ensures var adjusted := g.(tablePosition := TableAfter(g.groupRows, t0, spacing));
            |Child(Some(adjusted), TableAfter(g.groupRows, t0, spacing), g.inputElements, row).inputElements| < |g.inputElements|
  {
    var t := TableAfter(g.groupRows, t0, spacing);
    var adjusted := g.(tablePosition := t);
    var l := g.inputElements;
    forall i | 0 <= i < |row.packedElements| ensures row.packedElements[i].index == l[i].index {
      assert PlacedFrom(row.packedElements[i], l[i]);
    }
    ChildShape(Some(adjusted), t, l, row);
    var n := |Flatten(g.groupRows)|;
    var m := |row.packedElements|;
    ValidRowsSnoc(g.groupRows, p, t0, spacing, geo, row);
    var rows := g.groupRows + [row];
    assert rows[..|rows| - 1] == g.groupRows;
    RenumberedSuffix(p[n..], m);
    assert p[n..][m..] == p[n + m..];
  }

  /** The first pass's children all keep the invariant, each with fewer elements than the list. */
  lemma FirstPassChildren(p: seq<RowElement>, t0: Position, spacing: real, geo: bool, rows: seq<RowState>)
    requires Numbered(p)
    requires forall i :: 0 <= i < |rows| ==> RowIn(rows[i], p, t0, spacing, geo)
    ensures var cs := ChildGroups(None, t0, p, rows);
            forall i :: 0 <= i < |cs| ==> GroupInv(cs[i], p, t0, spacing, geo) && |cs[i].inputElements| < |p|
  {
    var cs := ChildGroups(None, t0, p, rows);
    forall i | 0 <= i < |cs| ensures GroupInv(cs[i], p, t0, spacing, geo) && |cs[i].inputElements| < |p| {
      FirstChildInv(p, t0, spacing, geo, rows[i]);
    }
  }

  /** A later pass's children all keep the invariant, each with fewer elements than the first group. */
  lemma LaterPassChildren(g: VariantGroup, p: seq<RowElement>, t0: Position, spacing: real, geo: bool, rows: seq<RowState>)
    requires GroupInv(g, p, t0, spacing, geo)
    requires forall i :: 0 <= i < |rows| ==> RowIn(rows[i], g.inputElements, TableAfter(g.groupRows, t0, spacing), spacing, geo)
    ensures var t := TableAfter(g.groupRows, t0, spacing);
            var cs := ChildGroups(Some(g.(tablePosition := t)), t, g.inputElements, rows);
            forall i :: 0 <= i < |cs| ==> GroupInv(cs[i], p, t0, spacing, geo) && |cs[i].inputElements| < |g.inputElements|
  {
    var t := TableAfter(g.groupRows, t0, spacing);
    var cs := ChildGroups(Some(g.(tablePosition := t)), t, g.inputElements, rows);
    forall i | 0 <= i < |cs| ensures GroupInv(cs[i], p, t0, spacing, geo) && |cs[i].inputElements| < |g.inputElements| {
      LaterChildInv(g, p, t0, spacing, geo, rows[i]);
    }
  }

  /** A group's list is numbered, and non-negative when the prepared list is. */
  lemma GroupList(g: VariantGroup, p: seq<RowElement>, t0: Position, spacing: real, geo: bool)
    requires GroupInv(g, p, t0, spacing, geo)
    ensures Numbered(g.inputElements)
    ensures (forall i :: 0 <= i < |p| ==> NonNegative(p[i])) ==>
              forall i :: 0 <= i < |g.inputElements| ==> NonNegative(g.inputElements[i])
  {
    var n := |Flatten(g.groupRows)|;
    RenumberedNumbered(p[n..]);
    if forall i :: 0 <= i < |p| ==> NonNegative(p[i]) {
      forall i | 0 <= i < |g.inputElements| ensures NonNegative(g.inputElements[i]) {
        assert g.inputElements[i] == p[n + i].(sortIndex := i);
      }
    }
  }

  /** Preparing keeps every element's dimensions (possibly swapped), so non-negative input stays non-negative. */
  lemma PreparedNonNegative(inputElements: seq<RowElement>)
    requires forall i :: 0 <= i < |inputElements| ==> NonNegative(inputElements[i])
    ensures forall i :: 0 <= i < |Prepared(inputElements)| ==> NonNegative(Prepared(inputElements)[i])
  {
    var normalised := NormaliseAll(inputElements);
    var sorted := SortByWidthDescending(normalised);
    SortSortedPermutation(normalised);
    RenumberedNumbered(sorted);
    forall i | 0 <= i < |sorted| ensures NonNegative(sorted[i]) {
      assert sorted[i] in multiset(normalised);
      var j :| 0 <= j < |normalised| && normalised[j] == sorted[i];
      assert normalised[j] == Normalised(inputElements[j]);
    }
  }

  // ---------------------------------------------------------------------
  // The measure of the group worklist

  /**
   * A bound on the groups a group with `n` elements left can still give rise
   * to (itself included): one pass completes at most 2^n rows, each the start
   * of a group with fewer elements left.
   */
  function W(n: nat): (r: nat)
    ensures r >= 1
  {
    if n == 0 then 1 else 1 + Pow2(n) * W(n - 1)
  }

  /** Scaling by more gives more. */
  lemma MulMonotone(a: nat, b: nat, c: nat)
    requires a <= b
    ensures a * c <= b * c
  {
    assert b * c == a * c + (b - a) * c;
  }

  lemma MulSucc(t: nat, w: nat)
    ensures (t + 1) * w == w + t * w
  {
  }

  lemma {:induction false} WMonotone(m: nat, n: nat)
    requires m <= n
    ensures W(m) <= W(n)
  {
    if m < n {
      WMonotone(m, n - 1);
      MulMonotone(1, Pow2(n), W(n - 1));
    }
  }

  /** The worklist's measure: the sum of W over the groups' remaining list lengths. */
  function GroupsPotential(gs: seq<VariantGroup>): nat
  {
    if |gs| == 0 then 0 else W(|gs[0].inputElements|) + GroupsPotential(gs[1..])
  }

  lemma {:induction false} GroupsPotentialAppend(a: seq<VariantGroup>, b: seq<VariantGroup>)
    ensures GroupsPotential(a + b) == GroupsPotential(a) + GroupsPotential(b)
  {
    if |a| > 0 {
      assert (a + b)[0] == a[0];
      assert (a + b)[1..] == a[1..] + b;
      GroupsPotentialAppend(a[1..], b);
    } else {
      assert a + b == b;
    }
  }

  /** Groups that each have fewer than `n` elements left weigh at most W(n - 1) each. */
  lemma {:induction false} ChildrenPotential(children: seq<VariantGroup>, n: nat)
    requires n > 0
    requires forall i :: 0 <= i < |children| ==> |children[i].inputElements| < n
    ensures GroupsPotential(children) <= |children| * W(n - 1)
  {
    if |children| > 0 {
      var tail := children[1..];
      assert forall i :: 0 <= i < |tail| ==> tail[i] == children[i + 1];
      WMonotone(|children[0].inputElements|, n - 1);
      ChildrenPotential(tail, n);
      MulSucc(|tail|, W(n - 1));
    }
  }

  /**
   * Replacing a group with `n > 0` elements left by at most 2^n groups with
   * fewer left makes the worklist's measure smaller.
   */
  lemma ReplaceHeadDecreases(gs: seq<VariantGroup>, children: seq<VariantGroup>)
    requires |gs| > 0 && |gs[0].inputElements| > 0
    requires |children| <= Pow2(|gs[0].inputElements|)
    requires forall i :: 0 <= i < |children| ==> |children[i].inputElements| < |gs[0].inputElements|
    ensures GroupsPotential(gs[1..] + children) < GroupsPotential(gs)
  {
    var n := |gs[0].inputElements|;
    ChildrenPotential(children, n);
    GroupsPotentialAppend(gs[1..], children);
    MulMonotone(|children|, Pow2(n), W(n - 1));
  }
}

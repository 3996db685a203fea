/**
 * The packer's search on values (BinPacker2D/Packer.cs:137-308): the rows
 * one pass completes, the groups the first pass starts, one later pass on
 * the worklist of groups, and the passes run until the worklist is empty.
 * The methods of module Packer are proved to compute exactly these.
 */
module Search {
  import opened Wrappers
  import opened Positions
  import opened Elements
  import opened Rows
  import opened RowProperties
  import opened Groups
  import opened Children
  import opened Outcomes

  /**
   * Packer.cs:157-184 or 218-245, then 257-260: the rows one pass
   * completes, seeded on `table` for a first element of height `eH` and
   * width `eW`.
   */
  function PassRowsOf(table: Position, spacing: real, list: seq<RowElement>, eH: real, eW: real): seq<RowState>
    requires |list| > 0
  {
    CompleteAll(Seeds(table, spacing, list, SeedOrientations(eH, eW, IsSquare(list[0]), table)))
  }

  /** Packer.cs:148-188 and 287-302: the groups the first pass starts on the whole table. */
  function FirstGroups(p: seq<RowElement>, t0: Position, spacing: real): seq<VariantGroup>
    requires |p| > 0
  {
    ChildGroups(None, t0, p, PassRowsOf(t0, spacing, p, p[0].height, p[0].width))
  }

  /**
   * What a later pass reads of the first group without failing: a last row
   * with a first element, and a first list element when there is a next
   * element to pack.
   */
  predicate Pending(g: VariantGroup)
  {
    && |g.groupRows| > 0
    && |g.groupRows[|g.groupRows| - 1].packedElements| > 0
    && (GetNextElement(g).Some? ==> |g.inputElements| > 0)
  }

  /** Packer.cs:204-205: the group with its table moved above its last row. */
  function AdjustedFirst(g: VariantGroup, spacing: real): VariantGroup
    requires |g.groupRows| > 0 && |g.groupRows[|g.groupRows| - 1].packedElements| > 0
  {
    g.(tablePosition := AdjustedForNextRow(g.tablePosition, g.groupRows[|g.groupRows| - 1].packedElements[0].height, spacing))
  }

  /** The worklist of groups still growing and the list of finished groups. */
  datatype Worklists = Worklists(variantGroups: seq<VariantGroup>, finishedVariantGroups: seq<VariantGroup>)

  /**
   * Packer.cs:189-305, one later pass on the first group `g`: with no next
   * element, `g` is finished as it is; otherwise its table moves above its
   * last row, and `g` is finished with that table when the next element
   * fits it neither way, or else replaced, at the back of the worklist, by
   * one child per row the pass completes.
   */
  function NextOf(gs: seq<VariantGroup>, fin: seq<VariantGroup>, spacing: real): Worklists
    requires |gs| > 0 && Pending(gs[0])
  {
    var g := gs[0];
    match GetNextElement(g)
    case None => Worklists(gs[1..], fin + [g])
    case Some(e) =>
      var adjusted := AdjustedFirst(g, spacing);
      var t := adjusted.tablePosition;
      if |SeedOrientations(e.height, e.width, IsSquare(g.inputElements[0]), t)| == 0 then
        Worklists(gs[1..], fin + [adjusted])
      else
        Worklists(gs[1..] + ChildGroups(Some(adjusted), t, g.inputElements, PassRowsOf(t, spacing, g.inputElements, e.height, e.width)),
                  fin)
  }

  /** A pass on a first group with no next element finishes that group as it is. */
  lemma NextOfNone(gs: seq<VariantGroup>, fin: seq<VariantGroup>, spacing: real)
    requires |gs| > 0 && Pending(gs[0]) && GetNextElement(gs[0]).None?
    ensures NextOf(gs, fin, spacing) == Worklists(gs[1..], fin + [gs[0]])
  {
  }

  /**
   * A pass on a first group with next element `e`, read off `grown`: the
   * worklist with the first group's table moved and, when `e` fits that
   * table, the children appended.  The worklist after the pass is `grown`
   * without its head, and the head is finished exactly when nothing fits.
   */
  lemma NextOfGrown(gs: seq<VariantGroup>, fin: seq<VariantGroup>, spacing: real, e: RowElement,
                    fits: bool, grown: seq<VariantGroup>)
    requires |gs| > 0 && Pending(gs[0]) && GetNextElement(gs[0]) == Some(e) && |gs[0].inputElements| > 0
    requires var adjusted := AdjustedFirst(gs[0], spacing);
             var t := adjusted.tablePosition;
             && (fits <==> |SeedOrientations(e.height, e.width, IsSquare(gs[0].inputElements[0]), t)| > 0)
             && grown == [adjusted] + gs[1..] +
                         (if fits then ChildGroups(Some(adjusted), t, gs[0].inputElements,
                                                   PassRowsOf(t, spacing, gs[0].inputElements, e.height, e.width))
                          else [])
    ensures NextOf(gs, fin, spacing) == Worklists(grown[1..], if fits then fin else fin + [grown[0]])
  {
    var adjusted := AdjustedFirst(gs[0], spacing);
    var t := adjusted.tablePosition;
    if fits {
      assert grown[1..] == gs[1..] + ChildGroups(Some(adjusted), t, gs[0].inputElements,
                                                 PassRowsOf(t, spacing, gs[0].inputElements, e.height, e.width));
    } else {
      assert grown[1..] == gs[1..];
    }
  }

  /** A valid outcome stays valid when the geometry is not asked for. */
  lemma {:induction false} ValidRowsPlain(rows: seq<RowState>, p: seq<RowElement>, t0: Position, spacing: real, geo: bool)
    requires ValidRows(rows, p, t0, spacing, geo)
    ensures ValidRows(rows, p, t0, spacing, false)
    decreases |rows|
  {
    if |rows| > 0 {
      ValidRowsPlain(rows[..|rows| - 1], p, t0, spacing, geo);
    }
  }

  /** The worklist invariant without the geometry follows from the one with it. */
  lemma GroupInvPlain(g: VariantGroup, p: seq<RowElement>, t0: Position, spacing: real, geo: bool)
    requires GroupInv(g, p, t0, spacing, geo)
    ensures GroupInv(g, p, t0, spacing, false)
  {
    ValidRowsPlain(g.groupRows, p, t0, spacing, geo);
  }

  /** The groups behind the first keep the invariant. */
  lemma RestInv(gs: seq<VariantGroup>, p: seq<RowElement>, t0: Position, spacing: real, geo: bool)
    requires |gs| > 0
    requires forall i :: 0 <= i < |gs| ==> GroupInv(gs[i], p, t0, spacing, geo)
    ensures forall i :: 0 <= i < |gs[1..]| ==> GroupInv(gs[1..][i], p, t0, spacing, geo)
  {
    forall i | 0 <= i < |gs[1..]| ensures GroupInv(gs[1..][i], p, t0, spacing, geo) {
      assert gs[1..][i] == gs[i + 1];
    }
  }

  /** Two worklists that keep the invariant, one after the other, keep it. */
  lemma AppendInv(xs: seq<VariantGroup>, ys: seq<VariantGroup>, p: seq<RowElement>, t0: Position, spacing: real, geo: bool)
    requires forall i :: 0 <= i < |xs| ==> GroupInv(xs[i], p, t0, spacing, geo)
    requires forall i :: 0 <= i < |ys| ==> GroupInv(ys[i], p, t0, spacing, geo)
    ensures forall i :: 0 <= i < |xs + ys| ==> GroupInv((xs + ys)[i], p, t0, spacing, geo)
  {
    forall i | 0 <= i < |xs + ys| ensures GroupInv((xs + ys)[i], p, t0, spacing, geo) {
      if i < |xs| {
        assert (xs + ys)[i] == xs[i];
      } else {
        assert (xs + ys)[i] == ys[i - |xs|];
      }
    }
  }

  /**
   * The children a later pass gives a group that keeps the invariant, when
   * its next element fits the adjusted table: at least one, at most two to
   * the power of the group's list length, each keeping the invariant with
   * a shorter list.
   */
  lemma GrowChildren(g: VariantGroup, e: RowElement, p: seq<RowElement>, t0: Position, spacing: real, geo: bool)
    requires geo ==> spacing >= 0.0 && forall i :: 0 <= i < |p| ==> NonNegative(p[i])
    requires GroupInv(g, p, t0, spacing, geo)
    requires GetNextElement(g) == Some(e) && |g.inputElements| > 0
    requires |SeedOrientations(e.height, e.width, IsSquare(g.inputElements[0]), AdjustedFirst(g, spacing).tablePosition)| > 0
    ensures var t := AdjustedFirst(g, spacing).tablePosition;
            var cs := ChildGroups(Some(AdjustedFirst(g, spacing)), t, g.inputElements, PassRowsOf(t, spacing, g.inputElements, e.height, e.width));
            && 0 < |cs| <= Pow2(|g.inputElements|)
            && forall i :: 0 <= i < |cs| ==> GroupInv(cs[i], p, t0, spacing, geo) && |cs[i].inputElements| < |g.inputElements|
  {
    GroupNext(g, p, t0, spacing, geo);
    GroupTable(g, p, t0, spacing, geo);
    GroupList(g, p, t0, spacing, geo);
    var t := AdjustedFirst(g, spacing).tablePosition;
    assert t == TableAfter(g.groupRows, t0, spacing);
    PassOutcome(t, spacing, g.inputElements, geo);
    LaterPassChildren(g, p, t0, spacing, geo, PassRowsOf(t, spacing, g.inputElements, e.height, e.width));
  }

  /**
   * What a later pass keeps, from worklist `gs` and finished list `fin` to
   * `n`: every group left in the worklist keeps the invariant, the finished
   * list keeps its old groups and gains at most one, the first group with
   * at most its table moved, which has valid rows, the worklist is
   * non-empty when nothing was finished, and the worklist's measure drops.
   */
  predicate PassKeeps(gs: seq<VariantGroup>, fin: seq<VariantGroup>, n: Worklists,
                      p: seq<RowElement>, t0: Position, spacing: real, geo: bool)
    requires |gs| > 0
  {
    && (forall i :: 0 <= i < |n.variantGroups| ==> GroupInv(n.variantGroups[i], p, t0, spacing, geo))
    && |fin| <= |n.finishedVariantGroups| <= |fin| + 1
    && n.finishedVariantGroups[..|fin|] == fin
    && (|n.finishedVariantGroups| > |fin| ==>
          && FinishedInv(n.finishedVariantGroups[|fin|], p, t0, spacing, geo)
          && n.finishedVariantGroups[|fin|].groupRows == gs[0].groupRows
          && n.finishedVariantGroups[|fin|].inputElements == gs[0].inputElements)
    && (|n.finishedVariantGroups| == |fin| ==> |n.variantGroups| > 0)
    && GroupsPotential(n.variantGroups) < GroupsPotential(gs)
  }

  /** Finishing the first group as `x`, with its rows and list, keeps what a pass keeps. */
  lemma FinishKeeps(gs: seq<VariantGroup>, fin: seq<VariantGroup>, x: VariantGroup,
                    p: seq<RowElement>, t0: Position, spacing: real, geo: bool)
    requires |gs| > 0
    requires forall i :: 0 <= i < |gs| ==> GroupInv(gs[i], p, t0, spacing, geo)
    requires x.groupRows == gs[0].groupRows && x.inputElements == gs[0].inputElements
    ensures PassKeeps(gs, fin, Worklists(gs[1..], fin + [x]), p, t0, spacing, geo)
  {
    assert GroupInv(gs[0], p, t0, spacing, geo);
    RestInv(gs, p, t0, spacing, geo);
    FinishDecreases(gs, x, fin);
  }

  /** Replacing the first group by children that keep the invariant with shorter lists keeps what a pass keeps. */
  lemma GrowKeeps(gs: seq<VariantGroup>, fin: seq<VariantGroup>, children: seq<VariantGroup>,
                  p: seq<RowElement>, t0: Position, spacing: real, geo: bool)
    requires |gs| > 0 && |gs[0].inputElements| > 0
    requires forall i :: 0 <= i < |gs| ==> GroupInv(gs[i], p, t0, spacing, geo)
    requires 0 < |children| <= Pow2(|gs[0].inputElements|)
    requires forall i :: 0 <= i < |children| ==>
               GroupInv(children[i], p, t0, spacing, geo) && |children[i].inputElements| < |gs[0].inputElements|
    ensures PassKeeps(gs, fin, Worklists(gs[1..] + children, fin), p, t0, spacing, geo)
  {
    RestInv(gs, p, t0, spacing, geo);
    ReplaceHeadDecreases(gs, children);
    AppendInv(gs[1..], children, p, t0, spacing, geo);
  }

  /** A later pass on a worklist whose groups keep the invariant keeps what a pass keeps. */
  lemma NextOfInv(gs: seq<VariantGroup>, fin: seq<VariantGroup>, spacing: real, p: seq<RowElement>, t0: Position, geo: bool)
    requires |gs| > 0
    requires geo ==> spacing >= 0.0 && forall i :: 0 <= i < |p| ==> NonNegative(p[i])
    requires forall i :: 0 <= i < |gs| ==> GroupInv(gs[i], p, t0, spacing, geo)
    ensures Pending(gs[0])
    ensures PassKeeps(gs, fin, NextOf(gs, fin, spacing), p, t0, spacing, geo)
  {
    var g := gs[0];
    assert GroupInv(g, p, t0, spacing, geo);
    GroupNext(g, p, t0, spacing, geo);
    match GetNextElement(g)
    case None =>
      NextOfNone(gs, fin, spacing);
      FinishKeeps(gs, fin, g, p, t0, spacing, geo);
    case Some(e) =>
      var adjusted := AdjustedFirst(g, spacing);
      var t := adjusted.tablePosition;
      if |SeedOrientations(e.height, e.width, IsSquare(g.inputElements[0]), t)| == 0 {
        assert NextOf(gs, fin, spacing) == Worklists(gs[1..], fin + [adjusted]);
        FinishKeeps(gs, fin, adjusted, p, t0, spacing, geo);
      } else {
        var children := ChildGroups(Some(adjusted), t, g.inputElements, PassRowsOf(t, spacing, g.inputElements, e.height, e.width));
        assert NextOf(gs, fin, spacing) == Worklists(gs[1..] + children, fin);
        GrowChildren(g, e, p, t0, spacing, geo);
        GrowKeeps(gs, fin, children, p, t0, spacing, geo);
      }
  }

  /** Finishing the first group keeps the finished list in front and shrinks the worklist's measure. */
  lemma FinishDecreases(gs: seq<VariantGroup>, x: VariantGroup, fin: seq<VariantGroup>)
    requires |gs| > 0
    ensures (fin + [x])[..|fin|] == fin && (fin + [x])[|fin|] == x
    ensures GroupsPotential(gs[1..]) < GroupsPotential(gs)
  {
  }

  /**
   * Packer.cs:137-308 from a given worklist: the finished groups once the
   * passes have emptied the worklist.  The groups already finished stay in
   * front, a non-empty worklist finishes at least one more, and every
   * group it finishes has valid rows.
   */
  function FinishedGroups(gs: seq<VariantGroup>, fin: seq<VariantGroup>, spacing: real, p: seq<RowElement>, t0: Position): (r: seq<VariantGroup>)
    requires forall i :: 0 <= i < |gs| ==> GroupInv(gs[i], p, t0, spacing, false)
    ensures |r| >= |fin| && r[..|fin|] == fin
    ensures |gs| > 0 ==> |r| > |fin|
    ensures forall i :: |fin| <= i < |r| ==> FinishedInv(r[i], p, t0, spacing, false)
    decreases GroupsPotential(gs)
  {
    if |gs| == 0 then fin
    else
      NextOfInv(gs, fin, spacing, p, t0, false);
      var n := NextOf(gs, fin, spacing);
      var r := FinishedGroups(n.variantGroups, n.finishedVariantGroups, spacing, p, t0);
      FinishedFront(r, n.finishedVariantGroups, fin, spacing, p, t0);
      r
  }

  /** One pass of the search: the groups finished from a worklist are those finished from the worklists after its next pass. */
  lemma FinishedGroupsStep(gs: seq<VariantGroup>, fin: seq<VariantGroup>, spacing: real, p: seq<RowElement>, t0: Position)
    requires forall i :: 0 <= i < |gs| ==> GroupInv(gs[i], p, t0, spacing, false)
    requires |gs| > 0 && Pending(gs[0])
    requires forall i :: 0 <= i < |NextOf(gs, fin, spacing).variantGroups| ==>
               GroupInv(NextOf(gs, fin, spacing).variantGroups[i], p, t0, spacing, false)
    ensures var n := NextOf(gs, fin, spacing);
            FinishedGroups(gs, fin, spacing, p, t0) == FinishedGroups(n.variantGroups, n.finishedVariantGroups, spacing, p, t0)
  {
  }

  /** The groups finished after `fin`: one finished in this pass, if any, then those of the later passes. */
  lemma FinishedFront(r: seq<VariantGroup>, mid: seq<VariantGroup>, fin: seq<VariantGroup>,
                      spacing: real, p: seq<RowElement>, t0: Position)
    requires |r| >= |mid| && r[..|mid|] == mid
    requires |fin| <= |mid| <= |fin| + 1 && mid[..|fin|] == fin
    requires |mid| > |fin| ==> FinishedInv(mid[|fin|], p, t0, spacing, false)
    requires forall i :: |mid| <= i < |r| ==> FinishedInv(r[i], p, t0, spacing, false)
    ensures r[..|fin|] == fin
    ensures forall i :: |fin| <= i < |r| ==> FinishedInv(r[i], p, t0, spacing, false)
  {
    assert r[..|fin|] == r[..|mid|][..|fin|];
    forall i | |fin| <= i < |r| ensures FinishedInv(r[i], p, t0, spacing, false) {
      if i < |mid| {
        assert r[i] == mid[|fin|];
      }
    }
  }
}

/**
 * What a row's insertion loop guarantees (BinPacker2D/RowVariant.cs),
 * stated about the functional model in module Rows: the packed elements are
 * the first input elements in order, each placed in a space it fits, no two
 * placements overlap, every free space stays inside the row's band, and the
 * number of rows a branching row can give rise to is bounded.
 */
module RowProperties {
  import opened Wrappers
  import opened Positions
  import opened Elements
  import opened Rows

  // ---------------------------------------------------------------------
  // The packed elements are a prefix of the input list

  /** The packed elements are copies of the first input elements, in order, each possibly rotated. */
  predicate RowPrefix(s: RowState)
  {
    && Numbered(s.inputElements)
    && 1 <= |s.packedElements| <= |s.inputElements|
    && forall i :: 0 <= i < |s.packedElements| ==> PlacedFrom(s.packedElements[i], s.inputElements[i])
  }

  /** `t` is `s` with more elements packed: same list, spacing and threshold, and `s`'s placements kept. */
  predicate Extends(s: RowState, t: RowState)
  {
    && t.inputElements == s.inputElements
    && t.spacing == s.spacing
    && t.smallestElementDimension == s.smallestElementDimension
    && |s.packedElements| <= |t.packedElements|
    && t.packedElements[..|s.packedElements|] == s.packedElements
  }

  lemma {:induction false} CountFromNumbered(l: seq<RowElement>, k: int, offset: int)
    requires forall i :: 0 <= i < |l| ==> l[i].sortIndex == offset + i
    requires offset <= k <= offset + |l|
    ensures CountFrom(l, k) == |l| - (k - offset)
  {
    if |l| > 0 {
      assert forall i :: 0 <= i < |l| - 1 ==> l[1..][i].sortIndex == offset + 1 + i;
      if k == offset {
        CountFromNumbered(l[1..], k + 1, offset + 1);
        CountFromMonotone(l[1..], k);
        CountFromAllAbove(l[1..], k, offset + 1);
      } else {
        CountFromNumbered(l[1..], k, offset + 1);
      }
    }
  }

  lemma {:induction false} CountFromAllAbove(l: seq<RowElement>, k: int, offset: int)
    requires forall i :: 0 <= i < |l| ==> l[i].sortIndex == offset + i
    requires k < offset
    ensures CountFrom(l, k) == |l|
  {
    if |l| > 0 {
      assert forall i :: 0 <= i < |l| - 1 ==> l[1..][i].sortIndex == offset + 1 + i;
      CountFromAllAbove(l[1..], k, offset + 1);
    }
  }

  /**
   * On a row whose packed elements are an input prefix, the ordering keys of
   * the packed elements are 0, 1, 2, ..., the next element is the input
   * element right after them (none once all are packed), and the number of
   * remaining elements is what is left of the list.
   */
  lemma NextOfPrefix(s: RowState)
    requires RowPrefix(s)
    ensures forall i :: 0 <= i < |s.packedElements| ==> s.packedElements[i].sortIndex == i
    ensures NextSortIndex(s) == |s.packedElements|
    ensures NextElement(s) == if |s.packedElements| < |s.inputElements|
                              then Some(s.inputElements[|s.packedElements|]) else None
    ensures Rem(s) == |s.inputElements| - |s.packedElements|
  {
    FindInNumbered(s.inputElements, NextSortIndex(s), 0);
    CountFromNumbered(s.inputElements, NextSortIndex(s), 0);
  }

  lemma InsertedPrefix(s: RowState, x: RowElement)
    requires RowPrefix(s) && |s.packedElements| < |s.inputElements|
    requires PlacedFrom(x, s.inputElements[|s.packedElements|])
    ensures RowPrefix(Inserted(s, x)) && Extends(s, Inserted(s, x))
  {
    var t := Inserted(s, x);
    assert t.packedElements == s.packedElements + [PlacedCopy(x, s.space.posX, s.space.posY)];
  }

  lemma ExtendsTransitive(a: RowState, b: RowState, c: RowState)
    requires Extends(a, b) && Extends(b, c)
    ensures Extends(a, c)
  {
    assert c.packedElements[..|a.packedElements|] == c.packedElements[..|b.packedElements|][..|a.packedElements|];
  }

  /** One step keeps the prefix property and extends the row, for the row and for its clone. */
  lemma StepPrefix(s: RowState, advance: bool)
    requires RowPrefix(s)
    ensures StepOf(s, advance).Continue? ==>
              RowPrefix(StepOf(s, advance).next) && Extends(s, StepOf(s, advance).next)
    ensures forall c :: c in Clones(StepOf(s, advance)) ==> RowPrefix(c) && Extends(s, c)
  {
    NextOfPrefix(s);
    match NextElement(s)
    case None =>
    case Some(e) =>
      if !(advance && |s.topSplits| == 0) {
        StepOfUnfold(s, advance, e);
        var s1 := if advance then Popped(s) else s;
        NextOfPrefix(s1);
        var fit := CheckFitting(e, s1.space);
        if fit.canFitVertical || fit.canFitHorizontal {
          var x := if fit.canFitVertical then e else GetRotatedCopy(e);
          InsertedPrefix(s1, x);
          ExtendsTransitive(s, s1, Inserted(s1, x));
        }
        if fit.canFitBoth && !IsSquare(e) {
          InsertedPrefix(s1, GetRotatedCopy(e));
          ExtendsTransitive(s, s1, ClonedWithRotated(s1, e));
        }
      }
  }

  /** The final row and every clone it queued keep the row's packed elements as an input prefix. */
  lemma {:induction false} ExpandPrefix(s: RowState, advance: bool)
    requires RowPrefix(s)
    ensures RowPrefix(Expand(s, advance).final) && Extends(s, Expand(s, advance).final)
    ensures forall c :: c in Expand(s, advance).spawned ==> RowPrefix(c) && Extends(s, c)
    decreases Rem(s), |s.topSplits|, if advance then 0 else 1
  {
    StepPrefix(s, advance);
    match StepOf(s, advance)
    case Stop =>
    case Continue(next, nextAdvance, _) =>
      ExpandPrefix(next, nextAdvance);
      var rest := Expand(next, nextAdvance);
      ExtendsTransitive(s, next, rest.final);
      forall c | c in rest.spawned ensures Extends(s, c) {
        ExtendsTransitive(s, next, c);
      }
  }

  // ---------------------------------------------------------------------
  // Geometry: placements and free spaces inside the band, nothing overlaps

  /** The band of a row seeded in `table` whose first element has height `rowHeight`. */
  function Band(table: Position, rowHeight: real): (b: Position)
    ensures b.posX == table.posX && b.posY == table.posY && b.width == table.width && b.height == rowHeight
  {
    Position(rowHeight, table.width, table.posX, table.posY)
  }

  predicate PlacementsInside(ps: seq<RowElement>, area: Position)
  {
    forall i :: 0 <= i < |ps| ==> Inside(Footprint(ps[i]), area)
  }

  predicate PlacementsDisjoint(ps: seq<RowElement>)
  {
    forall i, j :: 0 <= i < j < |ps| ==> Disjoint(Footprint(ps[i]), Footprint(ps[j]))
  }

  predicate PlacementsClearOf(ps: seq<RowElement>, r: Position)
  {
    forall i :: 0 <= i < |ps| ==> Disjoint(Footprint(ps[i]), r)
  }

  predicate SplitsInside(splits: seq<Position>, area: Position)
  {
    forall k :: 0 <= k < |splits| ==> Inside(splits[k], area)
  }

  predicate SplitsClearOf(splits: seq<Position>, r: Position)
  {
    forall k :: 0 <= k < |splits| ==> Disjoint(splits[k], r)
  }

  predicate SplitsDisjoint(splits: seq<Position>)
  {
    forall k, l :: 0 <= k < l < |splits| ==> Disjoint(splits[k], splits[l])
  }

  predicate PlacementsClearOfSplits(ps: seq<RowElement>, splits: seq<Position>)
  {
    forall k :: 0 <= k < |splits| ==> PlacementsClearOf(ps, splits[k])
  }

  /**
   * Every placement, the current space and every split lie inside the band,
   * and no two of them overlap.
   */
  predicate RowGeometry(s: RowState, band: Position)
  {
    && PlacementsInside(s.packedElements, band)
    && Inside(s.space, band)
    && SplitsInside(s.topSplits, band)
    && PlacementsDisjoint(s.packedElements)
    && PlacementsClearOf(s.packedElements, s.space)
    && PlacementsClearOfSplits(s.packedElements, s.topSplits)
    && SplitsClearOf(s.topSplits, s.space)
    && SplitsDisjoint(s.topSplits)
  }

  lemma PoppedGeometry(s: RowState, band: Position)
    requires RowGeometry(s, band) && |s.topSplits| > 0
    ensures RowGeometry(Popped(s), band)
  {
  }

  /** The split a placement leaves and the space to its right lie inside the old space and apart from the element. */
  lemma NewSpaceShapes(space: Position, x: RowElement, spacing: real)
    requires spacing >= 0.0 && NonNegative(x)
    requires Inside(Footprint(PlacedCopy(x, space.posX, space.posY)), space)
    ensures var f := Footprint(PlacedCopy(x, space.posX, space.posY));
            var split := Position(space.height - x.height - spacing, space.width, space.posX, space.posY + x.height + spacing);
            var right := Position(x.height, space.width - x.width - spacing, space.posX + x.width + spacing, space.posY);
            && Inside(split, space) && Inside(right, space)
            && Disjoint(f, split) && Disjoint(f, right) && Disjoint(split, right)
  {
  }

  /** Placing an element in a space it fits keeps the row's geometry. */
  lemma InsertedGeometry(s: RowState, band: Position, x: RowElement)
    requires RowGeometry(s, band) && s.spacing >= 0.0 && NonNegative(x)
    requires CheckFitting(x, s.space).canFitVertical
    ensures RowGeometry(Inserted(s, x), band)
  {
    var space := s.space;
    var placed := PlacedCopy(x, space.posX, space.posY);
    var f := Footprint(placed);
    var split := Position(space.height - x.height - s.spacing, space.width, space.posX, space.posY + x.height + s.spacing);
    var right := Position(x.height, space.width - x.width - s.spacing, space.posX + x.width + s.spacing, space.posY);
    NewSpaceShapes(space, x, s.spacing);
    var t := Inserted(s, x);
    assert t.space == right;
    assert t.packedElements == s.packedElements + [placed];
    assert t.topSplits == s.topSplits || t.topSplits == s.topSplits + [split];
    InsideTransitive(f, space, band);
    InsideTransitive(split, space, band);
    InsideTransitive(right, space, band);
    forall i | 0 <= i < |s.packedElements|
      ensures Disjoint(Footprint(s.packedElements[i]), f)
      ensures Disjoint(Footprint(s.packedElements[i]), split)
      ensures Disjoint(Footprint(s.packedElements[i]), right)
    {
      DisjointFromInside(Footprint(s.packedElements[i]), f, space);
      DisjointFromInside(Footprint(s.packedElements[i]), split, space);
      DisjointFromInside(Footprint(s.packedElements[i]), right, space);
    }
    forall k | 0 <= k < |s.topSplits|
      ensures Disjoint(f, s.topSplits[k]) && Disjoint(s.topSplits[k], split) && Disjoint(s.topSplits[k], right)
    {
      DisjointFromInside(s.topSplits[k], f, space);
      DisjointFromInside(s.topSplits[k], split, space);
      DisjointFromInside(s.topSplits[k], right, space);
    }
    assert PlacementsInside(t.packedElements, band);
    assert PlacementsDisjoint(t.packedElements);
    assert PlacementsClearOf(t.packedElements, t.space);
    assert PlacementsClearOfSplits(t.packedElements, t.topSplits);
  }

  /** All input elements have non-negative dimensions (so does their found element). */
  predicate InputNonNegative(s: RowState)
  {
    forall i :: 0 <= i < |s.inputElements| ==> NonNegative(s.inputElements[i])
  }

  lemma FoundNonNegative(s: RowState)
    requires InputNonNegative(s) && NextElement(s).Some?
    ensures NonNegative(NextElement(s).value)
  {
    FindBySortIndexFirst(s.inputElements, NextSortIndex(s));
  }

  /** One step keeps the geometry of the row and gives its clone the same geometry. */
  lemma StepGeometry(s: RowState, advance: bool, band: Position)
    requires RowGeometry(s, band) && s.spacing >= 0.0 && InputNonNegative(s)
    ensures StepOf(s, advance).Continue? ==>
              RowGeometry(StepOf(s, advance).next, band) && StepOf(s, advance).next.spacing == s.spacing &&
              StepOf(s, advance).next.inputElements == s.inputElements
    ensures forall c :: c in Clones(StepOf(s, advance)) ==> RowGeometry(c, band)
  {
    match NextElement(s)
    case None =>
    case Some(e) =>
      if !(advance && |s.topSplits| == 0) {
        StepOfUnfold(s, advance, e);
        FoundNonNegative(s);
        var s1 := if advance then Popped(s) else s;
        if advance {
          PoppedGeometry(s, band);
        }
        var fit := CheckFitting(e, s1.space);
        RotatedFitting(e, s1.space);
        if fit.canFitVertical || fit.canFitHorizontal {
          InsertedGeometry(s1, band, if fit.canFitVertical then e else GetRotatedCopy(e));
        }
        if fit.canFitBoth && !IsSquare(e) {
          InsertedGeometry(s1, band, GetRotatedCopy(e));
        }
      }
  }

  /** With non-negative spacing and dimensions, the final row and every clone keep the geometry. */
  lemma {:induction false} ExpandGeometry(s: RowState, advance: bool, band: Position)
    requires RowGeometry(s, band) && s.spacing >= 0.0 && InputNonNegative(s)
    ensures RowGeometry(Expand(s, advance).final, band)
    ensures forall c :: c in Expand(s, advance).spawned ==> RowGeometry(c, band)
    decreases Rem(s), |s.topSplits|, if advance then 0 else 1
  {
    StepGeometry(s, advance, band);
    match StepOf(s, advance)
    case Stop =>
    case Continue(next, nextAdvance, _) =>
      ExpandGeometry(next, nextAdvance, band);
  }

  /** The new-row constructor: an element that fits the table gives a row inside its band. */
  lemma NewRowGeometry(table: Position, spacing: real, elementsInput: seq<RowElement>, isRotated: bool)
    requires |elementsInput| > 0 && spacing >= 0.0 && NonNegative(elementsInput[0])
    requires var first := if isRotated then GetRotatedCopy(elementsInput[0]) else elementsInput[0];
             first.width <= table.width
    ensures var s := NewRow(table, spacing, elementsInput, isRotated);
            RowGeometry(s, Band(table, s.packedElements[0].height))
  {
    var first := if isRotated then GetRotatedCopy(elementsInput[0]) else elementsInput[0];
    var rowHeight := if isRotated then elementsInput[0].width else elementsInput[0].height;
    var s0 := RowState(SmallestDimension(elementsInput[|elementsInput| - 1]), spacing, [], elementsInput, [],
                       Position(rowHeight, table.width, table.posX, table.posY));
    assert s0.space == Band(table, rowHeight);
    assert RowGeometry(s0, s0.space);
    InsertedGeometry(s0, s0.space, first);
  }

  // ---------------------------------------------------------------------
  // How many rows one row can give rise to

  function Pow2(n: nat): (r: nat)
    ensures r >= 1
  {
    if n == 0 then 1 else 2 * Pow2(n - 1)
  }

  lemma {:induction false} Pow2Monotone(m: nat, n: nat)
    requires m <= n
    ensures Pow2(m) <= Pow2(n)
  {
    if m < n {
      Pow2Monotone(m, n - 1);
    }
  }

  /** The sum of 2^Rem over rows: a row with r elements left can end as at most 2^r rows. */
  function Potential(rows: seq<RowState>): nat
  {
    if |rows| == 0 then 0 else Pow2(Rem(rows[0])) + Potential(rows[1..])
  }

  lemma {:induction false} PotentialAppend(a: seq<RowState>, b: seq<RowState>)
    ensures Potential(a + b) == Potential(a) + Potential(b)
  {
    if |a| > 0 {
      assert (a + b)[0] == a[0];
      assert (a + b)[1..] == a[1..] + b;
      PotentialAppend(a[1..], b);
    } else {
      assert a + b == b;
    }
  }

  /** A step does not add remaining elements, and a clone is made only by an insertion, which uses one up. */
  lemma StepRem(s: RowState, advance: bool)
    ensures StepOf(s, advance).Continue? ==> Rem(StepOf(s, advance).next) <= Rem(s)
    ensures forall c :: c in Clones(StepOf(s, advance)) ==>
              Rem(c) == Rem(StepOf(s, advance).next) < Rem(s)
  {
    match NextElement(s)
    case None =>
    case Some(e) =>
      if !(advance && |s.topSplits| == 0) {
        StepOfUnfold(s, advance, e);
        var s1 := if advance then Popped(s) else s;
        var fit := CheckFitting(e, s1.space);
        if fit.canFitBoth && !IsSquare(e) {
          InsertedShrinks(s1, e, e);
          assert Rem(ClonedWithRotated(s1, e)) == Rem(Inserted(s1, e));
        }
      }
  }

  /**
   * The row itself plus all rows its clones can become never exceed 2^Rem:
   * each clone is made at a different insertion, so with fewer remaining
   * elements than any earlier one.
   */
  lemma {:induction false} ExpandPotential(s: RowState, advance: bool)
    ensures 1 + Potential(Expand(s, advance).spawned) <= Pow2(Rem(s))
    decreases Rem(s), |s.topSplits|, if advance then 0 else 1
  {
    StepRem(s, advance);
    match StepOf(s, advance)
    case Stop =>
    case Continue(next, nextAdvance, _) =>
      ExpandPotential(next, nextAdvance);
      var cs := Clones(StepOf(s, advance));
      var rest := Expand(next, nextAdvance);
      assert Expand(s, advance).spawned == cs + rest.spawned;
      assert |cs| == 1 ==> cs[0] in cs;
      PotentialStepBound(cs, rest.spawned, Rem(next), Rem(s));
  }

  /** The bound of ExpandPotential across one step: at most one clone, with fewer elements left. */
  lemma PotentialStepBound(cs: seq<RowState>, spawned: seq<RowState>, rn: nat, rs: nat)
    requires |cs| <= 1 && rn <= rs
    requires |cs| == 1 ==> Rem(cs[0]) == rn && rn < rs
    requires 1 + Potential(spawned) <= Pow2(rn)
    ensures 1 + Potential(cs + spawned) <= Pow2(rs)
  {
    if |cs| == 1 {
      PotentialAppend(cs, spawned);
      assert Potential(cs) == Pow2(rn) + Potential(cs[1..]);
      assert cs[1..] == [];
      assert Pow2(rn + 1) == 2 * Pow2(rn);
      Pow2Monotone(rn + 1, rs);
    } else {
      assert cs + spawned == spawned;
      Pow2Monotone(rn, rs);
    }
  }
}

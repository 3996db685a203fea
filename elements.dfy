/**
 * An element to pack (BinPacker2D/RowElement.cs).
 *
 * The source mutates element objects only from the packer (normalisation
 * and numbering); every other use copies them.  Here an element is a value:
 * the copy constructor and `GetClone` are the identity on values, and the
 * packer's field writes are datatype updates.
 */
module Elements {
  import opened Positions

  datatype RowElement = RowElement(
    index: int,
    sortIndex: int,
    posX: real,
    posY: real,
    width: real,
    height: real,
    isRotated: bool)

  /** The rectangle the element occupies once placed. */
  function Footprint(e: RowElement): Position
  {
    Position(e.height, e.width, e.posX, e.posY)
  }

  predicate IsSquare(e: RowElement)
  {
    e.width == e.height
  }

  /** The copy with new coordinates (the three-argument copy constructor). */
  function PlacedCopy(e: RowElement, posX: real, posY: real): (r: RowElement)
    ensures r.posX == posX && r.posY == posY
    ensures r.(posX := e.posX, posY := e.posY) == e
  {
    e.(posX := posX, posY := posY)
  }

  /** A new element with width and height swapped and the rotation flag negated. */
  function GetRotatedCopy(e: RowElement): (r: RowElement)
    ensures r.width == e.height && r.height == e.width && r.isRotated == !e.isRotated
    ensures r.(width := e.width, height := e.height, isRotated := e.isRotated) == e
  {
    RowElement(e.index, e.sortIndex, e.posX, e.posY, e.height, e.width, !e.isRotated)
  }

  /** The three flags `CheckFitting` reports through its out-parameters. */
  datatype Fitting = Fitting(canFitBoth: bool, canFitVertical: bool, canFitHorizontal: bool)

  /**
   * Exact comparisons, no tolerance.  Vertical: the element as it is, put at
   * the origin of the space, lies inside the space; horizontal: its rotated
   * copy does.
   */
  function CheckFitting(e: RowElement, space: Position): (f: Fitting)
    ensures f.canFitVertical <==> Inside(Footprint(PlacedCopy(e, space.posX, space.posY)), space)
    ensures f.canFitHorizontal <==> Inside(Footprint(PlacedCopy(GetRotatedCopy(e), space.posX, space.posY)), space)
    ensures f.canFitBoth <==> f.canFitVertical && f.canFitHorizontal
  {
    var vertical := e.width <= space.width && e.height <= space.height;
    var horizontal := e.width <= space.height && e.height <= space.width;
    Fitting(vertical && horizontal, vertical, horizontal)
  }

  lemma RotateTwice(e: RowElement)
    ensures GetRotatedCopy(GetRotatedCopy(e)) == e
  {
  }

  /** Fitting horizontally is fitting vertically once rotated, and the other way round. */
  lemma RotatedFitting(e: RowElement, space: Position)
    ensures CheckFitting(e, space).canFitHorizontal == CheckFitting(GetRotatedCopy(e), space).canFitVertical
    ensures CheckFitting(e, space).canFitVertical == CheckFitting(GetRotatedCopy(e), space).canFitHorizontal
    ensures CheckFitting(e, space).canFitBoth == CheckFitting(GetRotatedCopy(e), space).canFitBoth
  {
  }

  /** A square fits either both ways or neither way. */
  lemma SquareFitting(e: RowElement, space: Position)
    requires IsSquare(e)
    ensures CheckFitting(e, space).canFitVertical == CheckFitting(e, space).canFitHorizontal
    ensures CheckFitting(e, space).canFitBoth == CheckFitting(e, space).canFitVertical
  {
  }

  /**
   * `p` is `e` placed somewhere, possibly rotated: same identity and ordering
   * key, and the same dimensions and flag or the swapped ones.
   */
  predicate PlacedFrom(p: RowElement, e: RowElement)
  {
    && p.index == e.index
    && p.sortIndex == e.sortIndex
    && (|| (p.width, p.height, p.isRotated) == (e.width, e.height, e.isRotated)
        || (p.width, p.height, p.isRotated) == (e.height, e.width, !e.isRotated))
  }

  /** As PlacedFrom, but the ordering key may differ (it is renumbered between rows). */
  predicate SameItem(p: RowElement, e: RowElement)
  {
    && p.index == e.index
    && (|| (p.width, p.height, p.isRotated) == (e.width, e.height, e.isRotated)
        || (p.width, p.height, p.isRotated) == (e.height, e.width, !e.isRotated))
  }

  /** The ordering keys are the positions 0..|l|-1. */
  predicate Numbered(l: seq<RowElement>)
  {
    forall i :: 0 <= i < |l| ==> l[i].sortIndex == i
  }

  predicate NonNegative(e: RowElement)
  {
    e.width >= 0.0 && e.height >= 0.0
  }
}

/**
 * A rectangle of the packing table (BinPacker2D/Position.cs): a free space,
 * a split kept for later, or the footprint of a placed element.
 *
 * The source class is copied by every holder (the `Space` setter, the
 * outcome constructors), so it behaves as a value: here it is a datatype,
 * its copy constructor is the value itself and its in-place field writes
 * are datatype updates.
 */
module Positions {

  /** Fields in the order of the four-argument constructor: height first. */
  datatype Position = Position(height: real, width: real, posX: real, posY: real)

  /** `inner` lies within `outer`; borders may touch. */
  predicate Inside(inner: Position, outer: Position)
  {
    && outer.posX <= inner.posX
    && inner.posX + inner.width <= outer.posX + outer.width
    && outer.posY <= inner.posY
    && inner.posY + inner.height <= outer.posY + outer.height
  }

  /** No interior point is shared: one rectangle lies wholly left of, right of, below or above the other. */
  predicate Disjoint(a: Position, b: Position)
  {
    || a.posX + a.width <= b.posX
    || b.posX + b.width <= a.posX
    || a.posY + a.height <= b.posY
    || b.posY + b.height <= a.posY
  }

  lemma InsideTransitive(a: Position, b: Position, c: Position)
    requires Inside(a, b) && Inside(b, c)
    ensures Inside(a, c)
  {
  }

  /** Whatever is disjoint from a rectangle is disjoint from every rectangle inside it. */
  lemma DisjointFromInside(a: Position, small: Position, big: Position)
    requires Disjoint(a, big) && Inside(small, big)
    ensures Disjoint(a, small) && Disjoint(small, a)
  {
  }
}

/** The one geometric test of the game: strict axis-aligned rectangle
    overlap. Because every comparison is strict, rectangles that only touch
    along an edge do not collide. */
module Collision {
  import opened Entities

  /** `a` and `b` overlap on both axes. */
  predicate Overlaps(a: Entity, b: Entity)
  {
    && a.x < b.x + b.width as real
    && a.x + a.width as real > b.x
    && a.y < b.y + b.height as real
    && a.y + a.height as real > b.y
  }

  /** Overlap does not depend on which rectangle is asked about first. */
  lemma OverlapsSymmetric(a: Entity, b: Entity)
    ensures Overlaps(a, b) <==> Overlaps(b, a)
  {
  }

  /** Edge contact is not a collision: a copy shifted right by exactly its
      width, or down by exactly its height, does not overlap the original. */
  lemma TouchingEdgesDoNotOverlap(a: Entity)
    ensures !Overlaps(a, a.(x := a.x + a.width as real))
    ensures !Overlaps(a, a.(y := a.y + a.height as real))
    ensures !Overlaps(a.(x := a.x + a.width as real), a)
    ensures !Overlaps(a.(y := a.y + a.height as real), a)
  {
  }

  /** A rectangle overlaps itself exactly when it has positive width and
      height. */
  lemma SelfOverlap(a: Entity)
    ensures Overlaps(a, a) <==> a.width > 0 && a.height > 0
  {
  }

  /** The strict test does not by itself exclude zero-area boxes: every
      zero-width box of positive height that lies strictly inside another
      box horizontally, and within it vertically, overlaps it, in both
      argument orders. */
  lemma ZeroWidthBoxCanOverlap(inner: Entity, outer: Entity)
    requires inner.width == 0 && inner.height > 0
    requires outer.x < inner.x < outer.x + outer.width as real
    requires outer.y <= inner.y && inner.y + inner.height as real <= outer.y + outer.height as real
    ensures Overlaps(inner, outer) && Overlaps(outer, inner)
  {
  }
}

/** Axis-aligned boxes: with real bounds, and as a file or a caller spells them. */
module Boxes {
  import opened Floats

  /** A bbox whose four bounds are numbers. */
  datatype Box = Box(xmin: real, ymin: real, xmax: real, ymax: real)

  predicate Oriented(b: Box) { b.xmin <= b.xmax && b.ymin <= b.ymax }

  /** Two bboxes share a point. */
  predicate Intersects(b: Box, view: Box) {
    b.xmin <= view.xmax && b.xmax >= view.xmin && b.ymin <= view.ymax && b.ymax >= view.ymin
  }

  predicate HoldsPoint(b: Box, x: real, y: real) { b.xmin <= x <= b.xmax && b.ymin <= y <= b.ymax }

  /** What intersecting means: some point lies in both. */
  lemma {:induction false} IntersectsExactlyWhen(b: Box, view: Box)
    requires Oriented(b) && Oriented(view)
    ensures Intersects(b, view) <==> exists x, y :: HoldsPoint(b, x, y) && HoldsPoint(view, x, y)
  {
    if Intersects(b, view) {
      var x := if b.xmin <= view.xmin then view.xmin else b.xmin;
      var y := if b.ymin <= view.ymin then view.ymin else b.ymin;
      assert HoldsPoint(b, x, y) && HoldsPoint(view, x, y);
    }
  }

  /** Four doubles, whatever they are. */
  datatype RawBox = RawBox(xmin: F64, ymin: F64, xmax: F64, ymax: F64) {
    predicate Finite() { xmin.Num? && ymin.Num? && xmax.Num? && ymax.Num? }
    predicate Usable() { Finite() && xmin.v <= xmax.v && ymin.v <= ymax.v }
    function ToBox(): (b: Box)
      requires Finite()
      ensures Usable() <==> Oriented(b)
    {
      Box(xmin.v, ymin.v, xmax.v, ymax.v)
    }
  }
}

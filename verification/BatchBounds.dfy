/** The bounds a batch reports: one pass of minima and maxima over its coordinate run. */
module BatchBounds {
  import opened Options
  import opened Floats
  import opened Boxes
  import OffsetArrays
  import opened GeometryArrays

  /** The values at even (`axis` 0) or odd (`axis` 1) places of an interleaved run of `n` pairs. */
  function At(coords: seq<F64>, axis: nat, i: nat): F64
    requires axis < 2 && 2 * i + 1 < |coords|
  {
    coords[2 * i + axis]
  }

  /** `lo` and `hi` are what folding `f64::min` from +inf and `f64::max` from -inf gives over the first
      `n` pairs: NaN is skipped, so an axis with no other value keeps its infinities. */
  ghost predicate Folded(coords: seq<F64>, axis: nat, n: nat, lo: F64, hi: F64)
    requires axis < 2 && 2 * n <= |coords|
  {
    && !lo.NaN? && !hi.NaN?
    && (forall i :: 0 <= i < n && !At(coords, axis, i).NaN? ==>
          Leq(lo, At(coords, axis, i)) && Leq(At(coords, axis, i), hi))
    && (lo == PosInf || exists i :: 0 <= i < n && At(coords, axis, i) == lo)
    && (hi == NegInf || exists i :: 0 <= i < n && At(coords, axis, i) == hi)
  }

  lemma {:induction false} FoldStep(coords: seq<F64>, axis: nat, n: nat, lo: F64, hi: F64)
    requires axis < 2 && 2 * n + 1 < |coords| && Folded(coords, axis, n, lo, hi)
    ensures Folded(coords, axis, n + 1, Min(lo, At(coords, axis, n)), Max(hi, At(coords, axis, n)))
  {
  }

  predicate Infinite(v: F64) { v.PosInf? || v.NegInf? }

  /** Some pair has a number on this axis. */
  predicate HasNumber(coords: seq<F64>, axis: nat)
    requires axis < 2
  {
    exists i :: 0 <= i < |coords| / 2 && At(coords, axis, i).Num?
  }

  predicate HasInfinity(coords: seq<F64>, axis: nat)
    requires axis < 2
  {
    exists i :: 0 <= i < |coords| / 2 && Infinite(At(coords, axis, i))
  }

  /** `lo..hi` is the tightest interval around the numbers on this axis. */
  ghost predicate Tight(coords: seq<F64>, axis: nat, lo: F64, hi: F64)
    requires axis < 2
  {
    && lo.Num? && hi.Num?
    && (forall i :: 0 <= i < |coords| / 2 && At(coords, axis, i).Num? ==> lo.v <= At(coords, axis, i).v <= hi.v)
    && (exists i :: 0 <= i < |coords| / 2 && At(coords, axis, i) == lo)
    && (exists i :: 0 <= i < |coords| / 2 && At(coords, axis, i) == hi)
  }

  lemma {:induction false} AxisIsFiniteWhen(coords: seq<F64>, axis: nat, lo: F64, hi: F64)
    requires axis < 2 && Folded(coords, axis, |coords| / 2, lo, hi)
    ensures lo.Num? && hi.Num? <==> HasNumber(coords, axis) && !HasInfinity(coords, axis)
    ensures lo.Num? && hi.Num? ==> Tight(coords, axis, lo, hi)
  {
    if lo.Num? && hi.Num? {
      var i :| 0 <= i < |coords| / 2 && At(coords, axis, i) == lo;
      assert HasNumber(coords, axis);
    }
  }

  /** `xy_bounds` on the run `coordinate_values` found. A bound is reported exactly when no coordinate
      is infinite and each axis has a number; then it is the tightest box around the numbers. NaN does
      not suppress it. */
  method XyBounds(run: Option<seq<F64>>) returns (b: Option<RawBox>)
    ensures b.Some? <==>
              && run.Some?
              && HasNumber(run.value, 0) && !HasInfinity(run.value, 0)
              && HasNumber(run.value, 1) && !HasInfinity(run.value, 1)
    ensures b.Some? ==>
              Tight(run.value, 0, b.value.xmin, b.value.xmax) && Tight(run.value, 1, b.value.ymin, b.value.ymax)
  {
    if run.None? || run.value == [] {
      return None;
    }
    var coords := run.value;
    var acc := RawBox(PosInf, PosInf, NegInf, NegInf);
    for i := 0 to |coords| / 2
      invariant Folded(coords, 0, i, acc.xmin, acc.xmax)
      invariant Folded(coords, 1, i, acc.ymin, acc.ymax)
    {
      FoldStep(coords, 0, i, acc.xmin, acc.xmax);
      FoldStep(coords, 1, i, acc.ymin, acc.ymax);
      acc := RawBox(Min(acc.xmin, At(coords, 0, i)), Min(acc.ymin, At(coords, 1, i)),
                    Max(acc.xmax, At(coords, 0, i)), Max(acc.ymax, At(coords, 1, i)));
    }
    AxisIsFiniteWhen(coords, 0, acc.xmin, acc.xmax);
    AxisIsFiniteWhen(coords, 1, acc.ymin, acc.ymax);
    b := if acc.Finite() then Some(acc) else None;
  }

  /** A NaN coordinate is skipped, not refused: this run has one and still meets the condition under
      which `XyBounds` reports a box. */
  lemma {:induction false} ANaNIsSkipped()
    ensures var run := [NaN, Num(1.0), Num(2.0), Num(3.0)];
            && HasNumber(run, 0) && !HasInfinity(run, 0) && HasNumber(run, 1) && !HasInfinity(run, 1)
            && Tight(run, 0, Num(2.0), Num(2.0)) && Tight(run, 1, Num(1.0), Num(3.0))
  {
    var run := [NaN, Num(1.0), Num(2.0), Num(3.0)];
    assert At(run, 0, 0) == NaN && At(run, 0, 1) == Num(2.0);
    assert At(run, 1, 0) == Num(1.0) && At(run, 1, 1) == Num(3.0);
  }

  // ---------------------------------------------------------------- the bounds of a slice

  type Position = (F64, F64)

  /** A geometry's vertices, part by part. */
  function Positions(g: Geom): seq<Position>
    decreases g, 1
  {
    match g
    case Vertex(x, y) => [(x, y)]
    case Many(parts) => PositionsAll(parts)
  }

  function PositionsAll(gs: seq<Geom>): seq<Position>
    decreases gs, 0
  {
    if gs == [] then [] else PositionsAll(gs[..|gs| - 1]) + Positions(gs[|gs| - 1])
  }

  /** `run` interleaves `ps`. */
  predicate Interleaves(run: seq<F64>, ps: seq<Position>) {
    |run| == 2 * |ps| && forall i :: 0 <= i < |ps| ==> run[2 * i] == ps[i].0 && run[2 * i + 1] == ps[i].1
  }

  lemma {:induction false} InterleavesAppend(a: seq<F64>, p: seq<Position>, b: seq<F64>, q: seq<Position>)
    requires Interleaves(a, p) && Interleaves(b, q)
    ensures Interleaves(a + b, p + q)
  {
    forall i | 0 <= i < |p + q|
      ensures (a + b)[2 * i] == (p + q)[i].0 && (a + b)[2 * i + 1] == (p + q)[i].1
    {
      if i >= |p| {
        assert (a + b)[2 * i] == b[2 * (i - |p|)] && (a + b)[2 * i + 1] == b[2 * (i - |p|) + 1];
      }
    }
  }

  lemma {:induction false} CoordsInterleave(g: Geom)
    ensures Interleaves(Coords(g), Positions(g))
    decreases g, 1
  {
    if g.Many? {
      CoordsAllInterleave(g.parts);
    }
  }

  lemma {:induction false} CoordsAllInterleave(gs: seq<Geom>)
    ensures Interleaves(CoordsAll(gs), PositionsAll(gs))
    decreases gs, 0
  {
    if gs != [] {
      var n := |gs| - 1;
      CoordsAllInterleave(gs[..n]);
      CoordsInterleave(gs[n]);
      InterleavesAppend(CoordsAll(gs[..n]), PositionsAll(gs[..n]), Coords(gs[n]), Positions(gs[n]));
    }
  }

  function Axis(p: Position, axis: nat): F64
    requires axis < 2
  {
    if axis == 0 then p.0 else p.1
  }

  /** Some vertex has a number on this axis and none an infinity. */
  predicate Boundable(ps: seq<Position>, axis: nat)
    requires axis < 2
  {
    && (exists i :: 0 <= i < |ps| && Axis(ps[i], axis).Num?)
    && (forall i :: 0 <= i < |ps| ==> !Infinite(Axis(ps[i], axis)))
  }

  /** `lo..hi` is the tightest interval around the vertices' numbers on this axis. */
  ghost predicate TightAround(ps: seq<Position>, axis: nat, lo: F64, hi: F64)
    requires axis < 2
  {
    && lo.Num? && hi.Num?
    && (forall i :: 0 <= i < |ps| && Axis(ps[i], axis).Num? ==> lo.v <= Axis(ps[i], axis).v <= hi.v)
    && (exists i :: 0 <= i < |ps| && Axis(ps[i], axis) == lo)
    && (exists i :: 0 <= i < |ps| && Axis(ps[i], axis) == hi)
  }

  lemma {:induction false} RunToPositions(run: seq<F64>, ps: seq<Position>, axis: nat)
    requires axis < 2 && Interleaves(run, ps)
    ensures HasNumber(run, axis) && !HasInfinity(run, axis) <==> Boundable(ps, axis)
    ensures forall lo, hi :: Tight(run, axis, lo, hi) ==> TightAround(ps, axis, lo, hi)
  {
    assert |run| / 2 == |ps|;
    assert forall i :: 0 <= i < |ps| ==> At(run, axis, i) == Axis(ps[i], axis);
  }

  /** `TaggedBatch::xy_bounds` over the geometry column of a batch: for decoded geometries, any of the
      five builders and any slice, a bound is reported exactly when the vertices of the geometries in
      the window allow one, and it is then their tightest box. */
  method BoundsOfBatch(column: OffsetArrays.Arr, ghost gs: seq<Geom>, ghost depth: nat, ghost o: nat, ghost n: nat)
    returns (b: Option<RawBox>)
    requires depth <= 3 && AllNested(gs, depth) && AllCounted(gs) && Fits(gs, depth) && o + n <= |gs|
    requires var built := Build(gs, depth);
             && built.Some? && OffsetArrays.Valid(built.value) && o + n <= OffsetArrays.Len(built.value)
             && column == OffsetArrays.Slice(built.value, o, n)
    ensures var ps := PositionsAll(gs[o..o + n]);
            && (b.Some? <==> Boundable(ps, 0) && Boundable(ps, 1))
            && (b.Some? ==>
                  TightAround(ps, 0, b.value.xmin, b.value.xmax) && TightAround(ps, 1, b.value.ymin, b.value.ymax))
  {
    ASliceReadsItsGeometries(gs, depth, o, n);
    var run := OffsetArrays.CoordinateValues(column);
    b := XyBounds(run);
    CoordsAllInterleave(gs[o..o + n]);
    RunToPositions(run.value, PositionsAll(gs[o..o + n]), 0);
    RunToPositions(run.value, PositionsAll(gs[o..o + n]), 1);
  }
}

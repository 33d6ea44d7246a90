/** The fixed grid of the spatial index: clamped bucketing, the cells one feature covers, and the
    buckets a whole file fills. */
module Grid {
  import opened Boxes

  const GRID_AXIS_CELLS: nat := 256
  const MAX_CELLS_PER_FEATURE: nat := 1024

  type Cell = (nat, nat)
  type Cells = map<Cell, seq<nat>>

  // ---------------------------------------------------------------- cell_of

  function PowerOfTwo(n: nat): (r: real)
    ensures r > 0.0
  {
    if n == 0 then 1.0 else 2.0 * PowerOfTwo(n - 1)
  }

  /** `f64::MIN_POSITIVE`. */
  const MIN_POSITIVE: real := 1.0 / PowerOfTwo(1022)

  function Span(lo: real, hi: real): (r: real)
    ensures r > 0.0
  {
    if hi - lo > MIN_POSITIVE then hi - lo else MIN_POSITIVE
  }

  function Clamp(x: real, n: real): real
    requires n >= 0.0
  {
    if x < 0.0 then 0.0 else if x > n then n else x
  }

  /** One axis of `cell_of`: scale into the extent, clamp to the grid, truncate. */
  function AxisCell(lo: real, hi: real, x: real): (c: nat)
    ensures c < GRID_AXIS_CELLS
  {
    var n := (GRID_AXIS_CELLS - 1) as real;
    Clamp(((x - lo) / Span(lo, hi)) * n, n).Floor
  }

  function CellOf(extent: Box, x: real, y: real): Cell {
    (AxisCell(extent.xmin, extent.xmax, x), AxisCell(extent.ymin, extent.ymax, y))
  }

  lemma {:induction false} QuotientMonotone(a: real, b: real, s: real)
    requires a <= b && s > 0.0
    ensures a / s <= b / s
  {
    var p, q := a / s, b / s;
    assert p * s == a && q * s == b;
    assert (q - p) * s == b - a;
  }

  /** Everything the index relies on about `cell_of`: along an axis it never goes back. */
  lemma {:induction false} AxisCellMonotone(lo: real, hi: real, x: real, y: real)
    requires x <= y
    ensures AxisCell(lo, hi, x) <= AxisCell(lo, hi, y)
  {
    QuotientMonotone(x - lo, y - lo, Span(lo, hi));
  }

  lemma {:induction false} SignOf(a: real, s: real)
    requires s > 0.0
    ensures a >= 0.0 <==> a * s >= 0.0
    ensures a > 0.0 <==> a * s > 0.0
  {
  }

  lemma {:induction false} TimesMonotone(a: real, b: real, s: real)
    requires s > 0.0
    ensures a <= b ==> a * s <= b * s
    ensures a < b ==> a * s < b * s
  {
    var d := b - a;
    assert d * s == b * s - a * s;
    SignOf(d, s);
  }

  lemma {:induction false} StretchHolds(c: real, next: real, u: real, s: real, e: real)
    requires s > 0.0 && u * s == e && c <= u < next
    ensures c * s <= e < next * s
  {
    TimesMonotone(c, u, s);
    TimesMonotone(u, next, s);
  }

  lemma {:induction false} TimesCells(t: real, s: real, d: real)
    requires t * s == d
    ensures (t * 255.0) * s == d * 255.0
  {
  }

  lemma {:induction false} QuotientSigns(t: real, s: real, d: real)
    requires s > 0.0 && t * s == d
    ensures t >= 0.0 <==> d >= 0.0
    ensures t > 0.0 <==> d > 0.0
    ensures t >= 1.0 <==> d >= s
    ensures t > 1.0 <==> d > s
  {
    SignOf(t, s);
    var w := t - 1.0;
    assert w * s == d - s;
    SignOf(w, s);
  }

  lemma {:induction false} QuotientTimes(d: real, s: real)
    requires s > 0.0
    ensures d / s * s == d
  {
  }

  /** The quotient `cell_of` scales by. */
  lemma {:induction false} ScaledCell(lo: real, hi: real, x: real) returns (t: real)
    requires hi - lo > MIN_POSITIVE
    ensures t * (hi - lo) == x - lo && AxisCell(lo, hi, x) == Clamp(t * 255.0, 255.0).Floor
  {
    t := (x - lo) / Span(lo, hi);
    QuotientTimes(x - lo, Span(lo, hi));
  }

  /** What a cell is: outside the extent the first or the last, and inside it the one whose stretch of one
      255th of the extent holds the coordinate. */
  lemma {:induction false} CellIsItsStretch(lo: real, hi: real, x: real)
    requires hi - lo > MIN_POSITIVE
    ensures x <= lo ==> AxisCell(lo, hi, x) == 0
    ensures x >= hi ==> AxisCell(lo, hi, x) == 255
    ensures lo <= x <= hi ==>
              var c := AxisCell(lo, hi, x) as real;
              c * (hi - lo) <= (x - lo) * 255.0 < (c + 1.0) * (hi - lo)
  {
    var t := ScaledCell(lo, hi, x);
    QuotientSigns(t, hi - lo, x - lo);
    var c := AxisCell(lo, hi, x) as real;
    if lo <= x <= hi {
      assert 0.0 <= t * 255.0 <= 255.0;
      TimesCells(t, hi - lo, x - lo);
      StretchHolds(c, c + 1.0, t * 255.0, hi - lo, (x - lo) * 255.0);
    }
  }

  // ---------------------------------------------------------------- the cells of one feature

  /** The inclusive cell rectangle `c0..=c1`, `r0..=r1`. */
  datatype Rect = Rect(c0: nat, c1: nat, r0: nat, r1: nat) {
    predicate Contains(k: Cell) { c0 <= k.0 <= c1 && r0 <= k.1 <= r1 }
    predicate Valid() { c0 <= c1 && r0 <= r1 }
    function Columns(): nat requires Valid() { c1 - c0 + 1 }
    function Rows(): nat requires Valid() { r1 - r0 + 1 }
    function Area(): nat requires Valid() { Columns() * Rows() }
  }

  /** The cells a bbox covers; the subtraction in the source cannot wrap. */
  function RectOf(extent: Box, b: Box): (r: Rect)
    requires Oriented(b)
    ensures r.Valid()
  {
    AxisCellMonotone(extent.xmin, extent.xmax, b.xmin, b.xmax);
    AxisCellMonotone(extent.ymin, extent.ymax, b.ymin, b.ymax);
    var (c0, r0) := CellOf(extent, b.xmin, b.ymin);
    var (c1, r1) := CellOf(extent, b.xmax, b.ymax);
    Rect(c0, c1, r0, r1)
  }

  /** The rectangle holds the cell of every point of the bbox, and no smaller one does: its two corners
      are cells of points of the bbox. */
  lemma {:induction false} RectIsTight(extent: Box, b: Box)
    requires Oriented(b)
    ensures forall x, y :: HoldsPoint(b, x, y) ==> RectOf(extent, b).Contains(CellOf(extent, x, y))
    ensures var r := RectOf(extent, b);
            && (exists x, y :: HoldsPoint(b, x, y) && CellOf(extent, x, y) == (r.c0, r.r0))
            && (exists x, y :: HoldsPoint(b, x, y) && CellOf(extent, x, y) == (r.c1, r.r1))
  {
    forall x, y | HoldsPoint(b, x, y)
      ensures RectOf(extent, b).Contains(CellOf(extent, x, y))
    {
      AxisCellMonotone(extent.xmin, extent.xmax, b.xmin, x);
      AxisCellMonotone(extent.xmin, extent.xmax, x, b.xmax);
      AxisCellMonotone(extent.ymin, extent.ymax, b.ymin, y);
      AxisCellMonotone(extent.ymin, extent.ymax, y, b.ymax);
    }
    assert HoldsPoint(b, b.xmin, b.ymin) && HoldsPoint(b, b.xmax, b.ymax);
  }

  predicate Broad(extent: Box, b: Box)
    requires Oriented(b)
  {
    RectOf(extent, b).Area() > MAX_CELLS_PER_FEATURE
  }

  /** An intersecting bbox and view have a cell in common. */
  lemma {:induction false} IntersectingShareACell(extent: Box, b: Box, view: Box) returns (k: Cell)
    requires Oriented(b) && Oriented(view) && Intersects(b, view)
    ensures RectOf(extent, b).Contains(k) && RectOf(extent, view).Contains(k)
  {
    AxisCellMonotone(extent.xmin, extent.xmax, b.xmin, view.xmax);
    AxisCellMonotone(extent.xmin, extent.xmax, view.xmin, b.xmax);
    AxisCellMonotone(extent.ymin, extent.ymax, b.ymin, view.ymax);
    AxisCellMonotone(extent.ymin, extent.ymax, view.ymin, b.ymax);
    var rb, rv := RectOf(extent, b), RectOf(extent, view);
    k := (if rb.c0 <= rv.c0 then rv.c0 else rb.c0, if rb.r0 <= rv.r0 then rv.r0 else rb.r0);
  }

  // ---------------------------------------------------------------- filling buckets

  function SlotsAt(cells: Cells, k: Cell): seq<nat> { if k in cells then cells[k] else [] }

  /** `cells.entry(k).or_default().push(slot)`. */
  function PlaceOne(cells: Cells, k: Cell, slot: nat): Cells { cells[k := SlotsAt(cells, k) + [slot]] }

  /** The first `n` rows of one column of the rectangle. */
  function PlaceColumn(cells: Cells, c: nat, r0: nat, n: nat, slot: nat): Cells {
    if n == 0 then cells else PlaceOne(PlaceColumn(cells, c, r0, n - 1, slot), (c, r0 + n - 1), slot)
  }

  /** The first `m` columns of the rectangle. */
  function PlaceColumns(cells: Cells, r: Rect, m: nat, slot: nat): Cells
    requires r.Valid()
  {
    if m == 0 then cells
    else PlaceColumn(PlaceColumns(cells, r, m - 1, slot), r.c0 + m - 1, r.r0, r.Rows(), slot)
  }

  function Place(cells: Cells, r: Rect, slot: nat): Cells
    requires r.Valid()
  {
    PlaceColumns(cells, r, r.Columns(), slot)
  }

  lemma {:induction false} ColumnSlots(cells: Cells, c: nat, r0: nat, n: nat, slot: nat, k: Cell)
    ensures SlotsAt(PlaceColumn(cells, c, r0, n, slot), k) ==
            SlotsAt(cells, k) + (if k.0 == c && r0 <= k.1 < r0 + n then [slot] else [])
  {
    if n > 0 {
      ColumnSlots(cells, c, r0, n - 1, slot, k);
    }
  }

  lemma {:induction false} ColumnsSlots(cells: Cells, r: Rect, m: nat, slot: nat, k: Cell)
    requires r.Valid()
    ensures SlotsAt(PlaceColumns(cells, r, m, slot), k) ==
            SlotsAt(cells, k) + (if r.c0 <= k.0 < r.c0 + m && r.r0 <= k.1 <= r.r1 then [slot] else [])
  {
    if m > 0 {
      ColumnsSlots(cells, r, m - 1, slot, k);
      ColumnSlots(PlaceColumns(cells, r, m - 1, slot), r.c0 + m - 1, r.r0, r.Rows(), slot, k);
    }
  }

  /** Placing appends the slot once to each covered bucket and to no other. */
  lemma {:induction false} PlaceSlots(cells: Cells, r: Rect, slot: nat, k: Cell)
    requires r.Valid()
    ensures SlotsAt(Place(cells, r, slot), k) == SlotsAt(cells, k) + (if r.Contains(k) then [slot] else [])
  {
    ColumnsSlots(cells, r, r.Columns(), slot, k);
  }

  // ---------------------------------------------------------------- a whole file

  predicate AllOriented(boxes: seq<Box>) { forall i :: 0 <= i < |boxes| ==> Oriented(boxes[i]) }

  /** The buckets after the first `n` features. */
  function GridOf(extent: Box, boxes: seq<Box>, n: nat): Cells
    requires AllOriented(boxes) && n <= |boxes|
  {
    if n == 0 then map[]
    else if Broad(extent, boxes[n - 1]) then GridOf(extent, boxes, n - 1)
    else Place(GridOf(extent, boxes, n - 1), RectOf(extent, boxes[n - 1]), n - 1)
  }

  /** The positions below `n` whose flag is up, in order. */
  function Select(flags: seq<bool>, n: nat): seq<nat>
    requires n <= |flags|
  {
    if n == 0 then [] else Select(flags, n - 1) + (if flags[n - 1] then [n - 1] else [])
  }

  lemma {:induction false} SelectedOnce(flags: seq<bool>, n: nat, s: nat)
    requires n <= |flags|
    ensures s in Select(flags, n) <==> s < n && flags[s]
    ensures multiset(Select(flags, n))[s] == if s < n && flags[s] then 1 else 0
  {
    if n > 0 {
      SelectedOnce(flags, n - 1, s);
    }
  }

  function BroadFlags(extent: Box, boxes: seq<Box>): (flags: seq<bool>)
    requires AllOriented(boxes)
    ensures |flags| == |boxes| && forall i :: 0 <= i < |boxes| ==> flags[i] == Broad(extent, boxes[i])
  {
    seq(|boxes|, i requires 0 <= i < |boxes| => Broad(extent, boxes[i]))
  }

  /** The overflow list after the first `n` features. */
  function BroadSlots(extent: Box, boxes: seq<Box>, n: nat): seq<nat>
    requires AllOriented(boxes) && n <= |boxes|
  {
    Select(BroadFlags(extent, boxes), n)
  }

  predicate Buckets(extent: Box, boxes: seq<Box>, s: nat, k: Cell)
    requires AllOriented(boxes) && s < |boxes|
  {
    !Broad(extent, boxes[s]) && RectOf(extent, boxes[s]).Contains(k)
  }

  function BucketFlags(extent: Box, boxes: seq<Box>, k: Cell): (flags: seq<bool>)
    requires AllOriented(boxes)
    ensures |flags| == |boxes| && forall i :: 0 <= i < |boxes| ==> flags[i] == Buckets(extent, boxes, i, k)
  {
    seq(|boxes|, i requires 0 <= i < |boxes| => Buckets(extent, boxes, i, k))
  }

  /** The features a bucket ought to hold, each once, in slot order. */
  function Expected(extent: Box, boxes: seq<Box>, n: nat, k: Cell): seq<nat>
    requires AllOriented(boxes) && n <= |boxes|
  {
    Select(BucketFlags(extent, boxes, k), n)
  }

  /** Every bucket holds exactly the non-broad features whose rectangle contains it, each once. */
  lemma {:induction false} GridIsExact(extent: Box, boxes: seq<Box>, n: nat, k: Cell)
    requires AllOriented(boxes) && n <= |boxes|
    ensures SlotsAt(GridOf(extent, boxes, n), k) == Expected(extent, boxes, n, k)
  {
    if n > 0 {
      GridIsExact(extent, boxes, n - 1, k);
      GridStep(extent, boxes, n, k);
    }
  }

  lemma {:induction false} GridStep(extent: Box, boxes: seq<Box>, n: nat, k: Cell)
    requires AllOriented(boxes) && 0 < n <= |boxes|
    ensures SlotsAt(GridOf(extent, boxes, n), k) ==
            SlotsAt(GridOf(extent, boxes, n - 1), k) + (if Buckets(extent, boxes, n - 1, k) then [n - 1] else [])
  {
    if !Broad(extent, boxes[n - 1]) {
      PlaceSlots(GridOf(extent, boxes, n - 1), RectOf(extent, boxes[n - 1]), n - 1, k);
    }
  }

  lemma {:induction false} ExpectedMembers(extent: Box, boxes: seq<Box>, n: nat, k: Cell, s: nat)
    requires AllOriented(boxes) && n <= |boxes|
    ensures s in Expected(extent, boxes, n, k) <==> s < n && Buckets(extent, boxes, s, k)
  {
    SelectedOnce(BucketFlags(extent, boxes, k), n, s);
  }

  lemma {:induction false} BroadMembers(extent: Box, boxes: seq<Box>, n: nat, s: nat)
    requires AllOriented(boxes) && n <= |boxes|
    ensures s in BroadSlots(extent, boxes, n) <==> s < n && Broad(extent, boxes[s])
  {
    SelectedOnce(BroadFlags(extent, boxes), n, s);
  }

  /** Never both, and nothing missing: every feature is either in the overflow list, exactly once and
      in no bucket, or in every bucket of its rectangle, exactly once each, and in no other place. */
  lemma {:induction false} EachFeatureOnce(extent: Box, boxes: seq<Box>, s: nat, k: Cell)
    requires AllOriented(boxes) && s < |boxes|
    ensures multiset(BroadSlots(extent, boxes, |boxes|))[s] == if Broad(extent, boxes[s]) then 1 else 0
    ensures multiset(SlotsAt(GridOf(extent, boxes, |boxes|), k))[s] ==
            if Broad(extent, boxes[s]) || !RectOf(extent, boxes[s]).Contains(k) then 0 else 1
  {
    GridIsExact(extent, boxes, |boxes|, k);
    SelectedOnce(BroadFlags(extent, boxes), |boxes|, s);
    SelectedOnce(BucketFlags(extent, boxes, k), |boxes|, s);
  }

  // ---------------------------------------------------------------- conservation

  /** Entries over all buckets. */
  ghost function Entries(cells: Cells): nat
    decreases |cells|
  {
    if cells == map[] then 0
    else
      var k :| k in cells;
      |cells[k]| + Entries(cells - {k})
  }

  lemma {:induction false} EntriesWithout(cells: Cells, k: Cell)
    requires k in cells
    ensures Entries(cells) == |cells[k]| + Entries(cells - {k})
    decreases |cells|
  {
    var j :| j in cells && Entries(cells) == |cells[j]| + Entries(cells - {j});
    if j != k {
      EntriesWithout(cells - {j}, k);
      EntriesWithout(cells - {k}, j);
      assert cells - {j} - {k} == cells - {k} - {j};
    }
  }

  lemma {:induction false} PlaceOneEntries(cells: Cells, k: Cell, slot: nat)
    ensures Entries(PlaceOne(cells, k, slot)) == Entries(cells) + 1
  {
    var after := PlaceOne(cells, k, slot);
    EntriesWithout(after, k);
    if k in cells {
      EntriesWithout(cells, k);
      assert after - {k} == cells - {k};
    } else {
      assert after - {k} == cells;
    }
  }

  lemma {:induction false} ColumnEntries(cells: Cells, c: nat, r0: nat, n: nat, slot: nat)
    ensures Entries(PlaceColumn(cells, c, r0, n, slot)) == Entries(cells) + n
  {
    if n > 0 {
      ColumnEntries(cells, c, r0, n - 1, slot);
      PlaceOneEntries(PlaceColumn(cells, c, r0, n - 1, slot), (c, r0 + n - 1), slot);
    }
  }

  lemma {:induction false} ColumnsEntries(cells: Cells, r: Rect, m: nat, slot: nat)
    requires r.Valid()
    ensures Entries(PlaceColumns(cells, r, m, slot)) == Entries(cells) + m * r.Rows()
  {
    if m > 0 {
      ColumnsEntries(cells, r, m - 1, slot);
      ColumnEntries(PlaceColumns(cells, r, m - 1, slot), r.c0 + m - 1, r.r0, r.Rows(), slot);
    }
  }

  /** What one feature costs: one entry in the overflow list, or one per covered cell. */
  function Cost(extent: Box, b: Box): (c: nat)
    requires Oriented(b)
    ensures 1 <= c <= MAX_CELLS_PER_FEATURE
  {
    var a := RectOf(extent, b).Area();
    assert RectOf(extent, b).Columns() >= 1 && RectOf(extent, b).Rows() >= 1;
    if a > MAX_CELLS_PER_FEATURE then 1 else a
  }

  function TotalCost(extent: Box, boxes: seq<Box>, n: nat): nat
    requires AllOriented(boxes) && n <= |boxes|
  {
    if n == 0 then 0 else TotalCost(extent, boxes, n - 1) + Cost(extent, boxes[n - 1])
  }

  /** Nothing is dropped and nothing is counted twice: bucket entries and overflow entries together
      are exactly what the features cost, at most `MAX_CELLS_PER_FEATURE` each. */
  lemma {:induction false} EntriesAreConserved(extent: Box, boxes: seq<Box>, n: nat)
    requires AllOriented(boxes) && n <= |boxes|
    ensures Entries(GridOf(extent, boxes, n)) + |BroadSlots(extent, boxes, n)| == TotalCost(extent, boxes, n)
    ensures TotalCost(extent, boxes, n) <= n * MAX_CELLS_PER_FEATURE
  {
    if n > 0 {
      EntriesAreConserved(extent, boxes, n - 1);
      EntriesStep(extent, boxes, n);
    }
  }

  lemma {:induction false} EntriesStep(extent: Box, boxes: seq<Box>, n: nat)
    requires AllOriented(boxes) && 0 < n <= |boxes|
    ensures Entries(GridOf(extent, boxes, n)) + (if BroadFlags(extent, boxes)[n - 1] then 1 else 0) ==
            Entries(GridOf(extent, boxes, n - 1)) + Cost(extent, boxes[n - 1])
  {
    if !Broad(extent, boxes[n - 1]) {
      var r := RectOf(extent, boxes[n - 1]);
      ColumnsEntries(GridOf(extent, boxes, n - 1), r, r.Columns(), n - 1);
    }
  }
}

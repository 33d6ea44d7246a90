/** From decoded geometries to GeoArrow arrays and back: offset buffers accumulated in `i32`, the
    check that refuses a buffer the narrowing damaged, and the bounds read off a batch. */
module GeometryArrays {
  import opened Options
  import opened Floats
  import opened OffsetArrays

  const I32_MAX: nat := 0x7FFF_FFFF
  const TWO_TO_THE_32: nat := 0x1_0000_0000

  // ---------------------------------------------------------------- offsets

  /** `n as i32`. */
  function AsI32(n: nat): int {
    var m := n % TWO_TO_THE_32;
    if m <= I32_MAX then m else m - TWO_TO_THE_32
  }

  function NarrowAll(totals: seq<nat>): (r: seq<int>)
    ensures |r| == |totals| && forall i :: 0 <= i < |r| ==> r[i] == AsI32(totals[i])
  {
    seq(|totals|, i requires 0 <= i < |totals| => AsI32(totals[i]))
  }

  predicate NonDecreasingInts(v: seq<int>) { forall i :: 0 < i < |v| ==> v[i - 1] <= v[i] }

  /** `checked_offsets`: not empty, starts at 0, no step down. */
  predicate OffsetsPass(v: seq<int>) { v != [] && v[0] == 0 && NonDecreasingInts(v) }

  /** Running totals of counts read as `u32`: they start at 0 and grow by less than 2^32. */
  predicate Totals(t: seq<nat>) {
    && t != [] && t[0] == 0
    && forall i :: 0 < i < |t| ==> t[i - 1] <= t[i] < t[i - 1] + TWO_TO_THE_32
  }

  lemma {:induction false} OneStepIsCaught(old_: nat, new_: nat)
    requires old_ <= I32_MAX && old_ <= new_ < old_ + TWO_TO_THE_32
    ensures AsI32(old_) <= AsI32(new_) <==> new_ <= I32_MAX
    ensures new_ <= I32_MAX ==> AsI32(new_) == new_
  {
    assert old_ % TWO_TO_THE_32 == old_;
    if new_ < TWO_TO_THE_32 {
      assert new_ % TWO_TO_THE_32 == new_;
    } else {
      assert new_ % TWO_TO_THE_32 == new_ - TWO_TO_THE_32;
    }
  }

  lemma {:induction false} TotalsGrow(t: seq<nat>, i: nat, j: nat)
    requires Totals(t) && i <= j < |t|
    ensures t[i] <= t[j]
    decreases j
  {
    if i < j {
      TotalsGrow(t, i, j - 1);
    }
  }

  lemma {:induction false} PassingMeansExact(t: seq<nat>, k: nat)
    requires Totals(t) && k < |t| && NonDecreasingInts(NarrowAll(t))
    ensures t[k] <= I32_MAX
  {
    if k > 0 {
      PassingMeansExact(t, k - 1);
      OneStepIsCaught(t[k - 1], t[k]);
      assert NarrowAll(t)[k - 1] <= NarrowAll(t)[k];
    }
  }

  /** The check that looks for a step down catches every truncation: the narrowed buffer passes
      exactly when no total left `i32`, and then it is the totals themselves. */
  lemma {:induction false} EveryTruncationIsCaught(t: seq<nat>)
    requires Totals(t)
    ensures OffsetsPass(NarrowAll(t)) <==> t[|t| - 1] <= I32_MAX
    ensures OffsetsPass(NarrowAll(t)) ==> NarrowAll(t) == t
  {
    if t[|t| - 1] <= I32_MAX {
      forall i | 0 <= i < |t|
        ensures AsI32(t[i]) == t[i]
      {
        TotalsGrow(t, i, |t| - 1);
        OneStepIsCaught(0, t[i]);
      }
    }
    if OffsetsPass(NarrowAll(t)) {
      PassingMeansExact(t, |t| - 1);
    }
  }

  /** Without the `u32` bound on a step the check would not be enough: a jump of exactly 2^32 is
      invisible to it. */
  lemma {:induction false} AWholeTurnWouldPass()
    ensures OffsetsPass(NarrowAll([0, TWO_TO_THE_32])) && NarrowAll([0, TWO_TO_THE_32]) != [0, TWO_TO_THE_32]
  {
    assert NarrowAll([0, TWO_TO_THE_32]) == [0, 0];
  }

  // ---------------------------------------------------------------- decoded geometries

  /** A geometry as decoded: a vertex, or the parts one level down. */
  datatype Geom = Vertex(x: F64, y: F64) | Many(parts: seq<Geom>)

  /** `depth` list levels over vertices: 0 point, 1 linestring, 2 polygon or multilinestring,
      3 multipolygon. */
  predicate Nested(g: Geom, depth: nat)
    decreases depth
  {
    if depth == 0 then g.Vertex?
    else g.Many? && forall i :: 0 <= i < |g.parts| ==> Nested(g.parts[i], depth - 1)
  }

  predicate AllNested(gs: seq<Geom>, depth: nat) { forall i :: 0 <= i < |gs| ==> Nested(gs[i], depth) }

  /** Every count at every level fits the `u32` WKB stores it in. */
  predicate Counted(g: Geom) {
    g.Many? ==> |g.parts| < TWO_TO_THE_32 && forall i :: 0 <= i < |g.parts| ==> Counted(g.parts[i])
  }

  predicate AllCounted(gs: seq<Geom>) { forall i :: 0 <= i < |gs| ==> Counted(gs[i]) }

  /** Parts in the first `n` geometries. */
  function PartsBefore(gs: seq<Geom>, n: nat): nat
    requires n <= |gs| && forall i :: 0 <= i < |gs| ==> gs[i].Many?
  {
    if n == 0 then 0 else PartsBefore(gs, n - 1) + |gs[n - 1].parts|
  }

  predicate AllMany(gs: seq<Geom>) { forall i :: 0 <= i < |gs| ==> gs[i].Many? }

  function OffsetsOf(gs: seq<Geom>): (t: seq<nat>)
    requires AllMany(gs)
    ensures |t| == |gs| + 1 && forall i :: 0 <= i <= |gs| ==> t[i] == PartsBefore(gs, i)
  {
    seq(|gs| + 1, i requires 0 <= i <= |gs| => PartsBefore(gs, i))
  }

  /** All parts of all geometries, in order. */
  function PartsOf(gs: seq<Geom>): seq<Geom>
    requires AllMany(gs)
  {
    if gs == [] then [] else PartsOf(gs[..|gs| - 1]) + gs[|gs| - 1].parts
  }

  function VertexCoords(gs: seq<Geom>): seq<F64>
    requires AllNested(gs, 0)
  {
    if gs == [] then [] else VertexCoords(gs[..|gs| - 1]) + [gs[|gs| - 1].x, gs[|gs| - 1].y]
  }

  lemma {:induction false} PartsBeforePrefix(gs: seq<Geom>, n: nat, k: nat)
    requires AllMany(gs) && n <= k <= |gs|
    ensures PartsBefore(gs[..k], n) == PartsBefore(gs, n)
  {
    if n > 0 {
      PartsBeforePrefix(gs, n - 1, k);
    }
  }

  lemma {:induction false} PartsInOrder(gs: seq<Geom>, n: nat)
    requires AllMany(gs) && n <= |gs|
    ensures |PartsOf(gs[..n])| == PartsBefore(gs, n)
    ensures PartsBefore(gs, n) <= |PartsOf(gs)| && PartsOf(gs)[..PartsBefore(gs, n)] == PartsOf(gs[..n])
    decreases |gs| - n
  {
    if n == |gs| {
      assert gs[..n] == gs;
      PartsLength(gs);
    } else {
      PartsInOrder(gs, n + 1);
      assert gs[..n + 1][..n] == gs[..n];
      PartsLength(gs[..n]);
      PartsBeforePrefix(gs, n, n);
    }
  }

  lemma {:induction false} PartsLength(gs: seq<Geom>)
    requires AllMany(gs)
    ensures |PartsOf(gs)| == PartsBefore(gs, |gs|)
  {
    if gs != [] {
      var n := |gs| - 1;
      PartsLength(gs[..n]);
      PartsBeforePrefix(gs, n, n);
    }
  }

  /** The parts of geometry `i` are the slice of all parts its offsets delimit. */
  lemma {:induction false} PartsAt(gs: seq<Geom>, i: nat)
    requires AllMany(gs) && i < |gs|
    ensures PartsBefore(gs, i) <= PartsBefore(gs, i + 1) <= |PartsOf(gs)|
    ensures PartsOf(gs)[PartsBefore(gs, i)..PartsBefore(gs, i + 1)] == gs[i].parts
  {
    PartsInOrder(gs, i);
    PartsInOrder(gs, i + 1);
    assert gs[..i + 1][..i] == gs[..i];
    var lo, hi := PartsBefore(gs, i), PartsBefore(gs, i + 1);
    assert PartsOf(gs)[lo..hi] == PartsOf(gs)[..hi][lo..];
  }

  lemma {:induction false} PartsNested(gs: seq<Geom>, depth: nat)
    requires depth > 0 && AllNested(gs, depth)
    ensures AllMany(gs) && AllNested(PartsOf(gs), depth - 1)
    decreases |gs|
  {
    if gs != [] {
      PartsNested(gs[..|gs| - 1], depth);
    }
  }

  lemma {:induction false} PartsCounted(gs: seq<Geom>)
    requires AllMany(gs) && AllCounted(gs)
    ensures AllCounted(PartsOf(gs)) && Totals(OffsetsOf(gs))
  {
    AllPartsCounted(gs);
    forall i | 0 <= i < |gs|
      ensures |gs[i].parts| < TWO_TO_THE_32
    {
      assert Counted(gs[i]);
    }
    var t := OffsetsOf(gs);
    assert forall i :: 0 < i < |t| ==> t[i] == t[i - 1] + |gs[i - 1].parts|;
  }

  lemma {:induction false} AllPartsCounted(gs: seq<Geom>)
    requires AllMany(gs) && AllCounted(gs)
    ensures AllCounted(PartsOf(gs))
  {
    if gs != [] {
      var n := |gs| - 1;
      AllPartsCounted(gs[..n]);
      assert Counted(gs[n]) && AllCounted(gs[n].parts);
    }
  }

  lemma {:induction false} VertexLength(gs: seq<Geom>)
    requires AllNested(gs, 0)
    ensures |VertexCoords(gs)| == 2 * |gs|
  {
    if gs != [] {
      VertexLength(gs[..|gs| - 1]);
    }
  }

  // ---------------------------------------------------------------- building

  /** The array the buffers describe when nothing is lost. */
  function Encode(gs: seq<Geom>, depth: nat): Arr
    requires AllNested(gs, depth)
    decreases depth
  {
    if depth == 0 then Fixed(|gs|, 2, FloatLeaf(VertexCoords(gs)))
    else
      PartsNested(gs, depth);
      List(OffsetsOf(gs), Encode(PartsOf(gs), depth - 1))
  }

  /** `ListArray::try_new` over checked offsets. */
  function TryList(offsets: seq<int>, values: Arr): Option<Arr> {
    if !OffsetsPass(offsets) then None
    else
      var nats := ToNats(offsets);
      if nats[|nats| - 1] > Len(values) then None else Some(List(nats, values))
  }

  lemma {:induction false} PassingIsNonNegative(v: seq<int>, i: nat)
    requires OffsetsPass(v) && i < |v|
    ensures v[i] >= 0
  {
    if i > 0 {
      PassingIsNonNegative(v, i - 1);
    }
  }

  function ToNats(v: seq<int>): (r: seq<nat>)
    requires OffsetsPass(v)
    ensures r == v
  {
    assert forall i :: 0 <= i < |v| ==> v[i] >= 0 by {
      forall i | 0 <= i < |v| ensures v[i] >= 0 { PassingIsNonNegative(v, i); }
    }
    v
  }

  /** The five builders, level by level from the coordinates up, with every offset narrowed to `i32`
      as the decoder accumulates it. */
  function Build(gs: seq<Geom>, depth: nat): Option<Arr>
    requires AllNested(gs, depth)
    decreases depth
  {
    if depth == 0 then
      if |VertexCoords(gs)| % 2 != 0 then None
      else Some(Fixed(|VertexCoords(gs)| / 2, 2, FloatLeaf(VertexCoords(gs))))
    else
      PartsNested(gs, depth);
      match Build(PartsOf(gs), depth - 1)
      case None => None
      case Some(values) => TryList(NarrowAll(OffsetsOf(gs)), values)
  }

  /** Every level's item count fits `i32`. */
  predicate Fits(gs: seq<Geom>, depth: nat)
    requires AllNested(gs, depth)
    decreases depth
  {
    depth == 0 ||
    (PartsNested(gs, depth);
     |PartsOf(gs)| <= I32_MAX && Fits(PartsOf(gs), depth - 1))
  }

  lemma {:induction false} EncodeShape(gs: seq<Geom>, depth: nat)
    requires AllNested(gs, depth)
    ensures Valid(Encode(gs, depth)) && Len(Encode(gs, depth)) == |gs| && Depth(Encode(gs, depth)) == Some(depth)
    ensures Vertices(Encode(gs, depth)).width == 2
    decreases depth
  {
    if depth == 0 {
      VertexLength(gs);
    } else {
      PartsNested(gs, depth);
      EncodeShape(PartsOf(gs), depth - 1);
      PartsLength(gs);
      forall i, j | 0 <= i <= j <= |gs|
        ensures PartsBefore(gs, i) <= PartsBefore(gs, j)
      {
        PartsBeforeGrows(gs, i, j);
      }
    }
  }

  lemma {:induction false} PartsBeforeGrows(gs: seq<Geom>, i: nat, j: nat)
    requires AllMany(gs) && i <= j <= |gs|
    ensures PartsBefore(gs, i) <= PartsBefore(gs, j)
    decreases j
  {
    if i < j {
      PartsBeforeGrows(gs, i, j - 1);
    }
  }

  /** A build either loses nothing or is refused: it succeeds exactly when every level fits `i32`, and
      then the array is the faithful encoding. */
  lemma {:induction false} BuildIsFaithful(gs: seq<Geom>, depth: nat)
    requires AllNested(gs, depth) && AllCounted(gs)
    ensures Build(gs, depth) == if Fits(gs, depth) then Some(Encode(gs, depth)) else None
    decreases depth
  {
    if depth == 0 {
      VertexLength(gs);
    } else {
      PartsNested(gs, depth);
      PartsCounted(gs);
      BuildIsFaithful(PartsOf(gs), depth - 1);
      EveryTruncationIsCaught(OffsetsOf(gs));
      PartsLength(gs);
      EncodeShape(PartsOf(gs), depth - 1);
    }
  }

  // ---------------------------------------------------------------- reading back

  /** The geometry an array holds at row `i`. */
  function Read(a: Arr, i: nat): Geom
    requires Valid(a) && Depth(a).Some? && Vertices(a).width == 2 && i < Len(a)
    decreases a, 0, 1
  {
    match a
    case Fixed(_, _, leaf) => Vertex(leaf.v[2 * i], leaf.v[2 * i + 1])
    case List(offsets, values) => Many(ReadRange(values, offsets[i], offsets[i + 1]))
  }

  function ReadRange(a: Arr, lo: nat, hi: nat): (r: seq<Geom>)
    requires Valid(a) && Depth(a).Some? && Vertices(a).width == 2 && lo <= hi <= Len(a)
    ensures |r| == hi - lo
    decreases a, hi - lo
  {
    if lo == hi then [] else ReadRange(a, lo, hi - 1) + [Read(a, hi - 1)]
  }

  lemma {:induction false} VertexAt(gs: seq<Geom>, i: nat)
    requires AllNested(gs, 0) && i < |gs|
    ensures 2 * i + 1 < |VertexCoords(gs)|
    ensures VertexCoords(gs)[2 * i] == gs[i].x && VertexCoords(gs)[2 * i + 1] == gs[i].y
  {
    VertexLength(gs);
    VertexLength(gs[..|gs| - 1]);
    if i < |gs| - 1 {
      VertexAt(gs[..|gs| - 1], i);
    }
  }

  /** Round trip: row `i` of the array is geometry `i`, ring for ring and vertex for vertex. */
  lemma {:induction false} ReadBack(gs: seq<Geom>, depth: nat, i: nat)
    requires AllNested(gs, depth) && i < |gs|
    ensures var a := Encode(gs, depth); Valid(a) && Depth(a).Some? && Vertices(a).width == 2 && i < Len(a)
    ensures Read(Encode(gs, depth), i) == gs[i]
    decreases depth, 0, 1
  {
    EncodeShape(gs, depth);
    if depth == 0 {
      VertexAt(gs, i);
    } else {
      PartsNested(gs, depth);
      PartsAt(gs, i);
      ReadBackRange(PartsOf(gs), depth - 1, PartsBefore(gs, i), PartsBefore(gs, i + 1));
    }
  }

  lemma {:induction false} ReadBackRange(gs: seq<Geom>, depth: nat, lo: nat, hi: nat)
    requires AllNested(gs, depth) && lo <= hi <= |gs|
    ensures var a := Encode(gs, depth); Valid(a) && Depth(a).Some? && Vertices(a).width == 2 && hi <= Len(a)
    ensures ReadRange(Encode(gs, depth), lo, hi) == gs[lo..hi]
    decreases depth, hi - lo
  {
    EncodeShape(gs, depth);
    if lo < hi {
      ReadBackRange(gs, depth, lo, hi - 1);
      ReadBack(gs, depth, hi - 1);
      assert gs[lo..hi] == gs[lo..hi - 1] + [gs[hi - 1]];
    }
  }

  // ---------------------------------------------------------------- what a slice's run holds

  /** A geometry's coordinates, part by part. */
  function Coords(g: Geom): seq<F64>
    decreases g, 1
  {
    match g
    case Vertex(x, y) => [x, y]
    case Many(parts) => CoordsAll(parts)
  }

  function CoordsAll(gs: seq<Geom>): seq<F64>
    decreases gs, 0
  {
    if gs == [] then [] else CoordsAll(gs[..|gs| - 1]) + Coords(gs[|gs| - 1])
  }

  lemma {:induction false} CoordsOneMore(gs: seq<Geom>, lo: nat, hi: nat)
    requires lo < hi <= |gs|
    ensures CoordsAll(gs[lo..hi]) == CoordsAll(gs[lo..hi - 1]) + Coords(gs[hi - 1])
  {
    assert gs[lo..hi][..hi - 1 - lo] == gs[lo..hi - 1];
  }

  lemma {:induction false} VertexRow(gs: seq<Geom>, i: nat)
    requires AllNested(gs, 0) && i < |gs|
    ensures Valid(Encode(gs, 0)) && i < Len(Encode(gs, 0))
    ensures RowCoords(Encode(gs, 0), i) == Coords(gs[i])
  {
    VertexLength(gs);
    VertexAt(gs, i);
    assert RowCoords(Encode(gs, 0), i) == VertexCoords(gs)[2 * i..2 * i + 2];
  }

  lemma {:induction false} EncodedRow(gs: seq<Geom>, depth: nat, i: nat)
    requires AllNested(gs, depth) && i < |gs|
    ensures Valid(Encode(gs, depth)) && i < Len(Encode(gs, depth))
    ensures RowCoords(Encode(gs, depth), i) == Coords(gs[i])
    decreases depth, 0, 1
  {
    if depth == 0 {
      VertexRow(gs, i);
    } else {
      PartsNested(gs, depth);
      ListRow(gs, depth, i);
      EncodedRange(PartsOf(gs), depth - 1, PartsBefore(gs, i), PartsBefore(gs, i + 1));
      assert Coords(gs[i]) == CoordsAll(PartsOf(gs)[PartsBefore(gs, i)..PartsBefore(gs, i + 1)]) by {
        PartsAt(gs, i);
      }
    }
  }

  /** A row of an encoded list is the run of encoded parts its offsets delimit. */
  lemma {:induction false} ListRow(gs: seq<Geom>, depth: nat, i: nat)
    requires depth > 0 && AllNested(gs, depth) && i < |gs|
    requires AllMany(gs) && AllNested(PartsOf(gs), depth - 1)
    ensures Valid(Encode(gs, depth)) && i < Len(Encode(gs, depth)) && Valid(Encode(PartsOf(gs), depth - 1))
    ensures PartsBefore(gs, i) <= PartsBefore(gs, i + 1) <= Len(Encode(PartsOf(gs), depth - 1))
    ensures RowCoords(Encode(gs, depth), i) ==
            Gather(Encode(PartsOf(gs), depth - 1), PartsBefore(gs, i), PartsBefore(gs, i + 1))
  {
    EncodeShape(gs, depth);
    EncodeShape(PartsOf(gs), depth - 1);
    PartsAt(gs, i);
    assert OffsetsOf(gs)[i] == PartsBefore(gs, i) && OffsetsOf(gs)[i + 1] == PartsBefore(gs, i + 1);
  }

  lemma {:induction false} EncodedRange(gs: seq<Geom>, depth: nat, lo: nat, hi: nat)
    requires AllNested(gs, depth) && lo <= hi <= |gs|
    ensures Valid(Encode(gs, depth)) && hi <= Len(Encode(gs, depth))
    ensures Gather(Encode(gs, depth), lo, hi) == CoordsAll(gs[lo..hi])
    decreases depth, hi - lo
  {
    EncodeShape(gs, depth);
    if lo < hi {
      EncodedRange(gs, depth, lo, hi - 1);
      EncodedRow(gs, depth, hi - 1);
      CoordsOneMore(gs, lo, hi);
    }
  }

  lemma {:induction false} BuiltArray(gs: seq<Geom>, depth: nat) returns (a: Arr)
    requires AllNested(gs, depth) && AllCounted(gs) && Fits(gs, depth)
    ensures Build(gs, depth) == Some(a)
    ensures Valid(a) && Len(a) == |gs| && Depth(a) == Some(depth) && Vertices(a).width == 2
    ensures forall lo: nat, hi: nat :: lo <= hi <= |gs| ==> Gather(a, lo, hi) == CoordsAll(gs[lo..hi])
  {
    a := Encode(gs, depth);
    BuildIsFaithful(gs, depth);
    EncodeShape(gs, depth);
    forall lo: nat, hi: nat | lo <= hi <= |gs|
      ensures Gather(a, lo, hi) == CoordsAll(gs[lo..hi])
    {
      EncodedRange(gs, depth, lo, hi);
    }
  }

  /** End to end: decode rows, build any of the five arrays, take any slice; the run
      `coordinate_values` returns is exactly the coordinates of the geometries in the window. */
  lemma {:induction false} ASliceReadsItsGeometries(gs: seq<Geom>, depth: nat, o: nat, n: nat)
    requires depth <= 3 && AllNested(gs, depth) && AllCounted(gs) && Fits(gs, depth) && o + n <= |gs|
    ensures Build(gs, depth).Some? && Valid(Build(gs, depth).value) && Len(Build(gs, depth).value) == |gs|
    ensures CoordinateValues(Slice(Build(gs, depth).value, o, n)) == Some(CoordsAll(gs[o..o + n]))
  {
    var a := BuiltArray(gs, depth);
    SlicesReadTheirOwnRows(a, o, n);
    assert Gather(a, o, o + n) == CoordsAll(gs[o..o + n]);
  }
}

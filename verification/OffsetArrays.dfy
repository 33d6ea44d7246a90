/** GeoArrow arrays as the engine reads them: offset levels over one interleaved coordinate run, and
    the jump through the offsets that finds the run a slice occupies. */
module OffsetArrays {
  import opened Options
  import opened Floats

  datatype Leaf = FloatLeaf(v: seq<F64>) | OtherLeaf

  /** An array as a reader sees it through its own slice window: a list's offsets are the window's,
      its child is whole; a fixed-size list's child is windowed with it. */
  datatype Arr =
    | Fixed(rows: nat, width: nat, leaf: Leaf)   // FixedSizeList[width]; an encoding's is [2]
    | List(offsets: seq<nat>, values: Arr)
    | OtherArray

  function Len(a: Arr): nat {
    match a
    case Fixed(rows, _, _) => rows
    case List(offsets, _) => if offsets == [] then 0 else |offsets| - 1
    case OtherArray => 0
  }

  predicate Monotone(offsets: seq<nat>) { forall i, j :: 0 <= i <= j < |offsets| ==> offsets[i] <= offsets[j] }

  /** What Arrow guarantees of an array it let anyone construct or slice. */
  predicate Valid(a: Arr) {
    match a
    case Fixed(rows, width, FloatLeaf(v)) => |v| == width * rows
    case Fixed(_, _, OtherLeaf) => true
    case List(offsets, values) =>
      offsets != [] && Monotone(offsets) && offsets[|offsets| - 1] <= Len(values) && Valid(values)
    case OtherArray => true
  }

  /** Row positions scale to places in the leaf. */
  lemma {:induction false} Scaled(width: nat, i: nat, j: nat)
    requires i <= j
    ensures width * i <= width * j && width * (j - i) == width * j - width * i
  {
  }

  /** `Array::slice(o, n)`. */
  function Slice(a: Arr, o: nat, n: nat): Arr
    requires Valid(a) && o + n <= Len(a)
  {
    match a
    case Fixed(rows, width, FloatLeaf(v)) =>
      Scaled(width, o, o + n);
      Scaled(width, o + n, rows);
      Fixed(n, width, FloatLeaf(v[width * o..width * (o + n)]))
    case Fixed(_, width, OtherLeaf) => Fixed(n, width, OtherLeaf)
    case List(offsets, values) => List(offsets[o..o + n + 1], values)
    case OtherArray => a
  }

  // ---------------------------------------------------------------- coordinate_values

  /** `slice.get(lo..hi)`. */
  function GetRange(v: seq<F64>, lo: nat, hi: nat): Option<seq<F64>> {
    if lo <= hi <= |v| then Some(v[lo..hi]) else None
  }

  function Get(v: seq<nat>, i: nat): Option<nat> { if i < |v| then Some(v[i]) else None }

  /** The run below a level whose children are rings: jump the ring offsets, then take the floats. */
  function RingRun(rings: Arr, lo: nat, hi: nat): Option<seq<F64>>
    requires rings.List?
  {
    match (Get(rings.offsets, lo), Get(rings.offsets, hi))
    case (Some(vlo), Some(vhi)) =>
      if rings.values.Fixed? && rings.values.leaf.FloatLeaf?
      then GetRange(rings.values.leaf.v, vlo * 2, vhi * 2) else None
    case _ => None
  }

  /** `coordinate_values`. */
  function CoordinateValues(a: Arr): Option<seq<F64>> {
    match a
    case OtherArray => None
    case Fixed(rows, _, leaf) => if leaf.FloatLeaf? then GetRange(leaf.v, 0, rows * 2) else None
    case List(offsets, values) =>
      if offsets == [] then None
      else
        var (lo, hi) := (offsets[0], offsets[|offsets| - 1]);
        match values
        case OtherArray => None
        case Fixed(_, _, leaf) => if leaf.FloatLeaf? then GetRange(leaf.v, lo * 2, hi * 2) else None
        case List(levelOffsets, below) =>
          if below.List? then PartRun(values, lo, hi) else RingRun(values, lo, hi)
  }

  /** The run below a level whose children are parts: one more jump reaches the rings. */
  function PartRun(parts: Arr, lo: nat, hi: nat): Option<seq<F64>>
    requires parts.List? && parts.values.List?
  {
    match (Get(parts.offsets, lo), Get(parts.offsets, hi))
    case (Some(rlo), Some(rhi)) => RingRun(parts.values, rlo, rhi)
    case _ => None
  }

  // ---------------------------------------------------------------- the plain nested walk

  /** The coordinates of row `i`, child by child. */
  function RowCoords(a: Arr, i: nat): seq<F64>
    requires Valid(a) && i < Len(a)
    decreases a, 0, 1
  {
    match a
    case Fixed(rows, width, FloatLeaf(v)) =>
      Scaled(width, i, i + 1);
      Scaled(width, i + 1, rows);
      v[width * i..width * (i + 1)]
    case Fixed(_, _, OtherLeaf) => []
    case List(offsets, values) => Gather(values, offsets[i], offsets[i + 1])
  }

  /** The coordinates of rows `lo..hi`, row by row. */
  function Gather(a: Arr, lo: nat, hi: nat): seq<F64>
    requires Valid(a) && lo <= hi <= Len(a)
    decreases a, hi - lo
  {
    if lo == hi then [] else Gather(a, lo, hi - 1) + RowCoords(a, hi - 1)
  }

  /** How many list levels stand above a fixed-size list of floats, if that is what the array is. */
  function Depth(a: Arr): Option<nat> {
    match a
    case OtherArray => None
    case Fixed(_, _, leaf) => if leaf.FloatLeaf? then Some(0) else None
    case List(_, values) =>
      match Depth(values)
      case Some(d) => Some(d + 1)
      case None => None
  }

  /** The fixed-size list below all levels. */
  function Vertices(a: Arr): (f: Arr)
    requires Valid(a) && Depth(a).Some?
    ensures f.Fixed? && f.leaf.FloatLeaf? && Valid(f)
  {
    if a.Fixed? then a else Vertices(a.values)
  }

  /** Which vertices rows `lo..hi` occupy, by the offsets at every level. */
  function Window(a: Arr, lo: nat, hi: nat): (w: (nat, nat))
    requires Valid(a) && Depth(a).Some? && lo <= hi <= Len(a)
    ensures w.0 <= w.1 <= Vertices(a).rows
  {
    if a.Fixed? then (lo, hi) else Window(a.values, a.offsets[lo], a.offsets[hi])
  }

  // ---------------------------------------------------------------- the walk reads one window

  lemma {:induction false} Adjacent(v: seq<F64>, i: nat, j: nat, k: nat)
    requires i <= j <= k <= |v|
    ensures v[i..j] + v[j..k] == v[i..k]
  {
  }

  lemma {:induction false} FixedRun(a: Arr, lo: nat, hi: nat)
    requires Valid(a) && a.Fixed? && a.leaf.FloatLeaf? && lo <= hi <= a.rows
    ensures a.width * lo <= a.width * hi <= |a.leaf.v|
    ensures Gather(a, lo, hi) == a.leaf.v[a.width * lo..a.width * hi]
    decreases hi
  {
    Scaled(a.width, lo, hi);
    Scaled(a.width, hi, a.rows);
    if lo < hi {
      FixedRun(a, lo, hi - 1);
      Scaled(a.width, hi - 1, hi);
      assert RowCoords(a, hi - 1) == a.leaf.v[a.width * (hi - 1)..a.width * hi];
      Adjacent(a.leaf.v, a.width * lo, a.width * (hi - 1), a.width * hi);
    }
  }

  lemma {:induction false} GatherSplit(a: Arr, lo: nat, mid: nat, hi: nat)
    requires Valid(a) && lo <= mid <= hi <= Len(a)
    ensures Gather(a, lo, hi) == Gather(a, lo, mid) + Gather(a, mid, hi)
    decreases hi - mid
  {
    if mid < hi {
      GatherSplit(a, lo, mid, hi - 1);
    }
  }

  /** Consecutive rows occupy one consecutive run of the child. */
  lemma {:induction false} ListRun(a: Arr, lo: nat, hi: nat)
    requires Valid(a) && a.List? && lo <= hi <= Len(a)
    ensures a.offsets[lo] <= a.offsets[hi] <= Len(a.values)
    ensures Gather(a, lo, hi) == Gather(a.values, a.offsets[lo], a.offsets[hi])
    decreases hi
  {
    if lo < hi {
      ListRun(a, lo, hi - 1);
      GatherSplit(a.values, a.offsets[lo], a.offsets[hi - 1], a.offsets[hi]);
    }
  }

  /** Row by row, part by part, ring by ring is one run of the leaf. */
  lemma {:induction false} GatherIsTheWindow(a: Arr, lo: nat, hi: nat)
    requires Valid(a) && Depth(a).Some? && lo <= hi <= Len(a)
    ensures var (f, w) := (Vertices(a), Window(a, lo, hi));
            && f.width * w.0 <= f.width * w.1 <= |f.leaf.v|
            && Gather(a, lo, hi) == f.leaf.v[f.width * w.0..f.width * w.1]
    decreases a
  {
    if a.Fixed? {
      FixedRun(a, lo, hi);
    } else {
      ListRun(a, lo, hi);
      GatherIsTheWindow(a.values, a.offsets[lo], a.offsets[hi]);
    }
  }

  // ---------------------------------------------------------------- the jump reads the same window

  predicate Readable(a: Arr) { Depth(a).Some? && Depth(a).value <= 3 }

  lemma {:induction false} OneLevelDown(a: Arr, lo: nat, hi: nat)
    requires Valid(a) && a.List? && lo <= hi <= Len(a)
    ensures a.offsets[lo] <= a.offsets[hi] <= Len(a.values)
    ensures Depth(a).Some? <==> Depth(a.values).Some?
    ensures Depth(a).Some? ==>
              && Depth(a).value == Depth(a.values).value + 1 && Vertices(a) == Vertices(a.values)
              && Window(a, lo, hi) == Window(a.values, a.offsets[lo], a.offsets[hi])
  {
  }

  /** `run` is what two values per vertex of rows `lo..hi` of a `depth`-level array are. */
  predicate ReadsWindow(a: Arr, depth: nat, lo: nat, hi: nat, run: Option<seq<F64>>)
    requires Valid(a) && lo <= hi <= Len(a)
  {
    if Depth(a) != Some(depth) then run == None
    else run == GetRange(Vertices(a).leaf.v, Window(a, lo, hi).0 * 2, Window(a, lo, hi).1 * 2)
  }

  lemma {:induction false} RingJump(rings: Arr, lo: nat, hi: nat)
    requires Valid(rings) && rings.List? && lo <= hi <= Len(rings)
    ensures ReadsWindow(rings, 1, lo, hi, RingRun(rings, lo, hi))
  {
    OneLevelDown(rings, lo, hi);
  }

  lemma {:induction false} PartJump(parts: Arr, lo: nat, hi: nat)
    requires Valid(parts) && parts.List? && parts.values.List? && lo <= hi <= Len(parts)
    ensures ReadsWindow(parts, 2, lo, hi, PartRun(parts, lo, hi))
  {
    OneLevelDown(parts, lo, hi);
    RingJump(parts.values, parts.offsets[lo], parts.offsets[hi]);
  }

  /** `coordinate_values` takes two values per vertex of the window for every array of at most three
      levels over floats, whatever the width, and nothing for any other shape. */
  lemma {:induction false} JumpIsTheWindow(a: Arr)
    requires Valid(a)
    ensures !Readable(a) ==> CoordinateValues(a) == None
    ensures Readable(a) ==>
              var w := Window(a, 0, Len(a));
              CoordinateValues(a) == GetRange(Vertices(a).leaf.v, w.0 * 2, w.1 * 2)
  {
    if a.List? {
      OneLevelDown(a, 0, Len(a));
      if a.values.List? {
        DeepJump(a, a.offsets[0], a.offsets[Len(a)]);
      }
    }
  }

  lemma {:induction false} DeepJump(a: Arr, lo: nat, hi: nat)
    requires Valid(a) && a.List? && a.values.List?
    requires lo == a.offsets[0] <= hi == a.offsets[Len(a)]
    ensures ReadsWindow(a.values, if a.values.values.List? then 2 else 1, lo, hi, CoordinateValues(a))
    ensures Depth(a.values).Some? ==> (Depth(a.values).value == 1 <==> !a.values.values.List?)
  {
    OneLevelDown(a.values, lo, hi);
    if a.values.values.List? {
      PartJump(a.values, lo, hi);
      var inner := a.values.values;
      OneLevelDown(inner, 0, Len(inner));
    } else {
      RingJump(a.values, lo, hi);
    }
  }

  /** The jump through the offsets reads exactly the coordinates of the array's own rows, in order,
      when the fixed-size lists are pairs, as in all five encodings; over another width it does so
      exactly when there is no vertex to read and the window's start still lies in the leaf at two
      values a vertex. For any other shape it reads nothing. */
  lemma {:induction false} CoordinateValuesIsTheWalk(a: Arr)
    requires Valid(a)
    ensures !Readable(a) ==> CoordinateValues(a) == None
    ensures Readable(a) ==>
              var (f, w) := (Vertices(a), Window(a, 0, Len(a)));
              CoordinateValues(a) == Some(Gather(a, 0, Len(a))) <==>
              f.width == 2 || (w.0 == w.1 && w.0 * 2 <= |f.leaf.v|)
  {
    JumpIsTheWindow(a);
    if Readable(a) {
      GatherIsTheWindow(a, 0, Len(a));
      var (f, w) := (Vertices(a), Window(a, 0, Len(a)));
      TwoAVertexWhen(f.leaf.v, f.width, w.0, w.1);
    }
  }

  lemma {:induction false} TwoAVertexWhen(v: seq<F64>, width: nat, lo: nat, hi: nat)
    requires lo <= hi && width * lo <= width * hi <= |v|
    ensures GetRange(v, lo * 2, hi * 2) == Some(v[width * lo..width * hi]) <==>
            width == 2 || (lo == hi && lo * 2 <= |v|)
  {
    Scaled(width, lo, hi);
    if width != 2 && lo < hi {
      OtherWidth(width, hi - lo);
      assert |v[width * lo..width * hi]| == width * (hi - lo);
    }
  }

  lemma {:induction false} OtherWidth(width: nat, n: nat)
    requires width != 2 && n > 0
    ensures width * n != 2 * n
  {
    if width < 2 {
      assert width == 0 || width == 1;
    } else {
      assert (width - 2) * n > 0;
    }
  }

  /** A triple is read as if it were pairs: the first two thirds of its values, and no refusal. */
  lemma {:induction false} ATripleIsMisread(x: F64, y: F64, z: F64)
    ensures var a := Fixed(1, 3, FloatLeaf([x, y, z]));
            Valid(a) && CoordinateValues(a) == Some([x, y]) && Gather(a, 0, 1) == [x, y, z]
  {
    var a := Fixed(1, 3, FloatLeaf([x, y, z]));
    FixedRun(a, 0, 1);
    assert CoordinateValues(a).value == [x, y];
  }

  // ---------------------------------------------------------------- slices

  lemma {:induction false} SliceIsValid(a: Arr, o: nat, n: nat)
    requires Valid(a) && o + n <= Len(a)
    ensures Valid(Slice(a, o, n)) && Depth(Slice(a, o, n)) == Depth(a)
    ensures !a.OtherArray? ==> Len(Slice(a, o, n)) == n
    ensures Depth(a).Some? ==> Vertices(Slice(a, o, n)).width == Vertices(a).width
  {
    if a.Fixed? {
      Scaled(a.width, o, o + n);
      Scaled(a.width, o + n, a.rows);
    }
  }

  lemma {:induction false} WindowOfWindow(v: seq<F64>, lo: nat, hi: nat, i: nat, j: nat)
    requires lo <= hi <= |v| && i <= j <= hi - lo
    ensures v[lo..hi][i..j] == v[lo + i..lo + j]
  {
    var a, b := v[lo..hi][i..j], v[lo + i..lo + j];
    forall k | 0 <= k < j - i
      ensures a[k] == b[k]
    {
      assert a[k] == v[lo..hi][i + k];
    }
  }

  lemma {:induction false} SliceRow(a: Arr, o: nat, n: nat, k: nat)
    requires Valid(a) && !a.OtherArray? && o + n <= Len(a) && k < n
    ensures Valid(Slice(a, o, n)) && Len(Slice(a, o, n)) == n
    ensures RowCoords(Slice(a, o, n), k) == RowCoords(a, o + k)
  {
    SliceIsValid(a, o, n);
    if a.Fixed? && a.leaf.FloatLeaf? {
      FixedSliceRow(a.leaf.v, a.width, a.rows, o, n, k);
    }
  }

  lemma {:induction false} FixedSliceRow(v: seq<F64>, w: nat, rows: nat, o: nat, n: nat, k: nat)
    requires |v| == w * rows && o + n <= rows && k < n
    ensures w * o <= w * (o + n) <= |v| && w * k <= w * (k + 1) <= w * (o + n) - w * o
    ensures w * (o + k) <= w * (o + k + 1) <= |v|
    ensures v[w * o..w * (o + n)][w * k..w * (k + 1)] == v[w * (o + k)..w * (o + k + 1)]
  {
    Scaled(w, o, o + n);
    Scaled(w, o + n, rows);
    Scaled(w, k, k + 1);
    Scaled(w, k + 1, n);
    Scaled(w, o, o + k);
    Scaled(w, o, o + k + 1);
    Scaled(w, o + k + 1, o + n);
    WindowOfWindow(v, w * o, w * (o + n), w * k, w * (k + 1));
  }

  lemma {:induction false} SliceGather(a: Arr, o: nat, n: nat, k: nat)
    requires Valid(a) && !a.OtherArray? && o + n <= Len(a) && k <= n
    ensures Valid(Slice(a, o, n)) && Len(Slice(a, o, n)) == n
    ensures Gather(Slice(a, o, n), 0, k) == Gather(a, o, o + k)
    decreases k
  {
    SliceIsValid(a, o, n);
    if k > 0 {
      var s := Slice(a, o, n);
      SliceGather(a, o, n, k - 1);
      SliceRow(a, o, n, k - 1);
      assert Gather(s, 0, k) == Gather(s, 0, k - 1) + RowCoords(s, k - 1);
      assert Gather(a, o, o + k) == Gather(a, o, o + k - 1) + RowCoords(a, o + k - 1);
    }
  }

  /** For every geometry array and every slice window, `coordinate_values` of the slice is exactly the
      coordinates of the rows in the window: none from outside it, none missing, in order. */
  lemma {:induction false} SlicesReadTheirOwnRows(a: Arr, o: nat, n: nat)
    requires Valid(a) && Readable(a) && Vertices(a).width == 2 && o + n <= Len(a)
    ensures CoordinateValues(Slice(a, o, n)) == Some(Gather(a, o, o + n))
  {
    SliceIsValid(a, o, n);
    CoordinateValuesIsTheWalk(Slice(a, o, n));
    SliceGather(a, o, n, n);
  }
}

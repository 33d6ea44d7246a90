/** Building the spatial index from scanned rows, under cancellation, and asking it for candidates. */
module SpatialIndex {
  import opened Options
  import opened Boxes
  import opened Grid
  import opened IdRanges

  const MAX_INDEXED_FEATURES: nat := 20_000_000
  const CANCEL_POLL_INTERVAL: nat := 4096
  const BYTES_PER_INDEXED_FEATURE: nat := 40
  const BYTES_PER_CELL_ENTRY: nat := 4
  const BUILDER_VERSION: nat := 1
  const ANSWERS_PREDICATE := "covering-bbox-intersects"

  /** What an index was built from, by, and for. */
  datatype IndexKey = IndexKey(
    contentHash: string, builderVersion: nat, answers: string, gridAxisCells: nat, idColumn: string)

  function KeyFor(contentHash: string, idColumn: string): IndexKey {
    IndexKey(contentHash, BUILDER_VERSION, ANSWERS_PREDICATE, GRID_AXIS_CELLS, idColumn)
  }

  /** A key tells every component apart, and records the builder that made it. */
  lemma {:induction false} KeysAgreeWhen(hash: string, column: string, key: IndexKey)
    ensures key == KeyFor(hash, column) <==>
            && key.contentHash == hash && key.idColumn == column
            && key.builderVersion == 1 && key.answers == "covering-bbox-intersects" && key.gridAxisCells == 256
  {
  }

  datatype Validity = Validity(len: nat, modifiedNanos: Option<nat>)

  /** One row of the build's scan: what its Arrow slots hold, and whether the validity bitmaps call
      the id, and all four bounds, values rather than NULL. The build reads the slots and never looks
      at the bitmaps. */
  datatype Row = Row(id: u64, bbox: RawBox, idValid: bool, boxValid: bool)

  datatype Index = Index(
    key: IndexKey,
    validity: Option<Validity>,
    ids: seq<u64>,
    boxes: seq<Box>,
    extent: Option<Box>,        // `None` stands for the untouched infinities of an empty file
    cells: Cells,
    spanning: seq<nat>,
    cellEntries: nat)

  // ---------------------------------------------------------------- what the build must produce

  predicate AllUsable(rows: seq<Row>) { forall i :: 0 <= i < |rows| ==> rows[i].bbox.Usable() }

  function BoxesOf(rows: seq<Row>): (boxes: seq<Box>)
    requires AllUsable(rows)
    ensures |boxes| == |rows| && AllOriented(boxes)
    ensures forall i :: 0 <= i < |rows| ==> boxes[i] == rows[i].bbox.ToBox()
  {
    seq(|rows|, i requires 0 <= i < |rows| => rows[i].bbox.ToBox())
  }

  function IdsOf(rows: seq<Row>): (ids: seq<u64>)
    ensures |ids| == |rows|
    ensures forall i :: 0 <= i < |rows| ==> ids[i] == rows[i].id
  {
    seq(|rows|, i requires 0 <= i < |rows| => rows[i].id)
  }

  function Lower(a: real, b: real): real { if b < a then b else a }
  function Upper(a: real, b: real): real { if b > a then b else a }

  function Hull(a: Box, b: Box): Box {
    Box(Lower(a.xmin, b.xmin), Lower(a.ymin, b.ymin), Upper(a.xmax, b.xmax), Upper(a.ymax, b.ymax))
  }

  function ExtentOf(boxes: seq<Box>): Option<Box> {
    if boxes == [] then None
    else
      var n := |boxes| - 1;
      match ExtentOf(boxes[..n])
      case None => Some(boxes[n])
      case Some(e) => Some(Hull(e, boxes[n]))
  }

  predicate Inside(b: Box, e: Box) { e.xmin <= b.xmin && e.ymin <= b.ymin && b.xmax <= e.xmax && b.ymax <= e.ymax }

  /** The smallest box around all of them: none sticks out, and each side is touched by one. */
  ghost predicate IsHullOf(e: Box, boxes: seq<Box>) {
    && (forall i :: 0 <= i < |boxes| ==> Inside(boxes[i], e))
    && (exists i :: 0 <= i < |boxes| && boxes[i].xmin == e.xmin)
    && (exists i :: 0 <= i < |boxes| && boxes[i].ymin == e.ymin)
    && (exists i :: 0 <= i < |boxes| && boxes[i].xmax == e.xmax)
    && (exists i :: 0 <= i < |boxes| && boxes[i].ymax == e.ymax)
  }

  lemma {:induction false} HullGrows(e: Box, boxes: seq<Box>, b: Box)
    requires IsHullOf(e, boxes)
    ensures IsHullOf(Hull(e, b), boxes + [b])
  {
    var all, h, n := boxes + [b], Hull(e, b), |boxes|;
    assert all[n] == b;
    assert forall i :: 0 <= i < n ==> all[i] == boxes[i];
    var i1 :| 0 <= i1 < n && boxes[i1].xmin == e.xmin;
    var i2 :| 0 <= i2 < n && boxes[i2].ymin == e.ymin;
    var i3 :| 0 <= i3 < n && boxes[i3].xmax == e.xmax;
    var i4 :| 0 <= i4 < n && boxes[i4].ymax == e.ymax;
    assert all[if b.xmin < e.xmin then n else i1].xmin == h.xmin;
    assert all[if b.ymin < e.ymin then n else i2].ymin == h.ymin;
    assert all[if b.xmax > e.xmax then n else i3].xmax == h.xmax;
    assert all[if b.ymax > e.ymax then n else i4].ymax == h.ymax;
  }

  /** The extent is the hull of the boxes, whatever their order; an empty file has none. */
  lemma {:induction false} ExtentIsTheHull(boxes: seq<Box>)
    ensures ExtentOf(boxes).Some? <==> boxes != []
    ensures boxes != [] ==> IsHullOf(ExtentOf(boxes).value, boxes)
  {
    if boxes != [] {
      var n := |boxes| - 1;
      ExtentIsTheHull(boxes[..n]);
      assert boxes == boxes[..n] + [boxes[n]];
      if n > 0 {
        HullGrows(ExtentOf(boxes[..n]).value, boxes[..n], boxes[n]);
      }
    }
  }

  /** There is an extent and neither axis collapses. */
  predicate Spread(extent: Option<Box>) {
    extent.Some? && extent.value.xmax > extent.value.xmin && extent.value.ymax > extent.value.ymin
  }

  /** The buckets and the overflow list of a file; both empty unless the extent is spread. */
  ghost predicate IsGridOf(cells: Cells, spanning: seq<nat>, extent: Option<Box>, boxes: seq<Box>)
    requires AllOriented(boxes)
  {
    if Spread(extent)
    then cells == GridOf(extent.value, boxes, |boxes|) && spanning == BroadSlots(extent.value, boxes, |boxes|)
    else cells == map[] && spanning == []
  }

  /** The index of a file: a function of the rows, the key and the heuristic alone. */
  ghost predicate IsIndexOf(idx: Index, rows: seq<Row>) {
    && AllUsable(rows)
    && idx.ids == IdsOf(rows)
    && idx.boxes == BoxesOf(rows)
    && idx.extent == ExtentOf(idx.boxes)
    && IsGridOf(idx.cells, idx.spanning, idx.extent, idx.boxes)
    && idx.cellEntries == Entries(idx.cells) + |idx.spanning|
  }

  function DeclaredMemoryBound(idx: Index): nat {
    |idx.ids| * BYTES_PER_INDEXED_FEATURE + idx.cellEntries * BYTES_PER_CELL_ENTRY
  }

  /** The declared bound is itself bounded by the feature count. */
  lemma {:induction false} MemoryIsBounded(idx: Index, rows: seq<Row>)
    requires IsIndexOf(idx, rows)
    ensures idx.cellEntries <= |rows| * MAX_CELLS_PER_FEATURE
    ensures DeclaredMemoryBound(idx) <=
            |rows| * (BYTES_PER_INDEXED_FEATURE + MAX_CELLS_PER_FEATURE * BYTES_PER_CELL_ENTRY)
    ensures DeclaredMemoryBound(idx) ==
            40 * |rows| + 4 * (if Spread(idx.extent) then TotalCost(idx.extent.value, idx.boxes, |rows|) else 0)
  {
    if Spread(idx.extent) {
      EntriesAreConserved(idx.extent.value, idx.boxes, |rows|);
    }
  }

  // ---------------------------------------------------------------- cancellation

  /** Work done and how long it went unpolled. `worst` spans phase boundaries, `worstInPhase` does
      not. */
  datatype Meter = Meter(work: nat, unpolled: nat, inPhase: nat, worst: nat, worstInPhase: nat)

  function Worked(m: Meter): Meter {
    Meter(m.work + 1, m.unpolled + 1, m.inPhase + 1,
          if m.unpolled + 1 > m.worst then m.unpolled + 1 else m.worst,
          if m.inPhase + 1 > m.worstInPhase then m.inPhase + 1 else m.worstInPhase)
  }

  function Polled(m: Meter): Meter { m.(unpolled := 0, inPhase := 0) }

  function NewPhase(m: Meter): Meter { m.(inPhase := 0) }

  /** The flag is sticky: once `cancelAt` units of work are done, every later look sees it. */
  predicate Seen(cancelAt: Option<nat>, work: nat) { cancelAt.Some? && cancelAt.value <= work }

  /** The last poll did not see the flag, and the cadence held so far. */
  predicate Kept(m: Meter, cancelAt: Option<nat>) {
    && m.unpolled <= m.work && !Seen(cancelAt, m.work - m.unpolled)
    && m.worst <= 2 * CANCEL_POLL_INTERVAL && m.worstInPhase <= CANCEL_POLL_INTERVAL
    && m.inPhase <= m.unpolled <= m.worst
  }

  datatype BuildResult = Built(index: Index) | NonFinite(row: nat) | Inverted(row: nat) | Cancelled

  /** A refusal names the first row the engine cannot reason about. */
  predicate RefusesFirstBadRow(r: BuildResult, rows: seq<Row>) {
    && (r.NonFinite? ==> r.row < |rows| && AllUsable(rows[..r.row]) && !rows[r.row].bbox.Finite())
    && (r.Inverted? ==>
          && r.row < |rows| && AllUsable(rows[..r.row])
          && rows[r.row].bbox.Finite() && !rows[r.row].bbox.Usable())
  }

  /** Where a build under a cancel may end, and how late. */
  predicate StoppedInTime(m: Meter, cancelAt: Option<nat>) {
    && m.worst <= 2 * CANCEL_POLL_INTERVAL && m.worstInPhase <= CANCEL_POLL_INTERVAL
    && (cancelAt.Some? ==> m.work <= cancelAt.value + 2 * CANCEL_POLL_INTERVAL)
  }

  lemma {:induction false} NextMultiple(i: nat)
    ensures (i + 1) % CANCEL_POLL_INTERVAL ==
            if i % CANCEL_POLL_INTERVAL == CANCEL_POLL_INTERVAL - 1 then 0 else i % CANCEL_POLL_INTERVAL + 1
  {
  }

  /** After `i` items of a phase that polls at every multiple of the interval. */
  predicate AtItem(m: Meter, i: nat) {
    && m.unpolled == m.inPhase <= CANCEL_POLL_INTERVAL
    && (i % CANCEL_POLL_INTERVAL != 0 ==> m.unpolled == i % CANCEL_POLL_INTERVAL)
  }

  /** Phase `ValidateBboxes`: the first unusable row, if any. */
  method Validate(rows: seq<Row>, cancelAt: Option<nat>, start: Meter)
    returns (bad: Option<BuildResult>, m: Meter)
    requires Kept(start, cancelAt) && start.unpolled == 0
    ensures bad.None? ==> AllUsable(rows) && Kept(m, cancelAt) && m.unpolled <= CANCEL_POLL_INTERVAL
    ensures bad.Some? ==> !bad.value.Built? && StoppedInTime(m, cancelAt)
    ensures bad.Some? && bad.value.Cancelled? ==> Seen(cancelAt, m.work)
    ensures bad.Some? ==> RefusesFirstBadRow(bad.value, rows)
  {
    m := NewPhase(start);
    for i := 0 to |rows|
      invariant AllUsable(rows[..i])
      invariant Kept(m, cancelAt)
      invariant AtItem(m, i)
    {
      NextMultiple(i);
      if i % CANCEL_POLL_INTERVAL == 0 {
        if Seen(cancelAt, m.work) {
          return Some(Cancelled), m;
        }
        m := Polled(m);
      }
      if !rows[i].bbox.Finite() {
        return Some(NonFinite(i)), m;
      }
      if !rows[i].bbox.Usable() {
        return Some(Inverted(i)), m;
      }
      m := Worked(m);
    }
    assert rows[..|rows|] == rows;
    bad := None;
  }

  /** Phase `ComputeExtent`. */
  method ComputeExtent(boxes: seq<Box>, cancelAt: Option<nat>, start: Meter)
    returns (extent: Option<Box>, stopped: bool, m: Meter)
    requires Kept(start, cancelAt) && start.unpolled <= CANCEL_POLL_INTERVAL
    ensures stopped ==> Seen(cancelAt, m.work) && StoppedInTime(m, cancelAt)
    ensures !stopped ==> extent == ExtentOf(boxes) && Kept(m, cancelAt) && m.unpolled <= CANCEL_POLL_INTERVAL
    ensures !stopped ==> (extent.None? <==> boxes == []) && (extent.Some? ==> IsHullOf(extent.value, boxes))
  {
    m := NewPhase(start);
    extent, stopped := None, false;
    for i := 0 to |boxes|
      invariant extent == ExtentOf(boxes[..i])
      invariant Kept(m, cancelAt)
      invariant if i == 0 then m == NewPhase(start)
                else AtItem(m, i)
    {
      NextMultiple(i);
      if i % CANCEL_POLL_INTERVAL == 0 {
        if Seen(cancelAt, m.work) {
          stopped := true;
          return;
        }
        m := Polled(m);
      }
      assert boxes[..i + 1][..i] == boxes[..i];
      extent := match extent case None => Some(boxes[i]) case Some(e) => Some(Hull(e, boxes[i]));
      m := Worked(m);
    }
    assert boxes[..|boxes|] == boxes;
    ExtentIsTheHull(boxes);
  }

  // ---------------------------------------------------------------- the scan's ceiling

  datatype ScanResult = Scanned(rows: seq<Row>) | CeilingExceeded(saw: nat) | ScanCancelled

  function Concat(chunks: seq<seq<Row>>): seq<Row> {
    if chunks == [] then [] else Concat(chunks[..|chunks| - 1]) + chunks[|chunks| - 1]
  }

  lemma {:induction false} ConcatGrows(chunks: seq<seq<Row>>, k: nat)
    requires k <= |chunks|
    ensures |Concat(chunks[..k])| <= |Concat(chunks)|
    decreases |chunks|
  {
    if k < |chunks| {
      assert chunks[..|chunks| - 1][..k] == chunks[..k];
      ConcatGrows(chunks[..|chunks| - 1], k);
    } else {
      assert chunks[..k] == chunks;
    }
  }

  /** Chunk after chunk, row after row. */
  lemma {:induction false} ConcatKeepsOrder(chunks: seq<seq<Row>>, k: nat, i: nat)
    requires k < |chunks| && i < |chunks[k]|
    ensures |Concat(chunks[..k])| + i < |Concat(chunks)|
    ensures Concat(chunks)[|Concat(chunks[..k])| + i] == chunks[k][i]
    decreases |chunks|
  {
    var n := |chunks| - 1;
    if k < n {
      ConcatKeepsOrder(chunks[..n], k, i);
      assert chunks[..n][..k] == chunks[..k];
    } else {
      assert chunks[..k] == chunks[..n];
    }
  }

  /** `scan` over the chunks DuckDB yields; `cancelAt` is the first chunk at which the flag is up.
      The ceiling is enforced while reading: `held`, the rows in memory when it returns, never
      exceeds it. Without a cancel the file is accepted exactly when it fits. */
  method Scan(chunks: seq<seq<Row>>, cancelAt: Option<nat>) returns (r: ScanResult, held: nat)
    ensures held <= MAX_INDEXED_FEATURES
    ensures r.Scanned? ==>
              r.rows == Concat(chunks) && held == |r.rows| && (cancelAt.Some? ==> |chunks| <= cancelAt.value)
    ensures r.CeilingExceeded? ==>
              exists k :: 0 <= k < |chunks| && held == |Concat(chunks[..k])| && r.saw == held + |chunks[k]| &&
                          r.saw > MAX_INDEXED_FEATURES && |Concat(chunks)| >= r.saw
    ensures r.ScanCancelled? ==> cancelAt.Some? && cancelAt.value < |chunks|
    ensures cancelAt.None? ==> (r.Scanned? <==> |Concat(chunks)| <= MAX_INDEXED_FEATURES)
  {
    var rows: seq<Row> := [];
    for k := 0 to |chunks|
      invariant rows == Concat(chunks[..k]) && |rows| <= MAX_INDEXED_FEATURES
      invariant cancelAt.Some? ==> k <= cancelAt.value
    {
      if Seen(cancelAt, k) {
        return ScanCancelled, |rows|;
      }
      assert chunks[..k + 1][..k] == chunks[..k];
      ConcatGrows(chunks, k + 1);
      if |rows| + |chunks[k]| > MAX_INDEXED_FEATURES {
        return CeilingExceeded(|rows| + |chunks[k]|), |rows|;
      }
      rows := rows + chunks[k];
    }
    assert chunks[..|chunks|] == chunks;
    return Scanned(rows), |rows|;
  }

  // ---------------------------------------------------------------- the grid phase

  /** What holds between two insertions of phase `PopulateGrid`; `since` is the source's counter. */
  predicate Counting(m: Meter, since: nat, cancelAt: Option<nat>) {
    && Kept(m, cancelAt)
    && since <= CANCEL_POLL_INTERVAL && m.inPhase == since && m.unpolled <= CANCEL_POLL_INTERVAL + since
  }

  /** The grid phase's poll: look at the flag once `since` reaches the interval. */
  method MaybePoll(m0: Meter, since0: nat, cancelAt: Option<nat>) returns (stopped: bool, m: Meter, since: nat)
    requires Counting(m0, since0, cancelAt)
    ensures m.work == m0.work
    ensures stopped ==> Seen(cancelAt, m.work) && StoppedInTime(m, cancelAt)
    ensures !stopped ==> Counting(m, since, cancelAt) && since < CANCEL_POLL_INTERVAL
  {
    stopped, m, since := false, m0, since0;
    if since >= CANCEL_POLL_INTERVAL {
      since := 0;
      if Seen(cancelAt, m.work) {
        stopped := true;
        return;
      }
      m := Polled(m);
    }
  }

  /** The two inner loops: one feature into every cell of its rectangle. */
  method PlaceFeature(cells0: Cells, r: Rect, slot: nat, m0: Meter, since0: nat, cancelAt: Option<nat>)
    returns (cells: Cells, stopped: bool, m: Meter, since: nat)
    requires r.Valid() && Counting(m0, since0, cancelAt)
    ensures stopped ==> Seen(cancelAt, m.work) && StoppedInTime(m, cancelAt)
    ensures !stopped ==> cells == Place(cells0, r, slot) && Counting(m, since, cancelAt)
  {
    cells, stopped, m, since := cells0, false, m0, since0;
    for c := r.c0 to r.c1 + 1
      invariant cells == PlaceColumns(cells0, r, c - r.c0, slot)
      invariant !stopped && Counting(m, since, cancelAt)
    {
      ghost var before := cells;
      for row := r.r0 to r.r1 + 1
        invariant cells == PlaceColumn(before, c, r.r0, row - r.r0, slot)
        invariant !stopped && Counting(m, since, cancelAt)
      {
        stopped, m, since := MaybePoll(m, since, cancelAt);
        if stopped {
          return;
        }
        cells := PlaceOne(cells, (c, row), slot);
        m, since := Worked(m), since + 1;
      }
    }
  }

  /** One feature: onto the overflow list, or into the cells of its rectangle. */
  method AddFeature(e: Box, boxes: seq<Box>, slot: nat, cells0: Cells, spanning0: seq<nat>, m0: Meter, since0: nat,
                    cancelAt: Option<nat>)
    returns (cells: Cells, spanning: seq<nat>, stopped: bool, m: Meter, since: nat)
    requires AllOriented(boxes) && slot < |boxes| && Counting(m0, since0, cancelAt)
    requires cells0 == GridOf(e, boxes, slot) && spanning0 == BroadSlots(e, boxes, slot)
    ensures stopped ==> Seen(cancelAt, m.work) && StoppedInTime(m, cancelAt)
    ensures !stopped ==>
              && cells == GridOf(e, boxes, slot + 1) && spanning == BroadSlots(e, boxes, slot + 1)
              && Counting(m, since, cancelAt)
  {
    cells, spanning := cells0, spanning0;
    stopped, m, since := MaybePoll(m0, since0, cancelAt);
    if stopped {
      return;
    }
    if Broad(e, boxes[slot]) {
      spanning := spanning + [slot];
      m, since := Worked(m), since + 1;
    } else {
      cells, stopped, m, since := PlaceFeature(cells, RectOf(e, boxes[slot]), slot, m, since, cancelAt);
    }
  }

  /** Phase `PopulateGrid`: skipped where the extent collapses. */
  method PopulateGrid(extent: Option<Box>, boxes: seq<Box>, cancelAt: Option<nat>, start: Meter)
    returns (cells: Cells, spanning: seq<nat>, stopped: bool, m: Meter)
    requires AllOriented(boxes) && Kept(start, cancelAt) && start.unpolled <= CANCEL_POLL_INTERVAL
    ensures stopped ==> Seen(cancelAt, m.work) && StoppedInTime(m, cancelAt)
    ensures !stopped ==> IsGridOf(cells, spanning, extent, boxes) && Kept(m, cancelAt)
  {
    m := NewPhase(start);
    cells, spanning, stopped := map[], [], false;
    if !Spread(extent) {
      return;
    }
    var e := extent.value;
    var since := 0;
    for slot := 0 to |boxes|
      invariant cells == GridOf(e, boxes, slot) && spanning == BroadSlots(e, boxes, slot)
      invariant !stopped && Counting(m, since, cancelAt)
    {
      cells, spanning, stopped, m, since := AddFeature(e, boxes, slot, cells, spanning, m, since, cancelAt);
      if stopped {
        return;
      }
    }
  }

  /** `cells.values().map(Vec::len).sum()`, in whatever order the map yields its buckets. */
  method SumEntries(cells: Cells) returns (n: nat)
    ensures n == Entries(cells)
  {
    n := 0;
    var left := cells;
    while left != map[]
      invariant n + Entries(left) == Entries(cells)
      decreases |left|
    {
      var k :| k in left;
      EntriesWithout(left, k);
      n := n + |left[k]|;
      left := left - {k};
    }
  }

  /** `build_observed` from the scan's return to its own: the result is the index of the rows, or the
      first row it cannot reason about, or `Cancelled`, and a cancel that lands before the last check
      never lets an index out. `cancelAt` is when the flag goes up, in units of work. */
  method Build(key: IndexKey, validity: Option<Validity>, rows: seq<Row>, cancelAt: Option<nat>)
    returns (r: BuildResult, m: Meter)
    requires |rows| <= MAX_INDEXED_FEATURES
    ensures r.Built? ==>
              && r.index.key == key && r.index.validity == validity
              && IsIndexOf(r.index, rows) && !Seen(cancelAt, m.work)
    ensures r.Cancelled? ==> Seen(cancelAt, m.work)
    ensures Seen(cancelAt, 0) ==> r.Cancelled?
    ensures cancelAt.Some? && r.Built? ==> m.work < cancelAt.value
    ensures r.Cancelled? ==> cancelAt.Some? && cancelAt.value <= m.work
    ensures RefusesFirstBadRow(r, rows)
    ensures StoppedInTime(m, cancelAt)
  {
    m := Meter(0, 0, 0, 0, 0);
    if Seen(cancelAt, 0) {
      return Cancelled, m;
    }
    var bad, stopped;
    bad, m := Validate(rows, cancelAt, m);
    if bad.Some? {
      return bad.value, m;
    }
    var boxes := BoxesOf(rows);
    var extent;
    extent, stopped, m := ComputeExtent(boxes, cancelAt, m);
    if stopped {
      return Cancelled, m;
    }
    var cells, spanning;
    cells, spanning, stopped, m := PopulateGrid(extent, boxes, cancelAt, m);
    if stopped {
      return Cancelled, m;
    }
    if Seen(cancelAt, m.work) {
      return Cancelled, m;
    }
    var n := SumEntries(cells);
    r := Built(Index(key, validity, IdsOf(rows), boxes, extent, cells, spanning, n + |spanning|));
  }
}

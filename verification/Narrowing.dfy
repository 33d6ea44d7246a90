/** Putting an index into a viewport query: candidate ids become range predicates beside the bbox
    predicate, and everything the index cannot answer falls back to the scan. */
module Narrowing {
  import opened Options
  import opened Floats
  import opened Boxes
  import opened Grid
  import opened IdRanges
  import opened SpatialIndex
  import opened Candidates
  import Identity

  datatype Plan = ScanOnly | IndexNarrowed(ranges: seq<Range>, candidates: nat) | IndexTooFragmented(candidates: nat)

  lemma {:induction false} SortIsCanonical(a: seq<u64>, b: seq<u64>)
    requires NonDecreasing(a) && multiset(a) == multiset(b)
    ensures a == Sort(b)
  {
    SortedIsUnique(a, Sort(b));
  }

  lemma {:induction false} LastIsLargest(a: seq<u64>, b: seq<u64>)
    requires NonDecreasing(b) && a != [] && multiset(a) == multiset(b)
    ensures b != [] && a[|a| - 1] <= b[|b| - 1]
  {
    var x := a[|a| - 1];
    assert x in multiset(a);
    assert x in b;
  }

  lemma {:induction false} LastDropped(a: seq<u64>)
    requires a != []
    ensures multiset(a[..|a| - 1]) == multiset(a) - multiset{a[|a| - 1]}
  {
    assert a == a[..|a| - 1] + [a[|a| - 1]];
  }

  lemma {:induction false} SortedIsUnique(a: seq<u64>, b: seq<u64>)
    requires NonDecreasing(a) && NonDecreasing(b) && multiset(a) == multiset(b)
    ensures a == b
    decreases |a|
  {
    if a == [] {
      assert |multiset(b)| == 0;
    } else {
      LastIsLargest(a, b);
      LastIsLargest(b, a);
      LastDropped(a);
      LastDropped(b);
      SortedIsUnique(a[..|a| - 1], b[..|b| - 1]);
      assert a == a[..|a| - 1] + [a[|a| - 1]];
      assert b == b[..|b| - 1] + [b[|b| - 1]];
    }
  }

  /** The index knows a feature of this id that meets the view. */
  predicate Knows(idx: Index, id: nat, view: Box) {
    exists s :: 0 <= s < |idx.ids| && s < |idx.boxes| && idx.ids[s] == id && Intersects(idx.boxes[s], view)
  }

  lemma {:induction false} PickedMembers(parts: seq<seq<u64>>, n: nat, x: nat)
    requires n <= |parts|
    ensures x in Pick(parts, UpTo(n)) <==> exists s :: 0 <= s < n && x in parts[s]
  {
    if n > 0 {
      assert UpTo(n)[..n - 1] == UpTo(n - 1);
      PickedMembers(parts, n - 1, x);
    }
  }

  lemma {:induction false} ScanIdsMembers(idx: Index, view: Box, x: nat)
    requires |idx.ids| == |idx.boxes|
    ensures x in ScanIds(idx, view) <==> Knows(idx, x, view)
  {
    PickedMembers(Parts(idx, view), |idx.ids|, x);
  }

  /** A narrowing plan names exactly the ids the index has in the view. */
  ghost predicate Names(plan: Plan, idx: Index, view: RawBox) {
    plan.IndexNarrowed? ==>
      view.Usable() && forall x: nat :: InRanges(x, plan.ranges) <==> Knows(idx, x, view.ToBox())
  }

  lemma {:induction false} RunsNameTheIds(idx: Index, view: Box, ids: seq<u64>)
    requires |idx.ids| == |idx.boxes| && multiset(ids) == multiset(ScanIds(idx, view))
    ensures forall x: nat :: InRanges(x, RunsOf(ids)) <==> Knows(idx, x, view)
  {
    RunsDenote(ids);
    forall x: nat
      ensures x in ids <==> Knows(idx, x, view)
    {
      ScanIdsMembers(idx, view, x);
      SameMembers(ids, ScanIds(idx, view), x);
    }
  }

  lemma {:induction false} SameMembers(a: seq<u64>, b: seq<u64>, x: nat)
    requires multiset(a) == multiset(b)
    ensures x in a <==> x in b
  {
    assert x in a ==> x in multiset(a);
    assert x in b ==> x in multiset(b);
  }

  lemma {:induction false} SameLength(a: seq<u64>, b: seq<u64>)
    requires multiset(a) == multiset(b)
    ensures |a| == |b|
  {
    assert |a| == |multiset(a)| && |b| == |multiset(b)|;
  }

  /** Everything that sends a query to the plain scan: no index, a view it will not reason about, an
      empty grid, no candidate, or too many ranges. */
  ghost predicate CannotNarrow(index: Option<Index>, view: RawBox)
    requires index.Some? ==> |index.value.ids| == |index.value.boxes|
  {
    || index.None? || !view.Usable() || index.value.cells == map[]
    || ScanIds(index.value, view.ToBox()) == [] || TooFragmented(index.value, view)
  }

  ghost predicate TooFragmented(idx: Index, view: RawBox)
    requires |idx.ids| == |idx.boxes|
  {
    view.Usable() && |RunsOf(Sort(ScanIds(idx, view.ToBox())))| > MAX_ID_RANGES
  }

  /** What the planner decides with this index. */
  ghost predicate Planned(plan: Plan, idx: Index, view: RawBox) {
    && |idx.ids| == |idx.boxes| && Names(plan, idx, view)
    && (plan.IndexNarrowed? <==> !CannotNarrow(Some(idx), view))
  }

  /** The experimental seam of the planner, for an admitted index of any rows or none, over any file.
      The statement it plans returns the scan's rows exactly when it does not narrow or the index knows
      every row the scan returns. */
  method PlanQuery(index: Option<Index>, view: RawBox, ghost rows: seq<Row>, ghost file: seq<Feature>)
    returns (plan: Plan)
    requires index.Some? ==> IsIndexOf(index.value, rows)
    ensures plan.IndexNarrowed? <==> !CannotNarrow(index, view)
    ensures plan.IndexNarrowed? ==>
              && Names(plan, index.value, view) && 0 < |plan.ranges| <= MAX_ID_RANGES
              && plan.candidates == |ScanIds(index.value, view.ToBox())|
    ensures plan.IndexTooFragmented? <==>
              index.Some? && index.value.cells != map[] && TooFragmented(index.value, view)
    ensures plan.IndexTooFragmented? ==> plan.candidates == |ScanIds(index.value, view.ToBox())|
    ensures Answer(plan, file, view) == Scanned(file, view) <==>
            CannotNarrow(index, view) || AllKnown(index.value, file, view)
  {
    plan := ChoosePlan(index, view, rows);
    if plan.IndexNarrowed? {
      NarrowingIsExactWhen(plan, index.value, file, view);
    }
  }

  method ChoosePlan(index: Option<Index>, view: RawBox, ghost rows: seq<Row>) returns (plan: Plan)
    requires index.Some? ==> IsIndexOf(index.value, rows)
    ensures plan.IndexNarrowed? <==> !CannotNarrow(index, view)
    ensures plan.IndexNarrowed? ==>
              && Names(plan, index.value, view) && 0 < |plan.ranges| <= MAX_ID_RANGES
              && plan.candidates == |ScanIds(index.value, view.ToBox())|
    ensures plan.IndexTooFragmented? <==>
              index.Some? && index.value.cells != map[] && TooFragmented(index.value, view)
    ensures plan.IndexTooFragmented? ==> plan.candidates == |ScanIds(index.value, view.ToBox())|
  {
    if index.None? {
      return ScanOnly;
    }
    var found := CandidateIds(index.value, view, rows);
    if found.None? {
      GridIsEmptyWhen(index.value, rows);
      return ScanOnly;
    }
    ghost var scanned := ScanIds(index.value, view.ToBox());
    var ids := found.value;
    SortIsCanonical(ids, scanned);
    SameLength(ids, scanned);
    var compressed, _ := Compress(ids, MAX_ID_RANGES);
    if compressed.None? {
      return IndexTooFragmented(|ids|);
    }
    RunsNameTheIds(index.value, view.ToBox(), ids);
    assert ids == [] <==> RunsOf(ids) == [];
    if compressed.value == [] {
      return ScanOnly;
    }
    plan := IndexNarrowed(compressed.value, |ids|);
  }

  // ---------------------------------------------------------------- what the statement returns

  /** A row of the file as the statement sees it, NULLs included. */
  datatype Feature = Feature(id: Option<u64>, bbox: Option<RawBox>)

  function FeatureOf(row: Row): Feature {
    Feature(if row.idValid then Some(row.id) else None, if row.boxValid then Some(row.bbox) else None)
  }

  function FeaturesOf(rows: seq<Row>): (file: seq<Feature>)
    ensures |file| == |rows| && forall i :: 0 <= i < |rows| ==> file[i] == FeatureOf(rows[i])
  {
    seq(|rows|, i requires 0 <= i < |rows| => FeatureOf(rows[i]))
  }

  /** The bbox predicate of the statement; a comparison with NULL is not true. */
  predicate Meets(f: Feature, view: RawBox) {
    && f.bbox.Some?
    && SqlLeq(f.bbox.value.xmin, view.xmax) && SqlLeq(view.xmin, f.bbox.value.xmax)
    && SqlLeq(f.bbox.value.ymin, view.ymax) && SqlLeq(view.ymin, f.bbox.value.ymax)
  }

  /** The range predicate; a NULL id is in no range. */
  predicate IdInRanges(f: Feature, ranges: seq<Range>) { f.id.Some? && InRanges(f.id.value, ranges) }

  /** `WHERE` the bbox predicate holds. */
  function Scanned(file: seq<Feature>, view: RawBox): seq<Feature> {
    if file == [] then []
    else
      var n := |file| - 1;
      Scanned(file[..n], view) + (if Meets(file[n], view) then [file[n]] else [])
  }

  /** `WHERE (id in some range) AND` the bbox predicate holds. */
  function Both(ranges: seq<Range>, file: seq<Feature>, view: RawBox): seq<Feature> {
    if file == [] then []
    else
      var n := |file| - 1;
      Both(ranges, file[..n], view) + (if IdInRanges(file[n], ranges) && Meets(file[n], view) then [file[n]] else [])
  }

  function Answer(plan: Plan, file: seq<Feature>, view: RawBox): seq<Feature> {
    match plan
    case IndexNarrowed(ranges, _) => Both(ranges, file, view)
    case _ => Scanned(file, view)
  }

  /** Every row the scan returns is named by the ranges. */
  predicate AllNamed(ranges: seq<Range>, file: seq<Feature>, view: RawBox) {
    forall i :: 0 <= i < |file| && Meets(file[i], view) ==> IdInRanges(file[i], ranges)
  }

  /** Every row the scan returns has an id, and the index knows a feature of that id in the view. */
  predicate AllKnown(idx: Index, file: seq<Feature>, view: RawBox)
    requires view.Finite()
  {
    forall i :: 0 <= i < |file| && Meets(file[i], view) ==>
      file[i].id.Some? && Knows(idx, file[i].id.value, view.ToBox())
  }

  /** Narrowing only ever drops rows, and drops none exactly when every row is named. */
  lemma {:induction false} BothIsScanWhen(ranges: seq<Range>, file: seq<Feature>, view: RawBox)
    ensures |Both(ranges, file, view)| <= |Scanned(file, view)|
    ensures |Both(ranges, file, view)| == |Scanned(file, view)| <==> AllNamed(ranges, file, view)
    ensures AllNamed(ranges, file, view) ==> Both(ranges, file, view) == Scanned(file, view)
  {
    if file != [] {
      var n := |file| - 1;
      BothIsScanWhen(ranges, file[..n], view);
      assert AllNamed(ranges, file, view) <==>
             AllNamed(ranges, file[..n], view) && (Meets(file[n], view) ==> IdInRanges(file[n], ranges));
    }
  }

  /** Whatever the file holds by now, NULL ids included, narrowing by this index gives the scan's
      answer exactly when the planner cannot narrow or the index knows every row the scan returns. */
  lemma {:induction false} NarrowingIsExactWhen(plan: Plan, idx: Index, file: seq<Feature>, view: RawBox)
    requires Planned(plan, idx, view)
    ensures Answer(plan, file, view) == Scanned(file, view) <==>
            CannotNarrow(Some(idx), view) || AllKnown(idx, file, view)
  {
    if plan.IndexNarrowed? {
      BothIsScanWhen(plan.ranges, file, view);
      assert AllNamed(plan.ranges, file, view) <==> AllKnown(idx, file, view);
    }
  }

  /** What the statement makes of a row: a NULL bound is met by no view, a NULL id is in no range, and
      otherwise the row's own id and bbox are compared. */
  lemma {:induction false} RowsAsTheStatementSees(row: Row, view: RawBox, ranges: seq<Range>)
    ensures !row.boxValid ==> !Meets(FeatureOf(row), view)
    ensures !row.idValid ==> !IdInRanges(FeatureOf(row), ranges)
    ensures row.idValid ==> (IdInRanges(FeatureOf(row), ranges) <==> InRanges(row.id, ranges))
    ensures row.boxValid && row.bbox.xmax.NaN? && row.bbox.ymax.NaN? ==>
              (Meets(FeatureOf(row), view) <==> SqlLeq(row.bbox.xmin, view.xmax) && SqlLeq(row.bbox.ymin, view.ymax))
  {
  }

  lemma {:induction false} MeetsIsIntersects(row: Row, view: RawBox)
    requires row.boxValid && row.bbox.Usable() && view.Usable()
    ensures Meets(FeatureOf(row), view) <==> Intersects(row.bbox.ToBox(), view.ToBox())
  {
  }

  /** An index of the file's own rows keeps the answer exactly when the planner cannot narrow or no row
      the scan returns has a NULL id. */
  lemma {:induction false} AFreshIndexIsExactWhen(plan: Plan, idx: Index, rows: seq<Row>, view: RawBox)
    requires IsIndexOf(idx, rows) && Planned(plan, idx, view)
    ensures Answer(plan, FeaturesOf(rows), view) == Scanned(FeaturesOf(rows), view) <==>
            || CannotNarrow(Some(idx), view)
            || forall i :: 0 <= i < |rows| && Meets(FeatureOf(rows[i]), view) ==> rows[i].idValid
  {
    var file := FeaturesOf(rows);
    NarrowingIsExactWhen(plan, idx, file, view);
    if plan.IndexNarrowed? {
      forall i | 0 <= i < |rows| && Meets(file[i], view) && rows[i].idValid
        ensures file[i].id.Some? && Knows(idx, file[i].id.value, view.ToBox())
      {
        MeetsIsIntersects(rows[i], view);
        assert idx.ids[i] == file[i].id.value && idx.boxes[i] == rows[i].bbox.ToBox();
      }
    }
  }

  // ---------------------------------------------------------------- what reaches the consumer

  /** `column_u64` over what the statement returned: a NULL id refuses the stream. */
  datatype Delivery = NullIdRefused | Delivered(ids: seq<u64>)

  predicate AllIdentified(answer: seq<Feature>) { forall i :: 0 <= i < |answer| ==> answer[i].id.Some? }

  function Deliver(answer: seq<Feature>): Delivery {
    if AllIdentified(answer)
    then Delivered(seq(|answer|, i requires 0 <= i < |answer| => answer[i].id.value))
    else NullIdRefused
  }

  /** What is delivered are the answer's own ids, in its order, and only where each row has one. */
  lemma {:induction false} DeliveredAreTheAnswers(answer: seq<Feature>, ids: seq<u64>)
    ensures Deliver(answer) == Delivered(ids) <==>
            |ids| == |answer| && forall i :: 0 <= i < |answer| ==> answer[i].id == Some(ids[i])
    ensures Deliver(answer) == NullIdRefused <==> exists i :: 0 <= i < |answer| && answer[i].id.None?
  {
    if AllIdentified(answer) {
      assert forall i :: 0 <= i < |answer| ==> Deliver(answer).ids[i] == answer[i].id.value;
      if |ids| == |answer| && forall i :: 0 <= i < |answer| ==> answer[i].id == Some(ids[i]) {
        assert Deliver(answer).ids == ids;
      }
    }
  }

  lemma {:induction false} RangesSkipNulls(ranges: seq<Range>, file: seq<Feature>, view: RawBox)
    ensures AllIdentified(Both(ranges, file, view))
  {
    if file != [] {
      RangesSkipNulls(ranges, file[..|file| - 1], view);
    }
  }

  /** A narrowed stream is never refused for a NULL id, and what it delivers is what the scan delivers
      exactly when the answers agree. */
  lemma {:induction false} DeliveryIsExactWhen(plan: Plan, idx: Index, file: seq<Feature>, view: RawBox)
    requires Planned(plan, idx, view)
    ensures !CannotNarrow(Some(idx), view) ==> Deliver(Answer(plan, file, view)).Delivered?
    ensures Deliver(Answer(plan, file, view)) == Deliver(Scanned(file, view)) <==>
            CannotNarrow(Some(idx), view) || AllKnown(idx, file, view)
  {
    NarrowingIsExactWhen(plan, idx, file, view);
    if plan.IndexNarrowed? {
      RangesSkipNulls(plan.ranges, file, view);
      BothIsScanWhen(plan.ranges, file, view);
      var both, scan := Both(plan.ranges, file, view), Scanned(file, view);
      if Deliver(both) == Deliver(scan) {
        assert |Deliver(both).ids| == |both| && |Deliver(scan).ids| == |scan|;
      }
    }
  }

  // ---------------------------------------------------------------- where identity was verified

  function IdValues(rows: seq<Row>): (values: seq<Option<int>>)
    ensures |values| == |rows|
    ensures forall i :: 0 <= i < |rows| ==> values[i] == if rows[i].idValid then Some(rows[i].id) else None
  {
    seq(|rows|, i requires 0 <= i < |rows| => if rows[i].idValid then Some(rows[i].id) else None)
  }

  /** Where the open verified the identity column, an index of the file's own rows never changes the
      answer. */
  lemma {:induction false} VerifiedIdentityKeepsTheAnswer(
    schema: seq<Identity.Column>, declared: Option<Identity.Declaration>, rows: seq<Row>, plan: Plan, idx: Index,
    view: RawBox)
    requires forall i :: 0 <= i < |schema| ==> Identity.WellTyped(schema[i])
    requires var admission := Identity.AdmitIdentity(schema, declared);
             admission.Admitted? && admission.id.uniqueness.VerifiedAtOpenFullFile?
    requires var column := Identity.Find(schema, Identity.IdColumnOf(declared));
             column.Some? && column.value.values == IdValues(rows)
    requires IsIndexOf(idx, rows) && Planned(plan, idx, view)
    ensures Answer(plan, FeaturesOf(rows), view) == Scanned(FeaturesOf(rows), view)
  {
    Identity.VerifiedMeansIdentified(schema, declared);
    var values := IdValues(rows);
    forall i | 0 <= i < |rows|
      ensures rows[i].idValid
    {
      assert values[i].Some?;
    }
    AFreshIndexIsExactWhen(plan, idx, rows, view);
  }

  // ---------------------------------------------------------------- two files where it fails

  function PointAt(id: u64, x: real): Row { Row(id, RawBox(Num(x), Num(x), Num(x), Num(x)), true, true) }

  const BEFORE := [PointAt(1, 0.0), PointAt(2, 1.0)]
  const AFTER := [PointAt(1, 0.0), PointAt(3, 1.0)]
  const NULLED := [PointAt(1, 0.0), PointAt(0, 1.0).(idValid := false)]
  const WHOLE := RawBox(Num(0.0), Num(0.0), Num(1.0), Num(1.0))

  lemma {:induction false} ScannedPair(a: Feature, b: Feature, view: RawBox)
    ensures Scanned([a, b], view) == (if Meets(a, view) then [a] else []) + (if Meets(b, view) then [b] else [])
  {
    assert [a, b][..1] == [a] && [a][..0] == [];
    assert Scanned([], view) == [];
  }

  lemma {:induction false} BothPair(ranges: seq<Range>, a: Feature, b: Feature, view: RawBox)
    ensures Both(ranges, [a, b], view) ==
            (if IdInRanges(a, ranges) && Meets(a, view) then [a] else []) +
            (if IdInRanges(b, ranges) && Meets(b, view) then [b] else [])
  {
    assert [a, b][..1] == [a] && [a][..0] == [];
    assert Both(ranges, [], view) == [];
  }

  /** The claim that a wrong index costs time and never correctness does not hold of the code: an
      index of `BEFORE` narrows a query over `AFTER` and drops feature 3. */
  lemma {:induction false} AStaleIndexDropsAFeature(idx: Index, plan: Plan)
    requires IsIndexOf(idx, BEFORE) && Names(plan, idx, WHOLE) && plan.IndexNarrowed?
    ensures Scanned(FeaturesOf(AFTER), WHOLE) == FeaturesOf(AFTER)
    ensures Answer(plan, FeaturesOf(AFTER), WHOLE) == [FeatureOf(AFTER[0])]
  {
    var a, b := FeatureOf(AFTER[0]), FeatureOf(AFTER[1]);
    assert FeaturesOf(AFTER) == [a, b];
    assert idx.ids == [1, 2];
    assert Intersects(idx.boxes[0], WHOLE.ToBox());
    ScannedPair(a, b, WHOLE);
    BothPair(plan.ranges, a, b, WHOLE);
  }

  /** Nor does the claim that the indexed result set is the unindexed one: the index of `NULLED` itself
      drops the row whose id is NULL, and the stream the scan would refuse is delivered short. */
  lemma {:induction false} AFreshIndexDropsANullId(idx: Index, plan: Plan)
    requires IsIndexOf(idx, NULLED) && Names(plan, idx, WHOLE) && plan.IndexNarrowed?
    ensures Answer(plan, FeaturesOf(NULLED), WHOLE) == [FeatureOf(NULLED[0])]
    ensures Deliver(Answer(plan, FeaturesOf(NULLED), WHOLE)) == Delivered([1])
    ensures Deliver(Scanned(FeaturesOf(NULLED), WHOLE)) == NullIdRefused
  {
    var a, b := FeatureOf(NULLED[0]), FeatureOf(NULLED[1]);
    assert FeaturesOf(NULLED) == [a, b];
    assert idx.ids == [1, 0];
    assert Intersects(idx.boxes[0], WHOLE.ToBox());
    ScannedPair(a, b, WHOLE);
    BothPair(plan.ranges, a, b, WHOLE);
    assert Deliver([a]).ids == [1];
    assert Scanned(FeaturesOf(NULLED), WHOLE)[1] == b;
  }

  lemma {:induction false} PointsAreNotBroad(extent: Box, b: Box)
    requires b.xmin == b.xmax && b.ymin == b.ymax
    ensures !Broad(extent, b)
  {
    assert RectOf(extent, b).Columns() == 1 && RectOf(extent, b).Rows() == 1;
  }

  lemma {:induction false} NoMoreRunsThanIds(ids: seq<nat>)
    ensures |RunsOf(ids)| <= |ids|
  {
    if ids != [] {
      NoMoreRunsThanIds(ids[..|ids| - 1]);
    }
  }

  lemma {:induction false} TwoBoxExtent(a: Box, b: Box)
    ensures ExtentOf([a, b]) == Some(Hull(a, b))
  {
    assert ExtentOf([]) == None;
    assert [a][..0] == [];
    assert ExtentOf([a]) == Some(a);
    assert [a, b][..1] == [a];
  }

  lemma {:induction false} TwoHits(idx: Index, rows: seq<Row>)
    requires IsIndexOf(idx, rows) && |rows| == 2
    requires Intersects(idx.boxes[0], WHOLE.ToBox()) && Intersects(idx.boxes[1], WHOLE.ToBox())
    ensures |ScanIds(idx, WHOLE.ToBox())| == 2 && !TooFragmented(idx, WHOLE)
  {
    var parts := Parts(idx, WHOLE.ToBox());
    assert |parts[0]| == 1 && |parts[1]| == 1;
    assert UpTo(2)[..1] == UpTo(1) && UpTo(1)[..0] == UpTo(0);
    assert |Pick(parts, UpTo(1))| == 1;
    var ids := ScanIds(idx, WHOLE.ToBox());
    assert |Sort(ids)| == |multiset(Sort(ids))| == |ids|;
    NoMoreRunsThanIds(Sort(ids));
  }

  /** And the planner does narrow with either index: two points at the corners of the view give a grid
      that is not empty and two candidates, which never need more ranges than the limit. */
  lemma {:induction false} TwoPointsNarrow(idx: Index, rows: seq<Row>)
    requires IsIndexOf(idx, rows) && |rows| == 2
    requires rows[0].bbox == PointAt(0, 0.0).bbox && rows[1].bbox == PointAt(0, 1.0).bbox
    ensures !CannotNarrow(Some(idx), WHOLE)
  {
    var a, b := Box(0.0, 0.0, 0.0, 0.0), Box(1.0, 1.0, 1.0, 1.0);
    assert idx.boxes == [a, b];
    TwoBoxExtent(a, b);
    GridIsEmptyWhen(idx, rows);
    PointsAreNotBroad(idx.extent.value, idx.boxes[0]);
    TwoHits(idx, rows);
  }

  /** A whole run over a file with a NULL id: build, plan, answer. */
  method NullIdRun(key: IndexKey, validity: Option<Validity>) returns (scan: Delivery, narrowed: Delivery)
    ensures scan == NullIdRefused && narrowed == Delivered([1])
  {
    var built, _ := Build(key, validity, NULLED, None);
    var idx := built.index;
    TwoPointsNarrow(idx, NULLED);
    var plan := PlanQuery(Some(idx), WHOLE, NULLED, FeaturesOf(NULLED));
    AFreshIndexDropsANullId(idx, plan);
    scan := Deliver(Scanned(FeaturesOf(NULLED), WHOLE));
    narrowed := Deliver(Answer(plan, FeaturesOf(NULLED), WHOLE));
  }
}

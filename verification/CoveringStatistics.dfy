/** The footer-statistics level of the sanity check: folding row-group statistics into one box and
    convicting a format default by it. */
module CoveringStatistics {
  import opened Options
  import opened Floats
  import opened Boxes
  import opened FooterNames
  import opened CoveringPaths

  const CRS84_MAX_ABS_X: real := 180.0
  const CRS84_MAX_ABS_Y: real := 90.0

  /** One row of `parquet_metadata`: a column's `path_in_schema` and its extremes as parsed; `None` for
      a missing or unparsable text. */
  datatype StatsRow = StatsRow(name: string, min: Option<F64>, max: Option<F64>)

  /** `x.abs() <= limit`, false for NaN and the infinities. */
  predicate AbsWithin(x: F64, limit: real) { x.Num? && -limit <= x.v <= limit }

  /** `inside_crs84_domain`. */
  predicate InsideCrs84(b: RawBox) {
    && AbsWithin(b.xmin, CRS84_MAX_ABS_X) && AbsWithin(b.xmax, CRS84_MAX_ABS_X)
    && AbsWithin(b.ymin, CRS84_MAX_ABS_Y) && AbsWithin(b.ymax, CRS84_MAX_ABS_Y)
  }

  /** The four columns of a covering. */
  datatype Side = XMin | YMin | XMax | YMax

  function Bound(b: RawBox, side: Side): F64 {
    match side
    case XMin => b.xmin
    case YMin => b.ymin
    case XMax => b.xmax
    case YMax => b.ymax
  }

  function PathOf(c: Covering, side: Side): FieldPath {
    match side
    case XMin => c.xmin
    case YMin => c.ymin
    case XMax => c.xmax
    case YMax => c.ymax
  }

  predicate TakesMax(side: Side) { side.XMax? || side.YMax? }

  function Limit(side: Side): real { if side.XMin? || side.XMax? then CRS84_MAX_ABS_X else CRS84_MAX_ABS_Y }

  function Stat(r: StatsRow, takeMax: bool): Option<F64> { if takeMax then r.max else r.min }

  /** The statistics of all rows whose normalised name is the key. */
  ghost function Stats(rows: seq<StatsRow>, key: string, takeMax: bool): set<Option<F64>> {
    set i | 0 <= i < |rows| && Normalize(rows[i].name) == key :: Stat(rows[i], takeMax)
  }

  /** `a` is on the inner side of the bound `b`; neither is NaN. */
  predicate Within(takeMax: bool, a: F64, b: F64) { if takeMax then Leq(a, b) else Leq(b, a) }

  /** The largest or smallest of the statistics, a NaN only if there is nothing else, or nothing as soon
      as one of them is missing. */
  predicate IsExtreme(stats: set<Option<F64>>, takeMax: bool, r: Option<F64>) {
    if None in stats || stats == {} then r.None?
    else
      && r.Some? && r in stats
      && forall s :: s in stats && s.Some? && !s.value.NaN? ==> Within(takeMax, s.value, r.value)
  }

  lemma {:induction false} StatsStep(rows: seq<StatsRow>, key: string, takeMax: bool, i: nat)
    requires i < |rows|
    ensures Stats(rows[..i + 1], key, takeMax) ==
            Stats(rows[..i], key, takeMax) + (if Normalize(rows[i].name) == key then {Stat(rows[i], takeMax)} else {})
  {
    var before, after := rows[..i], rows[..i + 1];
    assert after == before + [rows[i]];
    assert forall j :: 0 <= j < i ==> before[j] == after[j];
    forall s | s in Stats(before, key, takeMax)
      ensures s in Stats(after, key, takeMax)
    {
      var k :| 0 <= k < |before| && Normalize(before[k].name) == key && Stat(before[k], takeMax) == s;
      assert after[k] == before[k];
    }
    assert Normalize(after[i].name) == key ==> Stat(after[i], takeMax) in Stats(after, key, takeMax);
    forall s | s in Stats(after, key, takeMax) && s !in Stats(before, key, takeMax)
      ensures Normalize(rows[i].name) == key && s == Stat(rows[i], takeMax)
    {
      var k :| 0 <= k < |after| && Normalize(after[k].name) == key && Stat(after[k], takeMax) == s;
    }
  }

  lemma {:induction false} StatsHold(rows: seq<StatsRow>, key: string, takeMax: bool, i: nat)
    requires i < |rows| && Normalize(rows[i].name) == key
    ensures Stat(rows[i], takeMax) in Stats(rows, key, takeMax)
  {
  }

  /** `match (out, take_max)`: the value so far and one more. */
  function Folded(r: Option<F64>, v: F64, takeMax: bool): F64 {
    match r
    case None => v
    case Some(prev) => if takeMax then Max(prev, v) else Min(prev, v)
  }

  lemma {:induction false} FoldStep(stats: set<Option<F64>>, takeMax: bool, r: Option<F64>, v: F64)
    requires None !in stats && IsExtreme(stats, takeMax, r)
    ensures IsExtreme(stats + {Some(v)}, takeMax, Some(Folded(r, v, takeMax)))
  {
  }

  /** `extreme`: the loop over the footer rows for one column. */
  method Extreme(rows: seq<StatsRow>, key: string, takeMax: bool) returns (r: Option<F64>)
    ensures IsExtreme(Stats(rows, key, takeMax), takeMax, r)
  {
    r := None;
    ghost var stats: set<Option<F64>> := {};
    for i := 0 to |rows|
      invariant stats == Stats(rows[..i], key, takeMax)
      invariant None !in stats && IsExtreme(stats, takeMax, r)
    {
      StatsStep(rows, key, takeMax, i);
      if Normalize(rows[i].name) == key {
        var v := Stat(rows[i], takeMax);
        if v.None? {
          StatsHold(rows, key, takeMax, i);
          return None;
        }
        FoldStep(stats, takeMax, r, v.value);
        stats := stats + {v};
        r := Some(Folded(r, v.value, takeMax));
      }
    }
    assert rows[..|rows|] == rows;
  }

  /** The box the four columns' statistics fold into. */
  ghost predicate IsFoldOf(b: RawBox, rows: seq<StatsRow>, c: Covering) {
    forall side: Side ::
      IsExtreme(Stats(rows, Key(PathOf(c, side)), TakesMax(side)), TakesMax(side), Some(Bound(b, side)))
  }

  /** No row is taken for the declared path of a side, or one of them carries no statistic. */
  ghost predicate Lacks(rows: seq<StatsRow>, c: Covering, side: Side) {
    var stats := Stats(rows, Key(PathOf(c, side)), TakesMax(side));
    None in stats || stats == {}
  }

  /** `covering_statistics`: the fold over the rows taken for each declared path; a box exactly when
      for every path some row is taken and none of those lacks a statistic. */
  method FoldStatistics(rows: seq<StatsRow>, c: Covering) returns (b: Option<RawBox>)
    ensures b.Some? ==> IsFoldOf(b.value, rows, c)
    ensures b.None? <==> exists side: Side :: Lacks(rows, c, side)
  {
    var xmin := Extreme(rows, Key(c.xmin), false);
    var ymin := Extreme(rows, Key(c.ymin), false);
    var xmax := Extreme(rows, Key(c.xmax), true);
    var ymax := Extreme(rows, Key(c.ymax), true);
    assert Lacks(rows, c, XMin) <==> xmin.None?;
    assert Lacks(rows, c, YMin) <==> ymin.None?;
    assert Lacks(rows, c, XMax) <==> xmax.None?;
    assert Lacks(rows, c, YMax) <==> ymax.None?;
    if xmin.Some? && ymin.Some? && xmax.Some? && ymax.Some? {
      return Some(RawBox(xmin.value, ymin.value, xmax.value, ymax.value));
    }
    return None;
  }

  datatype SanityOutcome = Recorded | FormatDefaultContradicted

  /** `convict_or_record`. */
  function ConvictOrRecord(b: RawBox, convicts: bool): SanityOutcome {
    if convicts && !InsideCrs84(b) then FormatDefaultContradicted else Recorded
  }

  // ---------------------------------------------------------------- a file's leaf columns

  /** One column chunk of the footer: its row group, its leaf column and what statistics it carries. */
  datatype Chunk = Chunk(group: nat, path: FieldPath, min: Option<F64>, max: Option<F64>)

  function RowOf(k: Chunk): StatsRow { StatsRow(Rendered(k.path), k.min, k.max) }

  /** What `parquet_metadata` reports of a footer. */
  function FooterRows(chunks: seq<Chunk>): (rows: seq<StatsRow>)
    ensures |rows| == |chunks| && forall i :: 0 <= i < |chunks| ==> rows[i] == RowOf(chunks[i])
  {
    seq(|chunks|, i requires 0 <= i < |chunks| => RowOf(chunks[i]))
  }

  function StatOf(k: Chunk, side: Side): Option<F64> { if TakesMax(side) then k.max else k.min }

  /** A value past the domain's end on the side the fold looks at. */
  predicate Beyond(side: Side, v: F64) {
    !v.NaN? && (if TakesMax(side) then !Leq(v, Num(Limit(side))) else !Leq(Num(-Limit(side)), v))
  }

  /** A value not short of the domain's other end. */
  predicate Reaches(side: Side, v: F64) {
    if TakesMax(side) then Leq(Num(-Limit(side)), v) else Leq(v, Num(Limit(side)))
  }

  /** Chunk `k` is taken for the declared column of a side. */
  predicate Taken(chunks: seq<Chunk>, declared: Covering, side: Side, k: int) {
    0 <= k < |chunks| && TakenFor(chunks[k].path, PathOf(declared, side))
  }

  predicate BeyondAt(chunks: seq<Chunk>, side: Side, k: int) {
    0 <= k < |chunks| && StatOf(chunks[k], side).Some? && Beyond(side, StatOf(chunks[k], side).value)
  }

  predicate ReachesAt(chunks: seq<Chunk>, side: Side, k: int) {
    0 <= k < |chunks| && StatOf(chunks[k], side).Some? && Reaches(side, StatOf(chunks[k], side).value)
  }

  ghost predicate IsSideOf(m: F64, chunks: seq<Chunk>, declared: Covering, side: Side) {
    IsExtreme(Stats(FooterRows(chunks), Key(PathOf(declared, side)), TakesMax(side)), TakesMax(side), Some(m))
  }

  lemma {:induction false} ExtremeInsideWhen(stats: set<Option<F64>>, side: Side, m: F64)
    requires IsExtreme(stats, TakesMax(side), Some(m))
    ensures AbsWithin(m, Limit(side)) <==>
            && (forall s :: s in stats && s.Some? ==> !Beyond(side, s.value))
            && (exists s :: s in stats && s.Some? && Reaches(side, s.value))
  {
    assert Some(m) in stats;
  }

  lemma {:induction false} TakenStats(chunks: seq<Chunk>, declared: Covering, side: Side, s: Option<F64>)
    ensures s in Stats(FooterRows(chunks), Key(PathOf(declared, side)), TakesMax(side)) <==>
            exists k :: Taken(chunks, declared, side, k) && StatOf(chunks[k], side) == s
  {
    var rows := FooterRows(chunks);
    forall k | Taken(chunks, declared, side, k)
      ensures Stat(rows[k], TakesMax(side)) == StatOf(chunks[k], side)
    {
    }
    forall i | 0 <= i < |rows| && Normalize(rows[i].name) == Key(PathOf(declared, side))
      ensures Taken(chunks, declared, side, i) && StatOf(chunks[i], side) == Stat(rows[i], TakesMax(side))
    {
    }
  }

  /** A folded bound lies in the domain exactly when no chunk taken for it goes beyond and one reaches. */
  lemma {:induction false} SideInsideWhen(m: F64, chunks: seq<Chunk>, declared: Covering, side: Side)
    requires IsSideOf(m, chunks, declared, side)
    ensures AbsWithin(m, Limit(side)) <==>
            && (forall k :: Taken(chunks, declared, side, k) ==> !BeyondAt(chunks, side, k))
            && (exists k :: Taken(chunks, declared, side, k) && ReachesAt(chunks, side, k))
  {
    var stats := Stats(FooterRows(chunks), Key(PathOf(declared, side)), TakesMax(side));
    ExtremeInsideWhen(stats, side, m);
    forall s
      ensures s in stats <==> exists k :: Taken(chunks, declared, side, k) && StatOf(chunks[k], side) == s
    {
      TakenStats(chunks, declared, side, s);
    }
    forall k | Taken(chunks, declared, side, k)
      ensures StatOf(chunks[k], side) in stats
    {
    }
  }

  // ---------------------------------------------------------------- what the statistics stand for

  /** A row group's statistic is attained: it bounds the group's numbers and some row holds it. */
  ghost predicate Attains(group: seq<RawBox>, side: Side, s: F64) {
    && (forall i :: 0 <= i < |group| && !Bound(group[i], side).NaN? ==>
          Within(TakesMax(side), Bound(group[i], side), s))
    && (exists i :: 0 <= i < |group| && Bound(group[i], side) == s)
  }

  /** Chunks `at` are those of column `own`, one for each row group, and carry attained statistics. */
  ghost predicate DescribesColumn(
    chunks: seq<Chunk>, own: FieldPath, side: Side, groups: seq<seq<RawBox>>, at: seq<nat>)
  {
    && |at| == |groups|
    && (forall g :: 0 <= g < |groups| ==>
          at[g] < |chunks| && chunks[at[g]].path == own && StatOf(chunks[at[g]], side).Some?
          && Attains(groups[g], side, StatOf(chunks[at[g]], side).value))
    && (forall k :: 0 <= k < |chunks| && chunks[k].path == own ==> chunks[k].group < |at| && at[chunks[k].group] == k)
  }

  /** Which chunks the covering's own columns have. */
  datatype Places = Places(xmin: seq<nat>, ymin: seq<nat>, xmax: seq<nat>, ymax: seq<nat>) {
    function Of(side: Side): seq<nat> {
      match side
      case XMin => xmin
      case YMin => ymin
      case XMax => xmax
      case YMax => ymax
    }
  }

  ghost predicate Describes(chunks: seq<Chunk>, own: Covering, groups: seq<seq<RawBox>>, at: Places) {
    && (forall k :: 0 <= k < |chunks| ==> chunks[k].group < |groups|)
    && (forall side: Side :: DescribesColumn(chunks, PathOf(own, side), side, groups, at.Of(side)))
  }

  predicate RowAt(groups: seq<seq<RawBox>>, g: int, i: int) { 0 <= g < |groups| && 0 <= i < |groups[g]| }

  ghost predicate RowBeyond(groups: seq<seq<RawBox>>, side: Side) {
    exists g, i :: RowAt(groups, g, i) && Beyond(side, Bound(groups[g][i], side))
  }

  ghost predicate RowReaches(groups: seq<seq<RawBox>>, side: Side) {
    exists g, i :: RowAt(groups, g, i) && Reaches(side, Bound(groups[g][i], side))
  }

  ghost predicate HasRows(groups: seq<seq<RawBox>>) { exists g, i :: RowAt(groups, g, i) }

  lemma {:induction false} RowSaysStatistic(
    chunks: seq<Chunk>, own: FieldPath, side: Side, groups: seq<seq<RawBox>>, at: seq<nat>, g: nat, i: nat)
    requires DescribesColumn(chunks, own, side, groups, at) && RowAt(groups, g, i)
    ensures Beyond(side, Bound(groups[g][i], side)) ==> BeyondAt(chunks, side, at[g])
    ensures Reaches(side, Bound(groups[g][i], side)) ==> ReachesAt(chunks, side, at[g])
  {
    assert Attains(groups[g], side, StatOf(chunks[at[g]], side).value);
  }

  lemma {:induction false} StatisticSaysRow(
    chunks: seq<Chunk>, own: FieldPath, side: Side, groups: seq<seq<RawBox>>, at: seq<nat>, g: nat) returns (i: nat)
    requires DescribesColumn(chunks, own, side, groups, at) && g < |groups|
    ensures RowAt(groups, g, i) && StatOf(chunks[at[g]], side) == Some(Bound(groups[g][i], side))
  {
    var s := StatOf(chunks[at[g]], side).value;
    assert Attains(groups[g], side, s);
    i :| 0 <= i < |groups[g]| && Bound(groups[g][i], side) == s;
  }

  /** The statistics of a column say of its rows what the two tests ask. */
  lemma {:induction false} OwnColumnSays(
    chunks: seq<Chunk>, own: FieldPath, side: Side, groups: seq<seq<RawBox>>, at: seq<nat>)
    requires DescribesColumn(chunks, own, side, groups, at)
    ensures RowBeyond(groups, side) <==> exists g :: 0 <= g < |at| && BeyondAt(chunks, side, at[g])
    ensures RowReaches(groups, side) <==> exists g :: 0 <= g < |at| && ReachesAt(chunks, side, at[g])
    ensures HasRows(groups) <==> |groups| > 0
  {
    if RowBeyond(groups, side) {
      var g, i :| RowAt(groups, g, i) && Beyond(side, Bound(groups[g][i], side));
      RowSaysStatistic(chunks, own, side, groups, at, g, i);
    }
    if RowReaches(groups, side) {
      var g, i :| RowAt(groups, g, i) && Reaches(side, Bound(groups[g][i], side));
      RowSaysStatistic(chunks, own, side, groups, at, g, i);
    }
    if g :| 0 <= g < |at| && BeyondAt(chunks, side, at[g]) {
      var i := StatisticSaysRow(chunks, own, side, groups, at, g);
    }
    if g :| 0 <= g < |at| && ReachesAt(chunks, side, at[g]) {
      var i := StatisticSaysRow(chunks, own, side, groups, at, g);
    }
    if |groups| > 0 {
      var i := StatisticSaysRow(chunks, own, side, groups, at, 0);
    }
  }

  /** The domain in numbers. */
  lemma {:induction false} InsideMeans(b: RawBox)
    ensures InsideCrs84(b) <==>
            && b.Finite() && -180.0 <= b.xmin.v <= 180.0 && -180.0 <= b.xmax.v <= 180.0
            && -90.0 <= b.ymin.v <= 90.0 && -90.0 <= b.ymax.v <= 90.0
  {
  }

  // ---------------------------------------------------------------- conviction

  /** A chunk taken for a side although it is another column's. */
  predicate Foreign(chunks: seq<Chunk>, declared: Covering, own: Covering, side: Side, k: int) {
    Taken(chunks, declared, side, k) && chunks[k].path != PathOf(own, side)
  }

  ghost predicate ForeignBeyond(chunks: seq<Chunk>, declared: Covering, own: Covering, side: Side) {
    exists k :: Foreign(chunks, declared, own, side, k) && BeyondAt(chunks, side, k)
  }

  ghost predicate ForeignReaches(chunks: seq<Chunk>, declared: Covering, own: Covering, side: Side) {
    exists k :: Foreign(chunks, declared, own, side, k) && ReachesAt(chunks, side, k)
  }

  /** What convicts on one side: a row, if the covering's own column is found, or a foreign column beyond
      the domain; or none of them that reaches it. */
  ghost predicate SideConvicts(
    chunks: seq<Chunk>, declared: Covering, own: Covering, groups: seq<seq<RawBox>>, side: Side)
  {
    var found := TakenFor(PathOf(own, side), PathOf(declared, side));
    || (found && RowBeyond(groups, side)) || ForeignBeyond(chunks, declared, own, side)
    || (!(found && RowReaches(groups, side)) && !ForeignReaches(chunks, declared, own, side))
  }

  ghost predicate Convicts(chunks: seq<Chunk>, declared: Covering, own: Covering, groups: seq<seq<RawBox>>) {
    exists side: Side :: SideConvicts(chunks, declared, own, groups, side)
  }

  /** The covering's own columns are taken for their declared paths. */
  ghost predicate OwnFound(declared: Covering, own: Covering) {
    forall side: Side :: TakenFor(PathOf(own, side), PathOf(declared, side))
  }

  lemma {:induction false} InsideBySides(b: RawBox)
    ensures InsideCrs84(b) <==> forall side: Side :: AbsWithin(Bound(b, side), Limit(side))
  {
    assert InsideCrs84(b) <==>
           && AbsWithin(Bound(b, XMin), Limit(XMin)) && AbsWithin(Bound(b, YMin), Limit(YMin))
           && AbsWithin(Bound(b, XMax), Limit(XMax)) && AbsWithin(Bound(b, YMax), Limit(YMax));
  }

  /** What is taken is the own column's chunks, if it is found, and the foreign ones. */
  lemma {:induction false} TakenAre(
    chunks: seq<Chunk>, declared: Covering, own: Covering, groups: seq<seq<RawBox>>, side: Side, at: seq<nat>, k: int)
    requires DescribesColumn(chunks, PathOf(own, side), side, groups, at)
    ensures Taken(chunks, declared, side, k) <==>
            || Foreign(chunks, declared, own, side, k)
            || (TakenFor(PathOf(own, side), PathOf(declared, side)) && exists g :: 0 <= g < |at| && at[g] == k)
  {
    if 0 <= k < |chunks| && chunks[k].path == PathOf(own, side) {
      assert at[chunks[k].group] == k;
    }
  }

  lemma {:induction false} TakenBeyond(
    chunks: seq<Chunk>, declared: Covering, own: Covering, groups: seq<seq<RawBox>>, side: Side, at: seq<nat>)
    requires DescribesColumn(chunks, PathOf(own, side), side, groups, at)
    ensures (exists k :: Taken(chunks, declared, side, k) && BeyondAt(chunks, side, k)) <==>
            || ForeignBeyond(chunks, declared, own, side)
            || (TakenFor(PathOf(own, side), PathOf(declared, side)) &&
                exists g :: 0 <= g < |at| && BeyondAt(chunks, side, at[g]))
  {
    if k :| Taken(chunks, declared, side, k) && BeyondAt(chunks, side, k) {
      TakenAre(chunks, declared, own, groups, side, at, k);
    }
    if TakenFor(PathOf(own, side), PathOf(declared, side)) {
      if g :| 0 <= g < |at| && BeyondAt(chunks, side, at[g]) {
        TakenAre(chunks, declared, own, groups, side, at, at[g]);
      }
    }
  }

  lemma {:induction false} TakenReaches(
    chunks: seq<Chunk>, declared: Covering, own: Covering, groups: seq<seq<RawBox>>, side: Side, at: seq<nat>)
    requires DescribesColumn(chunks, PathOf(own, side), side, groups, at)
    ensures (exists k :: Taken(chunks, declared, side, k) && ReachesAt(chunks, side, k)) <==>
            || ForeignReaches(chunks, declared, own, side)
            || (TakenFor(PathOf(own, side), PathOf(declared, side)) &&
                exists g :: 0 <= g < |at| && ReachesAt(chunks, side, at[g]))
  {
    if k :| Taken(chunks, declared, side, k) && ReachesAt(chunks, side, k) {
      TakenAre(chunks, declared, own, groups, side, at, k);
    }
    if TakenFor(PathOf(own, side), PathOf(declared, side)) {
      if g :| 0 <= g < |at| && ReachesAt(chunks, side, at[g]) {
        TakenAre(chunks, declared, own, groups, side, at, at[g]);
      }
    }
  }

  lemma {:induction false} SideConvictsWhen(
    m: F64, chunks: seq<Chunk>, declared: Covering, own: Covering, groups: seq<seq<RawBox>>, side: Side, at: seq<nat>)
    requires IsSideOf(m, chunks, declared, side)
    requires DescribesColumn(chunks, PathOf(own, side), side, groups, at)
    ensures !AbsWithin(m, Limit(side)) <==> SideConvicts(chunks, declared, own, groups, side)
  {
    SideInsideWhen(m, chunks, declared, side);
    OwnColumnSays(chunks, PathOf(own, side), side, groups, at);
    TakenBeyond(chunks, declared, own, groups, side, at);
    TakenReaches(chunks, declared, own, groups, side, at);
  }

  lemma {:induction false} OwnStatisticIsFolded(
    m: F64, chunks: seq<Chunk>, declared: Covering, own: Covering, groups: seq<seq<RawBox>>, side: Side, at: seq<nat>,
    g: nat)
    requires IsSideOf(m, chunks, declared, side) && g < |groups|
    requires DescribesColumn(chunks, PathOf(own, side), side, groups, at)
    requires TakenFor(PathOf(own, side), PathOf(declared, side))
    ensures var s := StatOf(chunks[at[g]], side).value; !s.NaN? ==> Within(TakesMax(side), s, m)
  {
    TakenAre(chunks, declared, own, groups, side, at, at[g]);
    TakenStats(chunks, declared, side, StatOf(chunks[at[g]], side));
  }

  lemma {:induction false} WithinChains(side: Side, a: F64, b: F64, c: F64)
    requires Within(TakesMax(side), a, b) && (!b.NaN? ==> Within(TakesMax(side), b, c))
    ensures Within(TakesMax(side), a, c)
  {
  }

  /** Where a side's own column is found, the folded bound bounds all rows; and where no foreign column is
      taken, some row holds it. */
  lemma {:induction false} FoldBoundsTheRows(
    m: F64, chunks: seq<Chunk>, declared: Covering, own: Covering, groups: seq<seq<RawBox>>, side: Side, at: seq<nat>)
    requires IsSideOf(m, chunks, declared, side)
    requires DescribesColumn(chunks, PathOf(own, side), side, groups, at)
    requires TakenFor(PathOf(own, side), PathOf(declared, side))
    ensures forall g, i :: RowAt(groups, g, i) && !Bound(groups[g][i], side).NaN? ==>
              Within(TakesMax(side), Bound(groups[g][i], side), m)
    ensures (forall k :: !Foreign(chunks, declared, own, side, k)) ==>
              exists g, i :: RowAt(groups, g, i) && Bound(groups[g][i], side) == m
  {
    forall g, i | RowAt(groups, g, i) && !Bound(groups[g][i], side).NaN?
      ensures Within(TakesMax(side), Bound(groups[g][i], side), m)
    {
      var s := StatOf(chunks[at[g]], side).value;
      assert Attains(groups[g], side, s);
      OwnStatisticIsFolded(m, chunks, declared, own, groups, side, at, g);
      WithinChains(side, Bound(groups[g][i], side), s, m);
    }
    if forall k :: !Foreign(chunks, declared, own, side, k) {
      FoldIsHeld(m, chunks, declared, own, groups, side, at);
    }
  }

  lemma {:induction false} FoldIsHeld(
    m: F64, chunks: seq<Chunk>, declared: Covering, own: Covering, groups: seq<seq<RawBox>>, side: Side, at: seq<nat>)
    requires IsSideOf(m, chunks, declared, side)
    requires DescribesColumn(chunks, PathOf(own, side), side, groups, at)
    requires forall k :: !Foreign(chunks, declared, own, side, k)
    ensures exists g, i :: RowAt(groups, g, i) && Bound(groups[g][i], side) == m
  {
    TakenStats(chunks, declared, side, Some(m));
    var k :| Taken(chunks, declared, side, k) && StatOf(chunks[k], side) == Some(m);
    TakenAre(chunks, declared, own, groups, side, at, k);
    var h :| 0 <= h < |at| && at[h] == k;
    var i := StatisticSaysRow(chunks, PathOf(own, side), side, groups, at, h);
  }

  /** Exactly when the footer's statistics convict a format default, over all leaf columns of a file and
      rows of any orientation: when on some side a row whose column is found, or a foreign column taken
      for that side, goes beyond the domain, or none of them reaches it. */
  lemma {:induction false} ConvictedExactlyWhen(
    chunks: seq<Chunk>, declared: Covering, own: Covering, groups: seq<seq<RawBox>>, at: Places, b: RawBox)
    requires IsFoldOf(b, FooterRows(chunks), declared)
    requires Describes(chunks, own, groups, at)
    ensures ConvictOrRecord(b, true).FormatDefaultContradicted? <==> Convicts(chunks, declared, own, groups)
    ensures ConvictOrRecord(b, false).Recorded?
  {
    forall side: Side
      ensures !AbsWithin(Bound(b, side), Limit(side)) <==> SideConvicts(chunks, declared, own, groups, side)
    {
      assert IsSideOf(Bound(b, side), chunks, declared, side);
      assert DescribesColumn(chunks, PathOf(own, side), side, groups, at.Of(side));
      SideConvictsWhen(Bound(b, side), chunks, declared, own, groups, side, at.Of(side));
    }
    InsideBySides(b);
  }

  ghost predicate RowsInside(groups: seq<seq<RawBox>>) {
    forall g, i :: RowAt(groups, g, i) ==> InsideCrs84(groups[g][i])
  }

  /** Neither axis is inverted, and no bound is NaN. */
  predicate InOrder(b: RawBox) { Leq(b.xmin, b.xmax) && Leq(b.ymin, b.ymax) }

  ghost predicate RowsOriented(groups: seq<seq<RawBox>>) {
    forall g, i :: RowAt(groups, g, i) ==> InOrder(groups[g][i])
  }

  /** No foreign column is taken for any side. */
  ghost predicate NoForeign(chunks: seq<Chunk>, declared: Covering, own: Covering) {
    forall side: Side, k: int :: !Foreign(chunks, declared, own, side, k)
  }

  lemma {:induction false} InsideRowsPass(groups: seq<seq<RawBox>>, side: Side)
    requires RowsInside(groups)
    ensures !RowBeyond(groups, side) && (HasRows(groups) ==> RowReaches(groups, side))
  {
    if HasRows(groups) {
      var g, i :| RowAt(groups, g, i);
      assert InsideCrs84(groups[g][i]) && Reaches(side, Bound(groups[g][i], side));
    }
  }

  lemma {:induction false} OrientedRowsOnce(groups: seq<seq<RawBox>>)
    requires RowsOriented(groups) && !RowsInside(groups)
    ensures exists side: Side :: RowBeyond(groups, side)
  {
    var g, i :| RowAt(groups, g, i) && !InsideCrs84(groups[g][i]);
    var r := groups[g][i];
    assert InOrder(r);
    var side := if Beyond(XMin, r.xmin) then XMin else if Beyond(YMin, r.ymin) then YMin
                else if Beyond(XMax, r.xmax) then XMax else YMax;
    assert Beyond(side, Bound(groups[g][i], side));
    assert RowBeyond(groups, side);
  }

  /** What the two tests mean of a file that has rows. */
  lemma {:induction false} ConvictsMeans(
    chunks: seq<Chunk>, declared: Covering, own: Covering, groups: seq<seq<RawBox>>)
    requires HasRows(groups) && OwnFound(declared, own)
    ensures NoForeign(chunks, declared, own) && Convicts(chunks, declared, own, groups) ==> !RowsInside(groups)
    ensures RowsOriented(groups) ==>
              (Convicts(chunks, declared, own, groups) <==>
               !RowsInside(groups) || AnyForeignBeyond(chunks, declared, own))
    ensures NoForeign(chunks, declared, own) ==> !AnyForeignBeyond(chunks, declared, own)
  {
    if RowsInside(groups) {
      forall side: Side
        ensures !RowBeyond(groups, side) && RowReaches(groups, side)
        ensures SideConvicts(chunks, declared, own, groups, side) <==> ForeignBeyond(chunks, declared, own, side)
      {
        InsideRowsPass(groups, side);
      }
    } else if RowsOriented(groups) {
      OrientedRowsOnce(groups);
      var side :| RowBeyond(groups, side);
      assert SideConvicts(chunks, declared, own, groups, side);
    }
  }

  lemma {:induction false} FoldedFileHasRows(
    chunks: seq<Chunk>, declared: Covering, own: Covering, groups: seq<seq<RawBox>>, at: Places, b: RawBox)
    requires IsFoldOf(b, FooterRows(chunks), declared) && Describes(chunks, own, groups, at)
    ensures HasRows(groups)
  {
    assert IsSideOf(Bound(b, XMin), chunks, declared, XMin);
    TakenStats(chunks, declared, XMin, Some(b.xmin));
    OwnColumnSays(chunks, PathOf(own, XMin), XMin, groups, at.Of(XMin));
  }

  /** What a conviction means. Where the covering's own columns are the only ones taken, it always means
      that some row leaves the domain of OGC:CRS84, whatever the rows' orientation; over rows that are
      not inverted it means exactly that. Where foreign columns are taken too, over such rows it means
      exactly that a row or one of them leaves. */
  lemma {:induction false} ConvictedExactlyWhenARowLeaves(
    chunks: seq<Chunk>, declared: Covering, own: Covering, groups: seq<seq<RawBox>>, at: Places, b: RawBox)
    requires IsFoldOf(b, FooterRows(chunks), declared)
    requires Describes(chunks, own, groups, at) && OwnFound(declared, own)
    ensures var convicted := ConvictOrRecord(b, true).FormatDefaultContradicted?;
            && (NoForeign(chunks, declared, own) && convicted ==> !RowsInside(groups))
            && (RowsOriented(groups) && NoForeign(chunks, declared, own) ==> (convicted <==> !RowsInside(groups)))
            && (RowsOriented(groups) ==>
                  (convicted <==> !RowsInside(groups) || AnyForeignBeyond(chunks, declared, own)))
  {
    ConvictedExactlyWhen(chunks, declared, own, groups, at, b);
    FoldedFileHasRows(chunks, declared, own, groups, at, b);
    ConvictsMeans(chunks, declared, own, groups);
  }

  ghost predicate AnyForeignBeyond(chunks: seq<Chunk>, declared: Covering, own: Covering) {
    exists side: Side :: ForeignBeyond(chunks, declared, own, side)
  }

  /** Leaf columns and declared paths that spell no dot, comma or blank in a segment. */
  ghost predicate Unmistakable(chunks: seq<Chunk>, declared: Covering) {
    && (forall k :: 0 <= k < |chunks| ==>
          chunks[k].path != [] && AllPlain(chunks[k].path) && AllDotless(chunks[k].path))
    && (forall side: Side :: PathOf(declared, side) != [] && AllDotless(PathOf(declared, side)))
  }

  /** There, no foreign column is taken for a side, and the covering's own columns are the ones the
      declaration spells letter for letter. */
  lemma {:induction false} NoForeignWhen(chunks: seq<Chunk>, declared: Covering)
    requires Unmistakable(chunks, declared)
    ensures NoForeign(chunks, declared, declared)
  {
    forall side: Side, k: int | Taken(chunks, declared, side, k)
      ensures chunks[k].path == PathOf(declared, side)
    {
      NoOtherIsTakenWhen(chunks[k].path, PathOf(declared, side));
    }
  }

  const ORDINARY := RawBox(Num(0.0), Num(0.0), Num(1.0), Num(1.0))
  const INVERTED := ORDINARY.(xmin := Num(500.0))

  /** An inverted row, as a box across the antimeridian is written, can leave the domain unnoticed beside
      an ordinary one. */
  lemma {:induction false} AnInvertedRowIsMissed()
    ensures !RowsInside([[INVERTED, ORDINARY]])
    ensures forall side: Side :: !RowBeyond([[INVERTED, ORDINARY]], side) && RowReaches([[INVERTED, ORDINARY]], side)
  {
    var groups := [[INVERTED, ORDINARY]];
    assert RowAt(groups, 0, 0) && RowAt(groups, 0, 1);
    assert !InsideCrs84(groups[0][0]);
    forall side: Side
      ensures RowReaches(groups, side)
    {
      assert Reaches(side, Bound(groups[0][1], side));
    }
  }

  lemma {:induction false} NothingLacks(chunks: seq<Chunk>, declared: Covering, side: Side, k: nat)
    requires Taken(chunks, declared, side, k)
    requires forall i :: Taken(chunks, declared, side, i) ==> StatOf(chunks[i], side).Some?
    ensures !Lacks(FooterRows(chunks), declared, side)
  {
    TakenStats(chunks, declared, side, StatOf(chunks[k], side));
    TakenStats(chunks, declared, side, None);
  }

  lemma {:induction false} NoneTakenLacks(chunks: seq<Chunk>, declared: Covering, side: Side)
    requires forall k :: !Taken(chunks, declared, side, k)
    ensures Lacks(FooterRows(chunks), declared, side)
  {
    forall s
      ensures s !in Stats(FooterRows(chunks), Key(PathOf(declared, side)), TakesMax(side))
    {
      TakenStats(chunks, declared, side, s);
    }
  }

  ghost predicate AllNaN(rows: seq<StatsRow>, c: Covering, side: Side) {
    forall s :: s in Stats(rows, Key(PathOf(c, side)), TakesMax(side)) ==> s.Some? && s.value.NaN?
  }

  /** A NaN among the statistics is skipped, but a column that has nothing else folds to NaN, and that
      convicts: the box is then outside the domain whatever its other bounds are. */
  lemma {:induction false} OnlyNaNsConvict(rows: seq<StatsRow>, c: Covering, b: RawBox, side: Side)
    requires IsFoldOf(b, rows, c)
    ensures Bound(b, side).NaN? <==> AllNaN(rows, c, side)
    ensures AllNaN(rows, c, side) ==> ConvictOrRecord(b, true).FormatDefaultContradicted?
  {
    assert Some(Bound(b, side)) in Stats(rows, Key(PathOf(c, side)), TakesMax(side));
  }
}

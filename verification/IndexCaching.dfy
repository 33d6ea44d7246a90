/** The process-wide index cache, the build that fills it and the lookup that serves from it. */
module IndexCaching {
  import opened Options
  import opened Boxes
  import opened SpatialIndex
  import opened Grid
  import opened Narrowing
  import Descriptor

  type Path = string

  datatype IndexMiss = Absent | KeyMismatch | SourceChanged
  datatype Lookup = Found(index: Index) | Missed(miss: IndexMiss)

  /** Unknown is never taken for unchanged. */
  predicate FailClosedMatches(a: Option<Validity>, b: Option<Validity>) {
    a.Some? && b.Some? && a == b && a.value.modifiedNanos.Some?
  }

  /** What the heuristic takes for unchanged: both known, of one length and one known time. */
  lemma {:induction false} HeuristicMatchesWhen(a: Option<Validity>, b: Option<Validity>)
    ensures FailClosedMatches(a, b) <==>
            && a.Some? && b.Some? && a.value.len == b.value.len
            && a.value.modifiedNanos.Some? && b.value.modifiedNanos.Some?
            && a.value.modifiedNanos.value == b.value.modifiedNanos.value
  {
  }

  /** The key was made for this id column by this builder. */
  predicate MadeFor(key: IndexKey, idColumn: string) {
    && key.idColumn == idColumn && key.builderVersion == BUILDER_VERSION
    && key.answers == ANSWERS_PREDICATE && key.gridAxisCells == GRID_AXIS_CELLS
  }

  function Admits(idx: Index, key: IndexKey, validity: Option<Validity>): Option<IndexMiss> {
    if idx.key != key then Some(KeyMismatch)
    else if !FailClosedMatches(idx.validity, validity) then Some(SourceChanged)
    else None
  }

  /** What a lookup answers from a given set of entries. */
  function LookUp(entries: map<Path, Index>, path: Path, key: IndexKey, validity: Option<Validity>): Lookup {
    if path !in entries then Missed(Absent)
    else
      match Admits(entries[path], key, validity)
      case Some(miss) => Missed(miss)
      case None => Found(entries[path])
  }

  /** A file as one open sees it: its chunks of rows, its content hash, what `stat` says, and how many
      reads hashing it takes. */
  datatype Source = Source(chunks: seq<seq<Row>>, hash: string, validity: Option<Validity>, hashReads: nat)

  /** When the sticky flag goes up, by phase. */
  datatype CancelTime = Never | InHash(read: nat) | InScan(chunk: nat) | InBuild(work: nat)

  function HashCancel(c: CancelTime): Option<nat> { if c.InHash? then Some(c.read) else None }

  function ScanCancel(c: CancelTime): Option<nat> {
    match c
    case InHash(_) => Some(0)
    case InScan(k) => Some(k)
    case _ => None
  }

  function BuildCancel(c: CancelTime): Option<nat> {
    match c
    case Never => None
    case InBuild(w) => Some(w)
    case _ => Some(0)
  }

  datatype Report = Reused(index: Index) | Inserted(index: Index, why: IndexMiss) | Refused(r: BuildResult) |
                    TooManyRows(saw: nat) | BuildCancelled

  /** What a stream gets before it plans: a refusal because the source is not the one that opened, or
      an index, or none. */
  datatype Consulted = ChangedSinceOpen | Unindexed | Indexed(index: Index)

  /** `ValidityHeuristic::of` the file an observation was made of. */
  function HeuristicOf(now: Descriptor.SourceObservation): Option<Validity> {
    Some(Validity(now.byteSize, now.modifiedNanos))
  }

  /** `content_hash`: the flag is looked at before every read, the one that finds the end included. */
  method ContentHash(source: Source, cancelAt: Option<nat>) returns (hash: Option<string>)
    ensures hash.None? <==> cancelAt.Some? && cancelAt.value <= source.hashReads
    ensures hash.Some? ==> hash.value == source.hash
  {
    for i := 0 to source.hashReads + 1
      invariant cancelAt.Some? ==> i <= cancelAt.value
    {
      if Seen(cancelAt, i) {
        return None;
      }
    }
    return Some(source.hash);
  }

  class IndexCache {
    var entries: map<Path, Index>

    constructor ()
      ensures entries == map[]
    {
      entries := map[];
    }

    method Get(path: Path, key: IndexKey, validity: Option<Validity>) returns (r: Lookup)
      ensures r == LookUp(entries, path, key, validity)
    {
      if path !in entries {
        return Missed(Absent);
      }
      var found := entries[path];
      if found.key != key {
        return Missed(KeyMismatch);
      }
      if !FailClosedMatches(found.validity, validity) {
        return Missed(SourceChanged);
      }
      return Found(found);
    }

    method Insert(path: Path, index: Index)
      modifies this
      ensures entries == old(entries)[path := index]
    {
      entries := entries[path := index];
    }

    method HashFor(path: Path) returns (hash: Option<string>)
      ensures hash == if path in entries then Some(entries[path].key.contentHash) else None
    {
      hash := if path in entries then Some(entries[path].key.contentHash) else None;
    }

    /** `build_index`: reuse only under a fresh content hash; otherwise scan, build and insert. On
        every other ending, cancelled ones included, the cache is untouched. Where the hash tells
        contents apart, every entry stays the index of the content its key stands for, and what is
        handed out is the index of the file as it is now. */
    method BuildIndex(path: Path, source: Source, idColumn: string, cancel: CancelTime,
                      ghost contents: map<IndexKey, seq<Row>>)
      returns (report: Report, work: nat)
      modifies this
      ensures report.Reused? ==>
                && entries == old(entries) && path in entries && report.index == entries[path]
                && report.index.key == KeyFor(source.hash, idColumn)
                && FailClosedMatches(report.index.validity, source.validity)
      ensures report.Reused? || report.Inserted? ==>
                report.index.key.contentHash == source.hash && MadeFor(report.index.key, idColumn)
      ensures report.Inserted? ==>
                && entries == old(entries)[path := report.index]
                && IsIndexOf(report.index, Concat(source.chunks))
                && report.index.key == KeyFor(source.hash, idColumn) && report.index.validity == source.validity
                && LookUp(old(entries), path, report.index.key, source.validity) == Missed(report.why)
      ensures !report.Inserted? ==> entries == old(entries)
      ensures report.Inserted? ==> cancel.Never? || (cancel.InBuild? && work < cancel.work)
      ensures report.Refused? ==>
                !report.r.Built? && !report.r.Cancelled? && RefusesFirstBadRow(report.r, Concat(source.chunks))
      ensures report.TooManyRows? ==> |Concat(source.chunks)| >= report.saw > MAX_INDEXED_FEATURES
      ensures report.BuildCancelled? ==> cancel != Never
      ensures cancel.InHash? || (cancel.InScan? && cancel.chunk < |source.chunks|) ==>
                report.BuildCancelled? || report.Reused?
      ensures old(Sound(entries, contents)) && Identified(source, idColumn, contents) ==>
                && Sound(entries, contents)
                && (report.Reused? || report.Inserted? ==> IsIndexOf(report.index, Concat(source.chunks)))
      ensures cancel.InHash? && cancel.read <= source.hashReads ==> report.BuildCancelled?
    {
      work := 0;
      var hash := ContentHash(source, HashCancel(cancel));
      if hash.None? {
        return BuildCancelled, work;
      }
      var key := KeyFor(hash.value, idColumn);
      var found := Get(path, key, source.validity);
      if found.Found? {
        return Reused(found.index), work;
      }
      var scanned, held := Scan(source.chunks, ScanCancel(cancel));
      match scanned {
        case ScanCancelled => return BuildCancelled, work;
        case CeilingExceeded(saw) =>
          if Seen(BuildCancel(cancel), 0) {
            return BuildCancelled, work;
          }
          return TooManyRows(saw), work;
        case Scanned(rows) =>
          var built, meter := Build(key, source.validity, rows, BuildCancel(cancel));
          work := meter.work;
          match built {
            case Built(index) =>
              Insert(path, index);
              return Inserted(index, found.miss), work;
            case Cancelled => return BuildCancelled, work;
            case _ => return Refused(built), work;
          }
      }
    }

    /** `admitted_index`: the key is rebuilt from the hash the entry itself recorded, so what is
        checked here is the id column, the builder's constants and the heuristic. */
    method AdmittedIndex(path: Path, idColumn: string, validity: Option<Validity>) returns (r: Option<Index>)
      ensures r.Some? <==>
                && path in entries && FailClosedMatches(entries[path].validity, validity)
                && MadeFor(entries[path].key, idColumn)
      ensures r.Some? ==> r.value == entries[path]
    {
      var hash := HashFor(path);
      if hash.None? {
        return None;
      }
      var found := Get(path, KeyFor(hash.value, idColumn), validity);
      r := if found.Found? then Some(found.index) else None;
    }

    /** What every stream does first: compare the source with what it was at open, then ask for an
        index. So an entry reaches a query exactly when no component of the source differs from what
        was observed at open, the heuristic matches and the key agrees in all but the content hash;
        and what it then is of the file as it is now depends on the indexed slots alone. */
    method Consult(
      path: Path, idColumn: string, atOpen: Descriptor.SourceObservation, now: Descriptor.SourceObservation,
      ghost source: Source, ghost contents: map<IndexKey, seq<Row>>)
      returns (r: Consulted)
      ensures r.ChangedSinceOpen? <==> !Descriptor.Unchanged(atOpen, now)
      ensures r.Indexed? <==>
                && Descriptor.Unchanged(atOpen, now)
                && path in entries && entries[path].validity == Some(Validity(now.byteSize, now.modifiedNanos))
                && now.modifiedNanos.Some?
                && MadeFor(entries[path].key, idColumn)
      ensures r.Indexed? ==> r.index == entries[path]
      ensures r.Indexed? && Sound(entries, contents) && Identified(source, idColumn, contents) ==>
                && (IsIndexOf(r.index, Concat(source.chunks)) <==>
                    SameSlots(contents[r.index.key], Concat(source.chunks)))
                && (Separates(contents) ==>
                    (IsIndexOf(r.index, Concat(source.chunks)) <==> r.index.key.contentHash == source.hash))
    {
      var differing := Descriptor.DifferingComponents(atOpen, now);
      if differing != [] {
        return ChangedSinceOpen;
      }
      var admitted := AdmittedIndex(path, idColumn, HeuristicOf(now));
      if admitted.None? {
        return Unindexed;
      }
      if Sound(entries, contents) && Identified(source, idColumn, contents) {
        ServedIsCurrentWhen(entries, path, source, idColumn, contents);
      }
      return Indexed(admitted.value);
    }
  }

  // ---------------------------------------------------------------- every run of inserts and lookups

  datatype Write = Write(path: Path, index: Index)

  /** The entries after a run of inserts; lookups leave them alone. */
  function Replay(writes: seq<Write>): map<Path, Index> {
    if writes == [] then map[]
    else
      var last := writes[|writes| - 1];
      Replay(writes[..|writes| - 1])[last.path := last.index]
  }

  /** `writes[k]` is the last write to `path`. */
  predicate Latest(writes: seq<Write>, path: Path, k: nat) {
    && k < |writes| && writes[k].path == path
    && forall l :: k < l < |writes| ==> writes[l].path != path
  }

  lemma {:induction false} EntriesAreLatest(writes: seq<Write>, path: Path)
    ensures path in Replay(writes) <==> exists k :: 0 <= k < |writes| && writes[k].path == path
    ensures path in Replay(writes) ==>
              exists k: nat :: Latest(writes, path, k) && writes[k].index == Replay(writes)[path]
  {
    if writes != [] {
      var n := |writes| - 1;
      EntriesAreLatest(writes[..n], path);
      if writes[n].path == path {
        assert Latest(writes, path, n);
      } else if path in Replay(writes) {
        var k: nat :| Latest(writes[..n], path, k) && writes[..n][k].index == Replay(writes[..n])[path];
        assert Latest(writes, path, k);
      }
    }
  }

  /** Over every run, a served index is the latest one inserted for that path, its key agrees in every
      component, and length and modification time are known and equal; every other lookup says why. */
  lemma {:induction false} ServedIndexIsLatest(
    writes: seq<Write>, path: Path, key: IndexKey, validity: Option<Validity>)
    ensures match LookUp(Replay(writes), path, key, validity)
            case Found(idx) =>
              && (exists k: nat :: Latest(writes, path, k) && writes[k].index == idx)
              && idx.key == key && idx.validity == validity
              && validity.Some? && validity.value.modifiedNanos.Some?
            case Missed(Absent) => forall k :: 0 <= k < |writes| ==> writes[k].path != path
            case Missed(KeyMismatch) =>
              exists k: nat :: Latest(writes, path, k) && writes[k].index.key != key
            case Missed(SourceChanged) =>
              exists k: nat :: Latest(writes, path, k) && writes[k].index.key == key &&
                               !FailClosedMatches(writes[k].index.validity, validity)
  {
    EntriesAreLatest(writes, path);
  }

  // ---------------------------------------------------------------- content

  /** `contents` gives the rows a key stands for: those a scan of the hashed bytes yields with the
      key's id column. Every entry is the index of the rows its own key stands for. */
  ghost predicate Sound(entries: map<Path, Index>, contents: map<IndexKey, seq<Row>>) {
    forall p :: p in entries ==> entries[p].key in contents && IsIndexOf(entries[p], contents[entries[p].key])
  }

  /** The key made from this source's hash stands for this source's rows. */
  predicate Identified(source: Source, idColumn: string, contents: map<IndexKey, seq<Row>>) {
    KeyFor(source.hash, idColumn) in contents && contents[KeyFor(source.hash, idColumn)] == Concat(source.chunks)
  }

  /** Row lists the build cannot tell apart. */
  predicate SameSlots(a: seq<Row>, b: seq<Row>) {
    |a| == |b| && forall i :: 0 <= i < |a| ==> a[i].id == b[i].id && a[i].bbox == b[i].bbox
  }

  /** Keys that differ stand for rows the build can tell apart. */
  predicate Separates(contents: map<IndexKey, seq<Row>>) {
    forall k, l :: k in contents && l in contents && SameSlots(contents[k], contents[l]) ==> k == l
  }

  /** An index determines the slots it was built from, and nothing else about the rows. */
  lemma {:induction false} IndexDeterminesSlots(idx: Index, a: seq<Row>, b: seq<Row>)
    requires IsIndexOf(idx, a)
    ensures IsIndexOf(idx, b) <==> SameSlots(a, b)
  {
    if IsIndexOf(idx, b) {
      forall i | 0 <= i < |a|
        ensures a[i].id == b[i].id && a[i].bbox == b[i].bbox
      {
        assert IdsOf(a)[i] == IdsOf(b)[i] && BoxesOf(a)[i] == BoxesOf(b)[i];
      }
    }
    if SameSlots(a, b) {
      assert IdsOf(a) == IdsOf(b);
      assert BoxesOf(a) == BoxesOf(b);
    }
  }

  /** What `BuildIndex` reuses or has just built is the index of the file as it is now, and the cache
      stays sound with it; so a plan made with it changes the answer exactly when it narrows past a row
      with a NULL id. */
  lemma {:induction false} BuiltAndReusedAreCurrent(
    entries: map<Path, Index>, path: Path, source: Source, contents: map<IndexKey, seq<Row>>, idx: Index,
    idColumn: string, plan: Plan, view: RawBox)
    requires Sound(entries, contents) && Identified(source, idColumn, contents)
    requires || LookUp(entries, path, KeyFor(source.hash, idColumn), source.validity) == Found(idx)
             || (IsIndexOf(idx, Concat(source.chunks)) && idx.key == KeyFor(source.hash, idColumn))
    requires Planned(plan, idx, view)
    ensures Sound(entries[path := idx], contents)
    ensures IsIndexOf(idx, Concat(source.chunks))
    ensures var rows := Concat(source.chunks);
            Answer(plan, FeaturesOf(rows), view) == Narrowing.Scanned(FeaturesOf(rows), view) <==>
            || CannotNarrow(Some(idx), view)
            || forall i :: 0 <= i < |rows| && Meets(FeatureOf(rows[i]), view) ==> rows[i].idValid
  {
    AFreshIndexIsExactWhen(plan, idx, Concat(source.chunks), view);
  }

  /** `admitted_index` does not look at the content: an index built from `before` is served for any
      `after` with the same length and a known, equal modification time. */
  lemma {:induction false} AdmissionIgnoresContent(
    entries: map<Path, Index>, path: Path, idColumn: string, before: Source, after: Source)
    requires path in entries && entries[path].key == KeyFor(before.hash, idColumn)
    requires entries[path].validity == before.validity == after.validity
    requires after.validity.Some? && after.validity.value.modifiedNanos.Some?
    ensures LookUp(entries, path, KeyFor(entries[path].key.contentHash, idColumn), after.validity) ==
            Found(entries[path])
    ensures before.hash != after.hash ==>
              LookUp(entries, path, KeyFor(after.hash, idColumn), after.validity) == Missed(KeyMismatch)
  {
  }

  /** Exactly when the entry `admitted_index` serves is the index of the file as it is now: when the
      content it was built from and the content now agree in the indexed slots. Equal hashes are
      enough; and where contents that differ in hash differ in those slots, the entry is current
      exactly when the hash it recorded is the file's own, which `hash_for` and a fresh
      `content_hash` tell. */
  lemma {:induction false} ServedIsCurrentWhen(
    entries: map<Path, Index>, path: Path, source: Source, idColumn: string, contents: map<IndexKey, seq<Row>>)
    requires Sound(entries, contents) && Identified(source, idColumn, contents)
    requires path in entries && entries[path].key == KeyFor(entries[path].key.contentHash, idColumn)
    ensures var idx, now := entries[path], Concat(source.chunks);
            && (IsIndexOf(idx, now) <==> SameSlots(contents[idx.key], now))
            && (idx.key.contentHash == source.hash ==> IsIndexOf(idx, now))
            && (Separates(contents) ==> (IsIndexOf(idx, now) <==> idx.key.contentHash == source.hash))
  {
    IndexDeterminesSlots(entries[path], contents[entries[path].key], Concat(source.chunks));
  }

  /** So a file rewritten in place within its timestamp is answered wrongly: with the cached index of
      `BEFORE` admitted for a file now holding `AFTER`, a feature in the view is dropped. */
  lemma {:induction false} AdmittedIndexCanBeStale(idx: Index, path: Path, before: Source, after: Source, plan: Plan)
    requires before.chunks == [BEFORE] && after.chunks == [AFTER] && before.hash != after.hash
    requires before.validity == after.validity == Some(Validity(100, Some(7)))
    requires IsIndexOf(idx, BEFORE) && idx.key == KeyFor(before.hash, "id") && idx.validity == before.validity
    requires plan.IndexNarrowed? && Names(plan, idx, WHOLE)
    ensures LookUp(map[path := idx], path, KeyFor(idx.key.contentHash, "id"), after.validity) == Found(idx)
    ensures Concat(after.chunks) == AFTER && !IsIndexOf(idx, AFTER)
    ensures Answer(plan, FeaturesOf(AFTER), WHOLE) == [FeatureOf(AFTER[0])]
    ensures Narrowing.Scanned(FeaturesOf(AFTER), WHOLE) == FeaturesOf(AFTER)
  {
    AdmissionIgnoresContent(map[path := idx], path, "id", before, after);
    AStaleIndexDropsAFeature(idx, plan);
    assert idx.ids[1] == 2;
    assert after.chunks[..0] == [];
  }

  /** Build and cache the index of `BEFORE` for a file observed as `was`. */
  method CacheBefore(was: Descriptor.SourceObservation) returns (cache: IndexCache)
    ensures fresh(cache) && "file" in cache.entries && IsIndexOf(cache.entries["file"], BEFORE)
    ensures cache.entries["file"].key == KeyFor("before", "id") && cache.entries["file"].validity == HeuristicOf(was)
  {
    var source := Source([BEFORE], "before", HeuristicOf(was), 1);
    assert source.chunks[..0] == [];
    assert Concat(source.chunks) == BEFORE;
    cache := new IndexCache();
    var report, _ := cache.BuildIndex("file", source, "id", Never, map[]);
    assert report.Inserted?;
  }

  /** Plan and answer over `AFTER` with an index of `BEFORE`. */
  method StaleAnswer(idx: Index) returns (scan: seq<Feature>, narrowed: seq<Feature>)
    requires IsIndexOf(idx, BEFORE)
    ensures scan == FeaturesOf(AFTER) && narrowed == [FeatureOf(AFTER[0])]
  {
    TwoPointsNarrow(idx, BEFORE);
    var plan := PlanQuery(Some(idx), WHOLE, BEFORE, FeaturesOf(AFTER));
    AStaleIndexDropsAFeature(idx, plan);
    scan := Narrowing.Scanned(FeaturesOf(AFTER), WHOLE);
    narrowed := Answer(plan, FeaturesOf(AFTER), WHOLE);
  }

  /** The whole run: build and cache the index of `BEFORE`, rewrite the file in place, and query it from a
      dataset opened before the rewrite and from one opened after. The first is refused because the
      footer changed; the second is served the old index and loses a row. */
  method RewrittenInPlaceRun() returns (early: Consulted, scan: seq<Feature>, narrowed: seq<Feature>)
    ensures early.ChangedSinceOpen?
    ensures scan == FeaturesOf(AFTER) && narrowed == [FeatureOf(AFTER[0])]
  {
    var was := Descriptor.SourceObservation(100, Some(7), 10, Some("before"));
    var now := was.(footerHash := Some("after"));
    ghost var source := Source([AFTER], "after", HeuristicOf(now), 1);
    var cache := CacheBefore(was);
    early := cache.Consult("file", "id", was, now, source, map[]);
    var late := cache.Consult("file", "id", now, now, source, map[]);
    scan, narrowed := StaleAnswer(late.index);
  }
}

/** Admitting the feature identity: what "verified at open" entitles a consumer to. */
module Identity {
  import opened Options
  import opened Columns

  const JS_EXACT_INTEGER_LIMIT: nat := 0x20_0000_0000_0000
  const U64_LIMIT: nat := 0x1_0000_0000_0000_0000
  const I64_LIMIT: nat := 0x8000_0000_0000_0000

  datatype ColumnType = UInt64 | UInt32 | UInt16 | UInt8 | Int64 | Int32 | Int16 | Int8 | OtherType(name: string)

  /** A column of the file, its NULLs kept. */
  datatype Column = Column(name: string, ty: ColumnType, addressable: bool, values: seq<Option<int>>)

  predicate Unsigned(t: ColumnType) { t.UInt64? || t.UInt32? || t.UInt16? || t.UInt8? }

  /** Values a column of an integer type can hold. */
  predicate InType(t: ColumnType, v: int) {
    if Unsigned(t) then 0 <= v < U64_LIMIT
    else if t.OtherType? then true
    else 0 - I64_LIMIT <= v < I64_LIMIT
  }

  predicate WellTyped(c: Column) {
    forall i :: 0 <= i < |c.values| && c.values[i].Some? ==> InType(c.ty, c.values[i].value)
  }

  datatype Uniqueness = VerifiedAtOpenFullFile | DeclaredNotVerified | ByConstructionWithinGeneration

  datatype IdSource = FromFile | Mapped(column: string) | SessionOrdinal

  datatype DatasetIdentity = DatasetIdentity(
    source: IdSource, uniqueness: Uniqueness, verifiedRows: Option<nat>, maxValue: Option<nat>)

  datatype Declaration = Declaration(column: string, skipUniquenessCheck: bool)

  datatype Admission =
    | Admitted(id: DatasetIdentity)
    | NoSuchColumn
    | NotAddressable
    | TypeRefused
    | Negative(value: int)
    | Shared(rows: nat, distinct: nat)
    | QueryFailed

  /** `js_exact`. */
  function JsExact(id: DatasetIdentity): Option<bool> {
    match id.maxValue
    case None => None
    case Some(m) => Some(m < JS_EXACT_INTEGER_LIMIT)
  }

  // ---------------------------------------------------------------- the one scan

  /** The non-NULL values, as SQL's aggregates see them. */
  function Present(values: seq<Option<int>>): seq<int> {
    if values == [] then []
    else
      var last := values[|values| - 1];
      Present(values[..|values| - 1]) + (if last.Some? then [last.value] else [])
  }

  function AsSet(s: seq<int>): set<int> { set x | x in s }

  function Least(s: seq<int>): Option<int> {
    if s == [] then None
    else
      match Least(s[..|s| - 1])
      case None => Some(s[|s| - 1])
      case Some(m) => Some(if s[|s| - 1] < m then s[|s| - 1] else m)
  }

  function Greatest(s: seq<int>): Option<int> {
    if s == [] then None
    else
      match Greatest(s[..|s| - 1])
      case None => Some(s[|s| - 1])
      case Some(m) => Some(if s[|s| - 1] > m then s[|s| - 1] else m)
  }

  /** `count(*)`, `count(DISTINCT c)`, `min(c)`, `max(c)`. */
  datatype ScanRow = ScanRow(count: nat, distinct: nat, min: Option<int>, max: Option<int>)

  function IdentityScan(c: Column): ScanRow {
    var p := Present(c.values);
    ScanRow(|c.values|, |AsSet(p)|, Least(p), Greatest(p))
  }

  predicate FitsU64(v: Option<int>) { v.Some? ==> 0 <= v.value < U64_LIMIT }

  predicate FitsI64(v: Option<int>) { v.Some? ==> 0 - I64_LIMIT <= v.value < I64_LIMIT }

  /** `run_identity_scan`: both extremes as `u64` if both convert, otherwise both as `i64`, otherwise
      the query failed. A NULL converts; a value that does not is never read as NULL. */
  function RunIdentityScan(c: Column): Option<ScanRow> {
    var row := IdentityScan(c);
    if FitsU64(row.min) && FitsU64(row.max) then Some(row)
    else if FitsI64(row.min) && FitsI64(row.max) then Some(row)
    else None
  }

  /** `u64::try_from(m).ok()`. */
  function TryU64(m: int): Option<nat> { if 0 <= m < U64_LIMIT then Some(m) else None }

  predicate AdmitColumnType(t: ColumnType) { !t.OtherType? }

  function NameOf(c: Column): string { c.name }

  function Find(schema: seq<Column>, name: string): Option<Column> { FirstNamed(schema, NameOf, name) }

  /** `admit_identity` on a scan that is not cancelled. */
  function AdmitIdentity(schema: seq<Column>, declared: Option<Declaration>): Admission {
    var source := if declared.Some? then Mapped(declared.value.column) else FromFile;
    var column := if declared.Some? then declared.value.column else ID_COLUMN;
    match Find(schema, column)
    case None =>
      if declared.Some? then NoSuchColumn
      else Admitted(DatasetIdentity(SessionOrdinal, ByConstructionWithinGeneration, None, None))
    case Some(c) =>
      if !c.addressable then NotAddressable
      else if !AdmitColumnType(c.ty) then TypeRefused
      else if declared.Some? && declared.value.skipUniquenessCheck then
        Admitted(DatasetIdentity(source, DeclaredNotVerified, None, None))
      else
        match RunIdentityScan(c)
        case None => QueryFailed
        case Some(scan) =>
          if scan.min.Some? && scan.min.value < 0 then Negative(scan.min.value)
          else if scan.distinct != scan.count then Shared(scan.count, scan.distinct)
          else Admitted(DatasetIdentity(source, VerifiedAtOpenFullFile, Some(scan.count),
                                        if scan.max.Some? then TryU64(scan.max.value) else None))
  }

  /** Where an identity comes from, and what is promised of one that was not scanned. A missing column is
      an error only if it was declared; without a declaration and without `id`, rows are numbered; a
      waived check is recorded as such. */
  lemma {:induction false} UnscannedAdmissions(schema: seq<Column>, declared: Option<Declaration>)
    ensures var r := AdmitIdentity(schema, declared);
            var named := exists i :: 0 <= i < |schema| && schema[i].name ==
                           (if declared.Some? then declared.value.column else "id");
            && (r.NoSuchColumn? <==> declared.Some? && !named)
            && (r == Admitted(DatasetIdentity(SessionOrdinal, ByConstructionWithinGeneration, None, None)) <==>
                declared.None? && !named)
            && (r.Admitted? && named ==>
                r.id.source == if declared.Some? then Mapped(declared.value.column) else FromFile)
            && (r.Admitted? && named ==>
                (r.id.uniqueness.DeclaredNotVerified? <==> declared.Some? && declared.value.skipUniquenessCheck)
                && (r.id.uniqueness.VerifiedAtOpenFullFile? <==>
                    declared.None? || !declared.value.skipUniquenessCheck))
            && (r.Admitted? && r.id.uniqueness.DeclaredNotVerified? ==> r.id.verifiedRows == r.id.maxValue == None)
  {
    var column := if declared.Some? then declared.value.column else "id";
    var found := Find(schema, column);
    if found.Some? {
      var i :| 0 <= i < |schema| && schema[i] == found.value;
    }
  }

  /** A present column is refused for its name first, then its type; a waived one for nothing else. */
  lemma {:induction false} PresentAdmissions(schema: seq<Column>, declared: Option<Declaration>, c: Column)
    requires Find(schema, if declared.Some? then declared.value.column else "id") == Some(c)
    ensures var r := AdmitIdentity(schema, declared);
            && (r.NotAddressable? <==> !c.addressable)
            && (r.TypeRefused? <==> c.addressable && c.ty.OtherType?)
            && (declared.Some? && declared.value.skipUniquenessCheck ==>
                (r.Admitted? <==> c.addressable && !c.ty.OtherType?))
  {
  }

  /** A scanned column is refused for a negative value first, naming the least one, and otherwise for
      rows that share a value or have none, naming both counts. */
  lemma {:induction false} ScannedRefusals(schema: seq<Column>, declared: Option<Declaration>, c: Column)
    requires Find(schema, if declared.Some? then declared.value.column else "id") == Some(c) && WellTyped(c)
    requires c.addressable && !c.ty.OtherType? && (declared.Some? ==> !declared.value.skipUniquenessCheck)
    ensures var r := AdmitIdentity(schema, declared);
            && (r.Negative? <==> exists i :: 0 <= i < |c.values| && c.values[i].Some? && c.values[i].value < 0)
            && (r.Negative? ==>
                && Some(r.value) in c.values
                && forall i :: 0 <= i < |c.values| && c.values[i].Some? ==> r.value <= c.values[i].value)
            && (r.Shared? ==> r.rows == |c.values| && r.distinct < r.rows)
            && (r.Shared? || r.Negative? || r.Admitted?)
  {
    ScanNeverFails(c);
    var p := Present(c.values);
    Extremes(p);
    FewerPresent(c.values);
    FewerDistinct(p);
    forall v: int
      ensures v in p <==> Some(v) in c.values
    {
      PresentMembers(c.values, v);
    }
  }

  lemma {:induction false} PresentMembers(values: seq<Option<int>>, v: int)
    ensures v in Present(values) <==> Some(v) in values
  {
    if values != [] {
      var n := |values| - 1;
      PresentMembers(values[..n], v);
      assert values == values[..n] + [values[n]];
    }
  }

  // ---------------------------------------------------------------- what the counts prove

  lemma {:induction false} FewerDistinct(s: seq<int>)
    ensures |AsSet(s)| <= |s|
    ensures |AsSet(s)| == |s| ==> forall i, j :: 0 <= i < j < |s| ==> s[i] != s[j]
    ensures (forall i, j :: 0 <= i < j < |s| ==> s[i] != s[j]) ==> |AsSet(s)| == |s|
  {
    if s == [] {
      assert AsSet(s) == {};
    } else {
      var n := |s| - 1;
      FewerDistinct(s[..n]);
      assert AsSet(s) == AsSet(s[..n]) + {s[n]};
      if s[n] in AsSet(s[..n]) {
        assert AsSet(s) == AsSet(s[..n]);
      }
    }
  }

  lemma {:induction false} FewerPresent(values: seq<Option<int>>)
    ensures |Present(values)| <= |values|
    ensures |Present(values)| == |values| <==> forall i :: 0 <= i < |values| ==> values[i].Some?
    ensures |Present(values)| == |values| ==> forall i :: 0 <= i < |values| ==> values[i] == Some(Present(values)[i])
  {
    if values != [] {
      FewerPresent(values[..|values| - 1]);
    }
  }

  lemma {:induction false} Extremes(s: seq<int>)
    ensures Least(s).None? <==> s == []
    ensures Greatest(s).None? <==> s == []
    ensures s != [] ==> Least(s).value in s && forall x :: x in s ==> Least(s).value <= x
    ensures s != [] ==> Greatest(s).value in s && forall x :: x in s ==> x <= Greatest(s).value
  {
    if s != [] {
      Extremes(s[..|s| - 1]);
      assert s == s[..|s| - 1] + [s[|s| - 1]];
    }
  }

  /** No NULL, no negative value, no value twice. */
  predicate Identifies(c: Column) {
    && (forall i :: 0 <= i < |c.values| ==> c.values[i].Some? && 0 <= c.values[i].value)
    && (forall i, j :: 0 <= i < j < |c.values| ==> c.values[i] != c.values[j])
  }

  /** The four aggregates decide it: equal counts and no negative minimum hold exactly when every row
      has its own non-negative value (a NULL makes the distinct count fall short). */
  lemma {:induction false} CountsDecideIdentity(c: Column)
    ensures var scan := IdentityScan(c);
            scan.distinct == scan.count && (scan.min.Some? ==> scan.min.value >= 0) <==> Identifies(c)
  {
    var p := Present(c.values);
    if Identifies(c) {
      IdentifiedCounts(c.values, p);
    }
    if |AsSet(p)| == |c.values| && (Least(p).Some? ==> Least(p).value >= 0) {
      CountsIdentify(c, p);
    }
  }

  lemma {:induction false} IdentifiedCounts(values: seq<Option<int>>, p: seq<int>)
    requires p == Present(values)
    requires forall i :: 0 <= i < |values| ==> values[i].Some? && 0 <= values[i].value
    requires forall i, j :: 0 <= i < j < |values| ==> values[i] != values[j]
    ensures |AsSet(p)| == |values| && (Least(p).Some? ==> Least(p).value >= 0)
  {
    FewerPresent(values);
    assert forall i :: 0 <= i < |p| ==> Some(p[i]) == values[i];
    FewerDistinct(p);
    Extremes(p);
  }

  lemma {:induction false} CountsIdentify(c: Column, p: seq<int>)
    requires p == Present(c.values) && |AsSet(p)| == |c.values| && (Least(p).Some? ==> Least(p).value >= 0)
    ensures Identifies(c)
  {
    FewerPresent(c.values);
    FewerDistinct(p);
    assert forall i :: 0 <= i < |c.values| ==> c.values[i] == Some(p[i]);
    Extremes(p);
    assert forall i :: 0 <= i < |p| ==> p[i] in p;
  }

  /** The column an admission is about. */
  function IdColumnOf(declared: Option<Declaration>): string {
    if declared.Some? then declared.value.column else ID_COLUMN
  }

  /** The scan reads every integer column's extremes as they are. */
  lemma {:induction false} ScanNeverFails(c: Column)
    requires WellTyped(c) && AdmitColumnType(c.ty)
    ensures RunIdentityScan(c) == Some(IdentityScan(c))
  {
    Extremes(Present(c.values));
    PresentInType(c.values, c.ty);
  }

  lemma {:induction false} PresentInType(values: seq<Option<int>>, ty: ColumnType)
    requires forall i :: 0 <= i < |values| && values[i].Some? ==> InType(ty, values[i].value)
    ensures forall x :: x in Present(values) ==> InType(ty, x)
  {
    if values != [] {
      PresentInType(values[..|values| - 1], ty);
    }
  }

  /** The recorded facts are true of the column. */
  predicate RecordsTruth(id: DatasetIdentity, c: Column) {
    && Identifies(c)
    && id.verifiedRows == Some(|c.values|)
    && (id.maxValue.None? <==> c.values == [])
    && (id.maxValue.Some? ==>
          && Some(id.maxValue.value) in c.values
          && forall i :: 0 <= i < |c.values| ==> c.values[i].value <= id.maxValue.value)
  }

  predicate AllJsExact(c: Column)
    requires Identifies(c)
  {
    forall i :: 0 <= i < |c.values| ==> c.values[i].value < JS_EXACT_INTEGER_LIMIT
  }

  lemma {:induction false} JsExactIsTrue(id: DatasetIdentity, c: Column)
    requires RecordsTruth(id, c)
    ensures JsExact(id) == if c.values == [] then None else Some(AllJsExact(c))
  {
  }

  lemma {:induction false} VerifiedScan(c: Column, id: DatasetIdentity)
    requires WellTyped(c) && AdmitColumnType(c.ty)
    requires var scan := IdentityScan(c);
             && scan.distinct == scan.count && (scan.min.Some? ==> scan.min.value >= 0)
             && id.verifiedRows == Some(scan.count)
             && id.maxValue == if scan.max.Some? then TryU64(scan.max.value) else None
    ensures RecordsTruth(id, c)
  {
    var p := Present(c.values);
    CountsDecideIdentity(c);
    FewerPresent(c.values);
    FewerDistinct(p);
    Extremes(p);
    PresentInType(c.values, c.ty);
    assert forall i :: 0 <= i < |c.values| ==> c.values[i] == Some(p[i]) && p[i] in p;
    if p != [] {
      var k :| 0 <= k < |p| && p[k] == Greatest(p).value;
      assert c.values[k] == Some(p[k]);
    }
  }

  /** An identity recorded as verified comes from an integer column that identifies its rows, counts
      exactly those rows, carries the true maximum, and is JS-exact exactly when every id is below
      2^53; an empty file has no maximum and no width fact. */
  lemma {:induction false} VerifiedMeansIdentified(schema: seq<Column>, declared: Option<Declaration>)
    requires AdmitIdentity(schema, declared).Admitted?
    requires forall i :: 0 <= i < |schema| ==> WellTyped(schema[i])
    ensures var id := AdmitIdentity(schema, declared).id;
            id.uniqueness.VerifiedAtOpenFullFile? ==>
              && Find(schema, IdColumnOf(declared)).Some?
              && var c := Find(schema, IdColumnOf(declared)).value;
                 && AdmitColumnType(c.ty) && RecordsTruth(id, c)
                 && JsExact(id) == if c.values == [] then None else Some(AllJsExact(c))
  {
    var id := AdmitIdentity(schema, declared).id;
    if id.uniqueness.VerifiedAtOpenFullFile? {
      var c := Find(schema, IdColumnOf(declared)).value;
      VerifiedScan(c, id);
      JsExactIsTrue(id, c);
    }
  }

  /** And conversely: an addressable integer column that identifies its rows is admitted, a column
      that does not is refused, unless the caller took uniqueness on itself. */
  lemma {:induction false} AdmissionIsExact(schema: seq<Column>, declared: Option<Declaration>, c: Column)
    requires Find(schema, IdColumnOf(declared)) == Some(c) && WellTyped(c)
    requires declared.Some? ==> !declared.value.skipUniquenessCheck
    ensures AdmitIdentity(schema, declared).Admitted? <==> c.addressable && AdmitColumnType(c.ty) && Identifies(c)
  {
    CountsDecideIdentity(c);
    if AdmitColumnType(c.ty) {
      ScanNeverFails(c);
    }
  }
}

/** Two-pass admission of a declared attribute projection. */
module Projection {
  import opened Options
  import opened Columns

  const MAX_PROJECTED_ATTRIBUTES: nat := 32

  datatype DataType =
    | Utf8 | LargeUtf8 | Utf8View | Boolean
    | Int8 | Int16 | Int32 | Int64 | UInt8 | UInt16 | UInt32 | UInt64 | Float32 | Float64
    | Dictionary(key: DataType, value: DataType)
    | OtherType(name: string)

  datatype Field = Field(name: string, dtype: DataType, nullable: bool, exported: Option<string>)

  datatype ProjectionError =
    | TooManyColumns(limit: nat, saw: nat)
    | ColumnUnknown(column: string)
    | ColumnIsGeometry(column: string)
    | ColumnIsIdentity(column: string, idColumn: string)
    | ColumnDuplicated(column: string)
    | TypeNotAdmitted(column: string, sourceType: DataType)
    | ColumnNameNotAddressable(column: string)

  datatype AdmittedProjection = AdmittedProjection(fields: seq<Field>, sourceTypes: seq<DataType>)

  datatype Result<T> = Ok(value: T) | Err(error: ProjectionError)

  // ---------------------------------------------------------------- one column

  predicate IsAdmittedScalar(t: DataType) { !t.Dictionary? && !t.OtherType? }

  /** `admit_attribute_type`: the emitted type, or `None`. */
  function AdmitAttributeType(t: DataType): Option<DataType> {
    if IsAdmittedScalar(t) then Some(t)
    else if t.Dictionary? && IsAdmittedScalar(t.value) then Some(t.value)
    else None
  }

  /** Name, geometry, identity, in that order. */
  function CheckGeometryAndIdentity(f: Field, geometry: string, identity: string): Option<ProjectionError> {
    if NotAddressable(f.name, f.exported) then Some(ColumnNameNotAddressable(f.name))
    else if f.name == geometry then Some(ColumnIsGeometry(f.name))
    else if f.name == ID_COLUMN || f.name == identity then Some(ColumnIsIdentity(f.name, identity))
    else None
  }

  function TypeCheck(f: Field): Result<Field> {
    match AdmitAttributeType(f.dtype)
    case Some(t) => Ok(Field(f.name, t, true, None))
    case None => Err(TypeNotAdmitted(f.name, f.dtype))
  }

  /** `admit_projection_column`: would this column, alone, be admitted? */
  function AdmitColumn(f: Field, geometry: string, identity: string): Result<Field> {
    match CheckGeometryAndIdentity(f, geometry, identity)
    case Some(e) => Err(e)
    case None => TypeCheck(f)
  }

  const SCALARS := {Utf8, LargeUtf8, Utf8View, Boolean, Int8, Int16, Int32, Int64, UInt8, UInt16, UInt32, UInt64,
                    Float32, Float64}

  /** Exactly which columns are projectable alone, and what is emitted for them: not one whose name cannot
      be addressed, nor the geometry, the reserved name or the identity column; a scalar as it is, a
      dictionary of scalars as its value type, nothing else. */
  lemma {:induction false} ColumnIsAdmittedWhen(f: Field, geometry: string, identity: string)
    ensures var r := AdmitColumn(f, geometry, identity);
            && (r.Ok? <==>
                && '\0' !in f.name && (f.exported.None? || f.exported.value == f.name)
                && f.name != geometry && f.name != "id" && f.name != identity
                && (f.dtype in SCALARS || (f.dtype.Dictionary? && f.dtype.value in SCALARS)))
            && (r.Ok? ==>
                && r.value.name == f.name && r.value.nullable
                && r.value.dtype == (if f.dtype.Dictionary? then f.dtype.value else f.dtype))
            && (r == Err(ColumnIsGeometry(f.name)) <==>
                '\0' !in f.name && (f.exported.None? || f.exported.value == f.name) && f.name == geometry)
            && (r == Err(ColumnIsIdentity(f.name, identity)) <==>
                && '\0' !in f.name && (f.exported.None? || f.exported.value == f.name) && f.name != geometry
                && (f.name == "id" || f.name == identity))
            && (r == Err(ColumnNameNotAddressable(f.name)) <==>
                '\0' in f.name || (f.exported.Some? && f.exported.value != f.name))
  {
  }

  // ---------------------------------------------------------------- the reference

  function NameOf(f: Field): string { f.name }

  /** The first schema field of that name. */
  function Named(schema: seq<Field>, name: string): Option<Field> { FirstNamed(schema, NameOf, name) }

  /** A name the first pass lets through. */
  predicate Resolvable(schema: seq<Field>, name: string) { name != ID_COLUMN && Named(schema, name).Some? }

  predicate AllResolvable(schema: seq<Field>, names: seq<string>) {
    forall i :: 0 <= i < |names| ==> Resolvable(schema, names[i])
  }

  /** The declared name at `i` passes the second pass, given the names before it. */
  predicate Passes(schema: seq<Field>, names: seq<string>, geometry: string, identity: string, i: nat)
    requires i < |names| && Resolvable(schema, names[i])
  {
    && AdmitColumn(Named(schema, names[i]).value, geometry, identity).Ok?
    && forall j :: 0 <= j < i ==> names[j] != names[i]
  }

  predicate NamesDistinct(names: seq<string>) { forall i, j :: 0 <= i < j < |names| ==> names[i] != names[j] }

  /** What admission means: few enough names, pairwise distinct, each resolving to a field that would
      be admitted alone. */
  predicate Admissible(schema: seq<Field>, names: seq<string>, geometry: string, identity: string) {
    && |names| <= MAX_PROJECTED_ATTRIBUTES && NamesDistinct(names) && AllResolvable(schema, names)
    && forall i :: 0 <= i < |names| ==> AdmitColumn(Named(schema, names[i]).value, geometry, identity).Ok?
  }

  /** What is emitted for an admissible list: the declared names in the declared order, nullable, with
      the emitted type beside the source type. */
  predicate Emits(p: AdmittedProjection, schema: seq<Field>, names: seq<string>)
    requires AllResolvable(schema, names)
  {
    && |p.fields| == |p.sourceTypes| == |names|
    && forall i :: 0 <= i < |names| ==>
         var source := Named(schema, names[i]).value;
         && p.fields[i].name == names[i] && p.fields[i].nullable
         && p.sourceTypes[i] == source.dtype
         && Some(p.fields[i].dtype) == AdmitAttributeType(source.dtype)
  }

  /** The one refusal a failing name gets: a bad name, the geometry or the identity first, then a
      repetition, and the type only last. */
  function RefusalAt(
    schema: seq<Field>, names: seq<string>, geometry: string, identity: string, i: nat): Option<ProjectionError>
    requires i < |names| && Resolvable(schema, names[i])
  {
    var source := Named(schema, names[i]).value;
    var reserved := CheckGeometryAndIdentity(source, geometry, identity);
    if reserved.Some? then reserved
    else if names[i] in names[..i] then Some(ColumnDuplicated(names[i]))
    else if AdmitAttributeType(source.dtype).None? then Some(TypeNotAdmitted(names[i], source.dtype))
    else None
  }

  /** The first name the second pass refuses, and the refusal it gets. */
  predicate FirstRefusal(
    schema: seq<Field>, names: seq<string>, geometry: string, identity: string, i: nat, e: ProjectionError)
    requires AllResolvable(schema, names)
  {
    && i < |names| && RefusalAt(schema, names, geometry, identity, i) == Some(e)
    && forall k :: 0 <= k < i ==> RefusalAt(schema, names, geometry, identity, k).None?
  }

  lemma {:induction false} PassesUnlessRefused(
    schema: seq<Field>, names: seq<string>, geometry: string, identity: string, i: nat)
    requires i < |names| && Resolvable(schema, names[i])
    ensures Passes(schema, names, geometry, identity, i) <==> RefusalAt(schema, names, geometry, identity, i).None?
  {
    assert names[i] in names[..i] <==> exists j :: 0 <= j < i && names[j] == names[i];
  }

  // ---------------------------------------------------------------- the two passes

  /** Pass 1: every declared name, in declared order, before any per-column rule. */
  method ResolveNames(names: seq<string>, schema: seq<Field>, identity: string) returns (r: Result<seq<Field>>)
    ensures r.Ok? <==> AllResolvable(schema, names)
    ensures r.Ok? ==>
              |r.value| == |names| && forall i :: 0 <= i < |names| ==> Named(schema, names[i]) == Some(r.value[i])
    ensures r.Err? ==>
              exists i :: && 0 <= i < |names| && !Resolvable(schema, names[i]) && AllResolvable(schema, names[..i])
                          && r.error == (if names[i] == ID_COLUMN then ColumnIsIdentity(names[i], identity)
                                         else ColumnUnknown(names[i]))
  {
    var resolved: seq<Field> := [];
    for i := 0 to |names|
      invariant |resolved| == i && AllResolvable(schema, names[..i])
      invariant forall k :: 0 <= k < i ==> Named(schema, names[k]) == Some(resolved[k])
    {
      var name := names[i];
      if name == ID_COLUMN {
        return Err(ColumnIsIdentity(name, identity));
      }
      var field := Named(schema, name);
      if field.None? {
        return Err(ColumnUnknown(name));
      }
      assert Resolvable(schema, name);
      resolved := resolved + [field.value];
    }
    assert names[..|names|] == names;
    return Ok(resolved);
  }

  /** Pass 2: name, geometry, identity, duplicate, type, column by column. */
  method AdmitResolved(names: seq<string>, resolved: seq<Field>, schema: seq<Field>, geometry: string, identity: string)
    returns (r: Result<AdmittedProjection>)
    requires AllResolvable(schema, names) && |resolved| == |names|
    requires forall i :: 0 <= i < |names| ==> Named(schema, names[i]) == Some(resolved[i])
    ensures r.Ok? ==>
              && Emits(r.value, schema, names)
              && forall i :: 0 <= i < |names| ==> RefusalAt(schema, names, geometry, identity, i).None?
    ensures r.Err? ==> exists i: nat :: FirstRefusal(schema, names, geometry, identity, i, r.error)
  {
    var seen: seq<string>, out: seq<Field>, sourceTypes: seq<DataType> := [], [], [];
    for i := 0 to |resolved|
      invariant seen == names[..i] && |out| == |sourceTypes| == i
      invariant forall k :: 0 <= k < i ==> RefusalAt(schema, names, geometry, identity, k).None?
      invariant Emits(AdmittedProjection(out, sourceTypes), schema, names[..i])
    {
      var field := resolved[i];
      assert field.name == names[i];
      var reserved := CheckGeometryAndIdentity(field, geometry, identity);
      if reserved.Some? {
        assert FirstRefusal(schema, names, geometry, identity, i, reserved.value);
        return Err(reserved.value);
      }
      if field.name in seen {
        assert FirstRefusal(schema, names, geometry, identity, i, ColumnDuplicated(field.name));
        return Err(ColumnDuplicated(field.name));
      }
      seen := seen + [field.name];
      var emitted := TypeCheck(field);
      if emitted.Err? {
        assert FirstRefusal(schema, names, geometry, identity, i, emitted.error);
        return Err(emitted.error);
      }
      out, sourceTypes := out + [emitted.value], sourceTypes + [field.dtype];
    }
    assert names[..|names|] == names;
    return Ok(AdmittedProjection(out, sourceTypes));
  }

  /** `admit_projection`. */
  method AdmitProjection(names: seq<string>, schema: seq<Field>, geometry: string, identity: string)
    returns (r: Result<AdmittedProjection>)
    ensures r.Ok? <==> Admissible(schema, names, geometry, identity)
    ensures r.Ok? ==> Emits(r.value, schema, names)
    ensures |names| > MAX_PROJECTED_ATTRIBUTES <==> r.Err? && r.error.TooManyColumns?
    ensures |names| <= MAX_PROJECTED_ATTRIBUTES && !AllResolvable(schema, names) ==>
              && r.Err?
              && exists i :: && 0 <= i < |names| && !Resolvable(schema, names[i]) && AllResolvable(schema, names[..i])
                             && r.error == (if names[i] == ID_COLUMN then ColumnIsIdentity(names[i], identity)
                                            else ColumnUnknown(names[i]))
    ensures |names| <= MAX_PROJECTED_ATTRIBUTES && AllResolvable(schema, names) && r.Err? ==>
              exists i: nat :: FirstRefusal(schema, names, geometry, identity, i, r.error)
  {
    if |names| > MAX_PROJECTED_ATTRIBUTES {
      return Err(TooManyColumns(MAX_PROJECTED_ATTRIBUTES, |names|));
    }
    var resolved := ResolveNames(names, schema, identity);
    if resolved.Err? {
      return Err(resolved.error);
    }
    r := AdmitResolved(names, resolved.value, schema, geometry, identity);
    PassesIsAdmissible(schema, names, geometry, identity);
  }

  /** Passing the interleaved per-column rules one by one is being admissible as a whole. */
  lemma {:induction false} PassesIsAdmissible(
    schema: seq<Field>, names: seq<string>, geometry: string, identity: string)
    requires |names| <= MAX_PROJECTED_ATTRIBUTES && AllResolvable(schema, names)
    ensures Admissible(schema, names, geometry, identity) <==>
            forall i :: 0 <= i < |names| ==> RefusalAt(schema, names, geometry, identity, i).None?
  {
    forall i | 0 <= i < |names|
      ensures Passes(schema, names, geometry, identity, i) <==> RefusalAt(schema, names, geometry, identity, i).None?
    {
      PassesUnlessRefused(schema, names, geometry, identity, i);
    }
    if forall i :: 0 <= i < |names| ==> Passes(schema, names, geometry, identity, i) {
      forall j | 0 <= j < |names|
        ensures AdmitColumn(Named(schema, names[j]).value, geometry, identity).Ok?
        ensures forall i :: 0 <= i < j ==> names[i] != names[j]
      {
        assert Passes(schema, names, geometry, identity, j);
      }
    }
  }
}

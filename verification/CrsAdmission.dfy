/** Deciding a dataset's CRS: the format's rules for the file, then the admission table, then the
    axis-order gate and the provenance record. */
module CrsAdmission {
  import opened Options

  const PINNED_SPEC_VERSIONS := ["1.0.0", "1.1.0"]
  const FORMAT_DEFAULT_CRS := "OGC:CRS84"
  const MAX_CRS_DEFINITION_BYTES: nat := 65_536

  datatype AxisOrder = EastingNorthing | NorthingEasting | LongitudeLatitude | LatitudeLongitude

  predicate IsXFirst(a: AxisOrder) { a.EastingNorthing? || a.LongitudeLatitude? }

  datatype CrsSource = FromFile | CallerAsserted | FormatRule
  datatype CrsProvenance = CrsDeclared | CrsAsserted | CrsFormatDefault
  datatype AxisProvenance = AxisDeclared | AxisFormatOverride
  datatype CrsKeyState = KeyDeclared | KeyNull | KeyAbsent
  datatype Rule = AbsentDefault | CoordinateAxisOrder

  /** What a CRS is: its identifier, its definition if there is one, and an axis order. */
  datatype CrsFacts = CrsFacts(identifier: string, definition: Option<string>, axis: AxisOrder)

  /** The parts of the `geo` metadata that matter here; the axis order is the definition's own. */
  datatype GeoMeta = GeoMeta(version: string, crsKey: CrsKeyState, declaredCrs: Option<CrsFacts>)

  /** What `GeoMeta::parse` returns for the three states of the `crs` member. A declared definition
      whose axes it cannot establish is refused before this point. */
  predicate Parsed(geo: GeoMeta) {
    && (geo.crsKey.KeyDeclared? <==> geo.declaredCrs.Some?)
    && (geo.declaredCrs.Some? ==> geo.declaredCrs.value.definition.Some?)
  }

  datatype FormatSemantics = FormatSemantics(
    admissible: Option<CrsFacts>,
    crsProvenance: Option<CrsProvenance>,
    axisProvenance: Option<AxisProvenance>,
    declaredAxisOrder: Option<AxisOrder>,
    rule: Option<Rule>,
    unpinnedDetail: bool)

  const NOTHING := FormatSemantics(None, None, None, None, None, false)

  function DataOrderUnderWkbRule(declared: AxisOrder): AxisOrder {
    match declared
    case EastingNorthing => declared
    case LongitudeLatitude => declared
    case NorthingEasting => EastingNorthing
    case LatitudeLongitude => LongitudeLatitude
  }

  predicate Pinned(geo: GeoMeta) { geo.version in PINNED_SPEC_VERSIONS }

  /** `format_semantics`: what the format's own rules establish for the file. */
  function SemanticsOf(geo: GeoMeta): FormatSemantics {
    match geo.crsKey
    case KeyDeclared =>
      (match geo.declaredCrs
       case None => NOTHING
       case Some(crs) =>
         if IsXFirst(crs.axis) then
           FormatSemantics(Some(crs), Some(CrsDeclared), Some(AxisDeclared), Some(crs.axis), None, false)
         else if Pinned(geo) then
           FormatSemantics(Some(crs.(axis := DataOrderUnderWkbRule(crs.axis))), Some(CrsDeclared),
                           Some(AxisFormatOverride), Some(crs.axis), Some(CoordinateAxisOrder), false)
         else
           FormatSemantics(Some(crs), Some(CrsDeclared), Some(AxisDeclared), Some(crs.axis), None, false))
    case KeyNull => NOTHING
    case KeyAbsent =>
      if Pinned(geo) then
        FormatSemantics(Some(CrsFacts(FORMAT_DEFAULT_CRS, None, LongitudeLatitude)), Some(CrsFormatDefault),
                        Some(AxisFormatOverride), None, Some(AbsentDefault), false)
      else NOTHING.(unpinnedDetail := true)
  }

  // ---------------------------------------------------------------- admission

  /** A caller's assertion; `axis` is what its own definition establishes: `Some(None)` for a
      definition nothing can be read from, `None` for no definition. */
  datatype Assertion = Assertion(identifier: string, definition: Option<string>, axis: Option<Option<AxisOrder>>)

  predicate Coherent(a: Assertion) { a.definition.Some? <==> a.axis.Some? }

  datatype DatasetCrs = DatasetCrs(facts: CrsFacts, source: CrsSource, asserted: bool)

  datatype CrsError =
    | IdentifierBlank | DefinitionTooLarge | DefinitionUnreadable
    | CrsUndeclared | AssertionConflict | AxisOrderUnestablished | AxisOrderUnsupported(established: AxisOrder)
    | InternalInconsistency

  datatype Outcome<T> = Ok(value: T) | Err(error: CrsError)

  /** Unicode's `White_Space`. */
  predicate IsWhitespace(c: char) {
    var u := c as int;
    || 0x09 <= u <= 0x0D || u == 0x20 || u == 0x85 || u == 0xA0 || u == 0x1680 || 0x2000 <= u <= 0x200A
    || u == 0x2028 || u == 0x2029 || u == 0x202F || u == 0x205F || u == 0x3000
  }

  /** `trim().is_empty()`. */
  predicate Blank(s: string) { forall i :: 0 <= i < |s| ==> IsWhitespace(s[i]) }

  /** `str::len`: bytes of the UTF-8 encoding. */
  function ByteLength(s: string): nat {
    if s == "" then 0
    else
      var u := s[0] as int;
      (if u < 0x80 then 1 else if u < 0x800 then 2 else if u < 0x10000 then 3 else 4) + ByteLength(s[1..])
  }

  /** `validate_assertion_shape`. */
  function ShapeError(a: Assertion): Option<CrsError> {
    if Blank(a.identifier) then Some(IdentifierBlank)
    else if a.definition.Some? && ByteLength(a.definition.value) > MAX_CRS_DEFINITION_BYTES
    then Some(DefinitionTooLarge)
    else None
  }

  function AtLeast(s: string, low: int): nat {
    if s == "" then 0 else (if s[0] as int >= low then 1 else 0) + AtLeast(s[1..], low)
  }

  /** Bytes counted another way: one per character, and one more at each of the three widths. */
  lemma {:induction false} BytesByWidth(s: string)
    ensures ByteLength(s) == |s| + AtLeast(s, 0x80) + AtLeast(s, 0x800) + AtLeast(s, 0x10000)
  {
    if s != "" {
      BytesByWidth(s[1..]);
    }
  }

  /** An assertion's own shape is refused exactly when its identifier has no visible character, or else its
      definition is over 65536 bytes. */
  lemma {:induction false} ShapeIsRefusedWhen(a: Assertion)
    ensures ShapeError(a) == Some(IdentifierBlank) <==> forall c :: c in a.identifier ==> IsWhitespace(c)
    ensures ShapeError(a) == Some(DefinitionTooLarge) <==>
            && (exists c :: c in a.identifier && !IsWhitespace(c))
            && a.definition.Some? && ByteLength(a.definition.value) > 65536
    ensures ShapeError(a).Some? ==> ShapeError(a).value == IdentifierBlank || ShapeError(a).value == DefinitionTooLarge
  {
  }

  /** `crs::admit`. */
  function Admit(
    declared: Option<CrsFacts>, asserted: Option<Assertion>, assertedAxis: Option<AxisOrder>): Outcome<DatasetCrs>
  {
    match (declared, asserted)
    case (Some(crs), None) => Ok(DatasetCrs(crs, FromFile, false))
    case (Some(_), Some(_)) => Err(AssertionConflict)
    case (None, Some(a)) =>
      (match assertedAxis
       case None => Err(AxisOrderUnestablished)
       case Some(axis) => Ok(DatasetCrs(CrsFacts(a.identifier, a.definition, axis), CallerAsserted, true)))
    case (None, None) => Err(CrsUndeclared)
  }

  datatype Record = Record(
    crs: DatasetCrs, crsProvenance: CrsProvenance, axisProvenance: AxisProvenance,
    declaredAxisOrder: Option<AxisOrder>, rule: Option<Rule>)

  /** The provenance match of `open_inner`, before the source is re-stamped. */
  function Provenance(crs: DatasetCrs, semantics: FormatSemantics): Outcome<Record> {
    match crs.source
    case CallerAsserted => Ok(Record(crs, CrsAsserted, AxisDeclared, Some(crs.facts.axis), None))
    case FormatRule => Err(InternalInconsistency)
    case FromFile =>
      (match (semantics.crsProvenance, semantics.axisProvenance)
       case (Some(c), Some(a)) => Ok(Record(crs, c, a, semantics.declaredAxisOrder, semantics.rule))
       case _ => Err(InternalInconsistency))
  }

  /** `recorded_as_format_rule`, applied where the format default supplied the CRS. */
  function Stamped(r: Record): Record {
    if r.crsProvenance.CrsFormatDefault? then r.(crs := r.crs.(source := FormatRule)) else r
  }

  /** The CRS part of `open_inner`, from the assertion's shape to the recorded source. */
  function OpenCrs(geo: GeoMeta, assertion: Option<Assertion>): Outcome<Record> {
    if assertion.Some? && ShapeError(assertion.value).Some? then Err(ShapeError(assertion.value).value)
    else if assertion.Some? && assertion.value.axis == Some(None) then Err(DefinitionUnreadable)
    else
      var assertedAxis := if assertion.Some? && assertion.value.axis.Some? then assertion.value.axis.value else None;
      var semantics := SemanticsOf(geo);
      if assertion.None? && semantics.unpinnedDetail then Err(CrsUndeclared)
      else
        var admissible :=
          if assertion.Some? && semantics.crsProvenance == Some(CrsFormatDefault) then None else semantics.admissible;
        match Admit(admissible, assertion, assertedAxis)
        case Err(e) => Err(e)
        case Ok(crs) =>
          if !IsXFirst(crs.facts.axis) then Err(AxisOrderUnsupported(crs.facts.axis))
          else
            match Provenance(crs, semantics)
            case Err(e) => Err(e)
            case Ok(r) => Ok(Stamped(r))
  }

  // ---------------------------------------------------------------- the whole table

  predicate UsableAssertion(a: Assertion) {
    ShapeError(a).None? && a.axis.Some? && a.axis.value.Some? && IsXFirst(a.axis.value.value)
  }

  /** Who may open, for every file and every assertion. */
  predicate Admissible(geo: GeoMeta, assertion: Option<Assertion>) {
    match assertion
    case None =>
      || (geo.declaredCrs.Some? && (IsXFirst(geo.declaredCrs.value.axis) || Pinned(geo)))
      || (geo.crsKey.KeyAbsent? && Pinned(geo))
    case Some(a) => !geo.crsKey.KeyDeclared? && UsableAssertion(a)
  }

  /** The pipeline admits exactly the files and assertions of the table, and neither of its two
      `InternalInconsistency` returns can be reached. */
  lemma {:induction false} AdmissionTable(geo: GeoMeta, assertion: Option<Assertion>)
    requires Parsed(geo) && (assertion.Some? ==> Coherent(assertion.value))
    ensures OpenCrs(geo, assertion).Ok? <==> Admissible(geo, assertion)
    ensures OpenCrs(geo, assertion) != Err(InternalInconsistency)
  {
  }

  /** An assertion that gets past its own checks. */
  predicate Accepted(a: Assertion) { ShapeError(a).None? && a.axis != Some(None) }

  const Y_FIRST := {NorthingEasting, LatitudeLongitude}

  /** The axis order an admission would give the data, for every file and assertion that reaches one. */
  function DataOrder(geo: GeoMeta, assertion: Option<Assertion>): Option<AxisOrder> {
    match assertion
    case Some(a) =>
      if Accepted(a) && !geo.crsKey.KeyDeclared? && a.axis.Some? then a.axis.value else None
    case None =>
      if geo.crsKey.KeyDeclared? && geo.declaredCrs.Some? then
        var axis := geo.declaredCrs.value.axis;
        Some(if !Pinned(geo) then axis
             else if axis == NorthingEasting || axis == EastingNorthing then EastingNorthing
             else LongitudeLatitude)
      else if geo.crsKey.KeyAbsent? && Pinned(geo) then Some(LongitudeLatitude)
      else None
  }

  /** And each refusal happens in exactly one situation: a malformed assertion whatever the file says;
      a sound one against a file that declares; one without a definition; nothing from anyone; and a
      y-first order that no rule turns round. */
  lemma {:induction false} RefusalTable(geo: GeoMeta, assertion: Option<Assertion>)
    requires Parsed(geo) && (assertion.Some? ==> Coherent(assertion.value))
    ensures var r := OpenCrs(geo, assertion);
            && (assertion.Some? && !Accepted(assertion.value) <==>
                r.Err? && (r.error.IdentifierBlank? || r.error.DefinitionTooLarge? || r.error.DefinitionUnreadable?))
            && (r == Err(AssertionConflict) <==>
                assertion.Some? && Accepted(assertion.value) && geo.crsKey.KeyDeclared?)
            && (r == Err(AxisOrderUnestablished) <==>
                && assertion.Some? && Accepted(assertion.value) && !geo.crsKey.KeyDeclared?
                && assertion.value.definition.None?)
            && (r == Err(CrsUndeclared) <==>
                assertion.None? && (geo.crsKey.KeyNull? || (geo.crsKey.KeyAbsent? && !Pinned(geo))))
            && (forall axis :: r == Err(AxisOrderUnsupported(axis)) <==>
                               DataOrder(geo, assertion) == Some(axis) && axis in Y_FIRST)
            && (r.Ok? <==> DataOrder(geo, assertion).Some? && DataOrder(geo, assertion).value !in Y_FIRST)
            && (r.Ok? ==> DataOrder(geo, assertion) == Some(r.value.crs.facts.axis))
  {
  }

  /** Everything an admitted record promises: the data's order is x-first; a definition's own order is
      kept whenever there was a definition; the source says `format-rule` exactly when the class is the
      format default, and then there is no definition; an override is always backed by a rule. */
  lemma {:induction false} RecordsAreTruthful(geo: GeoMeta, assertion: Option<Assertion>)
    requires Parsed(geo) && (assertion.Some? ==> Coherent(assertion.value)) && OpenCrs(geo, assertion).Ok?
    ensures var r := OpenCrs(geo, assertion).value;
            && r.crs.facts.axis !in Y_FIRST
            && (r.crs.source.FormatRule? <==> r.crsProvenance.CrsFormatDefault?)
            && (r.crs.source.CallerAsserted? <==> assertion.Some?)
            && (r.crsProvenance.CrsFormatDefault? ==>
                  r.crs.facts == CrsFacts(FORMAT_DEFAULT_CRS, None, LongitudeLatitude))
            && (r.crsProvenance.CrsDeclared? ==>
                  && geo.declaredCrs.Some? && r.declaredAxisOrder == Some(geo.declaredCrs.value.axis)
                  && r.crs.facts.identifier == geo.declaredCrs.value.identifier
                  && r.crs.facts.definition == geo.declaredCrs.value.definition)
            && (r.crsProvenance.CrsAsserted? <==> assertion.Some?) && (r.crs.asserted <==> assertion.Some?)
            && (assertion.Some? ==>
                  && r.crs.facts.identifier == assertion.value.identifier
                  && r.crs.facts.definition == assertion.value.definition
                  && assertion.value.axis == Some(Some(r.crs.facts.axis))
                  && r.declaredAxisOrder == Some(r.crs.facts.axis))
            && (r.rule == Some(AbsentDefault) <==> r.crsProvenance.CrsFormatDefault?)
            && (r.rule == Some(CoordinateAxisOrder) <==>
                  assertion.None? && geo.declaredCrs.Some? && geo.declaredCrs.value.axis in Y_FIRST)
            && (r.declaredAxisOrder.Some? <==> r.crs.facts.definition.Some?)
            && (r.axisProvenance.AxisFormatOverride? <==> r.rule.Some?)
            && (r.declaredAxisOrder.Some? ==>
                  (r.axisProvenance.AxisFormatOverride? <==> r.declaredAxisOrder.value != r.crs.facts.axis))
  {
  }
}

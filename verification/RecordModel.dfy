/**
 * Record values, stored rows, grants and disclosure: the pure part of
 * personal-server/pdpp/grant-scoped-records-repository.js.
 *
 * A payload is stored as canonical JSON text (object keys sorted), so two payload texts are
 * equal exactly when the values are; module CanonicalJson proves that, and here a payload is
 * the value itself. Timestamps stay strings; what the calendar says about them is a parameter
 * of the stream's metadata.
 */
module RecordModel {
  import opened Wrappers

  datatype Value =
    | Null
    | Text(text: string)
    | Number(number: real)
    | Boolean(flag: bool)
    | Array(items: seq<Value>)
    | Object(members: map<string, Value>)

  type Data = map<string, Value>

  datatype Kind = StringKind | IntegerKind | NumberKind | BooleanKind | ArrayKind | ObjectKind | NullKind

  datatype Format = Date | DateTime

  /** The record contract of one stream; `isTemporal` and `instant` stand for Date.parse. */
  datatype StreamMetadata = StreamMetadata(
    requiredFields: seq<string>,
    cursorField: string,
    consentTimeField: Option<string>,
    fields: seq<string>,
    fieldTypes: map<string, set<Kind>>,
    fieldFormats: map<string, Format>,
    isTemporal: (string, Format) -> bool,
    instant: string -> int)

  /** One row of current_records or of record_changes; the two tables share their columns. */
  datatype Row = Row(
    key: string,
    version: nat,
    payload: Data,
    emittedAt: string,
    deleted: bool,
    deletedAt: Option<string>)

  datatype TimeRange = TimeRange(since: Option<string>, until: Option<string>)

  /** A normalized grant; None means "not restricted". */
  datatype Grant = Grant(
    fields: Option<seq<string>>,
    resources: Option<seq<string>>,
    timeRange: Option<TimeRange>)

  datatype Error =
    | InvalidRequest(name: string)
    | InvalidRecord
    | InvalidRecordIdentity
    | InvalidSnapshot
    | UnknownField(name: string)
    | GrantInvalid
    | FieldNotGranted
    | InvalidCursor
    | CursorExpired

  // ---------- Disclosure ----------

  function Restrict(data: Data, fields: seq<string>): Data {
    map f | f in data && f in fields :: data[f]
  }

  /** The consent timestamp of a record, when the stream has one and the record carries it. */
  function ConsentTime(data: Data, md: StreamMetadata): Option<Value> {
    if md.consentTimeField.Some? && md.consentTimeField.value in data && data[md.consentTimeField.value] != Null
    then Some(data[md.consentTimeField.value])
    else None
  }

  /** A bound that is absent or empty does not restrict. */
  predicate Bounds(bound: Option<string>) {
    bound.Some? && bound.value != ""
  }

  predicate InTimeRange(data: Data, range: TimeRange, md: StreamMetadata) {
    match ConsentTime(data, md)
    case None => false
    case Some(time) =>
      && !(Bounds(range.since) && time.Text? && md.instant(time.text) < md.instant(range.since.value))
      && !(Bounds(range.until) && time.Text? && md.instant(time.text) >= md.instant(range.until.value))
  }

  predicate InResources(data: Data, resources: seq<string>) {
    "id" in data && data["id"].Text? && data["id"].text in resources
  }

  /** What a grant lets a reader see of a row, if anything. */
  function Disclose(row: Row, grant: Grant, md: StreamMetadata): Option<Data> {
    if row.deleted then None
    else if grant.resources.Some? && !InResources(row.payload, grant.resources.value) then None
    else if grant.timeRange.Some? && !InTimeRange(row.payload, grant.timeRange.value, md) then None
    else
      var manifestData := Restrict(row.payload, md.fields);
      Some(if grant.fields.Some? then Restrict(manifestData, grant.fields.value) else manifestData)
  }

  /** What a grant asks of a row: live, a granted resource, and a consent time inside the granted range. */
  ghost predicate Granted(row: Row, grant: Grant, md: StreamMetadata) {
    && !row.deleted
    && (grant.resources.Some? ==>
      exists r | r in grant.resources.value :: "id" in row.payload && row.payload["id"] == Text(r))
    && (grant.timeRange.Some? ==>
      && md.consentTimeField.Some? && md.consentTimeField.value in row.payload
      && var (time, range) := (row.payload[md.consentTimeField.value], grant.timeRange.value);
         && time != Null
         && (range.since.Some? && range.since.value != "" && time.Text? ==>
           md.instant(range.since.value) <= md.instant(time.text))
         && (range.until.Some? && range.until.value != "" && time.Text? ==>
           md.instant(time.text) < md.instant(range.until.value)))
  }

  /**
   * Disclosure is exactly what the grant allows: a row is shown if and only if it is live, one
   * of the granted resources and inside the granted time range; a field of it is shown if and
   * only if it is stored, declared and granted, and it is shown as stored.
   */
  lemma DisclosureExact(row: Row, grant: Grant, md: StreamMetadata)
    ensures Disclose(row, grant, md).Some? <==> Granted(row, grant, md)
    ensures Disclose(row, grant, md).Some? ==>
      var shown := Disclose(row, grant, md).value;
      && (forall f ::
        f in shown <==> f in row.payload && f in md.fields && (grant.fields.Some? ==> f in grant.fields.value))
      && (forall f | f in shown :: shown[f] == row.payload[f])
  {
    if grant.resources.Some? && "id" in row.payload && row.payload["id"].Text? {
      assert forall r | r in grant.resources.value :: row.payload["id"] == Text(r) <==> row.payload["id"].text == r;
    }
  }

  /**
   * The granted time range, bound by bound: a record without a consent time is never shown under
   * one, an earlier one not under `since`, a later one not under `until`, and a record between
   * the bounds is shown as it is without the range.
   */
  lemma TimeRangeExact(row: Row, grant: Grant, md: StreamMetadata, f: string, range: TimeRange)
    requires md.consentTimeField == Some(f) && grant.timeRange == Some(range)
    ensures f !in row.payload || row.payload[f] == Null ==> Disclose(row, grant, md).None?
    ensures forall t, s | f in row.payload && row.payload[f] == Text(t) && range.since == Some(s) && s != ""
      && md.instant(t) < md.instant(s) :: Disclose(row, grant, md).None?
    ensures forall t, u | f in row.payload && row.payload[f] == Text(t) && range.until == Some(u) && u != ""
      && md.instant(t) >= md.instant(u) :: Disclose(row, grant, md).None?
    ensures forall t | f in row.payload && row.payload[f] == Text(t)
      && (range.since.Some? && range.since.value != "" ==> md.instant(range.since.value) <= md.instant(t))
      && (range.until.Some? && range.until.value != "" ==> md.instant(t) < md.instant(range.until.value)) ::
      Disclose(row, grant, md) == Disclose(row, grant.(timeRange := None), md)
  {
  }

  // ---------- Validation ----------

  function TypesOf(md: StreamMetadata, field: string): set<Kind> {
    if field in md.fieldTypes then md.fieldTypes[field] else {StringKind}
  }

  function FormatOf(md: StreamMetadata, field: string): Format {
    if field in md.fieldFormats then md.fieldFormats[field] else DateTime
  }

  predicate MatchesSchemaType(value: Value, types: set<Kind>) {
    match value
    case Null => NullKind in types
    case Text(t) => StringKind in types && |t| > 0
    case Number(n) => NumberKind in types || (n == n.Floor as real && IntegerKind in types)
    case Boolean(_) => BooleanKind in types
    case Array(_) => ArrayKind in types
    case Object(_) => ObjectKind in types
  }

  predicate ValidTemporal(md: StreamMetadata, data: Data, field: string) {
    && field in data && data[field].Text?
    && md.isTemporal(data[field].text, FormatOf(md, field))
  }

  /** The checks on a live record, in the order the source makes them; `input` is None when it is no object. */
  function ValidateLive(key: string, input: Option<Data>, emittedAt: string, md: StreamMetadata): Option<Error> {
    if key == "" then Some(InvalidRequest("key"))
    else if input.None? then Some(InvalidRecord)
    else
      var data := input.value;
      if exists f | f in md.requiredFields ::
        f !in data || !MatchesSchemaType(data[f], TypesOf(md, f)) then Some(InvalidRecord)
      else if "id" !in data || data["id"] != Text(key) then Some(InvalidRecordIdentity)
      else if md.consentTimeField.Some? && md.consentTimeField.value != ""
        && !ValidTemporal(md, data, md.consentTimeField.value) then Some(InvalidRecord)
      else if md.cursorField in data && data[md.cursorField] != Null && !ValidTemporal(md, data, md.cursorField)
        then Some(InvalidRecord)
      else if !md.isTemporal(emittedAt, DateTime) then Some(InvalidRecord)
      else None
  }

  /** A value of one of these JSON types; a string counts when it is not empty. */
  ghost predicate HasKind(value: Value, types: set<Kind>) {
    || (value == Null && NullKind in types)
    || (exists t :: value == Text(t) && t != "" && StringKind in types)
    || (exists n :: value == Number(n) && NumberKind in types)
    || (value.Number? && value.number.Floor as real == value.number && IntegerKind in types)
    || (exists b :: value == Boolean(b) && BooleanKind in types)
    || (exists items :: value == Array(items) && ArrayKind in types)
    || (exists members :: value == Object(members) && ObjectKind in types)
  }

  lemma MatchesIsHasKind(value: Value, types: set<Kind>)
    ensures MatchesSchemaType(value, types) <==> HasKind(value, types)
  {
  }

  /** A time in the field's format, which is date-time unless the schema says date. */
  ghost predicate HasTime(data: Data, field: string, md: StreamMetadata) {
    && field in data && data[field].Text?
    && if field in md.fieldFormats && md.fieldFormats[field] == Date then md.isTemporal(data[field].text, Date)
       else md.isTemporal(data[field].text, DateTime)
  }

  /** Everything required has a declared type, a string where none is declared. */
  ghost predicate HasRequired(data: Data, md: StreamMetadata) {
    forall f | f in md.requiredFields ::
      && f in data
      && if f in md.fieldTypes then HasKind(data[f], md.fieldTypes[f]) else exists t :: data[f] == Text(t) && t != ""
  }

  /** What a stored record is: its own key as id, everything required, and times that can be read. */
  ghost predicate ProperRecord(key: string, data: Data, emittedAt: string, md: StreamMetadata) {
    && key != "" && "id" in data && data["id"] == Text(key)
    && HasRequired(data, md)
    && (forall f | md.consentTimeField == Some(f) && f != "" :: HasTime(data, f, md))
    && (md.cursorField in data && data[md.cursorField] != Null ==> HasTime(data, md.cursorField, md))
    && md.isTemporal(emittedAt, DateTime)
  }

  /** A live record is accepted exactly when it is a proper one; the error names the first check that fails. */
  lemma RecordAcceptedIff(key: string, input: Option<Data>, emittedAt: string, md: StreamMetadata)
    ensures ValidateLive(key, input, emittedAt, md) == None <==>
      input.Some? && ProperRecord(key, input.value, emittedAt, md)
    ensures ValidateLive(key, input, emittedAt, md) ==
      if key == "" then Some(InvalidRequest("key"))
      else if input.None? || !HasRequired(input.value, md) then Some(InvalidRecord)
      else if "id" !in input.value || input.value["id"] != Text(key) then Some(InvalidRecordIdentity)
      else if !ProperRecord(key, input.value, emittedAt, md) then Some(InvalidRecord)
      else None
  {
    if input.Some? {
      forall f | f in md.requiredFields && f in input.value { MatchesIsHasKind(input.value[f], TypesOf(md, f)); }
      forall f ensures ValidTemporal(md, input.value, f) <==> HasTime(input.value, f, md) {}
      assert (exists f | f in md.requiredFields ::
        f !in input.value || !MatchesSchemaType(input.value[f], TypesOf(md, f))) <==> !HasRequired(input.value, md);
    }
  }

  /** A deletion is accepted exactly when it names a key and a time that can be read. */
  lemma DeletionAcceptedIff(key: string, emittedAt: string, md: StreamMetadata)
    ensures ValidateDelete(key, emittedAt, md) == None <==> key != "" && md.isTemporal(emittedAt, DateTime)
    ensures key == "" ==> ValidateDelete(key, emittedAt, md) == Some(InvalidRequest("key"))
    ensures key != "" && !md.isTemporal(emittedAt, DateTime) ==>
      ValidateDelete(key, emittedAt, md) == Some(InvalidRecord)
  {
  }

  function ValidateDelete(key: string, emittedAt: string, md: StreamMetadata): Option<Error> {
    if key == "" then Some(InvalidRequest("key"))
    else if !md.isTemporal(emittedAt, DateTime) then Some(InvalidRecord)
    else None
  }
}

/** Normalizing a reader's request: the grant, the requested fields and the page limit. */
module Grants {
  import opened Wrappers
  import opened RecordModel

  /** The same names without repetitions, each at its first place. */
  function Distinct(names: seq<string>): (r: seq<string>)
    ensures forall n :: n in r <==> n in names
    ensures forall i, j | 0 <= i < j < |r| :: r[i] != r[j]
  {
    if names == [] then []
    else
      var init := Distinct(names[..|names| - 1]);
      var last := names[|names| - 1];
      assert names == names[..|names| - 1] + [last];
      if last in init then init else init + [last]
  }

  /** A list of fields: empty and undeclared names are refused. */
  function NormalizeFields(value: seq<string>, name: string, md: StreamMetadata): Result<seq<string>, Error> {
    if "" in value then Failure(InvalidRequest(name))
    else if exists f | f in value :: f !in md.fields then Failure(UnknownField(name))
    else Success(value)
  }

  function NormalizeOptionalFields(
    value: Option<seq<string>>, name: string, md: StreamMetadata): Result<Option<seq<string>>, Error> {
    match value
    case None => Success(None)
    case Some(fields) =>
      match NormalizeFields(fields, name, md)
      case Failure(e) => Failure(e)
      case Success(fs) => Success(Some(fs))
  }

  /** Selecting fields, and the ways a request can ask for too much. */
  function SelectFields(
    granted: Option<seq<string>>, requested: Option<seq<string>>,
    md: StreamMetadata): Result<Option<seq<string>>, Error> {
    match NormalizeOptionalFields(granted, "grant.fields", md)
    case Failure(e) => Failure(e)
    case Success(grantFields) =>
      if grantFields.Some? && exists f | f in md.requiredFields :: f !in grantFields.value then Failure(GrantInvalid)
      else
        match NormalizeOptionalFields(requested, "fields", md)
        case Failure(e) => Failure(e)
        case Success(requestFields) =>
          if requestFields.Some? && grantFields.Some? && exists f | f in requestFields.value ::
            f !in grantFields.value then Failure(FieldNotGranted)
          else
            var selected := if requestFields.Some? then requestFields else grantFields;
            Success(if selected.Some? then Some(Distinct(selected.value)) else None)
  }

  ghost predicate Declared(fields: Option<seq<string>>, md: StreamMetadata) {
    fields.Some? ==> forall f | f in fields.value :: f != "" && f in md.fields
  }

  /**
   * Fields are accepted exactly when everything granted and everything requested is a declared,
   * non-empty name, the grant covers what is required, and the request stays inside the grant;
   * the selection is then the request, else the grant, without repetitions.
   */
  lemma SelectionIff(granted: Option<seq<string>>, requested: Option<seq<string>>, md: StreamMetadata)
    ensures SelectFields(granted, requested, md).Success? <==>
      && Declared(granted, md) && Declared(requested, md)
      && (granted.Some? ==> forall f | f in md.requiredFields :: f in granted.value)
      && (granted.Some? && requested.Some? ==> forall f | f in requested.value :: f in granted.value)
    ensures SelectFields(granted, requested, md).Success? ==>
      var selected := SelectFields(granted, requested, md).value;
      && (selected.Some? <==> granted.Some? || requested.Some?)
      && (selected.Some? ==>
        forall f :: f in selected.value <==> f in (if requested.Some? then requested.value else granted.value))
    ensures SelectFields(granted, requested, md).Failure? ==>
      SelectFields(granted, requested, md).error ==
      if granted.Some? && "" in granted.value then InvalidRequest("grant.fields")
      else if !Declared(granted, md) then UnknownField("grant.fields")
      else if granted.Some? && !(forall f | f in md.requiredFields :: f in granted.value) then GrantInvalid
      else if requested.Some? && "" in requested.value then InvalidRequest("fields")
      else if !Declared(requested, md) then UnknownField("fields")
      else FieldNotGranted
  {
  }

  predicate BoundInvalid(bound: Option<string>, md: StreamMetadata) {
    Bounds(bound) && !md.isTemporal(bound.value, DateTime)
  }

  function NormalizeGrant(grant: Grant, requested: Option<seq<string>>, md: StreamMetadata): Result<Grant, Error> {
    match SelectFields(grant.fields, requested, md)
    case Failure(e) => Failure(e)
    case Success(fields) =>
      if grant.resources.Some? && "" in grant.resources.value then Failure(InvalidRequest("grant.resources"))
      else if grant.timeRange.Some? && (md.consentTimeField.None? || md.consentTimeField.value == "")
        then Failure(InvalidRequest("time_range"))
      else if grant.timeRange.Some?
        && (BoundInvalid(grant.timeRange.value.since, md) || BoundInvalid(grant.timeRange.value.until, md)) then
        Failure(InvalidRequest("grant.timeRange"))
      else Success(Grant(fields, grant.resources, grant.timeRange))
  }

  /** A bound that is given and not empty can be read. */
  ghost predicate Readable(bound: Option<string>, md: StreamMetadata) {
    forall t | bound == Some(t) && t != "" :: md.isTemporal(t, DateTime)
  }

  /**
   * A grant is accepted exactly when its fields and the requested ones are, no resource is
   * empty, and a time range has bounds that can be read on a stream with a consent time; of it
   * only the fields change.
   */
  lemma GrantAcceptedIff(grant: Grant, requested: Option<seq<string>>, md: StreamMetadata)
    ensures NormalizeGrant(grant, requested, md).Success? <==>
      && SelectFields(grant.fields, requested, md).Success?
      && (grant.resources.Some? ==> "" !in grant.resources.value)
      && (forall range | grant.timeRange == Some(range) ::
        (exists f :: md.consentTimeField == Some(f) && f != "") && Readable(range.since, md)
          && Readable(range.until, md))
    ensures NormalizeGrant(grant, requested, md).Success? ==>
      NormalizeGrant(grant, requested, md).value
        == Grant(SelectFields(grant.fields, requested, md).value, grant.resources, grant.timeRange)
    ensures NormalizeGrant(grant, requested, md).Failure? ==>
      NormalizeGrant(grant, requested, md).error ==
      if SelectFields(grant.fields, requested, md).Failure? then SelectFields(grant.fields, requested, md).error
      else if grant.resources.Some? && "" in grant.resources.value then InvalidRequest("grant.resources")
      else if md.consentTimeField == None || md.consentTimeField == Some("") then InvalidRequest("time_range")
      else InvalidRequest("grant.timeRange")
  {
  }

  /** A page holds what was asked for, a hundred at most; asking for none or less is refused. */
  lemma LimitExact(limit: int)
    ensures limit < 1 ==> NormalizeLimit(limit) == Failure(InvalidRequest("limit"))
    ensures 1 <= limit <= 100 ==> NormalizeLimit(limit) == Success(limit)
    ensures limit > 100 ==> NormalizeLimit(limit) == Success(100)
  {
  }

  const MAX_LIMIT: nat := 100

  function NormalizeLimit(limit: int): Result<nat, Error> {
    if limit < 1 then Failure(InvalidRequest("limit")) else Success(Min(limit, MAX_LIMIT))
  }

  /** A normalized grant never discloses more than the grant it came from. */
  lemma NormalizedGrantNarrows(grant: Grant, requested: Option<seq<string>>, md: StreamMetadata, row: Row)
    requires NormalizeGrant(grant, requested, md).Success?
    ensures var g := NormalizeGrant(grant, requested, md).value;
      && (Disclose(row, g, md).Some? <==> Disclose(row, grant, md).Some?)
      && (Disclose(row, g, md).Some? ==>
            forall f | f in Disclose(row, g, md).value ::
              f in Disclose(row, grant, md).value && Disclose(row, g, md).value[f] == Disclose(row, grant, md).value[f])
      && (requested.None? ==> Disclose(row, g, md) == Disclose(row, grant, md))
  {
    var g := NormalizeGrant(grant, requested, md).value;
    if requested.None? && grant.fields.Some? {
      var data := Restrict(row.payload, md.fields);
      assert Restrict(data, g.fields.value) == Restrict(data, grant.fields.value);
    }
  }
}

/**
 * The layer above the repository, personal-server/pdpp/operations.js: which fields a request
 * may read, which filters it may carry, and the projection of what the repository returns.
 */
module FieldSelection {
  import opened Wrappers
  import opened RecordModel
  import opened RecordHistory
  import opened ChangeSessions
  import opened Replication
  import opened Grants

  datatype ManifestView = ManifestView(id: string, fields: seq<string>)

  /** `scalars` are the properties whose schema type has a string, number, integer or boolean. */
  datatype ManifestStream = ManifestStream(name: string, properties: seq<string>, required: seq<string>,
    views: seq<ManifestView>, scalars: seq<string>)

  datatype GrantStream = GrantStream(name: string, grant: Grant)

  /** An empty view name counts as no view; `filters` are the names of the fields filtered by. */
  datatype Query = Query(view: string, fields: Option<seq<string>>, filters: seq<string>)

  datatype Refusal =
    | StreamNotFound
    | StreamNotGranted
    | InvalidGrantFields
    | Contradictory
    | UnknownView
    | NoSuchField(name: string)
    | NotGranted(name: string)
    | NotFilterable(name: string)

  datatype ReadContext = ReadContext(stream: ManifestStream, grant: Grant, fields: seq<string>)

  /** createStreamMetadata keeps the schema's names and refuses required fields outside them. */
  predicate Describes(md: StreamMetadata, stream: ManifestStream) {
    && md.fields == stream.properties
    && md.requiredFields == stream.required
    && (forall f | f in stream.required :: f in stream.properties)
  }

  // ---------- Finding by name ----------

  function FindStream(streams: seq<ManifestStream>, name: string): Option<ManifestStream> {
    if streams == [] then None else if streams[0].name == name then Some(streams[0]) else FindStream(streams[1..], name)
  }

  function FindGrant(grants: seq<GrantStream>, name: string): Option<Grant> {
    if grants == [] then None else if grants[0].name == name then Some(grants[0].grant)
      else FindGrant(grants[1..], name)
  }

  function FindView(views: seq<ManifestView>, id: string): Option<seq<string>> {
    if views == [] then None else if views[0].id == id then Some(views[0].fields) else FindView(views[1..], id)
  }

  /** The first stream declared under a name counts. */
  lemma {:induction false} StreamFound(streams: seq<ManifestStream>, name: string)
    ensures match FindStream(streams, name)
      case None => forall i | 0 <= i < |streams| :: streams[i].name != name
      case Some(found) => exists i ::
        0 <= i < |streams| && streams[i].name == name && streams[i] == found && forall j | 0 <= j < i ::
          streams[j].name != name
  {
    if streams != [] && streams[0].name != name {
      StreamFound(streams[1..], name);
      if FindStream(streams, name).Some? {
        var i :| 0 <= i < |streams| - 1 && streams[1..][i].name == name
          && streams[1..][i] == FindStream(streams, name).value
          && forall j | 0 <= j < i :: streams[1..][j].name != name;
        assert streams[i + 1] == streams[1..][i];
        forall j | 0 < j < i + 1 ensures streams[j].name != name { assert streams[j] == streams[1..][j - 1]; }
      } else {
        forall i | 0 < i < |streams| ensures streams[i].name != name { assert streams[i] == streams[1..][i - 1]; }
      }
    }
  }

  /** The first grant for a name counts. */
  lemma {:induction false} GrantFound(grants: seq<GrantStream>, name: string)
    ensures match FindGrant(grants, name)
      case None => forall i | 0 <= i < |grants| :: grants[i].name != name
      case Some(found) => exists i ::
        0 <= i < |grants| && grants[i].name == name && grants[i].grant == found && forall j | 0 <= j < i ::
          grants[j].name != name
  {
    if grants != [] && grants[0].name != name {
      GrantFound(grants[1..], name);
      if FindGrant(grants, name).Some? {
        var i :| 0 <= i < |grants| - 1 && grants[1..][i].name == name
          && grants[1..][i].grant == FindGrant(grants, name).value
          && forall j | 0 <= j < i :: grants[1..][j].name != name;
        assert grants[i + 1] == grants[1..][i];
        forall j | 0 < j < i + 1 ensures grants[j].name != name { assert grants[j] == grants[1..][j - 1]; }
      } else {
        forall i | 0 < i < |grants| ensures grants[i].name != name { assert grants[i] == grants[1..][i - 1]; }
      }
    }
  }

  /** The first view with an id counts. */
  lemma {:induction false} ViewFound(views: seq<ManifestView>, id: string)
    ensures match FindView(views, id)
      case None => forall i | 0 <= i < |views| :: views[i].id != id
      case Some(found) => exists i ::
        0 <= i < |views| && views[i].id == id && views[i].fields == found && forall j | 0 <= j < i :: views[j].id != id
  {
    if views != [] && views[0].id != id {
      ViewFound(views[1..], id);
      if FindView(views, id).Some? {
        var i :| 0 <= i < |views| - 1 && views[1..][i].id == id && views[1..][i].fields == FindView(views, id).value
          && forall j | 0 <= j < i :: views[1..][j].id != id;
        assert views[i + 1] == views[1..][i];
        forall j | 0 < j < i + 1 ensures views[j].id != id { assert views[j] == views[1..][j - 1]; }
      } else {
        forall i | 0 < i < |views| ensures views[i].id != id { assert views[i] == views[1..][i - 1]; }
      }
    }
  }

  // ---------- Resolving a request ----------

  predicate ValidGrantFields(stream: ManifestStream, grant: Grant) {
    grant.fields.Some? ==>
      && (forall f | f in grant.fields.value :: f in stream.properties)
      && (forall f | f in stream.required :: f in grant.fields.value)
  }

  function FieldRefusal(stream: ManifestStream, grant: Grant, field: string): Option<Refusal> {
    if field !in stream.properties then Some(NoSuchField(field))
    else if grant.fields.Some? && field !in grant.fields.value then Some(NotGranted(field))
    else None
  }

  /** The fields a request names, through a view or directly; None when it names none. */
  function NamedFields(stream: ManifestStream, query: Query): Result<Option<seq<string>>, Refusal> {
    if query.view != "" && query.fields.Some? then Failure(Contradictory)
    else if query.view == "" then Success(query.fields)
    else
      match FindView(stream.views, query.view)
      case None => Failure(UnknownView)
      case Some(fields) => Success(Some(fields))
  }

  ghost predicate AllReadable(stream: ManifestStream, grant: Grant, fields: seq<string>) {
    forall f | f in fields :: f in stream.properties && (grant.fields.Some? ==> f in grant.fields.value)
  }

  /** The names that end up selected: required plus named ones, else the grant's, else all. */
  function SelectedNames(stream: ManifestStream, grant: Grant, named: Option<seq<string>>): seq<string> {
    if named.Some? then stream.required + named.value
    else if grant.fields.Some? then grant.fields.value
    else stream.properties
  }

  /** A grant's field list is in order when it stays inside the schema and covers what is required. */
  lemma AllowlistMeaning(stream: ManifestStream, grant: Grant)
    ensures ValidGrantFields(stream, grant) <==> forall fields | grant.fields == Some(fields) ::
      (forall f | f in fields :: f in stream.properties) && (forall f | f in stream.required :: f in fields)
  {
  }

  /**
   * What a query names: its own fields without a view, the view's without fields of its own; both
   * together contradict each other, and a view must exist.
   */
  lemma NamedMeaning(stream: ManifestStream, query: Query)
    ensures query.view == "" ==> NamedFields(stream, query) == Success(query.fields)
    ensures query.view != "" && query.fields != None ==> NamedFields(stream, query) == Failure(Contradictory)
    ensures query.view != "" && query.fields == None ==>
      NamedFields(stream, query) ==
      match FindView(stream.views, query.view)
      case Some(fields) => Success(Some(fields))
      case None => Failure(UnknownView)
  {
  }

  /**
   * What is selected: everything required and everything named, if the query names fields; else
   * what is granted; and without a restriction every property. Each once.
   */
  lemma SelectedMeaning(stream: ManifestStream, grant: Grant, named: Option<seq<string>>, f: string)
    ensures f in Distinct(SelectedNames(stream, grant, named)) <==>
      if named != None then f in stream.required || f in named.value
      else if grant.fields != None then f in grant.fields.value
      else f in stream.properties
    ensures var fields := Distinct(SelectedNames(stream, grant, named));
      forall i, j | 0 <= i < j < |fields| :: fields[i] != fields[j]
  {
  }

  /** Why a field is refused: it does not exist, it cannot be filtered by, or it is not granted, in this order. */
  lemma RefusalMeaning(stream: ManifestStream, grant: Grant, field: string)
    ensures FieldRefusal(stream, grant, field) == Some(NoSuchField(field)) <==> field !in stream.properties
    ensures FieldRefusal(stream, grant, field) == None <==>
      field in stream.properties && forall fields | grant.fields == Some(fields) :: field in fields
    ensures field in stream.properties && FieldRefusal(stream, grant, field) != None ==>
      FieldRefusal(stream, grant, field) == Some(NotGranted(field))
    ensures field !in stream.properties ==> FilterRefusal(stream, grant, field) == Some(NoSuchField(field))
    ensures field in stream.properties && field !in stream.scalars ==>
      FilterRefusal(stream, grant, field) == Some(NotFilterable(field))
    ensures field in stream.properties && field in stream.scalars ==>
      FilterRefusal(stream, grant, field) == FieldRefusal(stream, grant, field)
  {
  }

  method ResolveRequestedFields(stream: ManifestStream, grant: Grant, query: Query)
    returns (r: Result<seq<string>, Refusal>)
    ensures match NamedFields(stream, query)
      case Failure(e) => r == Failure(e)
      case Success(named) =>
        && (r.Success? <==> (named.Some? ==> AllReadable(stream, grant, named.value)))
        && (r.Success? ==> r.value == Distinct(SelectedNames(stream, grant, named)))
        && (r.Failure? ==> named.Some? && exists i ::
              0 <= i < |named.value| && FieldRefusal(stream, grant, named.value[i]) == Some(r.error)
                && AllReadable(stream, grant, named.value[..i]))
  {
    var requested := NamedFields(stream, query);
    if requested.Failure? { return Failure(requested.error); }
    var named := requested.value;
    if named.Some? {
      for i := 0 to |named.value|
        invariant AllReadable(stream, grant, named.value[..i])
      {
        var refusal := FieldRefusal(stream, grant, named.value[i]);
        if refusal.Some? {
          assert named.value[i] in named.value;
          return Failure(refusal.value);
        }
      }
      assert named.value[..|named.value|] == named.value;
    }
    return Success(Distinct(SelectedNames(stream, grant, named)));
  }

  function FilterRefusal(stream: ManifestStream, grant: Grant, field: string): Option<Refusal> {
    if field !in stream.properties then Some(NoSuchField(field))
    else if field !in stream.scalars then Some(NotFilterable(field))
    else if grant.fields.Some? && field !in grant.fields.value then Some(NotGranted(field))
    else None
  }

  ghost predicate AllFilterable(stream: ManifestStream, grant: Grant, filters: seq<string>) {
    forall f | f in filters ::
      f in stream.properties && f in stream.scalars && (grant.fields.Some? ==> f in grant.fields.value)
  }

  /** Filters are refused at the first field that does not exist, is no scalar, or is not granted. */
  method ValidateFilters(stream: ManifestStream, grant: Grant, filters: seq<string>) returns (refusal: Option<Refusal>)
    ensures refusal.None? <==> AllFilterable(stream, grant, filters)
    ensures refusal.Some? ==> exists i ::
      0 <= i < |filters| && FilterRefusal(stream, grant, filters[i]) == refusal
      && AllFilterable(stream, grant, filters[..i])
  {
    for i := 0 to |filters|
      invariant AllFilterable(stream, grant, filters[..i])
    {
      refusal := FilterRefusal(stream, grant, filters[i]);
      if refusal.Some? {
        assert filters[i] in filters;
        return;
      }
    }
    assert filters[..|filters|] == filters;
    return None;
  }

  /**
   * A request is accepted exactly when its stream is declared and granted, the grant's fields
   * are a valid allowlist, every field it names exists and is granted, and every field it filters
   * by exists, is a scalar and is granted.
   */
  method ResolveReadContext(streams: seq<ManifestStream>, grants: seq<GrantStream>, name: string, query: Query)
    returns (r: Result<ReadContext, Refusal>)
    ensures r.Success? <==>
      && FindStream(streams, name).Some? && FindGrant(grants, name).Some?
      && var (stream, grant) := (FindStream(streams, name).value, FindGrant(grants, name).value);
         && ValidGrantFields(stream, grant)
         && NamedFields(stream, query).Success?
         && (NamedFields(stream, query).value.Some? ==>
           AllReadable(stream, grant, NamedFields(stream, query).value.value))
         && AllFilterable(stream, grant, query.filters)
    ensures r.Success? ==>
      && r.value.stream == FindStream(streams, name).value && r.value.grant == FindGrant(grants, name).value
      && Resolved(r.value, query)
    ensures FindStream(streams, name).None? ==> r == Failure(StreamNotFound)
    ensures FindStream(streams, name).Some? && FindGrant(grants, name).None? ==> r == Failure(StreamNotGranted)
    ensures FindStream(streams, name).Some? && FindGrant(grants, name).Some? ==>
      var (stream, grant) := (FindStream(streams, name).value, FindGrant(grants, name).value);
      && (!ValidGrantFields(stream, grant) ==> r == Failure(InvalidGrantFields))
      && (ValidGrantFields(stream, grant) && r.Failure? ==>
        match NamedFields(stream, query)
        case Failure(e) => r.error == e
        case Success(named) =>
          if named.Some? && !AllReadable(stream, grant, named.value)
          then exists f :: f in named.value && FieldRefusal(stream, grant, f) == Some(r.error)
          else exists f :: f in query.filters && FilterRefusal(stream, grant, f) == Some(r.error))
  {
    var stream := FindStream(streams, name);
    if stream.None? { return Failure(StreamNotFound); }
    var grant := FindGrant(grants, name);
    if grant.None? { return Failure(StreamNotGranted); }
    if !ValidGrantFields(stream.value, grant.value) { return Failure(InvalidGrantFields); }
    var fields := ResolveRequestedFields(stream.value, grant.value, query);
    if fields.Failure? { return Failure(fields.error); }
    var refusal := ValidateFilters(stream.value, grant.value, query.filters);
    if refusal.Some? { return Failure(refusal.value); }
    return Success(ReadContext(stream.value, grant.value, fields.value));
  }

  /** An accepted request with the fields it was given. */
  ghost predicate Resolved(context: ReadContext, query: Query) {
    && ValidGrantFields(context.stream, context.grant)
    && NamedFields(context.stream, query).Success?
    && var named := NamedFields(context.stream, query).value;
       && (named.Some? ==> AllReadable(context.stream, context.grant, named.value))
       && context.fields == Distinct(SelectedNames(context.stream, context.grant, named))
  }

  // ---------- Agreement with the repository ----------

  /**
   * The repository refuses the fields of an accepted request if and only if one of them, or one
   * of the grant's, is the empty name, which a schema may declare but the repository never takes.
   */
  lemma AcceptedFieldsRefusedIff(context: ReadContext, query: Query, md: StreamMetadata)
    requires Resolved(context, query) && Describes(md, context.stream)
    ensures SelectFields(context.grant.fields, Some(context.fields), md).Failure? <==>
      "" in context.fields || (context.grant.fields.Some? && "" in context.grant.fields.value)
    ensures SelectFields(context.grant.fields, None, md).Failure? <==>
      context.grant.fields.Some? && "" in context.grant.fields.value
  {
    SelectedReadable(context, query, md);
  }

  /** A schema without an empty property name never sees such a refusal. */
  lemma AcceptedFieldsNeverRefused(context: ReadContext, query: Query, md: StreamMetadata)
    requires Resolved(context, query) && Describes(md, context.stream) && "" !in context.stream.properties
    ensures SelectFields(context.grant.fields, Some(context.fields), md).Success?
    ensures SelectFields(context.grant.fields, None, md).Success?
  {
    SelectedReadable(context, query, md);
    AcceptedFieldsRefusedIff(context, query, md);
  }

  /** The selected fields exist, are granted, and include everything required. */
  lemma SelectedReadable(context: ReadContext, query: Query, md: StreamMetadata)
    requires Resolved(context, query) && Describes(md, context.stream)
    ensures forall f | f in context.fields ::
      f in context.stream.properties && (context.grant.fields.Some? ==> f in context.grant.fields.value)
    ensures forall f | f in context.stream.required :: f in context.fields
  {
    var named := NamedFields(context.stream, query).value;
    if named.Some? {
      assert forall f | f in named.value :: f in context.stream.properties;
    }
  }

  /** The refusal is real: a schema with a property "" besides "id", granted in full, all fields requested. */
  lemma EmptyNameRefused(md: StreamMetadata)
    requires md.fields == ["id", ""] && md.requiredFields == ["id"]
    ensures var context := ReadContext(ManifestStream("s", ["id", ""], ["id"], [], []), Grant(None, None, None),
      Distinct(["id", ""]));
      && Describes(md, context.stream)
      && Resolved(context, Query("", None, []))
      && SelectFields(None, Some(context.fields), md) == Failure(InvalidRequest("fields"))
  {
    assert ["id", ""][1] == "" && ["id", ""][0] == "id";
  }

  /** The loop over the selected fields. */
  method ProjectRecord(data: Data, fields: seq<string>) returns (projected: Data)
    ensures projected == Restrict(data, fields)
  {
    projected := map[];
    for i := 0 to |fields|
      invariant projected == Restrict(data, fields[..i])
    {
      if fields[i] in data { projected := projected[fields[i] := data[fields[i]]]; }
      assert fields[..i + 1] == fields[..i] + [fields[i]];
    }
    assert fields[..|fields|] == fields;
  }

  /**
   * After both projections a record holds exactly the stored values of the selected fields,
   * whether the repository was given the fields (a list of current records) or not (a single
   * record, a change list), and every record that passed validation still has all that is required.
   */
  lemma BothLayersExact(
    context: ReadContext, query: Query, md: StreamMetadata, requested: Option<seq<string>>, row: Row)
    requires Resolved(context, query) && Describes(md, context.stream)
    requires requested == None || requested == Some(context.fields)
    requires NormalizeGrant(context.grant, requested, md).Success?
    requires Disclose(row, NormalizeGrant(context.grant, requested, md).value, md).Some?
    ensures Restrict(Disclose(row, NormalizeGrant(context.grant, requested, md).value, md).value, context.fields)
      == Restrict(row.payload, context.fields)
    ensures ValidateLive(row.key, Some(row.payload), row.emittedAt, md) == None ==>
      forall f | f in md.requiredFields :: f in Restrict(row.payload, context.fields)
  {
    SelectedReadable(context, query, md);
    var g := NormalizeGrant(context.grant, requested, md).value;
    RestrictTwice(row.payload, md.fields, context.fields);
    if g.fields.Some? { RestrictTwice(Restrict(row.payload, md.fields), g.fields.value, context.fields); }
  }

  lemma RestrictTwice(data: Data, outer: seq<string>, inner: seq<string>)
    requires forall f | f in inner :: f in outer
    ensures Restrict(Restrict(data, outer), inner) == Restrict(data, inner)
  {
  }

  // ---------- Projected change lists ----------

  /** What the reader is sent for an entry; a tombstone has no data to project. */
  function ProjectEntry(e: Entry, fields: seq<string>): Entry {
    if e.Live? then e.(data := Restrict(e.data, fields)) else e
  }

  function ProjectEntries(es: seq<Entry>, fields: seq<string>): seq<Entry> {
    seq(|es|, i requires 0 <= i < |es| => ProjectEntry(es[i], fields))
  }

  function ProjectAll(client: map<string, Data>, fields: seq<string>): map<string, Data> {
    map k | k in client :: Restrict(client[k], fields)
  }

  lemma {:induction false} ProjectApply(client: map<string, Data>, es: seq<Entry>, fields: seq<string>)
    ensures Apply(ProjectAll(client, fields), ProjectEntries(es, fields)) == ProjectAll(Apply(client, es), fields)
    decreases |es|
  {
    if es != [] {
      assert ProjectEntries(es, fields)[1..] == ProjectEntries(es[1..], fields);
      assert ApplyEntry(ProjectAll(client, fields), ProjectEntry(es[0], fields))
        == ProjectAll(ApplyEntry(client, es[0]), fields);
      ProjectApply(ApplyEntry(client, es[0]), es[1..], fields);
    }
  }

  /** A client of the projected change list replicates the projected view. */
  lemma ProjectedSyncExact(h: seq<Row>, s: Session, context: ReadContext, query: Query, md: StreamMetadata)
    requires SessionFits(h, s) && Opening(s)
    requires Resolved(context, query) && Describes(md, context.stream)
    requires NormalizeGrant(context.grant, None, md).Success?
    ensures var g := NormalizeGrant(context.grant, None, md).value;
      Apply(Shown(h[..s.sinceVersion], g, context.fields, md),
        ProjectEntries(Listing(h, None, s, g, md), context.fields))
        == Shown(h[..s.horizonVersion], g, context.fields, md)
  {
    var g := NormalizeGrant(context.grant, None, md).value;
    DeltaSyncExact(h, s, g, md);
    ProjectApply(View(h[..s.sinceVersion], g, md), Listing(h, None, s, g, md), context.fields);
    ShownIsProjected(h[..s.sinceVersion], context, query, md);
    ShownIsProjected(h[..s.horizonVersion], context, query, md);
  }

  /** The visible records with the stored values of the selected fields. */
  ghost function Shown(h: seq<Row>, g: Grant, fields: seq<string>, md: StreamMetadata): map<string, Data> {
    map k | k in Latest(h) && Disclose(Latest(h)[k], g, md).Some? :: Restrict(Latest(h)[k].payload, fields)
  }

  lemma ShownIsProjected(h: seq<Row>, context: ReadContext, query: Query, md: StreamMetadata)
    requires Resolved(context, query) && Describes(md, context.stream)
    requires NormalizeGrant(context.grant, None, md).Success?
    ensures var g := NormalizeGrant(context.grant, None, md).value;
      ProjectAll(View(h, g, md), context.fields) == Shown(h, g, context.fields, md)
  {
    var g := NormalizeGrant(context.grant, None, md).value;
    forall k | k in View(h, g, md)
      ensures Restrict(View(h, g, md)[k], context.fields) == Restrict(Latest(h)[k].payload, context.fields)
    {
      BothLayersExact(context, query, md, None, Latest(h)[k]);
    }
  }
}

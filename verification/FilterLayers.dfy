/**
 * Exact filters across both layers: personal-server/pdpp/operations.js accepts a filter on any
 * granted scalar, while the repository judges it against the fields it was asked for.
 */
module FilterLayers {
  import opened Wrappers
  import opened RecordModel
  import opened Grants
  import opened FieldSelection
  import opened CurrentPages
  import opened CurrentFilters

  /** An accepted request and the filter it hands down. */
  ghost predicate Accepted(context: ReadContext, query: Query, entries: seq<FilterEntry>, md: StreamMetadata) {
    && Resolved(context, query) && Describes(md, context.stream)
    && AllFilterable(context.stream, context.grant, query.filters)
    && |entries| == |query.filters| && (forall i | 0 <= i < |entries| :: entries[i].field == query.filters[i])
    && NormalizeGrant(context.grant, Some(context.fields), md).Success?
  }

  /** The first field filtered by that was not asked for. */
  ghost predicate FirstUnselected(entries: seq<FilterEntry>, fields: seq<string>, b: nat) {
    && b < |entries| && entries[b].field !in fields
    && forall i | 0 <= i < b :: entries[i].field in fields
  }

  /** Of an accepted request the repository refuses no field but one that was not asked for. */
  lemma AcceptedEntryError(context: ReadContext, query: Query, entries: seq<FilterEntry>, md: StreamMetadata, i: nat)
    requires Accepted(context, query, entries, md) && i < |entries|
    ensures EntryError(entries[i].field, NormalizeGrant(context.grant, Some(context.fields), md).value, md)
      == if entries[i].field in context.fields then None else Some(FieldNotGranted)
  {
    SelectionIff(context.grant.fields, Some(context.fields), md);
    assert query.filters[i] in query.filters;
  }

  /**
   * The repository refuses an accepted filter if and only if it names a field that was not asked
   * for and some visible row satisfies every entry before that one.
   */
  lemma AcceptedFilterRefusedIff(
    context: ReadContext, query: Query, entries: seq<FilterEntry>, md: StreamMetadata,
    visible: set<CurrentEntry>, error: Error)
    requires Accepted(context, query, entries, md)
    ensures FilterRefused(visible, Some(Fields(entries)), NormalizeGrant(context.grant, Some(context.fields), md).value,
      md, error)
      <==> (error == FieldNotGranted
        && exists b: nat, e ::
          FirstUnselected(entries, context.fields, b) && e in visible && HoldsUpTo(e.data, entries, b))
  {
    var g := NormalizeGrant(context.grant, Some(context.fields), md).value;
    forall i: nat | i < |entries|
      ensures EntryError(entries[i].field, g, md) == if entries[i].field in context.fields then None
        else Some(FieldNotGranted)
    {
      AcceptedEntryError(context, query, entries, md, i);
    }
    forall b: nat ensures FirstFault(entries, g, md, b) <==> FirstUnselected(entries, context.fields, b) {}
  }

  /** A filter on fields that were asked for is never refused, whatever the rows. */
  lemma SelectedFilterNeverRefused(
    context: ReadContext, query: Query, entries: seq<FilterEntry>, md: StreamMetadata,
    visible: set<CurrentEntry>, error: Error)
    requires Accepted(context, query, entries, md) && forall f | f in query.filters :: f in context.fields
    ensures !FilterRefused(visible, Some(Fields(entries)),
      NormalizeGrant(context.grant, Some(context.fields), md).value, md, error)
  {
    AcceptedFilterRefusedIff(context, query, entries, md, visible, error);
    assert forall i | 0 <= i < |entries| :: entries[i].field in query.filters;
  }

  // ---------- Such a request ----------

  const CONTEXT := ReadContext(ManifestStream("s", ["id", "kind"], ["id"], [], ["id", "kind"]), Grant(None, None, None),
    ["id"])
  const QUERY := Query("", Some(["id"]), ["kind"])
  const ENTRIES := [FilterEntry("kind", Text("a"))]

  /**
   * "id" is asked for and "kind" filtered by, both granted. One visible row makes the request
   * fail; with none it is answered.
   */
  lemma UnselectedFilterRefused(md: StreamMetadata, row: CurrentEntry)
    requires md.fields == ["id", "kind"] && md.requiredFields == ["id"]
    ensures Accepted(CONTEXT, QUERY, ENTRIES, md)
    ensures var g := NormalizeGrant(CONTEXT.grant, Some(CONTEXT.fields), md).value;
      && FilterRefused({row}, Some(Fields(ENTRIES)), g, md, FieldNotGranted)
      && !FilterRefused({}, Some(Fields(ENTRIES)), g, md, FieldNotGranted)
  {
    RequestAccepted(md);
    assert FirstUnselected(ENTRIES, ["id"], 0) && HoldsUpTo(row.data, ENTRIES, 0);
    AcceptedFilterRefusedIff(CONTEXT, QUERY, ENTRIES, md, {row}, FieldNotGranted);
  }

  lemma RequestAccepted(md: StreamMetadata)
    requires md.fields == ["id", "kind"] && md.requiredFields == ["id"]
    ensures Accepted(CONTEXT, QUERY, ENTRIES, md)
  {
    RequestResolved(md);
    RequestNormalized(md);
  }

  lemma RequestNormalized(md: StreamMetadata)
    requires md.fields == ["id", "kind"] && md.requiredFields == ["id"]
    ensures NormalizeGrant(CONTEXT.grant, Some(CONTEXT.fields), md).Success?
  {
    assert md.fields[0] == "id";
    SelectionIff(None, Some(["id"]), md);
  }

  lemma RequestResolved(md: StreamMetadata)
    requires md.fields == ["id", "kind"] && md.requiredFields == ["id"]
    ensures Resolved(CONTEXT, QUERY) && Describes(md, CONTEXT.stream)
    ensures AllFilterable(CONTEXT.stream, CONTEXT.grant, QUERY.filters)
  {
    assert ["id"] + ["id"] == ["id", "id"];
    OneName("id");
    assert md.fields[0] == "id" && md.fields[1] == "kind";
  }

  /** A name that is asked for twice is selected once. */
  lemma OneName(name: string)
    ensures Distinct([name, name]) == [name]
  {
    assert [name][..0] == [] && [name, name][..1] == [name];
    assert Distinct([]) == [];
  }
}

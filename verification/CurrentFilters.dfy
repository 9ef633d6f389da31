/** Exact filters of listCurrent: the entries of a filter are judged row by row, against what the row shows. */
module CurrentFilters {
  import opened Wrappers
  import opened RecordModel
  import opened CurrentPages

  datatype FilterEntry = FilterEntry(field: string, value: Value)

  datatype Filter = NotAnObject | Fields(entries: seq<FilterEntry>)

  datatype Verdict = Kept | Dropped | Refused(error: Error)

  /** A filter may only name declared fields that the reader was given. */
  function EntryError(field: string, grant: Grant, md: StreamMetadata): Option<Error> {
    if field !in md.fields then Some(UnknownField(field))
    else if grant.fields.Some? && field !in grant.fields.value then Some(FieldNotGranted)
    else None
  }

  /** Strict equality; no list and no object equals another. */
  predicate Holds(data: Data, entry: FilterEntry) {
    entry.field in data && data[entry.field] == entry.value && !entry.value.Array? && !entry.value.Object?
  }

  /** One row against the entries from the i-th on: the first that does not hold ends the search. */
  function JudgeFrom(data: Data, entries: seq<FilterEntry>, i: nat, grant: Grant, md: StreamMetadata): Verdict
    requires i <= |entries|
    decreases |entries| - i
  {
    if i == |entries| then Kept
    else
      match EntryError(entries[i].field, grant, md)
      case Some(e) => Refused(e)
      case None => if Holds(data, entries[i]) then JudgeFrom(data, entries, i + 1, grant, md) else Dropped
  }

  function Judge(data: Data, filter: Option<Filter>, grant: Grant, md: StreamMetadata): Verdict {
    match filter
    case None => Kept
    case Some(NotAnObject) => Refused(InvalidRequest("filter"))
    case Some(Fields(entries)) => JudgeFrom(data, entries, 0, grant, md)
  }

  // ---------- What a filter does ----------

  /** The first entry that may not be used. */
  ghost predicate FirstFault(entries: seq<FilterEntry>, grant: Grant, md: StreamMetadata, b: nat) {
    && b < |entries| && EntryError(entries[b].field, grant, md).Some?
    && forall i | 0 <= i < b :: EntryError(entries[i].field, grant, md).None?
  }

  ghost predicate HoldsUpTo(data: Data, entries: seq<FilterEntry>, b: nat)
    requires b <= |entries|
  {
    forall i | 0 <= i < b :: Shows(data, entries[i].field, entries[i].value)
  }

  /** The row shows this very value under the field, and it is no list and no object. */
  ghost predicate Shows(data: Data, field: string, value: Value) {
    && field in data && data[field] == value
    && (value.Null? || value.Text? || value.Number? || value.Boolean?)
  }

  /** A row brings the filter down: it satisfies every entry before the first that may not be used. */
  ghost predicate Reaches(data: Data, filter: Option<Filter>, grant: Grant, md: StreamMetadata, error: Error) {
    match filter
    case None => false
    case Some(NotAnObject) => error == InvalidRequest("filter")
    case Some(Fields(entries)) =>
      exists b: nat ::
        FirstFault(entries, grant, md, b) && HoldsUpTo(data, entries, b)
          && EntryError(entries[b].field, grant, md) == Some(error)
  }

  ghost predicate Satisfies(data: Data, filter: Option<Filter>) {
    match filter
    case None => true
    case Some(NotAnObject) => false
    case Some(Fields(entries)) => HoldsUpTo(data, entries, |entries|)
  }

  lemma {:induction false} JudgedFrom(data: Data, entries: seq<FilterEntry>, i: nat, grant: Grant, md: StreamMetadata)
    requires i <= |entries| && HoldsUpTo(data, entries, i)
    requires forall j | 0 <= j < i :: EntryError(entries[j].field, grant, md).None?
    ensures var verdict := JudgeFrom(data, entries, i, grant, md);
      && (verdict.Refused? ==> Reaches(data, Some(Fields(entries)), grant, md, verdict.error))
      && (verdict.Kept? ==> Satisfies(data, Some(Fields(entries))) && forall b: nat ::
        !FirstFault(entries, grant, md, b))
      && (verdict.Dropped? ==> exists j :: NotHeld(data, entries, grant, md, j))
    decreases |entries| - i
  {
    if i < |entries| {
      if EntryError(entries[i].field, grant, md).Some? {
        assert FirstFault(entries, grant, md, i);
      } else if Holds(data, entries[i]) {
        JudgedFrom(data, entries, i + 1, grant, md);
      } else {
        assert NotHeld(data, entries, grant, md, i);
      }
    }
  }

  /** An entry that the row does not satisfy, and none up to it that may not be used. */
  ghost predicate NotHeld(data: Data, entries: seq<FilterEntry>, grant: Grant, md: StreamMetadata, j: nat) {
    && j < |entries| && !Holds(data, entries[j])
    && forall i | 0 <= i <= j :: EntryError(entries[i].field, grant, md).None?
  }

  /**
   * A row refuses the request exactly when it satisfies all entries before the first that may not
   * be used, and is kept exactly when it satisfies them all and all may be used.
   */
  lemma JudgeMeaning(data: Data, filter: Option<Filter>, grant: Grant, md: StreamMetadata)
    ensures forall error ::
      Judge(data, filter, grant, md) == Refused(error) <==> Reaches(data, filter, grant, md, error)
    ensures !Judge(data, filter, grant, md).Refused? ==>
      (Judge(data, filter, grant, md).Kept? <==> Satisfies(data, filter))
  {
    if filter.Some? && filter.value.Fields? {
      var entries := filter.value.entries;
      JudgedFrom(data, entries, 0, grant, md);
      forall error | Reaches(data, filter, grant, md, error) ensures Judge(data, filter, grant, md) == Refused(error) {
        OneFault(data, entries, grant, md, error);
      }
    }
  }

  lemma OneFault(data: Data, entries: seq<FilterEntry>, grant: Grant, md: StreamMetadata, error: Error)
    requires Reaches(data, Some(Fields(entries)), grant, md, error)
    ensures JudgeFrom(data, entries, 0, grant, md) == Refused(error)
  {
    var b: nat :| FirstFault(entries, grant, md, b) && HoldsUpTo(data, entries, b)
      && EntryError(entries[b].field, grant, md) == Some(error);
    ReachesFrom(data, entries, 0, b, grant, md);
  }

  lemma {:induction false} ReachesFrom(
    data: Data, entries: seq<FilterEntry>, i: nat, b: nat, grant: Grant, md: StreamMetadata)
    requires i <= b && FirstFault(entries, grant, md, b) && HoldsUpTo(data, entries, b)
    ensures JudgeFrom(data, entries, i, grant, md) == Refused(EntryError(entries[b].field, grant, md).value)
    decreases b - i
  {
    if i < b { ReachesFrom(data, entries, i + 1, b, grant, md); }
  }

  // ---------- Whole lists ----------

  /** Some visible row refuses the request. */
  ghost predicate FilterRefused(
    visible: set<CurrentEntry>, filter: Option<Filter>, grant: Grant, md: StreamMetadata, error: Error) {
    exists e :: e in visible && Reaches(e.data, filter, grant, md, error)
  }

  ghost function Filtered(visible: set<CurrentEntry>, filter: Option<Filter>): set<CurrentEntry> {
    set e | e in visible && Satisfies(e.data, filter)
  }

  /** Whichever row is met first, the error is the same. */
  lemma RefusalsAgree(
    visible: set<CurrentEntry>, filter: Option<Filter>, grant: Grant, md: StreamMetadata, a: Error, b: Error)
    requires FilterRefused(visible, filter, grant, md, a) && FilterRefused(visible, filter, grant, md, b)
    ensures a == b
  {
    if filter.Some? && filter.value.Fields? {
      var entries := filter.value.entries;
      var i: nat :| FirstFault(entries, grant, md, i) && EntryError(entries[i].field, grant, md) == Some(a);
      var j: nat :| FirstFault(entries, grant, md, j) && EntryError(entries[j].field, grant, md) == Some(b);
      assert i == j;
    }
  }

  /** The rows that satisfy the filter, unless a row refuses it. */
  method FilterRows(visible: set<CurrentEntry>, filter: Option<Filter>, grant: Grant, md: StreamMetadata)
    returns (r: Result<set<CurrentEntry>, Error>)
    ensures r.Failure? ==> FilterRefused(visible, filter, grant, md, r.error)
    ensures r.Success? ==> r.value == Filtered(visible, filter) && forall error ::
      !FilterRefused(visible, filter, grant, md, error)
  {
    forall e | e in visible { JudgeMeaning(e.data, filter, grant, md); }
    if e :| e in visible && Judge(e.data, filter, grant, md).Refused? {
      return Failure(Judge(e.data, filter, grant, md).error);
    }
    return Success(set e | e in visible && Judge(e.data, filter, grant, md).Kept?);
  }

  /** A list without rows refuses no filter, not even one that names an undeclared field or is no object. */
  lemma NothingToRefuse(filter: Option<Filter>, grant: Grant, md: StreamMetadata, error: Error)
    ensures !FilterRefused({}, filter, grant, md, error)
  {
  }
}

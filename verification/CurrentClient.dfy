/** A reader of the current records, end to end: it follows next_cursor through a store that stands still. */
module CurrentClient {
  import opened Wrappers
  import opened Orders
  import opened RecordModel
  import opened CurrentPages
  import opened CurrentFilters
  import opened RecordsRepository

  /**
   * Reading every page gives the whole granted view: all visible rows that satisfy the filter,
   * each once, in comparator order, in either direction and for any page size.
   */
  method ListAll(
    store: GrantScopedRecordsRepository, at: Location, grant: Grant, fields: Option<seq<string>>,
    filter: Option<Filter>, limit: int, order: Direction)
    returns (rows: seq<CurrentEntry>)
    requires store.Valid() && Answered(store, at, grant, fields, filter, limit)
    requires InstantsDistinct(Shown(store, at, grant, fields, filter, limit), store.streams[at.stream])
    ensures Lists(rows, Shown(store, at, grant, fields, filter, limit), RowOrder(order, store.streams[at.stream]))
    ensures |rows| == |Shown(store, at, grant, fields, filter, limit)|
  {
    ghost var md, visible := store.streams[at.stream], Shown(store, at, grant, fields, filter, limit);
    ghost var n := store.ReadContext(at, grant, fields, limit).value.0;
    store.VisibleKeysDistinct(store.HistoryAt(at), store.ReadContext(at, grant, fields, limit).value.1, md);
    ghost var all := Owed(visible, None, order, md);
    NothingRead(visible, order, md);
    var page := ReadPage(store, at, grant, fields, filter, limit, None, order);
    NextRead([], None, all, visible, n, order, md);
    rows := page.data;
    while page.next.Some?
      invariant ReadUpTo(rows, page.next, all, visible, order, md)
      decreases |all| - |rows|
    {
      NextRead(rows, page.next, all, visible, n, order, md);
      page := ReadPage(store, at, grant, fields, filter, limit, page.next, order);
      rows := rows + page.data;
    }
    WholeOwed(visible, order, md);
  }

  /** The state of a reader: what it has, and that its cursor owes the rest. */
  ghost predicate ReadUpTo(
    rows: seq<CurrentEntry>, next: Option<SortKey>, all: seq<CurrentEntry>, visible: set<CurrentEntry>,
    order: Direction, md: StreamMetadata) {
    && Pageable(visible, md) && rows <= all
    && (if next.Some? then Resuming(next, all[|rows|..], visible, order, md) && |rows| < |all| else rows == all)
  }

  ghost predicate Resuming(
    from: Option<SortKey>, rest: seq<CurrentEntry>, visible: set<CurrentEntry>, order: Direction, md: StreamMetadata) {
    Pageable(visible, md) && Issued(visible, from) && Owed(visible, from, order, md) == rest
  }

  lemma NothingRead(visible: set<CurrentEntry>, order: Direction, md: StreamMetadata)
    requires Pageable(visible, md)
    ensures var all := Owed(visible, None, order, md); Resuming(None, all[0..], visible, order, md)
  {
    var all := Owed(visible, None, order, md);
    assert all[0..] == all;
  }

  lemma NextRead(
    rows: seq<CurrentEntry>, from: Option<SortKey>, all: seq<CurrentEntry>, visible: set<CurrentEntry>, n: nat,
    order: Direction, md: StreamMetadata)
    requires rows <= all && Resuming(from, all[|rows|..], visible, order, md) && n > 0
    ensures var page := CurrentPageOf(visible, from, n, order, md);
      ReadUpTo(rows + page.data, page.next, all, visible, order, md)
        && (from.Some? && |rows| < |all| ==> |page.data| > 0)
  {
    var rest, i := all[|rows|..], |rows|;
    if |rest| > n {
      OwedAfterPage(visible, from, n, order, md);
      assert rows + rest[..n] == all[..i + n] && rest[n..] == all[i + n..];
    } else {
      assert rows + rest == all;
    }
  }

  lemma WholeOwed(visible: set<CurrentEntry>, order: Direction, md: StreamMetadata)
    requires Pageable(visible, md)
    ensures Lists(Owed(visible, None, order, md), visible, RowOrder(order, md))
      && |Owed(visible, None, order, md)| == |visible|
  {
    assert Remaining(visible, None, order, md) == visible;
    ComparatorIsOrder(visible, order, md);
    SortedLists(visible, RowOrder(order, md));
  }

  /** The request is in order and no visible row refuses its filter. */
  ghost predicate Answered(
    store: GrantScopedRecordsRepository, at: Location, grant: Grant, fields: Option<seq<string>>,
      filter: Option<Filter>, limit: int)
    reads store
  {
    && store.ReadContext(at, grant, fields, limit).Success?
    && var g := store.ReadContext(at, grant, fields, limit).value.1;
       forall error :: !FilterRefused(store.VisibleAt(at, g), filter, g, store.streams[at.stream], error)
  }

  /** The rows a request may page through. */
  ghost function Shown(
    store: GrantScopedRecordsRepository, at: Location, grant: Grant, fields: Option<seq<string>>,
    filter: Option<Filter>, limit: int): set<CurrentEntry>
    requires store.ReadContext(at, grant, fields, limit).Success?
    reads store
  {
    Filtered(store.VisibleAt(at, store.ReadContext(at, grant, fields, limit).value.1), filter)
  }

  method ReadPage(
    store: GrantScopedRecordsRepository, at: Location, grant: Grant, fields: Option<seq<string>>,
    filter: Option<Filter>, limit: int, from: Option<SortKey>, order: Direction)
    returns (page: CurrentPage)
    requires store.Valid() && Answered(store, at, grant, fields, filter, limit)
    requires InstantsDistinct(Shown(store, at, grant, fields, filter, limit), store.streams[at.stream])
    ensures Pageable(Shown(store, at, grant, fields, filter, limit), store.streams[at.stream])
    ensures var n := store.ReadContext(at, grant, fields, limit).value.0;
      n > 0 && page
        == CurrentPageOf(Shown(store, at, grant, fields, filter, limit), from, n, order, store.streams[at.stream])
  {
    var cursor := if from.Some? then Some(CurrentCursor(at, order, from.value)) else None;
    var answer := store.ListCurrent(at, grant, fields, filter, limit, cursor, order);
    page := answer.value;
  }
}

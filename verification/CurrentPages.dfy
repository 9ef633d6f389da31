/** Keyset paging of the current records, in the order of their cursor field and then their key. */
module CurrentPages {
  import opened Wrappers
  import opened Orders
  import opened Paging
  import opened RecordModel
  import opened RecordHistory

  datatype Direction = Asc | Desc

  datatype SortKey = SortKey(cursorValue: Option<string>, key: string)

  /** A visible current record together with the key it is paged by. */
  datatype CurrentEntry = CurrentEntry(sort: SortKey, data: Data, emittedAt: string)

  datatype CurrentPage = CurrentPage(data: seq<CurrentEntry>, next: Option<SortKey>)

  predicate Missing(value: Option<string>) {
    value == None || value == Some("")
  }

  /** The comparator of current rows; descending order negates the ascending comparison. */
  function Compare(left: SortKey, right: SortKey, order: Direction, md: StreamMetadata): int {
    var leftMissing, rightMissing := Missing(left.cursorValue), Missing(right.cursorValue);
    var comparison :=
      if leftMissing != rightMissing then (if leftMissing then 1 else -1)
      else if !leftMissing && left.cursorValue != right.cursorValue then
        (if md.instant(left.cursorValue.value) < md.instant(right.cursorValue.value) then -1 else 1)
      else if StringLess(left.key, right.key) then -1
      else if StringLess(right.key, left.key) then 1
      else 0;
    if order == Asc then comparison else -comparison
  }

  function RowOrder(order: Direction, md: StreamMetadata): (CurrentEntry, CurrentEntry) -> bool {
    (a: CurrentEntry, b: CurrentEntry) => Compare(a.sort, b.sort, order, md) < 0
  }

  function CursorValueOf(payload: Data, md: StreamMetadata): Option<string> {
    if md.cursorField in payload && payload[md.cursorField].Text? then Some(payload[md.cursorField].text) else None
  }

  function EntryOf(row: Row, data: Data, md: StreamMetadata): CurrentEntry {
    CurrentEntry(SortKey(CursorValueOf(row.payload, md), row.key), data, row.emittedAt)
  }

  /** The rows a reader may page through. */
  function Visible(rows: map<string, Row>, grant: Grant, md: StreamMetadata): set<CurrentEntry> {
    set k | k in rows && Disclose(rows[k], grant, md).Some? :: EntryOf(rows[k], Disclose(rows[k], grant, md).value, md)
  }

  function Remaining(
    visible: set<CurrentEntry>, cursor: Option<SortKey>, order: Direction, md: StreamMetadata): set<CurrentEntry> {
    set e | e in visible && (cursor.Some? ==> Compare(e.sort, cursor.value, order, md) > 0)
  }

  ghost predicate KeysDistinct(es: set<CurrentEntry>) {
    forall a, b | a in es && b in es && a.sort.key == b.sort.key :: a == b
  }

  /** Different stored cursor strings denote different instants. */
  ghost predicate InstantsDistinct(es: set<CurrentEntry>, md: StreamMetadata) {
    forall a, b | a in es && b in es && !Missing(a.sort.cursorValue) && !Missing(b.sort.cursorValue) ::
      Apart(a.sort, b.sort, md)
  }

  ghost predicate Apart(a: SortKey, b: SortKey, md: StreamMetadata)
    requires !Missing(a.cursorValue) && !Missing(b.cursorValue)
  {
    a.cursorValue != b.cursorValue ==> md.instant(a.cursorValue.value) != md.instant(b.cursorValue.value)
  }

  // ---------- When the comparator is an order ----------

  /** A row to be placed by its instant. */
  ghost predicate Dated(a: SortKey) {
    exists t :: a.cursorValue == Some(t) && t != ""
  }

  ghost predicate Comparable(a: SortKey, b: SortKey, md: StreamMetadata) {
    Dated(a) && Dated(b) && a.cursorValue != b.cursorValue ==>
      md.instant(a.cursorValue.value) != md.instant(b.cursorValue.value)
  }

  /** What comes first in ascending order: dated rows, then earlier instants, then smaller keys. */
  ghost predicate ComesFirst(a: SortKey, b: SortKey, md: StreamMetadata) {
    if Dated(a) && Dated(b) then
      md.instant(a.cursorValue.value) < md.instant(b.cursorValue.value)
      || (a.cursorValue == b.cursorValue && Precedes(a.key, b.key))
    else
      Dated(a) || (!Dated(b) && Precedes(a.key, b.key))
  }

  /** The comparator's order, in both directions, where instants tell the cursors apart. */
  lemma ComparatorMeaning(a: SortKey, b: SortKey, md: StreamMetadata)
    requires Comparable(a, b, md)
    ensures Compare(a, b, Asc, md) < 0 <==> ComesFirst(a, b, md)
    ensures Compare(a, b, Desc, md) < 0 <==> ComesFirst(b, a, md)
  {
    StringTrichotomy(a.key, b.key);
    StringTrichotomy(a.key, a.key);
    StringLessMeaning(a.key, b.key);
    StringLessMeaning(b.key, a.key);
    assert Dated(a) <==> !Missing(a.cursorValue);
    assert Dated(b) <==> !Missing(b.cursorValue);
  }

  /**
   * The visible rows are the granted view, each with its key, its time of emission and, where
   * the stored record has a text in its cursor field, that text as its cursor value.
   */
  lemma VisibleIsView(h: seq<Row>, grant: Grant, md: StreamMetadata, e: CurrentEntry)
    ensures e in Visible(Latest(h), grant, md) <==>
      && e.sort.key in View(h, grant, md)
      && e.data == View(h, grant, md)[e.sort.key] && e.emittedAt == Latest(h)[e.sort.key].emittedAt
      && var payload := Latest(h)[e.sort.key].payload;
         forall t :: e.sort.cursorValue == Some(t) <==> md.cursorField in payload && payload[md.cursorField] == Text(t)
  {
    forall k | k in Latest(h) ensures Latest(h)[k].key == k { LatestIsLast(h, k); }
    if e.sort.key in Latest(h) {
      CursorValueIff(Latest(h)[e.sort.key].payload, md, e.sort.cursorValue);
    }
  }

  lemma CursorValueIff(payload: Data, md: StreamMetadata, value: Option<string>)
    ensures value == CursorValueOf(payload, md) <==>
      forall t :: value == Some(t) <==> md.cursorField in payload && payload[md.cursorField] == Text(t)
  {
    if md.cursorField in payload && payload[md.cursorField].Text? && value != CursorValueOf(payload, md) {
      assert value != Some(payload[md.cursorField].text);
    }
    if value.Some? && value != CursorValueOf(payload, md) {
      assert value == Some(value.value);
    }
  }

  lemma CompareSigns(a: SortKey, b: SortKey, order: Direction, md: StreamMetadata)
    ensures Compare(a, a, order, md) == 0
    ensures a.key == b.key || Compare(a, b, order, md) != 0
    ensures (Missing(a.cursorValue) || Missing(b.cursorValue) || Apart(a, b, md)) <==>
      Compare(b, a, order, md) == -Compare(a, b, order, md)
  {
    StringTrichotomy(a.key, a.key);
    StringTrichotomy(a.key, b.key);
  }

  /** The comparator is antisymmetric on the stored rows if and only if instants tell their cursors apart. */
  lemma ComparatorIsOrderIff(es: set<CurrentEntry>, order: Direction, md: StreamMetadata)
    requires KeysDistinct(es)
    ensures StrictTotal(RowOrder(order, md), es) <==> InstantsDistinct(es, md)
  {
    var less := RowOrder(order, md);
    forall a, b ensures less(a, b) <==> Compare(a.sort, b.sort, order, md) < 0 {}
    if InstantsDistinct(es, md) {
      ComparatorIsOrder(es, order, md);
    }
    if StrictTotal(less, es) {
      forall a, b | a in es && b in es && !Missing(a.sort.cursorValue) && !Missing(b.sort.cursorValue)
        ensures Apart(a.sort, b.sort, md)
      {
        CompareSigns(a.sort, b.sort, order, md);
        CompareSigns(b.sort, a.sort, order, md);
      }
    }
  }

  lemma CompareTransitive(a: SortKey, b: SortKey, c: SortKey, order: Direction, md: StreamMetadata)
    requires Compare(a, b, order, md) < 0 && Compare(b, c, order, md) < 0
    requires !Missing(a.cursorValue) && !Missing(b.cursorValue) ==> Apart(a, b, md)
    requires !Missing(b.cursorValue) && !Missing(c.cursorValue) ==> Apart(b, c, md)
    requires !Missing(a.cursorValue) && !Missing(c.cursorValue) ==> Apart(a, c, md)
    ensures Compare(a, c, order, md) < 0
  {
    StringTrichotomy(a.key, b.key);
    StringTrichotomy(b.key, c.key);
    StringTrichotomy(a.key, c.key);
    if StringLess(a.key, b.key) && StringLess(b.key, c.key) { StringTransitive(a.key, b.key, c.key); }
    if StringLess(c.key, b.key) && StringLess(b.key, a.key) { StringTransitive(c.key, b.key, a.key); }
  }

  lemma ComparatorIsOrder(es: set<CurrentEntry>, order: Direction, md: StreamMetadata)
    requires KeysDistinct(es) && InstantsDistinct(es, md)
    ensures StrictTotal(RowOrder(order, md), es)
  {
    var less := RowOrder(order, md);
    forall a | a in es ensures !less(a, a) { CompareSigns(a.sort, a.sort, order, md); }
    forall a, b | a in es && b in es && a != b ensures less(a, b) || less(b, a) {
      CompareSigns(a.sort, b.sort, order, md);
    }
    forall a, b, c | a in es && b in es && c in es && less(a, b) && less(b, c) ensures less(a, c) {
      CompareTransitive(a.sort, b.sort, c.sort, order, md);
    }
  }

  // ---------- Pages ----------

  ghost predicate Pageable(visible: set<CurrentEntry>, md: StreamMetadata) {
    KeysDistinct(visible) && InstantsDistinct(visible, md)
  }

  ghost function Owed(
    visible: set<CurrentEntry>, cursor: Option<SortKey>, order: Direction, md: StreamMetadata): seq<CurrentEntry>
    requires Pageable(visible, md)
  {
    ComparatorIsOrder(Remaining(visible, cursor, order, md), order, md);
    Sorted(Remaining(visible, cursor, order, md), RowOrder(order, md))
  }

  /** What a page holds whatever the sort made of ties: rows after the cursor, each once, as many as fit. */
  ghost predicate TakesPage(page: CurrentPage, rest: set<CurrentEntry>, n: nat) {
    && |page.data| == Min(n, |rest|)
    && (forall e | e in page.data :: e in rest)
    && (forall i, j | 0 <= i < j < |page.data| :: page.data[i] != page.data[j])
    && page.next == if |rest| > n && |page.data| > 0 then Some(page.data[|page.data| - 1].sort) else None
  }

  ghost function CurrentPageOf(
    visible: set<CurrentEntry>, cursor: Option<SortKey>, n: nat, order: Direction, md: StreamMetadata): CurrentPage
    requires Pageable(visible, md) && n > 0
  {
    var all := Owed(visible, cursor, order, md);
    if |all| > n then CurrentPage(all[..n], Some(all[n - 1].sort)) else CurrentPage(all, None)
  }

  /** The page of these rows after a cursor; in comparator order wherever the comparator is an order. */
  ghost predicate IsPage(
    page: CurrentPage, visible: set<CurrentEntry>, from: Option<SortKey>, n: nat, order: Direction,
    md: StreamMetadata) {
    && n > 0 && KeysDistinct(visible)
    && TakesPage(page, Remaining(visible, from, order, md), n)
    && (InstantsDistinct(visible, md) ==> page == CurrentPageOf(visible, from, n, order, md))
  }

  /** A cursor the store issued is the sort key of a row it has shown. */
  ghost predicate Issued(visible: set<CurrentEntry>, cursor: Option<SortKey>) {
    cursor.Some? ==> exists e :: e in visible && e.sort == cursor.value
  }

  ghost predicate Before(a: SortKey, b: SortKey, order: Direction, md: StreamMetadata) {
    if order == Asc then ComesFirst(a, b, md) else ComesFirst(b, a, md)
  }

  lemma ComparesAsBefore(
    visible: set<CurrentEntry>, a: CurrentEntry, b: CurrentEntry, order: Direction, md: StreamMetadata)
    requires InstantsDistinct(visible, md) && a in visible && b in visible
    ensures Compare(a.sort, b.sort, order, md) < 0 <==> Before(a.sort, b.sort, order, md)
    ensures Compare(b.sort, a.sort, order, md) > 0 <==> Before(a.sort, b.sort, order, md)
  {
    if Dated(a.sort) && Dated(b.sort) { assert Apart(a.sort, b.sort, md); }
    ComparatorMeaning(a.sort, b.sort, md);
    CompareSigns(a.sort, b.sort, order, md);
  }

  /**
   * A page in terms of the rows: they all come after the cursor, each before the next, and a
   * row after the cursor that the page leaves out comes after all of them.
   */
  lemma PageInOrder(
    page: CurrentPage, visible: set<CurrentEntry>, from: Option<SortKey>, n: nat, order: Direction, md: StreamMetadata)
    requires IsPage(page, visible, from, n, order, md) && InstantsDistinct(visible, md) && Issued(visible, from)
    ensures forall e | e in page.data :: e in visible && (from.Some? ==> Before(from.value, e.sort, order, md))
    ensures forall i, j | 0 <= i < j < |page.data| :: Before(page.data[i].sort, page.data[j].sort, order, md)
    ensures forall i, e | 0 <= i < |page.data| && e in visible && e !in page.data
      && (from.Some? ==> Before(from.value, e.sort, order, md)) :: Before(page.data[i].sort, e.sort, order, md)
  {
    var rest := Remaining(visible, from, order, md);
    RemainingAfter(visible, from, order, md);
    PageOrdered(page, visible, from, n, order, md);
    forall a, b | a in visible && b in visible
      ensures RowOrder(order, md)(a, b) <==> Before(a.sort, b.sort, order, md)
    {
      ComparesAsBefore(visible, a, b, order, md);
    }
    forall i, j | 0 <= i < j < |page.data| ensures Before(page.data[i].sort, page.data[j].sort, order, md) {
      assert page.data[i] in page.data && page.data[j] in page.data;
    }
    forall i, e | 0 <= i < |page.data| && e in rest && e !in page.data
      ensures Before(page.data[i].sort, e.sort, order, md)
    {
      assert page.data[i] in page.data;
    }
  }

  lemma PageOrdered(
    page: CurrentPage, visible: set<CurrentEntry>, from: Option<SortKey>, n: nat, order: Direction, md: StreamMetadata)
    requires IsPage(page, visible, from, n, order, md) && InstantsDistinct(visible, md)
    ensures var (rest, less) := (Remaining(visible, from, order, md), RowOrder(order, md));
      && (forall e | e in page.data :: e in rest)
      && (forall i, j | 0 <= i < j < |page.data| :: less(page.data[i], page.data[j]))
      && (forall i, e | 0 <= i < |page.data| && e in rest && e !in page.data :: less(page.data[i], e))
  {
    var rest := Remaining(visible, from, order, md);
    ComparatorIsOrder(rest, order, md);
    SortedLists(rest, RowOrder(order, md));
    PrefixInOrder(Owed(visible, from, order, md), page.data, rest, RowOrder(order, md));
  }

  lemma RemainingAfter(visible: set<CurrentEntry>, from: Option<SortKey>, order: Direction, md: StreamMetadata)
    requires InstantsDistinct(visible, md) && Issued(visible, from)
    ensures forall e ::
      e in Remaining(visible, from, order, md) <==>
        e in visible && (from.Some? ==> Before(from.value, e.sort, order, md))
  {
    if from.Some? {
      var c :| c in visible && c.sort == from.value;
      forall e | e in visible { ComparesAsBefore(visible, c, e, order, md); }
    }
  }

  lemma PrefixInOrder(
    all: seq<CurrentEntry>, part: seq<CurrentEntry>, rest: set<CurrentEntry>,
    less: (CurrentEntry, CurrentEntry) -> bool)
    requires Lists(all, rest, less) && part <= all
    ensures forall e | e in part :: e in rest
    ensures forall i, j | 0 <= i < j < |part| :: less(part[i], part[j])
    ensures forall i, e | 0 <= i < |part| && e in rest && e !in part :: less(part[i], e)
  {
    forall e | e in part ensures e in all {}
    forall i, e | 0 <= i < |part| && e in rest && e !in part ensures less(part[i], e) {
      assert e in all;
      var j :| 0 <= j < |all| && all[j] == e;
      TakeMember(all, |part|, j);
      AscendingAt(all, less, i, j);
    }
    forall i, j | 0 <= i < j < |part| ensures less(part[i], part[j]) { AscendingAt(all, less, i, j); }
  }

  lemma AfterLast(
    visible: set<CurrentEntry>, cursor: Option<SortKey>, last: CurrentEntry, e: CurrentEntry, order: Direction,
    md: StreamMetadata)
    requires Pageable(visible, md) && Issued(visible, cursor)
    requires last in Remaining(visible, cursor, order, md) && e in visible
    ensures e in Remaining(visible, Some(last.sort), order, md) <==>
      e in Remaining(visible, cursor, order, md) && RowOrder(order, md)(last, e)
  {
    CompareSigns(last.sort, e.sort, order, md);
    CompareSigns(e.sort, last.sort, order, md);
    if cursor.Some? && Compare(last.sort, e.sort, order, md) < 0 {
      var c :| c in visible && c.sort == cursor.value;
      CompareSigns(c.sort, last.sort, order, md);
      CompareTransitive(c.sort, last.sort, e.sort, order, md);
      CompareSigns(c.sort, e.sort, order, md);
    }
  }

  lemma OwedAfterPage(visible: set<CurrentEntry>, cursor: Option<SortKey>, n: nat, order: Direction, md: StreamMetadata)
    requires Pageable(visible, md) && Issued(visible, cursor)
    requires 0 < n <= |Owed(visible, cursor, order, md)|
    ensures var all := Owed(visible, cursor, order, md);
      var next := Some(all[n - 1].sort);
      Issued(visible, next) && Owed(visible, next, order, md) == all[n..]
  {
    var less, rest, all := RowOrder(order, md), Remaining(visible, cursor, order, md), Owed(visible, cursor, order, md);
    ComparatorIsOrder(rest, order, md);
    SortedLists(rest, less);
    var last := all[n - 1];
    assert last in all;
    CutLists(all, rest, less, n);
    LaterRemain(visible, cursor, last, order, md);
    var later := Remaining(visible, Some(last.sort), order, md);
    ComparatorIsOrder(later, order, md);
    SortedLists(later, less);
    ListingUnique(all[n..], Owed(visible, Some(last.sort), order, md), later, less);
  }

  lemma LaterRemain(
    visible: set<CurrentEntry>, cursor: Option<SortKey>, last: CurrentEntry, order: Direction, md: StreamMetadata)
    requires Pageable(visible, md) && Issued(visible, cursor)
    requires last in Remaining(visible, cursor, order, md)
    ensures Remaining(visible, Some(last.sort), order, md)
      == set e | e in Remaining(visible, cursor, order, md) && RowOrder(order, md)(last, e)
  {
    forall e | e in visible
      ensures e in Remaining(visible, Some(last.sort), order, md) <==>
        e in Remaining(visible, cursor, order, md) && RowOrder(order, md)(last, e)
    {
      AfterLast(visible, cursor, last, e, order, md);
    }
  }

  ghost function AsServed(page: CurrentPage): Served<CurrentEntry, Option<SortKey>> {
    Served(page.data, if page.next.Some? then Some(page.next) else None)
  }

  ghost function ServeCurrent(
    visible: set<CurrentEntry>, ns: seq<nat>, order: Direction,
    md: StreamMetadata): (int, Option<SortKey>) -> Served<CurrentEntry, Option<SortKey>> {
    (i, cursor) =>
      if 0 <= i < |ns| && ns[i] > 0 && Pageable(visible, md)
        then AsServed(CurrentPageOf(visible, cursor, ns[i], order, md))
      else Served([], None)
  }

  lemma CurrentPageResumes(
    visible: set<CurrentEntry>, n: nat, cursor: Option<SortKey>, owed: Option<SortKey> -> seq<CurrentEntry>,
    valid: Option<SortKey> -> bool, order: Direction, md: StreamMetadata)
    requires Pageable(visible, md) && n > 0 && Issued(visible, cursor)
    requires forall c :: valid(c) <==> Issued(visible, c)
    requires forall c :: owed(c) == Owed(visible, c, order, md)
    ensures ResumesAt(AsServed(CurrentPageOf(visible, cursor, n, order, md)), owed, valid, n, cursor)
  {
    if |Owed(visible, cursor, order, md)| > n {
      OwedAfterPage(visible, cursor, n, order, md);
    }
  }

  lemma PagesOwe(visible: set<CurrentEntry>, ns: seq<nat>, order: Direction, md: StreamMetadata)
    requires Pageable(visible, md)
    requires forall i | 0 <= i < |ns| :: ns[i] > 0
    ensures var (got, all) := (Collect(ServeCurrent(visible, ns, order, md), |ns|, 0, None),
      Owed(visible, None, order, md));
      got.0 <= all && (got.1 ==> got.0 == all) && (0 < |ns| && |ns| >= |all| ==> got.1)
  {
    var serve := ServeCurrent(visible, ns, order, md);
    var valid := (c: Option<SortKey>) => Issued(visible, c);
    var owed := (c: Option<SortKey>) => if Pageable(visible, md) then Owed(visible, c, order, md) else [];
    forall j, c | 0 <= j < |ns| && valid(c) ensures ResumesAt(serve(j, c), owed, valid, ns[j], c) {
      CurrentPageResumes(visible, ns[j], c, owed, valid, order, md);
    }
    PagesPartition(serve, owed, valid, ns, 0, None);
  }

  /**
   * Keyset paging partitions the view: following next_cursor in either direction, with pages
   * of any sizes, shows the visible rows in comparator order, each exactly once, records
   * without a cursor value included, and comes to an end.
   */
  lemma PagingPartitionsView(visible: set<CurrentEntry>, ns: seq<nat>, order: Direction, md: StreamMetadata)
    requires Pageable(visible, md)
    requires forall i | 0 <= i < |ns| :: ns[i] > 0
    ensures StrictTotal(RowOrder(order, md), visible)
    ensures var got := Collect(ServeCurrent(visible, ns, order, md), |ns|, 0, None);
      && got.0 <= Sorted(visible, RowOrder(order, md))
      && (got.1 ==> Lists(got.0, visible, RowOrder(order, md)) && |got.0| == |visible|)
      && (0 < |ns| && |ns| >= |visible| ==> got.1)
  {
    ComparatorIsOrder(visible, order, md);
    SortedLists(visible, RowOrder(order, md));
    PagesOwe(visible, ns, order, md);
    assert Remaining(visible, None, order, md) == visible;
  }

  /**
   * Without that condition paging need not end: when two rows carry different cursor strings
   * for one instant, each still counts as "after" the other, so a cursor at either row shows
   * the other one again.
   */
  lemma TiedInstantsRepeat(
    a: CurrentEntry, b: CurrentEntry, visible: set<CurrentEntry>, order: Direction, md: StreamMetadata)
    requires a in visible && b in visible && !Missing(a.sort.cursorValue) && !Missing(b.sort.cursorValue)
    requires !Apart(a.sort, b.sort, md)
    ensures order == Asc ==>
      b in Remaining(visible, Some(a.sort), order, md) && a in Remaining(visible, Some(b.sort), order, md)
    ensures order == Desc ==>
      b !in Remaining(visible, Some(a.sort), order, md) && a !in Remaining(visible, Some(b.sort), order, md)
  {
  }
}

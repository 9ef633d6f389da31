/**
 * Event windows of reference-implementation/lib/postgres-spine.ts: the first, the last and the
 * last terminal events of a run are fetched separately, merged by event id and put back in
 * order, in place of reading the run's whole log. Of a grant or a trace the first events are
 * fetched alone and split by id.
 */
module EventWindows {
  import opened Wrappers
  import opened Orders

  /** Event ids are the primary key; a legacy row may have no sequence number. */
  datatype EventRow = EventRow(
    eventId: string,
    seqNo: Option<int>,
    grantId: Option<string>,
    runId: Option<string>,
    traceId: Option<string>,
    eventType: string,
    status: Option<string>)

  datatype Kind = GrantKind | RunKind | TraceKind

  datatype Column = GrantColumn | RunColumn | TraceColumn

  /** The correlation id a row has in a column. */
  function IdIn(e: EventRow, column: Column): Option<string> {
    match column
    case GrantColumn => e.grantId
    case RunColumn => e.runId
    case TraceColumn => e.traceId
  }

  const RUN_TERMINAL_EVENT_TYPES: set<string> := {"run.completed", "run.failed", "run.cancelled", "run.abandoned"}
  const HEAD_LIMIT: nat := 5000
  const TAIL_LIMIT: nat := 200
  const TERMINAL_LIMIT: nat := 10

  ghost predicate IdsDistinct(log: set<EventRow>) {
    forall a, b | a in log && b in log && a.eventId == b.eventId :: a == b
  }

  // ---------- The order of events ----------

  function CompareIds(a: EventRow, b: EventRow): int {
    if StringLess(a.eventId, b.eventId) then -1 else if StringLess(b.eventId, a.eventId) then 1 else 0
  }

  /** Rows without a sequence number come last, then the number decides, then the event id. */
  function CompareEventRowOrder(a: EventRow, b: EventRow): int {
    var nullDiff := (if a.seqNo.None? then 1 else 0) - (if b.seqNo.None? then 1 else 0);
    var seqDiff := if a.seqNo.None? || b.seqNo.None? then nullDiff else a.seqNo.value - b.seqNo.value;
    if seqDiff == 0 then CompareIds(a, b) else seqDiff
  }

  predicate Earlier(a: EventRow, b: EventRow) {
    CompareEventRowOrder(a, b) < 0
  }

  /** The descending order of the queries: rows with a number first, larger numbers first, then larger ids. */
  predicate Later(a: EventRow, b: EventRow) {
    if a.seqNo.None? != b.seqNo.None? then b.seqNo.None?
    else if a.seqNo != b.seqNo then a.seqNo.value > b.seqNo.value
    else StringLess(b.eventId, a.eventId)
  }

  /** What comes first: a row with a number before one without, then the smaller number, then the smaller id. */
  lemma EarlierMeaning(a: EventRow, b: EventRow)
    ensures Earlier(a, b) <==>
      || (a.seqNo.Some? && b.seqNo.None?)
      || (a.seqNo.Some? && b.seqNo.Some? && a.seqNo.value < b.seqNo.value)
      || (a.seqNo == b.seqNo && Precedes(a.eventId, b.eventId))
    ensures CompareEventRowOrder(a, b) > 0 <==> Earlier(b, a)
    ensures a.eventId != b.eventId ==> CompareEventRowOrder(a, b) != 0
  {
    StringTrichotomy(a.eventId, b.eventId);
    StringLessMeaning(a.eventId, b.eventId);
  }

  /** What comes first in the descending queries: rows with a number still first, then the larger number and id. */
  lemma LaterMeaning(a: EventRow, b: EventRow)
    ensures Later(a, b) <==>
      || (a.seqNo.Some? && b.seqNo.None?)
      || (a.seqNo.Some? && b.seqNo.Some? && a.seqNo.value > b.seqNo.value)
      || (a.seqNo == b.seqNo && Precedes(b.eventId, a.eventId))
  {
    StringLessMeaning(b.eventId, a.eventId);
  }

  /** Both orders are strict and total on distinct events, missing and equal numbers included. */
  lemma OrdersAreTotal(log: set<EventRow>)
    requires IdsDistinct(log)
    ensures StrictTotal(Earlier, log)
    ensures StrictTotal(Later, log)
  {
    forall a, b | a in log && b in log && a != b
      ensures (Earlier(a, b) || Earlier(b, a)) && (Later(a, b) || Later(b, a))
    {
      StringTrichotomy(a.eventId, b.eventId);
    }
    forall a | a in log ensures !Earlier(a, a) && !Later(a, a) { StringTrichotomy(a.eventId, a.eventId); }
    forall a, b, c | a in log && b in log && c in log && Earlier(a, b) && Earlier(b, c)
      ensures Earlier(a, c)
    {
      EarlierTransitive(a, b, c);
    }
    forall a, b, c | a in log && b in log && c in log && Later(a, b) && Later(b, c)
      ensures Later(a, c)
    {
      LaterTransitive(a, b, c);
    }
  }

  lemma EarlierTransitive(a: EventRow, b: EventRow, c: EventRow)
    requires Earlier(a, b) && Earlier(b, c)
    ensures Earlier(a, c)
  {
    StringTrichotomy(a.eventId, c.eventId);
    if StringLess(a.eventId, b.eventId) && StringLess(b.eventId, c.eventId) {
      StringTransitive(a.eventId, b.eventId, c.eventId);
    }
  }

  lemma OneDirection(a: EventRow, b: EventRow)
    ensures !(Earlier(a, b) && Earlier(b, a))
  {
    StringTrichotomy(a.eventId, b.eventId);
  }

  lemma LaterTransitive(a: EventRow, b: EventRow, c: EventRow)
    requires Later(a, b) && Later(b, c)
    ensures Later(a, c)
  {
    if StringLess(b.eventId, a.eventId) && StringLess(c.eventId, b.eventId) {
      StringTransitive(c.eventId, b.eventId, a.eventId);
    }
  }

  /** Where every row has a number, the descending order is the ascending one reversed. */
  lemma LaterReverses(a: EventRow, b: EventRow)
    requires a.seqNo.Some? && b.seqNo.Some?
    ensures Later(a, b) <==> Earlier(b, a)
  {
    StringTrichotomy(a.eventId, b.eventId);
  }

  // ---------- Windows ----------

  function EventsOf(log: set<EventRow>, column: Column, id: string): set<EventRow> {
    set e | e in log && IdIn(e, column) == Some(id)
  }

  function Terminal(es: set<EventRow>): set<EventRow> {
    set e | e in es && e.eventType in RUN_TERMINAL_EVENT_TYPES
  }

  /** Fewer than n rows come before this one. */
  predicate Within(e: EventRow, es: set<EventRow>, less: (EventRow, EventRow) -> bool, n: nat) {
    |Below(es, less, e)| < n
  }

  function Window(es: set<EventRow>, less: (EventRow, EventRow) -> bool, n: nat): set<EventRow> {
    set e | e in es && Within(e, es, less, n)
  }

  /** What the three windows of a run hold together. */
  function Fetched(es: set<EventRow>): set<EventRow> {
    Window(es, Earlier, HEAD_LIMIT) + Window(es, Later, TAIL_LIMIT) + Window(Terminal(es), Later, TERMINAL_LIMIT)
  }

  /** An event that ends a run, by the four types of this file. */
  ghost predicate EndsRun(e: EventRow) {
    || e.eventType == "run.completed" || e.eventType == "run.failed"
    || e.eventType == "run.cancelled" || e.eventType == "run.abandoned"
  }

  /**
   * What is held of a run: its first 5000 events, its last 200, and the last ten that end it; of
   * a grant or a trace the first 5000 alone.
   */
  lemma SummarizedMeaning(kind: Kind, es: set<EventRow>, e: EventRow)
    ensures e in Summarized(kind, es) <==>
      && e in es
      && (|set f | f in es && Earlier(f, e)| < 5000
        || (kind == RunKind
          && (|set f | f in es && Later(f, e)| < 200
            || (EndsRun(e) && |set f | f in es && EndsRun(f) && Later(f, e)| < 10))))
  {
    var earlier: (EventRow, EventRow) -> bool, later: (EventRow, EventRow) -> bool := Earlier, Later;
    assert Below(es, earlier, e) == set f | f in es && Earlier(f, e);
    assert Below(es, later, e) == set f | f in es && Later(f, e);
    assert Below(Terminal(es), later, e) == set f | f in es && EndsRun(f) && Later(f, e);
  }

  /** Every column holds the correlation id it is named for. */
  lemma IdInMeaning(e: EventRow)
    ensures IdIn(e, GrantColumn) == e.grantId && IdIn(e, RunColumn) == e.runId && IdIn(e, TraceColumn) == e.traceId
  {
  }

  ghost function FullLog(es: set<EventRow>): seq<EventRow>
    requires IdsDistinct(es)
  {
    OrdersAreTotal(es);
    Sorted(es, Earlier)
  }

  // ---------- Merging ----------

  /** The last row given for every event id. */
  function LastById(rows: seq<EventRow>): map<string, EventRow> {
    if rows == [] then map[] else LastById(rows[..|rows| - 1])[rows[|rows| - 1].eventId := rows[|rows| - 1]]
  }

  lemma {:induction false} LastByIdKeyed(rows: seq<EventRow>, k: string)
    ensures k in LastById(rows) ==> LastById(rows)[k].eventId == k && LastById(rows)[k] in rows
    ensures forall r | r in rows :: r.eventId in LastById(rows)
  {
    if rows != [] {
      var n := |rows| - 1;
      LastByIdKeyed(rows[..n], k);
      assert rows == rows[..n] + [rows[n]];
    }
  }

  /** Merging keeps one row per event id, the last given, in event order, whatever the input's order. */
  method MergeEventRows(rows: seq<EventRow>) returns (merged: seq<EventRow>)
    ensures IdsDistinct(LastById(rows).Values)
    ensures Lists(merged, LastById(rows).Values, Earlier)
    ensures forall r | r in rows :: exists m :: m in merged && m.eventId == r.eventId
    ensures IdsDistinct(set r | r in rows) ==> Lists(merged, (set r | r in rows), Earlier)
  {
    var byId: map<string, EventRow> := map[];
    for i := 0 to |rows|
      invariant byId == LastById(rows[..i])
    {
      assert rows[..i + 1][..i] == rows[..i];
      byId := byId[rows[i].eventId := rows[i]];
    }
    assert rows[..|rows|] == rows;
    var kept := byId.Values;
    merged := Sort(kept, Earlier);
    KeptRows(rows, kept);
    OrdersAreTotal(kept);
  }

  lemma KeptRows(rows: seq<EventRow>, kept: set<EventRow>)
    requires kept == LastById(rows).Values
    ensures IdsDistinct(kept)
    ensures forall r | r in rows :: exists m :: m in kept && m.eventId == r.eventId
    ensures IdsDistinct(set r | r in rows) ==> kept == set r | r in rows
  {
    var byId := LastById(rows);
    forall a | a in kept ensures a.eventId in byId && byId[a.eventId] == a && a in rows {
      var k :| k in byId && byId[k] == a;
      LastByIdKeyed(rows, k);
    }
    forall r | r in rows ensures r.eventId in byId && byId[r.eventId] in kept && byId[r.eventId].eventId == r.eventId {
      LastByIdKeyed(rows, r.eventId);
    }
  }

  /** The rows of one id, in the order given. */
  function OfId(rows: seq<EventRow>, column: Column, id: string): seq<EventRow> {
    if rows == [] then []
    else
      var n := |rows| - 1;
      OfId(rows[..n], column, id) + if IdIn(rows[n], column) == Some(id) then [rows[n]] else []
  }

  lemma {:induction false} OfIdConcat(a: seq<EventRow>, b: seq<EventRow>, column: Column, id: string)
    ensures OfId(a + b, column, id) == OfId(a, column, id) + OfId(b, column, id)
  {
    if b == [] {
      assert a + b == a;
    } else {
      assert (a + b)[..|a + b| - 1] == a + b[..|b| - 1];
      OfIdConcat(a, b[..|b| - 1], column, id);
    }
  }

  lemma {:induction false} OfIdMembers(rows: seq<EventRow>, column: Column, id: string)
    ensures forall e :: e in OfId(rows, column, id) <==> e in rows && IdIn(e, column) == Some(id)
  {
    if rows != [] {
      OfIdMembers(rows[..|rows| - 1], column, id);
      assert rows == rows[..|rows| - 1] + [rows[|rows| - 1]];
    }
  }

  lemma OfIdSet(rows: seq<EventRow>, column: Column, id: string)
    ensures (set r | r in OfId(rows, column, id)) == EventsOf((set e | e in rows), column, id)
  {
    OfIdMembers(rows, column, id);
  }

  /** The rows of one id stay in the order of their window. */
  lemma {:induction false} OfIdAscends(
    rows: seq<EventRow>, column: Column, id: string, all: (EventRow, EventRow) -> bool,
      less: (EventRow, EventRow) -> bool)
    requires Ascending(rows, all)
    requires forall a, b | a in rows && b in rows && IdIn(a, column) == IdIn(b, column) && all(a, b) :: less(a, b)
    ensures Ascending(OfId(rows, column, id), less)
  {
    if rows != [] {
      var n := |rows| - 1;
      var before := OfId(rows[..n], column, id);
      assert rows == rows[..n] + [rows[n]];
      OfIdAscends(rows[..n], column, id, all, less);
      OfIdMembers(rows[..n], column, id);
      if IdIn(rows[n], column) == Some(id) {
        forall i | 0 <= i < |before| ensures less(before[i], rows[n]) {
          assert before[i] in before;
          var j :| 0 <= j < n && rows[j] == before[i];
          AscendingAt(rows, all, j, n);
        }
      }
    }
  }

  function Flatten(windows: seq<seq<EventRow>>): seq<EventRow> {
    if windows == [] then [] else Flatten(windows[..|windows| - 1]) + windows[|windows| - 1]
  }

  lemma OfIdSnoc(rows: seq<EventRow>, e: EventRow, column: Column, id: string)
    ensures OfId(rows + [e], column, id) == OfId(rows, column, id) + if IdIn(e, column) == Some(id) then [e] else []
  {
    assert (rows + [e])[..|rows|] == rows;
  }

  /** Every list has grown by the rows of its id; that of the empty id never grows. */
  ghost predicate Grown(
    before: map<string, seq<EventRow>>, after: map<string, seq<EventRow>>, rows: seq<EventRow>, column: Column) {
    && after.Keys == before.Keys
    && forall id | id in before :: after[id] == if id == "" then before[id] else before[id] + OfId(rows, column, id)
  }

  lemma GrownOn(
    a: map<string, seq<EventRow>>, b: map<string, seq<EventRow>>, c: map<string, seq<EventRow>>,
    r: seq<EventRow>, s: seq<EventRow>, column: Column)
    requires Grown(a, b, r, column) && Grown(b, c, s, column)
    ensures Grown(a, c, r + s, column)
  {
    forall id | id in a ensures c[id] == if id == "" then a[id] else a[id] + OfId(r + s, column, id) {
      OfIdConcat(r, s, column, id);
    }
  }

  /** Rows pushed to the list of their own id, one window after the other; other ids are dropped. */
  method GroupWindows(ids: set<string>, windows: seq<seq<EventRow>>, column: Column)
    returns (byId: map<string, seq<EventRow>>)
    ensures Grown(map id | id in ids :: [], byId, Flatten(windows), column)
  {
    ghost var empty: map<string, seq<EventRow>> := map id | id in ids :: [];
    byId := map id | id in ids :: [];
    for w := 0 to |windows|
      invariant Grown(empty, byId, Flatten(windows[..w]), column)
    {
      ghost var before := byId;
      byId := PushWindow(byId, windows[w], column);
      GrownOn(empty, before, byId, Flatten(windows[..w]), windows[w], column);
      assert windows[..w + 1][..w] == windows[..w];
    }
    assert windows[..|windows|] == windows;
  }

  method PushWindow(before: map<string, seq<EventRow>>, window: seq<EventRow>, column: Column)
    returns (byId: map<string, seq<EventRow>>)
    ensures Grown(before, byId, window, column)
  {
    byId := before;
    for i := 0 to |window|
      invariant Grown(before, byId, window[..i], column)
    {
      ghost var earlier := byId;
      var id := IdIn(window[i], column);
      if id.Some? && id.value != "" && id.value in byId {
        byId := byId[id.value := byId[id.value] + [window[i]]];
      }
      PushedOne(earlier, byId, window[i], column);
      GrownOn(before, earlier, byId, window[..i], [window[i]], column);
      TakeSnoc(window, i);
    }
    TakeSnoc(window, |window|);
  }

  lemma PushedOne(before: map<string, seq<EventRow>>, after: map<string, seq<EventRow>>, e: EventRow, column: Column)
    requires var id := IdIn(e, column);
      after == if id.Some? && id.value != "" && id.value in before then before[id.value := before[id.value] + [e]]
        else before
    ensures Grown(before, after, [e], column)
  {
    forall id: string { OfIdSnoc([], e, column, id); }
    assert [] + [e] == [e];
  }

  /** What the windows hold of one id; rows with an empty id are passed over. */
  function Collected(windows: seq<seq<EventRow>>, column: Column, id: string): set<EventRow> {
    if id == "" then {} else EventsOf((set e | e in Flatten(windows)), column, id)
  }

  /** Every run's windows merged: nothing fetched is lost, nothing is repeated, and the order is the log's. */
  method MergeRunEventWindows(ids: set<string>, windows: seq<seq<EventRow>>, column: Column)
    returns (merged: map<string, seq<EventRow>>)
    requires IdsDistinct(set e | e in Flatten(windows))
    ensures merged.Keys == ids
    ensures forall id | id in ids :: Lists(merged[id], Collected(windows, column, id), Earlier)
  {
    var byId := GroupWindows(ids, windows, column);
    merged := map[];
    var rest := ids;
    while rest != {}
      invariant rest <= ids && merged.Keys == ids - rest
      invariant forall id | id in merged :: Lists(merged[id], Collected(windows, column, id), Earlier)
      decreases |rest|
    {
      var id :| id in rest;
      var rows := MergeEventRows(byId[id]);
      GrownIsCollected(ids, byId, windows, column, id);
      merged := merged[id := rows];
      rest := rest - {id};
    }
  }

  lemma GrownIsCollected(
    ids: set<string>, byId: map<string, seq<EventRow>>, windows: seq<seq<EventRow>>, column: Column, id: string)
    requires Grown(map id | id in ids :: [], byId, Flatten(windows), column) && id in ids
    requires IdsDistinct(set e | e in Flatten(windows))
    ensures (set r | r in byId[id]) == Collected(windows, column, id)
    ensures IdsDistinct(set r | r in byId[id])
  {
    OfIdSet(Flatten(windows), column, id);
    assert byId[id] == if id == "" then [] else OfId(Flatten(windows), column, id);
  }

  /** An id has a list when it has a row, and the list holds its rows. */
  ghost predicate Grouped(byId: map<string, seq<EventRow>>, rows: seq<EventRow>, column: Column) {
    && (forall id :: id in byId <==> id != "" && OfId(rows, column, id) != [])
    && (forall id | id in byId :: byId[id] == OfId(rows, column, id))
  }

  /** A list for each id that a row has, with that id's rows as they come. */
  method GroupEventRowsByCorrelationId(rows: seq<EventRow>, column: Column) returns (byId: map<string, seq<EventRow>>)
    ensures forall id :: id in byId <==> id != "" && exists e :: e in rows && IdIn(e, column) == Some(id)
    ensures forall id | id in byId :: byId[id] == OfId(rows, column, id)
  {
    byId := map[];
    for i := 0 to |rows|
      invariant Grouped(byId, rows[..i], column)
    {
      ghost var before := byId;
      var id := IdIn(rows[i], column);
      if id.Some? && id.value != "" {
        byId := byId[id.value := (if id.value in byId then byId[id.value] else []) + [rows[i]]];
      }
      GroupedOne(before, byId, rows[..i], rows[i], column);
      TakeSnoc(rows, i);
    }
    TakeSnoc(rows, |rows|);
    forall id: string { OfIdNone(rows, column, id); }
  }

  lemma GroupedOne(
    before: map<string, seq<EventRow>>, after: map<string, seq<EventRow>>, rows: seq<EventRow>, e: EventRow,
      column: Column)
    requires Grouped(before, rows, column)
    requires var id := IdIn(e, column);
      after == if id.Some? && id.value != ""
        then before[id.value := (if id.value in before then before[id.value] else []) + [e]]
        else before
    ensures Grouped(after, rows + [e], column)
  {
    forall id: string { OfIdSnoc(rows, e, column, id); }
  }

  lemma OfIdNone(rows: seq<EventRow>, column: Column, id: string)
    ensures OfId(rows, column, id) != [] <==> exists e :: e in rows && IdIn(e, column) == Some(id)
  {
    OfIdMembers(rows, column, id);
    if OfId(rows, column, id) != [] { assert OfId(rows, column, id)[0] in OfId(rows, column, id); }
  }

  // ---------- Fetching ----------

  /** The rows of one window query over all ids asked for. */
  function Asked(
    log: set<EventRow>, column: Column, ids: set<string>, terminalOnly: bool, less: (EventRow, EventRow) -> bool,
      n: nat)
    : set<EventRow>
  {
    set e | e in log && IdIn(e, column).Some? && IdIn(e, column).value in ids
      && InWindow(e, log, column, terminalOnly, less, n)
  }

  predicate InWindow(
    e: EventRow, log: set<EventRow>, column: Column, terminalOnly: bool, less: (EventRow, EventRow) -> bool, n: nat)
    requires IdIn(e, column).Some?
  {
    var es := EventsOf(log, column, IdIn(e, column).value);
    e in Window(if terminalOnly then Terminal(es) else es, less, n)
  }

  /** Rows ordered by the column and, for one id, as the events are. */
  function ByColumn(column: Column, less: (EventRow, EventRow) -> bool): (EventRow, EventRow) -> bool {
    (a: EventRow, b: EventRow) =>
      && IdIn(a, column).Some? && IdIn(b, column).Some?
      && (StringLess(IdIn(a, column).value, IdIn(b, column).value)
        || (IdIn(a, column) == IdIn(b, column) && less(a, b)))
  }

  lemma ByColumnOrders(column: Column, less: (EventRow, EventRow) -> bool, es: set<EventRow>)
    requires StrictTotal(less, es) && forall e | e in es :: IdIn(e, column).Some?
    ensures StrictTotal(ByColumn(column, less), es)
  {
    var order := ByColumn(column, less);
    forall a | a in es ensures !order(a, a) { StringTrichotomy(IdIn(a, column).value, IdIn(a, column).value); }
    forall a, b | a in es && b in es && a != b ensures order(a, b) || order(b, a) {
      StringTrichotomy(IdIn(a, column).value, IdIn(b, column).value);
    }
    forall a, b, c | a in es && b in es && c in es && order(a, b) && order(b, c) ensures order(a, c) {
      if StringLess(IdIn(a, column).value, IdIn(b, column).value)
        && StringLess(IdIn(b, column).value, IdIn(c, column).value) {
        StringTransitive(IdIn(a, column).value, IdIn(b, column).value, IdIn(c, column).value);
      }
    }
  }

  method QueryWindow(
    log: set<EventRow>, column: Column, ids: set<string>, terminalOnly: bool, less: (EventRow, EventRow) -> bool,
      n: nat)
    returns (rows: seq<EventRow>)
    requires StrictTotal(less, log)
    ensures Lists(rows, Asked(log, column, ids, terminalOnly, less, n), ByColumn(column, less))
  {
    var found := Asked(log, column, ids, terminalOnly, less, n);
    rows := Sort(found, ByColumn(column, less));
    assert StrictTotal(less, found);
    ByColumnOrders(column, less, found);
  }

  /** The rows a summary of this kind is made from. */
  function Summarized(kind: Kind, es: set<EventRow>): set<EventRow> {
    if kind == RunKind then Fetched(es) else Window(es, Earlier, HEAD_LIMIT)
  }

  /**
   * The rows summaries are made from: exactly what the windows of every id hold, in event order.
   * Every run asked for has a list; of the other kinds every id with an event has one.
   */
  method FetchRowsForSummaries(log: set<EventRow>, kind: Kind, column: Column, ids: set<string>)
    returns (byId: map<string, seq<EventRow>>)
    requires IdsDistinct(log)
    ensures forall id :: id in byId <==> id in ids && (kind == RunKind || (id != "" && EventsOf(log, column, id) != {}))
    ensures forall id | id in byId ::
      Lists(byId[id], if id == "" then {} else Summarized(kind, EventsOf(log, column, id)), Earlier)
  {
    if ids == {} { return map[]; }
    OrdersAreTotal(log);
    var head := QueryWindow(log, column, ids, false, Earlier, HEAD_LIMIT);
    if kind != RunKind {
      byId := GroupEventRowsByCorrelationId(head, column);
      forall id: string { GroupedIsHead(log, column, ids, head, id); }
      return;
    }
    var tail := QueryWindow(log, column, ids, false, Later, TAIL_LIMIT);
    var terminal := QueryWindow(log, column, ids, true, Later, TERMINAL_LIMIT);
    FlattenThree(head, tail, terminal);
    byId := MergeRunEventWindows(ids, [head, tail, terminal], column);
    forall id | id in ids && id != "" { CollectedIsFetched(log, column, ids, head, tail, terminal, id); }
  }

  lemma CollectedIsFetched(
    log: set<EventRow>, column: Column, ids: set<string>,
    head: seq<EventRow>, tail: seq<EventRow>, terminal: seq<EventRow>, id: string)
    requires id in ids && id != ""
    requires forall e :: e in head <==> e in Asked(log, column, ids, false, Earlier, HEAD_LIMIT)
    requires forall e :: e in tail <==> e in Asked(log, column, ids, false, Later, TAIL_LIMIT)
    requires forall e :: e in terminal <==> e in Asked(log, column, ids, true, Later, TERMINAL_LIMIT)
    ensures Collected([head, tail, terminal], column, id) == Fetched(EventsOf(log, column, id))
  {
    FlattenThree(head, tail, terminal);
  }

  /** The head window split by id: an id has a list exactly when it has an event, and the list is its head window. */
  lemma GroupedIsHead(log: set<EventRow>, column: Column, ids: set<string>, head: seq<EventRow>, id: string)
    requires IdsDistinct(log)
    requires Lists(head, Asked(log, column, ids, false, Earlier, HEAD_LIMIT), ByColumn(column, Earlier))
    ensures id in ids && EventsOf(log, column, id) != {} <==> exists e :: e in head && IdIn(e, column) == Some(id)
    ensures id in ids ==> Lists(OfId(head, column, id), Window(EventsOf(log, column, id), Earlier, HEAD_LIMIT), Earlier)
  {
    var es := EventsOf(log, column, id);
    forall a, b | a in head && b in head && IdIn(a, column) == IdIn(b, column) && ByColumn(column, Earlier)(a, b)
      ensures Earlier(a, b)
    {
      StringTrichotomy(IdIn(a, column).value, IdIn(b, column).value);
    }
    OfIdAscends(head, column, id, ByColumn(column, Earlier), Earlier);
    assert IdsDistinct(es);
    OfIdMembers(head, column, id);
    if id in ids && es != {} {
      OrdersAreTotal(es);
      LeastExists(es, Earlier);
      var first :| Least(first, es, Earlier);
      FirstInWindow(es, first);
      assert first in head;
    }
  }

  lemma FirstInWindow(es: set<EventRow>, first: EventRow)
    requires Least(first, es, Earlier)
    ensures first in Window(es, Earlier, HEAD_LIMIT)
  {
    forall e | e in Below(es, Earlier, first) ensures false {
      OneDirection(e, first);
    }
    assert Below(es, Earlier, first) == {};
  }

  lemma FlattenThree(a: seq<EventRow>, b: seq<EventRow>, c: seq<EventRow>)
    ensures Flatten([a, b, c]) == a + b + c
  {
    assert [a][..0] == [] && Flatten([a]) == a;
    assert [a, b][..1] == [a] && Flatten([a, b]) == a + b;
    assert [a, b, c][..2] == [a, b];
  }

  // ---------- How much of the log that is ----------

  /** A row's number in an order is its place in the listing. */
  lemma WithinIsPrefix(es: set<EventRow>, less: (EventRow, EventRow) -> bool, n: nat, s: seq<EventRow>, i: nat)
    requires StrictTotal(less, es) && Lists(s, es, less) && i < |s|
    ensures Within(s[i], es, less, n) <==> i < n
  {
    RankIsPlace(s, es, less, i);
  }

  lemma PrefixAscends(s: seq<EventRow>, less: (EventRow, EventRow) -> bool, i: nat)
    requires Ascending(s, less) && i <= |s|
    ensures Ascending(s[..i], less)
  {
  }

  /** The log read backwards lists the same events in the descending order, if all have numbers. */
  lemma Backwards(es: set<EventRow>, s: seq<EventRow>)
    requires Lists(s, es, Earlier) && forall e | e in es :: e.seqNo.Some?
    ensures Lists(Reverse(s), es, Later)
  {
    var r := Reverse(s);
    ReverseMembers(s);
    forall i, j | 0 <= i < j < |r| ensures Later(r[i], r[j]) {
      AscendingAt(s, Earlier, |s| - 1 - j, |s| - 1 - i);
      assert r[i] in r && r[j] in r;
      LaterReverses(r[i], r[j]);
    }
  }

  lemma ReverseMembers(s: seq<EventRow>)
    ensures forall e :: e in Reverse(s) <==> e in s
  {
    forall e | e in s ensures e in Reverse(s) {
      var i :| 0 <= i < |s| && s[i] == e;
      assert Reverse(s)[|s| - 1 - i] == e;
    }
  }

  function Reverse(s: seq<EventRow>): seq<EventRow> {
    seq(|s|, i requires 0 <= i < |s| => s[|s| - 1 - i])
  }

  /** Place by place: the head window holds the first rows, ... */
  lemma HeadPlaces(es: set<EventRow>, s: seq<EventRow>, i: nat)
    requires IdsDistinct(es) && Lists(s, es, Earlier) && i < |s|
    ensures s[i] in Window(es, Earlier, HEAD_LIMIT) <==> i < HEAD_LIMIT
  {
    OrdersAreTotal(es);
    assert s[i] in s;
    WithinIsPrefix(es, Earlier, HEAD_LIMIT, s, i);
  }

  /** ... and the tail window the last ones. */
  lemma TailPlaces(es: set<EventRow>, s: seq<EventRow>, i: nat)
    requires IdsDistinct(es) && Lists(s, es, Earlier) && i < |s|
    requires forall e | e in es :: e.seqNo.Some?
    ensures s[i] in Window(es, Later, TAIL_LIMIT) <==> |s| - 1 - i < TAIL_LIMIT
  {
    OrdersAreTotal(es);
    Backwards(es, s);
    var r := Reverse(s);
    assert r[|s| - 1 - i] == s[i] && s[i] in s;
    WithinIsPrefix(es, Later, TAIL_LIMIT, r, |s| - 1 - i);
  }

  lemma FullLogLists(es: set<EventRow>)
    requires IdsDistinct(es)
    ensures Lists(FullLog(es), es, Earlier) && |FullLog(es)| == |es|
  {
    OrdersAreTotal(es);
    SortedLists(es, Earlier);
  }

  /**
   * The merged windows are the full log as long as it has at most 5000 events, or at most 5200
   * all of which carry a sequence number.
   */
  lemma WindowsCoverLog(es: set<EventRow>, merged: seq<EventRow>)
    requires IdsDistinct(es) && Lists(merged, Fetched(es), Earlier)
    requires |es| <= HEAD_LIMIT || (|es| <= HEAD_LIMIT + TAIL_LIMIT && forall e | e in es :: e.seqNo.Some?)
    ensures merged == FullLog(es)
  {
    FullLogLists(es);
    var all := FullLog(es);
    forall e | e in es ensures e in Fetched(es) {
      assert e in all;
      var i :| 0 <= i < |all| && all[i] == e;
      HeadPlaces(es, all, i);
      if |es| > HEAD_LIMIT { TailPlaces(es, all, i); }
    }
    assert Fetched(es) == es;
    OrdersAreTotal(es);
    ListingUnique(merged, all, es, Earlier);
  }

  /** With numbers everywhere, a longer log is complete exactly when the terminal window fills the gap. */
  lemma WindowsCoverLogIff(es: set<EventRow>, merged: seq<EventRow>)
    requires IdsDistinct(es) && Lists(merged, Fetched(es), Earlier)
    requires forall e | e in es :: e.seqNo.Some?
    ensures merged == FullLog(es) <==>
      forall i | HEAD_LIMIT <= i < |FullLog(es)| - TAIL_LIMIT ::
        FullLog(es)[i] in Window(Terminal(es), Later, TERMINAL_LIMIT)
  {
    FullLogLists(es);
    var all := FullLog(es);
    forall i | 0 <= i < |all|
      ensures all[i] in Fetched(es) <==>
        (HEAD_LIMIT <= i < |all| - TAIL_LIMIT ==> all[i] in Window(Terminal(es), Later, TERMINAL_LIMIT))
    {
      HeadPlaces(es, all, i);
      TailPlaces(es, all, i);
    }
    OrdersAreTotal(es);
    AllOrSome(merged, Fetched(es), all, es);
  }

  /** A listing of a part is the listing of the whole exactly when the part holds every place of it. */
  lemma AllOrSome(part: seq<EventRow>, held: set<EventRow>, all: seq<EventRow>, es: set<EventRow>)
    requires Lists(part, held, Earlier) && Lists(all, es, Earlier) && StrictTotal(Earlier, es) && held <= es
    ensures part == all <==> forall i | 0 <= i < |all| :: all[i] in held
  {
    if forall i | 0 <= i < |all| :: all[i] in held {
      assert forall e | e in es :: e in all;
      assert held == es;
      ListingUnique(part, all, es, Earlier);
    }
    if part == all {
      forall i | 0 <= i < |all| ensures all[i] in held { assert all[i] in part; }
    }
  }

  // ---------- The terminal status ----------

  predicate Usable(e: EventRow) {
    e.eventType in RUN_TERMINAL_EVENT_TYPES && e.status.Some? && e.status.value != "" && e.status.value != "unknown"
  }

  function LastUsable(rows: seq<EventRow>): Option<EventRow> {
    if rows == [] then None
    else if Usable(rows[|rows| - 1]) then Some(rows[|rows| - 1])
    else LastUsable(rows[..|rows| - 1])
  }

  /** A row that says how the run ended; with the five types of lib/spine.ts a browser-surface failure does too. */
  ghost predicate SaysHow(e: EventRow, five: bool) {
    && (EndsRun(e) || (five && e.eventType == "run.browser_surface_failed"))
    && exists s :: e.status == Some(s) && s != "" && s != "unknown"
  }

  /** The last row that says so. */
  ghost predicate LastToSay(rows: seq<EventRow>, five: bool, i: int) {
    0 <= i < |rows| && SaysHow(rows[i], five) && forall j | i < j < |rows| :: !SaysHow(rows[j], five)
  }

  ghost function Picked(rows: seq<EventRow>, five: bool): Option<EventRow> {
    if five then LastCanonical(rows) else LastUsable(rows)
  }

  /** The terminal event that a list of types picks is the last row that says how the run ended. */
  lemma {:induction false} PickedMeaning(rows: seq<EventRow>, five: bool)
    ensures match Picked(rows, five)
      case None => forall i | 0 <= i < |rows| :: !SaysHow(rows[i], five)
      case Some(e) => exists i :: LastToSay(rows, five, i) && rows[i] == e
  {
    if rows != [] {
      var n := |rows| - 1;
      var before := rows[..n];
      if SaysHow(rows[n], five) {
        assert LastToSay(rows, five, n);
      } else {
        PickedMeaning(before, five);
        assert Picked(rows, five) == Picked(before, five);
        if Picked(before, five).Some? {
          var i :| LastToSay(before, five, i) && before[i] == Picked(before, five).value;
          assert forall j | 0 <= j < n :: rows[j] == before[j];
          assert LastToSay(rows, five, i);
        }
      }
    }
  }

  /** The status of the last row that says how the run ended. */
  method LatestRunTerminalStatus(rows: seq<EventRow>) returns (status: Option<string>)
    ensures status == match LastUsable(rows) case None => None case Some(e) => e.status
    ensures forall i | LastToSay(rows, false, i) :: status == rows[i].status
    ensures (forall i | 0 <= i < |rows| :: !SaysHow(rows[i], false)) ==> status == None
  {
    PickedMeaning(rows, false);
    assert rows[..|rows|] == rows;
    var i := |rows| - 1;
    while i >= 0
      invariant -1 <= i < |rows|
      invariant LastUsable(rows) == LastUsable(rows[..i + 1])
    {
      assert rows[..i + 1][..i] == rows[..i];
      if Usable(rows[i]) { return rows[i].status; }
      i := i - 1;
    }
    return None;
  }

  /** The terminal types of lib/spine.ts, which this file says it is aligned with: one more. */
  const CANONICAL_TERMINAL_EVENT_TYPES: set<string> := RUN_TERMINAL_EVENT_TYPES + {"run.browser_surface_failed"}

  predicate CanonicallyUsable(e: EventRow) {
    e.eventType in CANONICAL_TERMINAL_EVENT_TYPES && e.status.Some? && e.status.value != ""
      && e.status.value != "unknown"
  }

  function LastCanonical(rows: seq<EventRow>): Option<EventRow> {
    if rows == [] then None
    else if CanonicallyUsable(rows[|rows| - 1]) then Some(rows[|rows| - 1])
    else LastCanonical(rows[..|rows| - 1])
  }

  /**
   * The two lists pick different terminal events exactly when the last usable one of the five
   * types is a browser-surface failure.
   */
  lemma {:induction false} ListsDisagreeIff(rows: seq<EventRow>)
    ensures LastUsable(rows) != LastCanonical(rows) <==>
      LastCanonical(rows).Some? && LastCanonical(rows).value.eventType == "run.browser_surface_failed"
  {
    LastUsableIsUsable(rows);
    if rows != [] { ListsDisagreeIff(rows[..|rows| - 1]); }
  }

  /** Such an input: one failure with a status, which only the five types see. */
  lemma ListsDisagreeExample()
    ensures var failure :=
        EventRow("evt", Some(1), None, Some("run"), None, "run.browser_surface_failed", Some("failed"));
      LastUsable([failure]) == None && LastCanonical([failure]) == Some(failure)
  {
    var failure := EventRow("evt", Some(1), None, Some("run"), None, "run.browser_surface_failed", Some("failed"));
    assert [failure][..0] == [];
    assert LastUsable([]) == None;
  }

  lemma {:induction false} LastUsableIsUsable(rows: seq<EventRow>)
    ensures LastUsable(rows).Some? ==> Usable(LastUsable(rows).value)
  {
    if rows != [] { LastUsableIsUsable(rows[..|rows| - 1]); }
  }

  ghost predicate LatestUsableIn(es: set<EventRow>, e: EventRow) {
    e in es && Usable(e) && forall f | f in es && Usable(f) && f != e :: Earlier(f, e)
  }

  /** In a listing, the last usable event is the latest usable one of the set. */
  lemma {:induction false} LastUsableIsLatest(s: seq<EventRow>, es: set<EventRow>)
    requires Lists(s, es, Earlier)
    ensures LastUsable(s).Some? ==> LatestUsableIn(es, LastUsable(s).value)
    ensures LastUsable(s).None? ==> forall e | e in es :: !Usable(e)
    decreases |s|
  {
    if s != [] {
      var n := |s| - 1;
      var last := s[n];
      var init := set e | e in s[..n];
      PrefixAscends(s, Earlier, n);
      LastUsableIsLatest(s[..n], init);
      assert s == s[..n] + [last];
      forall e | e in es && e != last ensures e in init && Earlier(e, last) {
        assert e in s;
        var i :| 0 <= i < |s| && s[i] == e;
        assert e in s[..n];
      }
    }
  }

  /** The merged windows give the full log's terminal event exactly when they hold it, if there is one. */
  lemma MergedTerminalIff(es: set<EventRow>, merged: seq<EventRow>)
    requires IdsDistinct(es) && Lists(merged, Fetched(es), Earlier)
    ensures LastUsable(merged) == LastUsable(FullLog(es)) <==>
      (LastUsable(FullLog(es)).Some? ==> LastUsable(FullLog(es)).value in Fetched(es))
  {
    FullLogLists(es);
    LastUsableIsLatest(FullLog(es), es);
    LastUsableIsLatest(merged, Fetched(es));
    if LastUsable(FullLog(es)).Some? && LastUsable(merged).Some? {
      var e, f := LastUsable(FullLog(es)).value, LastUsable(merged).value;
      assert f in es;
      OneDirection(e, f);
    }
  }

  /**
   * For a log of any length whose events carry numbers: when one of its last ten terminal
   * events has a usable status, the merged windows give the full log's terminal status.
   */
  lemma MergedStatusExact(es: set<EventRow>, merged: seq<EventRow>, e: EventRow)
    requires IdsDistinct(es) && Lists(merged, Fetched(es), Earlier)
    requires forall f | f in es :: f.seqNo.Some?
    requires e in Terminal(es) && Usable(e) && |set f | f in Terminal(es) && Earlier(e, f)| < TERMINAL_LIMIT
    ensures LastUsable(FullLog(es)).Some? && LastUsable(merged) == LastUsable(FullLog(es))
  {
    FullLogLists(es);
    LastUsableIsLatest(FullLog(es), es);
    var latest := LastUsable(FullLog(es)).value;
    LatestAmongLast(es, e, latest);
    MergedTerminalIff(es, merged);
  }

  lemma LatestAmongLast(es: set<EventRow>, e: EventRow, latest: EventRow)
    requires forall f | f in es :: f.seqNo.Some?
    requires e in Terminal(es) && Usable(e) && LatestUsableIn(es, latest)
    requires |set f | f in Terminal(es) && Earlier(e, f)| < TERMINAL_LIMIT
    ensures latest in Window(Terminal(es), Later, TERMINAL_LIMIT)
  {
    var after, afterE := set f | f in Terminal(es) && Later(f, latest), set f | f in Terminal(es) && Earlier(e, f);
    forall f | f in after ensures f in afterE {
      LaterReverses(f, latest);
      if e != latest { EarlierTransitive(e, latest, f); }
    }
    SubsetSize(after, afterE);
    var less: (EventRow, EventRow) -> bool := Later;
    assert after == Below(Terminal(es), less, latest);
    assert Within(latest, Terminal(es), less, TERMINAL_LIMIT);
  }
}

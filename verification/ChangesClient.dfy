/**
 * A client of the change list, end to end: it reads a session page by page from the store,
 * while other callers keep writing to the store between any two pages.
 */
module ChangesClient {
  import opened Wrappers
  import opened Paging
  import opened RecordModel
  import opened RecordHistory
  import opened ChangeSessions
  import opened Replication
  import opened PrunedSessions
  import opened PrunedPages
  import opened Grants
  import opened SnapshotImport
  import opened RecordsRepository

  /** Any number of writes by others, anywhere in the store. */
  method OtherWriters(store: GrantScopedRecordsRepository)
    requires store.Valid()
    modifies store
    ensures store.Valid()
    ensures forall at :: old(store.HistoryAt(at)) <= store.HistoryAt(at)
  {
    var n: nat := *;
    var i := 0;
    while i < n
      invariant store.Valid()
      invariant forall at :: old(store.HistoryAt(at)) <= store.HistoryAt(at)
    {
      OneWrite(store);
      i := i + 1;
    }
  }

  method OneWrite(store: GrantScopedRecordsRepository)
    requires store.Valid()
    modifies store
    ensures store.Valid()
    ensures forall at :: old(store.HistoryAt(at)) <= store.HistoryAt(at)
  {
    var at: Location, key: string, emittedAt: string := *, *, *;
    assert store.InStep(at);
    if * {
      var data: Data := *;
      AppendIsHistory(store.HistoryAt(at), Operation.Upsert(key, data, emittedAt));
      var _ := store.Upsert(at, key, Some(data), emittedAt);
    } else if * {
      OneImport(store);
    } else {
      AppendIsHistory(store.HistoryAt(at), Operation.Delete(key, emittedAt));
      var _ := store.Delete(at, key, emittedAt);
    }
  }

  method OneImport(store: GrantScopedRecordsRepository)
    requires store.Valid()
    modifies store
    ensures store.Valid()
    ensures forall at :: old(store.HistoryAt(at)) <= store.HistoryAt(at)
  {
    var id: string, entries: seq<StreamRecords>, snapshot: Option<SnapshotMetadata> := *, *, *;
    var _ := store.ImportSnapshot(id, entries, snapshot);
    if store.ImportError(id, entries, snapshot).None? {
      ghost var steps, resets := SnapshotSteps(entries, store.streams).value,
        CheckSnapshot(snapshot, entries, store.streams, store.isTimestamp).value;
      forall s ensures old(store.HistoryAt(Location(id, s))) <= store.HistoryAt(Location(id, s)) {
        assert old(store.InStep(Location(id, s)));
        ImportedGrows(old(store.HistoryAt(Location(id, s))), store.HistoryAt(Location(id, s)), OpsOn(steps, s),
          s in resets.streams, resets.completedAt);
      }
      forall at ensures old(store.HistoryAt(at)) <= store.HistoryAt(at) {
        if at.connectionId == id { assert at == Location(id, at.stream); }
      }
    }
  }

  /** Normalizing a grant without asking for fields changes nothing that it shows. */
  lemma SameViews(h: seq<Row>, grant: Grant, g: Grant, md: StreamMetadata)
    requires NormalizeGrant(grant, None, md) == Success(g)
    ensures forall n | 0 <= n <= |h| :: View(h[..n], g, md) == View(h[..n], grant, md)
  {
    forall row
      ensures Disclose(row, g, md) == Disclose(row, grant, md)
    {
      NormalizedGrantNarrows(grant, None, md, row);
    }
  }

  // ---------- A session as the reader sees it ----------

  /** One page read: the session it was asked for, and the history it was served from. */
  datatype Visit = Visit(history: seq<Row>, session: Session, page: Page)

  /** What the store answers, as a function of its history and the session. */
  ghost function Server(limit: Option<nat>, n: nat, g: Grant, md: StreamMetadata): (seq<Row>, Session) -> Page {
    (h, s) => if Numbered(h) && n > 0 then PageOf(h, limit, s, n, g, md) else Page([], NextChangesSince(0))
  }

  ghost predicate Visited(v: Visit, base: seq<Row>, server: (seq<Row>, Session) -> Page) {
    Later(v.history, base) && v.page == server(v.history, v.session)
  }

  /** Visits follow one another on a growing history, each asking for the session the page before named. */
  ghost predicate Trace(vs: seq<Visit>, base: seq<Row>, server: (seq<Row>, Session) -> Page) {
    && (forall j | 0 <= j < |vs| :: Visited(vs[j], base, server))
    && (forall j | 0 < j < |vs| :: Continues(vs[j - 1], vs[j]))
  }

  ghost predicate Continues(v: Visit, v': Visit) {
    v.history <= v'.history && v.page.next == NextCursor(v'.session)
  }

  function Histories(vs: seq<Visit>): seq<seq<Row>> {
    seq(|vs|, j requires 0 <= j < |vs| => vs[j].history)
  }

  function Sizes(vs: seq<Visit>, n: nat): seq<nat> {
    seq(|vs|, _ => n)
  }

  ghost function Pages(vs: seq<Visit>): seq<Served<Entry, Session>> {
    seq(|vs|, j requires 0 <= j < |vs| => AsServed(vs[j].page))
  }

  /** The entries of all pages. */
  ghost function Sent(vs: seq<Visit>): seq<Entry> {
    Joined(Pages(vs))
  }

  lemma SentSnoc(vs: seq<Visit>, v: Visit)
    ensures Sent(vs + [v]) == Sent(vs) + v.page.data
  {
    JoinedSnoc(Pages(vs), AsServed(v.page));
    assert Pages(vs + [v]) == Pages(vs) + [AsServed(v.page)];
  }

  lemma TraceReads(vs: seq<Visit>, base: seq<Row>, server: (seq<Row>, Session) -> Page, n: nat)
    requires Trace(vs, base, server) && n > 0
    ensures Reads(Histories(vs), Sizes(vs, n), base)
  {
    forall j | 0 <= j < |vs| ensures Later(Histories(vs)[j], base) { assert Visited(vs[j], base, server); }
  }

  lemma {:induction false} TraceFollows(
    vs: seq<Visit>, serve: (int, Session) -> Served<Entry, Session>, cs: seq<Session>)
    requires |cs| == |vs| && forall j | 0 <= j < |vs| :: cs[j] == vs[j].session
    requires forall j | 0 <= j < |vs| :: serve(j, vs[j].session) == AsServed(vs[j].page)
    requires forall j | 0 < j < |vs| :: Continues(vs[j - 1], vs[j])
    ensures Follows(serve, cs, Pages(vs))
  {
    var pages := Pages(vs);
    forall j | 0 < j < |pages| ensures pages[j - 1].next == Some(cs[j]) {
      assert Continues(vs[j - 1], vs[j]);
    }
  }

  lemma {:induction false} TraceCollected(vs: seq<Visit>, serve: (int, Session) -> Served<Entry, Session>)
    requires vs != [] && vs[|vs| - 1].page.next.NextChangesSince?
    requires forall j | 0 <= j < |vs| :: serve(j, vs[j].session) == AsServed(vs[j].page)
    requires forall j | 0 < j < |vs| :: Continues(vs[j - 1], vs[j])
    ensures Collect(serve, |vs|, 0, vs[0].session) == (Sent(vs), true)
  {
    var cs := seq(|vs|, j requires 0 <= j < |vs| => vs[j].session);
    TraceFollows(vs, serve, cs);
    AllPages(serve, cs, Pages(vs));
  }

  /** A trace whose last page reports the end is what the session delivers. */
  lemma TraceReceived(vs: seq<Visit>, base: seq<Row>, limit: Option<nat>, n: nat, g: Grant, md: StreamMetadata)
    requires Trace(vs, base, Server(limit, n, g, md)) && n > 0 && vs != [] && vs[|vs| - 1].page.next.NextChangesSince?
    ensures Deliver(Histories(vs), limit, Sizes(vs, n), vs[0].session, g, md) == (Sent(vs), true)
  {
    var serve := Serve(Histories(vs), limit, Sizes(vs, n), g, md);
    forall j | 0 <= j < |vs| ensures serve(j, vs[j].session) == AsServed(vs[j].page) {
      VisitServed(vs, base, limit, n, g, md, j);
    }
    TraceCollected(vs, serve);
  }

  lemma VisitServed(vs: seq<Visit>, base: seq<Row>, limit: Option<nat>, n: nat, g: Grant, md: StreamMetadata, j: nat)
    requires Trace(vs, base, Server(limit, n, g, md)) && n > 0 && j < |vs|
    ensures AsServed(vs[j].page) == Serve(Histories(vs), limit, Sizes(vs, n), g, md)(j, vs[j].session)
  {
    assert Visited(vs[j], base, Server(limit, n, g, md));
  }

  // ---------- The client ----------

  /** One page, read from whatever the store has become. */
  method ReadPage(
    store: GrantScopedRecordsRepository, at: Location, grant: Grant, limit: int, request: ChangesRequest,
    ghost session: Session)
    returns (page: Page)
    requires store.Valid() && store.ReadContext(at, grant, None, limit).Success?
    requires RequestedSession(store.HistoryAt(at), store.historyLimit, at, request) == Success(session)
    ensures var (n, g) := store.ReadContext(at, grant, None, limit).value;
      Numbered(store.HistoryAt(at)) && n > 0
        && page == Server(store.historyLimit, n, g, store.streams[at.stream])(store.HistoryAt(at), session)
  {
    var answer := store.ListChanges(at, grant, request, limit);
    page := answer.value;
  }

  /** The state of a reader after some pages, the last of them served from `now`. */
  ghost predicate Following(
    vs: seq<Visit>, base: seq<Row>, server: (seq<Row>, Session) -> Page, session: Session, page: Page, now: seq<Row>,
    client: map<string, Data>, replica: map<string, Data>) {
    && Trace(vs, base, server) && vs != []
    && vs[0].history == base && vs[0].session == session
    && vs[|vs| - 1].page == page && vs[|vs| - 1].history == now
    && replica == Apply(client, Sent(vs))
  }

  lemma FollowsFirst(base: seq<Row>, server: (seq<Row>, Session) -> Page, session: Session, client: map<string, Data>)
    requires Numbered(base)
    ensures var page := server(base, session);
      Following([Visit(base, session, page)], base, server, session, page, base, client, Apply(client, page.data))
  {
    var v := Visit(base, session, server(base, session));
    SentSnoc([], v);
    assert [] + [v] == [v] && Sent([]) == [] && Sent([v]) == v.page.data;
    assert Visited(v, base, server);
    assert Trace([v], base, server);
  }

  lemma FollowsNext(vs: seq<Visit>, base: seq<Row>, server: (seq<Row>, Session) -> Page, session: Session, page: Page,
                    now: seq<Row>, client: map<string, Data>, replica: map<string, Data>, h: seq<Row>)
    requires Following(vs, base, server, session, page, now, client, replica) && page.next.NextCursor?
    requires Later(h, base) && now <= h
    ensures var page' := server(h, page.next.session);
      Following(vs + [Visit(h, page.next.session, page')], base, server, session, page', h, client,
        Apply(replica, page'.data))
  {
    var v := Visit(h, page.next.session, server(h, page.next.session));
    SentSnoc(vs, v);
    assert Visited(v, base, server) && Continues(vs[|vs| - 1], v);
    forall j | 0 <= j < |vs| ensures Visited(vs[j], base, server) {}
    ApplyConcat(client, Sent(vs), v.page.data);
  }

  /** The next session of a page moves on within the window. */
  lemma NextSession(h: seq<Row>, base: seq<Row>, limit: Option<nat>, s: Session, n: nat, g: Grant, md: StreamMetadata)
    requires SessionFits(base, s) && base <= h && Numbered(h) && n > 0
    ensures match PageOf(h, limit, s, n, g, md).next
      case NextCursor(s') => SessionFits(base, s') && s' == s.(afterVersion := s'.afterVersion)
        && s.afterVersion < s'.afterVersion <= s.horizonVersion
      case NextChangesSince(v) => v == s.horizonVersion
  {
    if |Listing(h, limit, s, g, md)| > n { ListedVersion(h, limit, s, g, md, n - 1); }
  }

  /** What a completed session leaves, key by key; without a history limit, the view if it started from one. */
  ghost predicate Synchronized(
    replica: map<string, Data>, client: map<string, Data>, hs: seq<seq<Row>>, ns: seq<nat>, base: seq<Row>,
    limit: Option<nat>, s: Session, g: Grant, md: StreamMetadata) {
    && Reads(hs, ns, base) && SessionFits(base, s)
    && (forall k :: Lookup(replica, k) ==
          if SentByPages(hs, limit, ns, 0, s, base, g, md, k) then Lookup(View(base, g, md), k) else Lookup(client, k))
    && (limit.None? && client == View(base[..s.sinceVersion], g, md) ==> replica == View(base, g, md))
  }

  lemma Synchronizes(
    hs: seq<seq<Row>>, ns: seq<nat>, base: seq<Row>, limit: Option<nat>, s: Session, g: Grant, md: StreamMetadata,
    client: map<string, Data>)
    requires Reads(hs, ns, base) && Issued(base, s) && Opening(s) && s.horizonVersion == |base|
    requires Deliver(hs, limit, ns, s, g, md).1
    ensures Synchronized(Apply(client, Deliver(hs, limit, ns, s, g, md).0), client, hs, ns, base, limit, s, g, md)
  {
    var replica := Apply(client, Deliver(hs, limit, ns, s, g, md).0);
    assert base[..|base|] == base;
    forall k ensures Lookup(replica, k) ==
      if SentByPages(hs, limit, ns, 0, s, base, g, md, k) then Lookup(View(base, g, md), k) else Lookup(client, k)
    {
      PrunedPagesApplied(hs, limit, ns, base, s, g, md, client, k);
    }
    if limit.None? && client == View(base[..s.sinceVersion], g, md) {
      forall k ensures Lookup(replica, k) == Lookup(View(base, g, md), k) {
        if Differs(base, s, g, md, k) { EverythingSentUnpruned(hs, ns, base, s, g, md, k); }
      }
      SameByLookup(replica, View(base, g, md));
    }
  }

  lemma FollowedToEnd(
    vs: seq<Visit>, base: seq<Row>, limit: Option<nat>, n: nat, g: Grant, md: StreamMetadata, s: Session, page: Page,
    now: seq<Row>, client: map<string, Data>, replica: map<string, Data>)
    requires Following(vs, base, Server(limit, n, g, md), s, page, now, client, replica) && n > 0
      && page.next.NextChangesSince?
    requires Issued(base, s) && Opening(s) && s.horizonVersion == |base|
    ensures Synchronized(replica, client, Histories(vs), Sizes(vs, n), base, limit, s, g, md)
  {
    TraceReads(vs, base, Server(limit, n, g, md), n);
    TraceReceived(vs, base, limit, n, g, md);
    Synchronizes(Histories(vs), Sizes(vs, n), base, limit, s, g, md, client);
  }

  /** The visits of a session: the first to the store as it was, the last to what it has become since or earlier. */
  ghost predicate Visits(
    vs: seq<Visit>, base: seq<Row>, now: seq<Row>, session: Session, limit: Option<nat>, n: nat, g: Grant,
    md: StreamMetadata) {
    && Trace(vs, base, Server(limit, n, g, md)) && vs != []
    && vs[0].history == base && vs[0].session == session && vs[|vs| - 1].history <= now
    && vs[|vs| - 1].page.next.NextChangesSince?
  }

  /**
   * One whole session, whatever the client held, whatever is written meanwhile and whatever is
   * pruned: it is refused exactly when its cursor has expired; otherwise it ends with the
   * version to ask from next time and, key by key, with the granted value of the store as it
   * was when the session was opened, where the page that owed it could still send it, and with
   * what it held elsewhere. From the view at that version and without a history limit, that is
   * exactly the view.
   */
  method Synchronize(
    store: GrantScopedRecordsRepository, at: Location, grant: Grant, limit: int, since: Option<nat>,
    client: map<string, Data>)
    returns (r: Result<(map<string, Data>, nat), Error>, ghost vs: seq<Visit>)
    requires store.Valid() && store.ReadContext(at, grant, None, limit).Success?
    requires since.Some? ==> since.value <= |store.HistoryAt(at)|
    modifies store
    ensures store.Valid() && old(store.HistoryAt(at)) <= store.HistoryAt(at)
    ensures r.Failure? <==>
      RequestedSession(old(store.HistoryAt(at)), store.historyLimit, at, Asking(at, since)).Failure?
    ensures r.Failure? ==> r.error == CursorExpired && since.Some?
    ensures r.Success? ==>
      var ((n, g), md) := (store.ReadContext(at, grant, None, limit).value, store.streams[at.stream]);
      var (base, session) := (old(store.HistoryAt(at)), Replication.Open(since, |old(store.HistoryAt(at))|));
      && r.value.1 == |base|
      && Visits(vs, base, store.HistoryAt(at), session, store.historyLimit, n, g, md)
      && Synchronized(r.value.0, client, Histories(vs), Sizes(vs, n), base, store.historyLimit, session, g, md)
    ensures r.Success? && store.historyLimit.None? ==>
      client == Held(old(store.HistoryAt(at)), since, grant, store.streams[at.stream]) ==>
      r.value.0 == View(old(store.HistoryAt(at)), grant, store.streams[at.stream])
  {
    ghost var base, md, kept := store.HistoryAt(at), store.streams[at.stream], store.historyLimit;
    ghost var (n, g) := store.ReadContext(at, grant, None, limit).value;
    ghost var session := Replication.Open(since, |base|);
    assert store.InStep(at);
    SessionOpens(base, at, since, grant, g, md);
    vs := [];
    var first := store.ListChanges(at, grant, Asking(at, since), limit);
    if first.Failure? { return Failure(first.error), vs; }
    var page := first.value;
    FollowsFirst(base, Server(kept, n, g, md), session, client);
    NextSession(base, base, kept, session, n, g, md);
    ghost var now;
    var replica, last;
    replica, last, vs, now := FollowPages(store, at, grant, limit, page, client, base, session, Server(kept, n, g, md));
    FollowedToEnd(vs, base, kept, n, g, md, session, last, now, client, replica);
    r := Success((replica, last.next.version));
  }

  /** From the first page to the last, with other writers in between. */
  method FollowPages(
    store: GrantScopedRecordsRepository, at: Location, grant: Grant, limit: int, first: Page,
    client: map<string, Data>, ghost base: seq<Row>, ghost session: Session, ghost server: (seq<Row>, Session) -> Page)
    returns (replica: map<string, Data>, last: Page, ghost vs: seq<Visit>, ghost now: seq<Row>)
    requires store.Valid() && store.HistoryAt(at) == base && Serves(store, at, grant, limit, server)
      && Ahead(base, first)
    requires Following([Visit(base, session, first)], base, server, session, first, base, client,
      Apply(client, first.data))
    modifies store
    ensures store.Valid() && base <= now <= store.HistoryAt(at)
    ensures Following(vs, base, server, session, last, now, client, replica)
    ensures last.next == NextChangesSince(|base|)
  {
    var page := first;
    now, vs := base, [Visit(base, session, page)];
    replica := Apply(client, page.data);
    while page.next.NextCursor?
      invariant store.Valid() && base <= now <= store.HistoryAt(at)
      invariant Following(vs, base, server, session, page, now, client, replica) && Ahead(base, page)
      decreases page.next.NextCursor?, if page.next.NextCursor? then |base| - page.next.session.afterVersion else 0
    {
      OtherWriters(store);
      ghost var h, before := store.HistoryAt(at), page;
      page := ReadOn(store, at, grant, limit, page.next.session, base, server);
      FollowsNext(vs, base, server, session, before, now, client, replica, h);
      replica := Apply(replica, page.data);
      vs, now := vs + [Visit(h, before.next.session, page)], h;
    }
    last := page;
  }

  /** The store answers requests of this reader as this function says. */
  ghost predicate Serves(
    store: GrantScopedRecordsRepository, at: Location, grant: Grant, limit: int, server: (seq<Row>, Session) -> Page) {
    && store.ReadContext(at, grant, None, limit).Success?
    && var (n, g) := store.ReadContext(at, grant, None, limit).value;
       server == Server(store.historyLimit, n, g, store.streams[at.stream])
  }

  /** A page leaves the session inside its window, or ends it at the horizon. */
  ghost predicate Ahead(base: seq<Row>, page: Page) {
    match page.next
    case NextCursor(s) => SessionFits(base, s) && s.horizonVersion == |base| && s.afterVersion <= |base|
    case NextChangesSince(v) => v == |base|
  }

  /** The next page of a session, however the store has grown. */
  method ReadOn(store: GrantScopedRecordsRepository, at: Location, grant: Grant, limit: int, session: Session,
                ghost base: seq<Row>, ghost server: (seq<Row>, Session) -> Page)
    returns (page: Page)
    requires store.Valid() && Serves(store, at, grant, limit, server)
    requires SessionFits(base, session) && session.horizonVersion == |base| && base <= store.HistoryAt(at)
    ensures Later(store.HistoryAt(at), base)
    ensures page == server(store.HistoryAt(at), session)
    ensures Ahead(base, page) && (page.next.NextCursor? ==> page.next.session.afterVersion > session.afterVersion)
  {
    ghost var (n, g) := store.ReadContext(at, grant, None, limit).value;
    assert store.InStep(at);
    HistoryNumbered(store.HistoryAt(at));
    PageCursorAccepted(store.HistoryAt(at), store.historyLimit, at, session);
    page := ReadPage(store, at, grant, limit, Resume(ChangesCursor(at, session)), session);
    NextSession(store.HistoryAt(at), base, store.historyLimit, session, n, g, store.streams[at.stream]);
  }

  /** What a client holds that is up to date with a version, or starts afresh. */
  ghost function Held(h: seq<Row>, since: Option<nat>, grant: Grant, md: StreamMetadata): map<string, Data>
    requires since.Some? ==> since.value <= |h|
  {
    View(if since.Some? then h[..since.value] else [], grant, md)
  }

  /** A page cursor is accepted whatever has been pruned since it was issued. */
  lemma PageCursorAccepted(h: seq<Row>, limit: Option<nat>, at: Location, s: Session)
    ensures RequestedSession(h, limit, at, Resume(ChangesCursor(at, s))) == Success(s)
  {
  }

  /** The request that opens a session from a version, or a bootstrap. */
  function Asking(at: Location, since: Option<nat>): ChangesRequest {
    ChangesRequest.Open(if since.Some? then SinceCursor(at, since.value) else Beginning)
  }

  lemma SessionOpens(base: seq<Row>, at: Location, since: Option<nat>, grant: Grant, g: Grant, md: StreamMetadata)
    requires IsHistory(base) && NormalizeGrant(grant, None, md) == Success(g)
    requires since.Some? ==> since.value <= |base|
    ensures var session := Replication.Open(since, |base|);
      && Issued(base, session) && Opening(session)
      && Held(base, since, grant, md) == View(base[..session.sinceVersion], g, md)
      && View(base, g, md) == View(base, grant, md)
      && (forall limit | RequestedSession(base, limit, at, Asking(at, since)).Success? ::
            RequestedSession(base, limit, at, Asking(at, since)) == Success(session))
  {
    HistoryNumbered(base);
    SameViews(base, grant, g, md);
    assert base[..|base|] == base && base[..0] == [];
  }
}

/**
 * The recent-correlation scan of reference-implementation/lib/postgres-spine.ts: newest events
 * are read chunk by chunk until enough ids are certain, in place of grouping the whole log.
 * A log is a finite set of events; timestamps are their position in time.
 */
module RecentCorrelations {
  import opened Wrappers
  import opened Orders

  datatype Event = Event(id: Option<string>, at: int, seqNo: int)

  datatype Aggregate = Aggregate(id: string, firstAt: int, lastAt: int, count: nat)

  /** Where a scan resumes: just below this event. */
  datatype Position = Position(at: int, seqNo: int)

  /** Sequence numbers are unique. */
  ghost predicate WellFormed(log: set<Event>) {
    forall a, b | a in log && b in log && a.seqNo == b.seqNo :: a == b
  }

  /** The events whose id is not the empty string, which the scan passes over. */
  function Named(log: set<Event>): set<Event> {
    set e | e in log && e.id != Some("")
  }

  function Correlated(log: set<Event>): set<Event> {
    set e | e in log && e.id.Some?
  }

  function EventsOf(log: set<Event>, id: string): set<Event> {
    set e | e in log && e.id == Some(id)
  }

  function Ids(log: set<Event>): set<string> {
    set e | e in Correlated(log) :: e.id.value
  }

  // ---------- The grouped query ----------

  function Times(log: set<Event>, id: string): set<int> {
    set e | e in EventsOf(log, id) :: e.at
  }

  predicate Sooner(a: int, b: int) { a < b }

  predicate Later(a: int, b: int) { a > b }

  function Earliest(times: set<int>): (t: int)
    requires times != {}
    ensures t in times && forall u | u in times :: t <= u
  {
    assert StrictTotal(Sooner, times);
    LeastExists(times, Sooner);
    assert forall t, u | Least(t, times, Sooner) && u in times :: t <= u;
    var t :| t in times && forall u | u in times :: t <= u;
    t
  }

  function Latest(times: set<int>): (t: int)
    requires times != {}
    ensures t in times && forall u | u in times :: u <= t
  {
    assert StrictTotal(Later, times);
    LeastExists(times, Later);
    assert forall t, u | Least(t, times, Later) && u in times :: u <= t;
    var t :| t in times && forall u | u in times :: u <= t;
    t
  }

  function AggregateOf(log: set<Event>, id: string): Aggregate
    requires id in Ids(log)
  {
    HasTimes(log, id);
    Aggregate(id, Earliest(Times(log, id)), Latest(Times(log, id)), |EventsOf(log, id)|)
  }

  lemma HasTimes(log: set<Event>, id: string)
    requires id in Ids(log)
    ensures Times(log, id) != {}
  {
    var e :| e in Correlated(log) && e.id.value == id;
    assert e in EventsOf(log, id) && e.at in Times(log, id);
  }

  /** A group spans the events of its id: none lies outside, both ends are taken, and all are counted. */
  lemma GroupMeaning(log: set<Event>, id: string)
    requires id in Ids(log)
    ensures var a := AggregateOf(log, id);
      && a.id == id && a.count == |EventsOf(log, id)| > 0
      && (forall e | e in log && e.id == Some(id) :: a.firstAt <= e.at <= a.lastAt)
      && (exists e :: e in log && e.id == Some(id) && e.at == a.firstAt)
      && (exists e :: e in log && e.id == Some(id) && e.at == a.lastAt)
  {
    HasTimes(log, id);
    assert forall e | e in log && e.id == Some(id) :: e in EventsOf(log, id) && e.at in Times(log, id);
  }

  function Groups(log: set<Event>): set<Aggregate> {
    set id | id in Ids(log) :: AggregateOf(log, id)
  }

  predicate ByRecency(a: Aggregate, b: Aggregate) {
    a.lastAt > b.lastAt || (a.lastAt == b.lastAt && StringLess(a.id, b.id))
  }

  lemma GroupsOrdered(log: set<Event>)
    ensures StrictTotal(ByRecency, Groups(log))
  {
    forall a | a in Groups(log) ensures !ByRecency(a, a) { StringTrichotomy(a.id, a.id); }
    forall a, b | a in Groups(log) && b in Groups(log) && a != b ensures ByRecency(a, b) || ByRecency(b, a) {
      StringTrichotomy(a.id, b.id);
    }
    forall a, b, c | a in Groups(log) && b in Groups(log) && c in Groups(log) && ByRecency(a, b) && ByRecency(b, c)
      ensures ByRecency(a, c)
    {
      if a.lastAt == c.lastAt { StringTransitive(a.id, b.id, c.id); }
    }
  }

  function UpTo<T>(s: seq<T>, n: nat): seq<T> {
    if n <= |s| then s[..n] else s
  }

  /** The groups, most recent last event first and then by id, limit + 1 of them at most. */
  ghost function SlowQuery(log: set<Event>, limit: nat): seq<Aggregate> {
    GroupsOrdered(log);
    UpTo(Sorted(Groups(log), ByRecency), limit + 1)
  }

  /** A row of the answer: an id of the log with the times its events span and their number. */
  ghost predicate SpansEvents(a: Aggregate, log: set<Event>) {
    && (forall e | e in log && e.id == Some(a.id) :: a.firstAt <= e.at <= a.lastAt)
    && (exists e :: e in log && e.id == Some(a.id) && e.at == a.firstAt)
    && (exists e :: e in log && e.id == Some(a.id) && e.at == a.lastAt)
    && a.count == |set e | e in log && e.id == Some(a.id)|
  }

  /** Later times first, and of one time the smaller id. */
  ghost predicate RanksBefore(at: int, id: string, at': int, id': string) {
    at > at' || (at == at' && Precedes(id, id'))
  }

  /**
   * The first page of the correlations of a log: at most limit + 1 rows, each spanning the
   * events of its id, ranked by last time and then by id; and any other id of the log is left
   * out because the page is full and all its rows rank before every event of that id.
   */
  ghost predicate FirstPage(rows: seq<Aggregate>, log: set<Event>, limit: nat) {
    && |rows| <= limit + 1
    && (forall a | a in rows :: SpansEvents(a, log))
    && (forall i, j | 0 <= i < j < |rows| :: RanksBefore(rows[i].lastAt, rows[i].id, rows[j].lastAt, rows[j].id))
    && (forall e | e in log && e.id.Some? && (forall a | a in rows :: a.id != e.id.value) ::
      |rows| == limit + 1 && forall a | a in rows :: RanksBefore(a.lastAt, a.id, e.at, e.id.value))
  }

  lemma SlowQueryIsFirstPage(log: set<Event>, limit: nat)
    ensures FirstPage(SlowQuery(log, limit), log, limit)
  {
    GroupsOrdered(log);
    var all, rows := Sorted(Groups(log), ByRecency), SlowQuery(log, limit);
    SortedLists(Groups(log), ByRecency);
    forall a | a in rows ensures a in Groups(log) && SpansEvents(a, log) {
      assert a in all;
      GroupMeaning(log, a.id);
      assert EventsOf(log, a.id) == set e | e in log && e.id == Some(a.id);
    }
    forall i, j | 0 <= i < j < |rows|
      ensures RanksBefore(rows[i].lastAt, rows[i].id, rows[j].lastAt, rows[j].id)
    {
      AscendingAt(all, ByRecency, i, j);
      StringLessMeaning(rows[i].id, rows[j].id);
    }
    forall e | e in log && e.id.Some? && (forall a | a in rows :: a.id != e.id.value)
      ensures |rows| == limit + 1 && forall a | a in rows :: RanksBefore(a.lastAt, a.id, e.at, e.id.value)
    {
      LeftOut(log, limit, all, e);
    }
  }

  lemma LeftOut(log: set<Event>, limit: nat, all: seq<Aggregate>, e: Event)
    requires Lists(all, Groups(log), ByRecency) && e in log && e.id.Some?
    requires forall a | a in UpTo(all, limit + 1) :: a.id != e.id.value
    ensures |UpTo(all, limit + 1)| == limit + 1
    ensures forall a | a in UpTo(all, limit + 1) :: RanksBefore(a.lastAt, a.id, e.at, e.id.value)
  {
    var id, rows := e.id.value, UpTo(all, limit + 1);
    assert e in Correlated(log);
    var group := AggregateOf(log, id);
    assert group in Groups(log) && group in all;
    GroupMeaning(log, id);
    var j :| 0 <= j < |all| && all[j] == group;
    UpToMember(all, limit + 1, j);
    forall a | a in rows ensures RanksBefore(a.lastAt, a.id, e.at, id) {
      var i :| 0 <= i < |rows| && rows[i] == a;
      AscendingAt(all, ByRecency, i, j);
      StringLessMeaning(a.id, id);
    }
  }

  method RunSlowQuery(log: set<Event>, limit: nat) returns (rows: seq<Aggregate>)
    ensures rows == SlowQuery(log, limit)
  {
    GroupsOrdered(log);
    var all := Sort(Groups(log), ByRecency);
    SortedLists(Groups(log), ByRecency);
    ListingUnique(all, Sorted(Groups(log), ByRecency), Groups(log), ByRecency);
    rows := UpTo(all, limit + 1);
  }

  // ---------- Ranking ids by their last event ----------

  /** The order of compareSummaryRows on the entries of a map from ids to last timestamps. */
  function RecentFirst(last: map<string, int>): (string, string) -> bool {
    (a: string, b: string) => a in last && b in last && (last[a] > last[b] || (last[a] == last[b] && StringLess(a, b)))
  }

  lemma RankingOrdered(last: map<string, int>, ids: set<string>)
    requires ids <= last.Keys
    ensures StrictTotal(RecentFirst(last), ids)
  {
    var less := RecentFirst(last);
    forall a | a in ids ensures !less(a, a) { StringTrichotomy(a, a); }
    forall a, b | a in ids && b in ids && a != b ensures less(a, b) || less(b, a) { StringTrichotomy(a, b); }
    forall a, b, c | a in ids && b in ids && c in ids && less(a, b) && less(b, c) ensures less(a, c) {
      if last[a] == last[c] { StringTransitive(a, b, c); }
    }
  }

  ghost function Ranked(last: map<string, int>): seq<string> {
    RankingOrdered(last, last.Keys);
    Sorted(last.Keys, RecentFirst(last))
  }

  method Rank(last: map<string, int>) returns (ids: seq<string>)
    ensures ids == Ranked(last) && |ids| == |last.Keys|
    ensures forall id :: id in ids <==> id in last
  {
    RankingOrdered(last, last.Keys);
    ids := Sort(last.Keys, RecentFirst(last));
    SortedLists(last.Keys, RecentFirst(last));
    ListingUnique(ids, Ranked(last), last.Keys, RecentFirst(last));
  }

  function LastSeen(log: set<Event>): map<string, int> {
    map id | id in Ids(log) :: AggregateOf(log, id).lastAt
  }

  ghost function AggregatesOf(log: set<Event>, ids: seq<string>): seq<Aggregate>
    requires forall id | id in ids :: id in Ids(log)
  {
    seq(|ids|, i requires 0 <= i < |ids| => assert ids[i] in ids; AggregateOf(log, ids[i]))
  }

  lemma RankedLists(last: map<string, int>)
    ensures StrictTotal(RecentFirst(last), last.Keys)
    ensures Lists(Ranked(last), last.Keys, RecentFirst(last))
  {
    RankingOrdered(last, last.Keys);
    SortedLists(last.Keys, RecentFirst(last));
  }

  /** Aggregates of ids ranked by their last event are in order. */
  lemma AggregatesAscend(log: set<Event>, ids: seq<string>)
    requires forall id | id in ids :: id in Ids(log)
    requires Ascending(ids, RecentFirst(LastSeen(log)))
    ensures Ascending(AggregatesOf(log, ids), ByRecency)
  {
    var rows := AggregatesOf(log, ids);
    forall i, j | 0 <= i < j < |rows| ensures ByRecency(rows[i], rows[j]) {
      AscendingAt(ids, RecentFirst(LastSeen(log)), i, j);
    }
  }

  lemma AggregatesMembers(log: set<Event>, ids: seq<string>, a: Aggregate)
    requires forall id | id in ids :: id in Ids(log)
    ensures a in AggregatesOf(log, ids) <==> a.id in ids && a == AggregateOf(log, a.id)
  {
    var rows := AggregatesOf(log, ids);
    if a in rows {
      var i :| 0 <= i < |rows| && rows[i] == a;
      assert ids[i] in ids;
    }
    if a.id in ids && a == AggregateOf(log, a.id) {
      var i :| 0 <= i < |ids| && ids[i] == a.id;
      assert rows[i] == a;
    }
  }

  /** The groups in order are the aggregates of the ranked ids. */
  lemma GroupsRanked(log: set<Event>)
    ensures forall id :: id in Ranked(LastSeen(log)) <==> id in Ids(log)
    ensures StrictTotal(ByRecency, Groups(log))
    ensures Sorted(Groups(log), ByRecency) == AggregatesOf(log, Ranked(LastSeen(log)))
  {
    RankedLists(LastSeen(log));
    var ids := Ranked(LastSeen(log));
    var rows := AggregatesOf(log, ids);
    AggregatesAscend(log, ids);
    forall a ensures a in rows <==> a in Groups(log) { AggregatesMembers(log, ids, a); }
    GroupsOrdered(log);
    SortedLists(Groups(log), ByRecency);
    ListingUnique(rows, Sorted(Groups(log), ByRecency), Groups(log), ByRecency);
  }

  // ---------- The feed ----------

  /** The order of the scan: later events first, and of one instant the higher sequence number. */
  predicate Newer(a: Event, b: Event) {
    a.at > b.at || (a.at == b.at && a.seqNo > b.seqNo)
  }

  ghost function Feed(log: set<Event>): seq<Event>
    requires WellFormed(log)
  {
    assert StrictTotal(Newer, Correlated(log));
    Sorted(Correlated(log), Newer)
  }

  lemma FeedLists(log: set<Event>)
    requires WellFormed(log)
    ensures StrictTotal(Newer, Correlated(log))
    ensures Lists(Feed(log), Correlated(log), Newer)
  {
    assert StrictTotal(Newer, Correlated(log));
    SortedLists(Correlated(log), Newer);
  }

  /** The feed has every event with an id, later events first and of one instant the higher number. */
  lemma FeedMeaning(log: set<Event>)
    requires WellFormed(log)
    ensures forall e :: e in Feed(log) <==> e in log && e.id.Some?
    ensures forall i, j | 0 <= i < j < |Feed(log)| ::
      var (a, b) := (Feed(log)[i], Feed(log)[j]);
      a.at > b.at || (a.at == b.at && a.seqNo > b.seqNo)
  {
    FeedLists(log);
    forall i, j | 0 <= i < j < |Feed(log)| ensures Newer(Feed(log)[i], Feed(log)[j]) {
      AscendingAt(Feed(log), Newer, i, j);
    }
  }

  /** The timestamp of the first row of every id. */
  function FirstSeen(rows: seq<Event>): map<string, int> {
    if rows == [] then map[]
    else
      var n := |rows| - 1;
      var seen := FirstSeen(rows[..n]);
      if rows[n].id.Some? && rows[n].id.value != "" && rows[n].id.value !in seen
      then seen[rows[n].id.value := rows[n].at]
      else seen
  }

  lemma {:induction false} FirstSeenIsFirst(rows: seq<Event>, id: string)
    requires id != ""
    ensures id !in FirstSeen(rows) ==> forall i | 0 <= i < |rows| :: rows[i].id != Some(id)
    ensures id in FirstSeen(rows) ==> exists i :: IsFirst(rows, id, i) && rows[i].at == FirstSeen(rows)[id]
  {
    if rows != [] {
      var n := |rows| - 1;
      var before := rows[..n];
      FirstSeenIsFirst(before, id);
      if id in FirstSeen(before) {
        var i :| IsFirst(before, id, i) && before[i].at == FirstSeen(before)[id];
        assert IsFirst(rows, id, i);
      } else if rows[n].id == Some(id) {
        assert forall j | 0 <= j < n :: rows[j] == before[j];
        assert IsFirst(rows, id, n);
      }
    }
  }

  ghost predicate IsFirst(rows: seq<Event>, id: string, i: int) {
    && 0 <= i < |rows|
    && rows[i].id == Some(id)
    && forall j | 0 <= j < i :: rows[j].id != Some(id)
  }

  lemma {:induction false} FirstSeenNamed(rows: seq<Event>, id: string)
    requires id in FirstSeen(rows)
    ensures id != ""
  {
    var n := |rows| - 1;
    if id in FirstSeen(rows[..n]) { FirstSeenNamed(rows[..n], id); }
  }

  /** An event outside the first p rows of the feed comes after all of them. */
  lemma FeedPosition(log: set<Event>, e: Event) returns (j: nat)
    requires WellFormed(log) && e in Correlated(log)
    ensures j < |Feed(log)| && Feed(log)[j] == e
    ensures forall i | 0 <= i < |Feed(log)| && Feed(log)[i].at < e.at :: j < i
  {
    FeedLists(log);
    assert e in Feed(log);
    j :| 0 <= j < |Feed(log)| && Feed(log)[j] == e;
    forall i | 0 <= i < |Feed(log)| && Feed(log)[i].at < e.at ensures j < i {
      AscendingAt(Feed(log), Newer, i, j);
    }
  }

  lemma PrefixAt<T>(s: seq<T>, p: nat, j: nat)
    ensures j < p <= |s| ==> s[..p][j] == s[j]
  {
  }

  /** In the newest rows an id's first row is its last event. */
  lemma SeenIsLast(log: set<Event>, p: nat, id: string)
    requires WellFormed(log) && p <= |Feed(log)| && id in FirstSeen(Feed(log)[..p])
    ensures id in Ids(Named(log)) && FirstSeen(Feed(log)[..p])[id] == LastSeen(Named(log))[id]
  {
    var feed := Feed(log);
    var rows := feed[..p];
    FirstSeenNamed(rows, id);
    FirstSeenIsFirst(rows, id);
    var i :| IsFirst(rows, id, i) && rows[i].at == FirstSeen(rows)[id];
    FeedLists(log);
    assert feed[i] in feed && feed[i] == rows[i];
    assert feed[i] in EventsOf(Named(log), id) && feed[i].at in Times(Named(log), id);
    LastEvent(Named(log), id);
    var e :| e in EventsOf(Named(log), id) && e.at == LastSeen(Named(log))[id];
    var j := FeedPosition(log, e);
    PrefixAt(feed, p, j);
  }

  /** An id not among the newest rows has only older events. */
  lemma UnseenIsOlder(log: set<Event>, p: nat, id: string)
    requires WellFormed(log) && p <= |Feed(log)| && id in Ids(Named(log)) && id !in FirstSeen(Feed(log)[..p])
    ensures p < |Feed(log)| && (p > 0 ==> LastSeen(Named(log))[id] <= Feed(log)[p - 1].at)
  {
    var rows := Feed(log)[..p];
    LastEvent(Named(log), id);
    var e :| e in EventsOf(Named(log), id) && e.at == LastSeen(Named(log))[id];
    FirstSeenIsFirst(rows, id);
    var j := FeedPosition(log, e);
    PrefixAt(Feed(log), p, j);
  }

  lemma LastEvent(log: set<Event>, id: string)
    requires id in Ids(log)
    ensures exists e :: e in EventsOf(log, id) && e.at == LastSeen(log)[id]
  {
    HasTimes(log, id);
    assert LastSeen(log)[id] in Times(log, id);
  }

  // ---------- When the scan may stop ----------

  /** The ids seen carry their true last timestamp, and the first `limit + 1` of them are the true ones. */
  ghost predicate Settled(log: set<Event>, seen: map<string, int>, limit: nat) {
    && (forall id | id in seen :: id in Ids(Named(log)) && seen[id] == LastSeen(Named(log))[id])
    && UpTo(Ranked(seen), limit + 1) == UpTo(Ranked(LastSeen(Named(log))), limit + 1)
  }

  /** Ranking the ids seen is ranking them by their true last timestamps. */
  lemma RankedAsAll(seen: map<string, int>, last: map<string, int>)
    requires forall id | id in seen :: id in last && seen[id] == last[id]
    ensures StrictTotal(RecentFirst(last), seen.Keys)
    ensures Ranked(seen) == Sorted(seen.Keys, RecentFirst(last))
  {
    RankingOrdered(seen, seen.Keys);
    RankingOrdered(last, seen.Keys);
    SortedLists(seen.Keys, RecentFirst(seen));
    SortedLists(seen.Keys, RecentFirst(last));
    var ids := Ranked(seen);
    forall i, j | 0 <= i < j < |ids| ensures RecentFirst(last)(ids[i], ids[j]) {
      AscendingAt(ids, RecentFirst(seen), i, j);
    }
    ListingUnique(ids, Sorted(seen.Keys, RecentFirst(last)), seen.Keys, RecentFirst(last));
  }

  /** The early-stop test, after the newest p rows. */
  ghost predicate Stops(log: set<Event>, p: nat, limit: nat)
    requires WellFormed(log)
  {
    && 0 < p <= |Feed(log)|
    && var seen := FirstSeen(Feed(log)[..p]);
       |Ranked(seen)| > limit && Ranked(seen)[limit] in seen && Feed(log)[p - 1].at < seen[Ranked(seen)[limit]]
  }

  /** The early stop: every id not seen is older than the last one asked for, ties included. */
  lemma EarlyStopSettles(log: set<Event>, p: nat, limit: nat)
    requires WellFormed(log) && p <= |Feed(log)|
    ensures Stops(log, p, limit) ==> Settled(log, FirstSeen(Feed(log)[..p]), limit)
  {
    if !Stops(log, p, limit) { return; }
    var seen, last := FirstSeen(Feed(log)[..p]), LastSeen(Named(log));
    forall id | id in seen ensures id in last && seen[id] == last[id] { SeenIsLast(log, p, id); }
    forall id | id in last.Keys - seen.Keys
      ensures RecentFirst(last)(Ranked(seen)[limit], id)
    {
      UnseenIsOlder(log, p, id);
    }
    BoundarySettles(seen, last, limit);
  }

  /** When all other ids rank after the boundary, the ranking up to it is final. */
  lemma BoundarySettles(seen: map<string, int>, last: map<string, int>, limit: nat)
    requires forall id | id in seen :: id in last && seen[id] == last[id]
    requires |Ranked(seen)| > limit
    requires forall id | id in last.Keys - seen.Keys :: RecentFirst(last)(Ranked(seen)[limit], id)
    ensures UpTo(Ranked(seen), limit + 1) == UpTo(Ranked(last), limit + 1)
  {
    RankedAsAll(seen, last);
    RankingOrdered(last, last.Keys);
    PrefixOfSubset(last.Keys, seen.Keys, RecentFirst(last), limit + 1);
  }

  lemma WholeFeedSettles(log: set<Event>, limit: nat)
    requires WellFormed(log)
    ensures Settled(log, FirstSeen(Feed(log)), limit)
  {
    var feed := Feed(log);
    assert feed[..|feed|] == feed;
    forall id ensures Lookup(FirstSeen(feed), id) == Lookup(LastSeen(Named(log)), id) {
      if id in FirstSeen(feed) {
        SeenIsLast(log, |feed|, id);
      } else if id in Ids(Named(log)) {
        UnseenIsOlder(log, |feed|, id);
      }
    }
    SameByLookup(FirstSeen(feed), LastSeen(Named(log)));
  }

  // ---------- When the scan gives up ----------

  /** The numbers of rows after which the test passes. */
  ghost function Ends(log: set<Event>, limit: nat): set<nat>
    requires WellFormed(log)
  {
    set p: nat | p <= |Feed(log)| && Stops(log, p, limit)
  }

  ghost predicate AreEnds(log: set<Event>, limit: nat, ends: set<nat>)
    requires WellFormed(log)
  {
    forall p: nat {:trigger Stops(log, p, limit)} :: p in ends <==> p <= |Feed(log)| && Stops(log, p, limit)
  }

  /** Where the j-th chunk ends. */
  function ChunkEnd(total: nat, size: nat, j: nat): nat {
    if j == 0 then 0 else Min(ChunkEnd(total, size, j - 1) + size, total)
  }

  lemma {:induction false} ChunksAscend(total: nat, size: nat, i: nat, j: nat)
    requires i <= j
    ensures ChunkEnd(total, size, i) <= ChunkEnd(total, size, j) <= total
  {
    if i < j { ChunksAscend(total, size, i, j - 1); } else if j > 0 { ChunksAscend(total, size, i - 1, j - 1); }
  }

  /** No chunk up to the j-th passes the test or reaches the fallback size. */
  ghost predicate GoesOn(total: nat, ends: set<nat>, size: nat, fallbackAfter: nat, j: nat) {
    forall i | 0 < i <= j :: ChunkEnd(total, size, i) !in ends && ChunkEnd(total, size, i) < fallbackAfter
  }

  /** The j-th chunk, not empty, is the first to reach the fallback size, and none up to it passes the test. */
  ghost predicate GivesUpAt(total: nat, ends: set<nat>, size: nat, fallbackAfter: nat, j: nat) {
    && j > 0 && GoesOn(total, ends, size, fallbackAfter, j - 1)
    && ChunkEnd(total, size, j - 1) < total
    && ChunkEnd(total, size, j) >= fallbackAfter
    && ChunkEnd(total, size, j) !in ends
  }

  ghost predicate GivesUp(log: set<Event>, limit: nat, size: nat, fallbackAfter: nat)
    requires WellFormed(log)
  {
    exists j :: GivesUpAt(|Feed(log)|, Ends(log, limit), size, fallbackAfter, j)
  }

  /** A scan that has read the newest p rows gives up on one of the chunks that follow. */
  ghost predicate FailsFrom(total: nat, ends: set<nat>, size: nat, fallbackAfter: nat, p: nat)
    requires size > 0
    decreases total - p
  {
    p < total &&
    var next := Min(p + size, total);
    next !in ends && (next >= fallbackAfter || FailsFrom(total, ends, size, fallbackAfter, next))
  }

  /** Chunk by chunk, a scan fails exactly when it gives up. */
  lemma {:induction false} FailsIff(total: nat, ends: set<nat>, size: nat, fallbackAfter: nat, j: nat)
    requires size > 0 && GoesOn(total, ends, size, fallbackAfter, j)
    ensures FailsFrom(total, ends, size, fallbackAfter, ChunkEnd(total, size, j))
      <==> exists k :: GivesUpAt(total, ends, size, fallbackAfter, k)
    decreases total - ChunkEnd(total, size, j)
  {
    var next := ChunkEnd(total, size, j + 1);
    ChunksAscend(total, size, j, j);
    if ChunkEnd(total, size, j) == total || next in ends {
      forall k: nat
        ensures !GivesUpAt(total, ends, size, fallbackAfter, k)
      {
        GivesUpBetween(total, ends, size, fallbackAfter, j, k);
      }
    } else if next >= fallbackAfter {
      assert GivesUpAt(total, ends, size, fallbackAfter, j + 1);
    } else {
      FailsIff(total, ends, size, fallbackAfter, j + 1);
    }
  }

  /** A scan that goes on past the j-th chunk gives up later, and only before the feed or the search ends. */
  lemma GivesUpBetween(total: nat, ends: set<nat>, size: nat, fallbackAfter: nat, j: nat, k: nat)
    requires GoesOn(total, ends, size, fallbackAfter, j)
    ensures GivesUpAt(total, ends, size, fallbackAfter, k) ==>
      j < k && ChunkEnd(total, size, j) < total && ChunkEnd(total, size, j + 1) !in ends
  {
    if j < k { ChunksAscend(total, size, j, k - 1); }
  }

  // ---------- The scan ----------

  function After(log: set<Event>, before: Option<Position>): set<Event> {
    set e | e in Correlated(log) && (before.Some? ==> Newer(Event(None, before.value.at, before.value.seqNo), e))
  }

  ghost predicate At(log: set<Event>, before: Option<Position>, p: nat)
    requires WellFormed(log)
  {
    && p <= |Feed(log)|
    && before == if p == 0 then None else Some(Position(Feed(log)[p - 1].at, Feed(log)[p - 1].seqNo))
  }

  /** One chunk is the next part of the feed. */
  method FetchChunk(log: set<Event>, before: Option<Position>, n: nat, ghost p: nat) returns (rows: seq<Event>)
    requires WellFormed(log) && At(log, before, p)
    ensures rows == UpTo(Feed(log)[p..], n)
  {
    var rest := After(log, before);
    RestOfFeed(log, before, p);
    var sorted := Sort(rest, Newer);
    ListingUnique(sorted, Feed(log)[p..], rest, Newer);
    rows := UpTo(sorted, n);
  }

  lemma RestOfFeed(log: set<Event>, before: Option<Position>, p: nat)
    requires WellFormed(log) && At(log, before, p)
    ensures StrictTotal(Newer, After(log, before)) && Lists(Feed(log)[p..], After(log, before), Newer)
  {
    FeedLists(log);
    if p > 0 {
      CutLists(Feed(log), Correlated(log), Newer, p);
      assert After(log, before) == set e | e in Correlated(log) && Newer(Feed(log)[p - 1], e);
    } else {
      assert After(log, before) == Correlated(log) && Feed(log)[0..] == Feed(log);
    }
  }

  class RecentScan {
    const log: set<Event>
    const chunk: nat
    const fallbackAfter: nat
    var seen: map<string, int>

    constructor (log: set<Event>, chunk: nat, fallbackAfter: nat)
      ensures this.log == log && this.chunk == chunk && this.fallbackAfter == fallbackAfter && seen == map[]
    {
      this.log, this.chunk, this.fallbackAfter := log, chunk, fallbackAfter;
      seen := map[];
    }

    /** `seen` holds the newest `scanned` rows. */
    ghost predicate Scanned(scanned: nat) reads this {
      WellFormed(log) && scanned <= |Feed(log)| && seen == FirstSeen(Feed(log)[..scanned])
    }

    /**
     * One call reads a chunk, adds its ids to the shared map, and stops, gives up or goes on.
     * The scan gives up exactly when no chunk passes the test up to the first that reaches the
     * fallback size.
     */
    method Scan(limit: nat, before: Option<Position>, scanned: nat, ghost ends: set<nat>) returns (settled: bool)
      requires chunk > 0 && Scanned(scanned) && At(log, before, scanned) && AreEnds(log, limit, ends)
      modifies this
      ensures settled ==> Settled(log, seen, limit)
      ensures settled <==> !FailsFrom(|Feed(log)|, ends, Max(chunk, limit * 20), fallbackAfter, scanned)
      decreases |Feed(log)| - scanned
    {
      var rows := ReadChunk(limit, before, scanned);
      if rows == [] {
        WholeFeedSettles(log, limit);
        return true;
      }
      var scanned' := scanned + |rows|;
      var last := rows[|rows| - 1];
      var passed := PassesTest(limit, last, scanned', ends);
      if passed { return true; }
      if scanned' >= fallbackAfter { return false; }
      settled := Scan(limit, Some(Position(last.at, last.seqNo)), scanned', ends);
    }

    /** One chunk, its ids added to the shared map. */
    method ReadChunk(limit: nat, before: Option<Position>, scanned: nat) returns (rows: seq<Event>)
      requires chunk > 0 && Scanned(scanned) && At(log, before, scanned)
      modifies this
      ensures Scanned(scanned + |rows|)
      ensures scanned + |rows| == Min(scanned + Max(chunk, limit * 20), |Feed(log)|)
      ensures if rows == [] then scanned == |Feed(log)| && seen == FirstSeen(Feed(log))
        else rows[|rows| - 1] == Feed(log)[scanned + |rows| - 1]
    {
      rows := FetchChunk(log, before, Max(chunk, limit * 20), scanned);
      if rows == [] { assert Feed(log)[..scanned] == Feed(log); }
      AddRows(rows, scanned);
    }

    /** The early-stop test: enough ids, and the last row strictly older than the boundary. */
    method PassesTest(limit: nat, last: Event, scanned: nat, ghost ends: set<nat>) returns (passed: bool)
      requires Scanned(scanned) && scanned > 0 && last == Feed(log)[scanned - 1] && AreEnds(log, limit, ends)
      ensures passed <==> scanned in ends
      ensures passed ==> Settled(log, seen, limit)
    {
      EarlyStopSettles(log, scanned, limit);
      assert scanned in ends <==> Stops(log, scanned, limit);
      var ordered := Rank(seen);
      passed := |ordered| >= limit + 1 && last.at < seen[ordered[limit]];
    }

    method AddRows(rows: seq<Event>, scanned: nat)
      requires Scanned(scanned) && rows <= Feed(log)[scanned..]
      modifies this
      ensures Scanned(scanned + |rows|)
    {
      for i := 0 to |rows|
        invariant Scanned(scanned + i)
      {
        ghost var next := Feed(log)[..scanned + i + 1];
        assert next[..scanned + i] == Feed(log)[..scanned + i] && next[scanned + i] == rows[i];
        if rows[i].id.Some? && rows[i].id.value != "" && rows[i].id.value !in seen {
          seen := seen[rows[i].id.value := rows[i].at];
        }
      }
    }
  }

  /**
   * The scan gives the rows of the slow query, in its order, whatever the chunk size, unless it
   * gives up, which happens exactly when no chunk up to the fallback size passes the test.
   */
  method ListRecentCorrelationAggregates(log: set<Event>, limit: nat, chunk: nat, fallbackAfter: nat)
    returns (r: Option<seq<Aggregate>>)
    requires WellFormed(log) && chunk > 0
    ensures r.Some? ==> r.value == SlowQuery(Named(log), limit)
    ensures r.Some? ==> FirstPage(r.value, (set e | e in log && e.id != Some("")), limit)
    ensures r.None? <==> GivesUp(log, limit, Max(chunk, limit * 20), fallbackAfter)
  {
    var scan := new RecentScan(log, chunk, fallbackAfter);
    assert Feed(log)[..0] == [];
    FailsIff(|Feed(log)|, Ends(log, limit), Max(chunk, limit * 20), fallbackAfter, 0);
    var settled := scan.Scan(limit, None, 0, Ends(log, limit));
    if !settled { return None; }
    var ordered := Rank(scan.seen);
    var orderedIds := UpTo(ordered, limit + 1);
    var rows := LoadAggregates(log, orderedIds, limit);
    SlowQueryIsFirstPage(Named(log), limit);
    return Some(rows);
  }

  /** The aggregates of the chosen ids, looked up by id and sorted again. */
  method LoadAggregates(log: set<Event>, orderedIds: seq<string>, limit: nat) returns (rows: seq<Aggregate>)
    requires orderedIds == UpTo(Ranked(LastSeen(Named(log))), limit + 1)
    ensures rows == SlowQuery(Named(log), limit)
  {
    var chosen := set id | id in orderedIds && id in Ids(log) :: AggregateOf(log, id);
    rows := Sort(chosen, ByRecency);
    ChosenNamed(log, orderedIds, limit);
    ChosenInOrder(Named(log), orderedIds, limit, chosen);
    ListingUnique(rows, SlowQuery(Named(log), limit), chosen, ByRecency);
  }

  /** An id that is not empty has the same group whether empty ids are counted or not. */
  lemma NamedGroup(log: set<Event>, id: string)
    requires id != ""
    ensures id in Ids(Named(log)) <==> id in Ids(log)
    ensures id in Ids(log) ==> AggregateOf(Named(log), id) == AggregateOf(log, id)
  {
    assert EventsOf(Named(log), id) == EventsOf(log, id);
    if id in Ids(log) {
      var e :| e in Correlated(log) && e.id.value == id;
      assert e in Correlated(Named(log));
      assert Times(Named(log), id) == Times(log, id);
    }
  }

  lemma ChosenNamed(log: set<Event>, ids: seq<string>, limit: nat)
    requires ids == UpTo(Ranked(LastSeen(Named(log))), limit + 1)
    ensures forall id | id in ids ::
      id in Ids(Named(log)) && id in Ids(log) && AggregateOf(Named(log), id) == AggregateOf(log, id)
  {
    RankedLists(LastSeen(Named(log)));
    forall id | id in ids
      ensures id in Ids(Named(log)) && id in Ids(log) && AggregateOf(Named(log), id) == AggregateOf(log, id)
    {
      assert id in Ranked(LastSeen(Named(log)));
      NamedGroup(log, id);
    }
  }

  /** The first rows of the slow query list the aggregates of the chosen ids. */
  lemma ChosenInOrder(log: set<Event>, ids: seq<string>, limit: nat, chosen: set<Aggregate>)
    requires ids == UpTo(Ranked(LastSeen(log)), limit + 1)
    requires forall a :: a in chosen <==> a.id in ids && a.id in Ids(log) && a == AggregateOf(log, a.id)
    ensures StrictTotal(ByRecency, chosen) && Lists(SlowQuery(log, limit), chosen, ByRecency)
  {
    var all := Ranked(LastSeen(log));
    GroupsRanked(log);
    RankedLists(LastSeen(log));
    UpToAscends(all, RecentFirst(LastSeen(log)), limit + 1);
    UpToAggregates(log, all, limit + 1);
    AggregatesAscend(log, ids);
    forall a ensures a in chosen <==> a in AggregatesOf(log, ids) { AggregatesMembers(log, ids, a); }
    assert forall a | a in chosen :: a in Groups(log);
  }

  lemma UpToAscends<T>(s: seq<T>, less: (T, T) -> bool, n: nat)
    ensures Ascending(s, less) ==> Ascending(UpTo(s, n), less)
    ensures forall e | e in UpTo(s, n) :: e in s
  {
  }

  lemma UpToAggregates(log: set<Event>, all: seq<string>, n: nat)
    requires forall id | id in all :: id in Ids(log)
    ensures forall id | id in UpTo(all, n) :: id in Ids(log)
    ensures AggregatesOf(log, UpTo(all, n)) == UpTo(AggregatesOf(log, all), n)
  {
    UpToAscends(all, (a: string, b: string) => true, n);
  }

  const RECENT_CORRELATION_SCAN_CHUNK: nat := 1000
  const RECENT_CORRELATION_SCAN_FALLBACK_AFTER: nat := 100_000

  /**
   * The first page without filters, from the scan or, when it gives up, from the query itself:
   * the rows of the slow query, of the events with an id unless the scan gave up.
   */
  method LoadCorrelationAggregates(log: set<Event>, limit: nat) returns (rows: seq<Aggregate>)
    requires WellFormed(log)
    ensures rows ==
      if GivesUp(log, limit, Max(1000, limit * 20), 100_000) then SlowQuery(log, limit)
      else SlowQuery(Named(log), limit)
    ensures FirstPage(rows, if GivesUp(log, limit, Max(1000, limit * 20), 100_000) then log
      else (set e | e in log && e.id != Some("")), limit)
  {
    var recent := ListRecentCorrelationAggregates(log, limit, RECENT_CORRELATION_SCAN_CHUNK,
      RECENT_CORRELATION_SCAN_FALLBACK_AFTER);
    if recent.Some? { return recent.value; }
    rows := RunSlowQuery(log, limit);
    SlowQueryIsFirstPage(log, limit);
  }

  // ---------- Empty ids ----------

  /** The ids whose last event is later than that of the empty id. */
  function LaterThanEmpty(log: set<Event>): set<string> {
    set id | id in Ids(log) && "" in Ids(log) && LastSeen(log)[id] > LastSeen(log)[""]
  }

  /**
   * The scan and the query agree exactly when the log has no empty id, or more than `limit` ids
   * have a later last event than it.
   */
  lemma EmptyIdIff(log: set<Event>, limit: nat)
    ensures SlowQuery(Named(log), limit) == SlowQuery(log, limit) <==> "" in Ids(log) ==> |LaterThanEmpty(log)| > limit
  {
    EmptyRowIff(log, limit);
    EmptyIdListedIff(log, limit);
  }

  /** The query's rows include the empty id exactly when at most `limit` ids have a later last event. */
  lemma EmptyIdListedIff(log: set<Event>, limit: nat)
    ensures (exists a :: a in SlowQuery(log, limit) && a.id == "") <==> "" in Ids(log) && |LaterThanEmpty(log)| <= limit
  {
    var ids := Ranked(LastSeen(log));
    EmptyIdPlace(log, limit);
    if "" in UpTo(ids, limit + 1) {
      ListedRow(log, limit, AggregateOf(log, ""));
    }
    forall a | a in SlowQuery(log, limit) && a.id == "" ensures "" in UpTo(ids, limit + 1) { ListedRow(log, limit, a); }
  }

  lemma ListedRow(log: set<Event>, limit: nat, a: Aggregate)
    ensures a.id in UpTo(Ranked(LastSeen(log)), limit + 1) ==> a.id in Ids(log)
    ensures a in SlowQuery(log, limit) <==>
      a.id in UpTo(Ranked(LastSeen(log)), limit + 1) && a == AggregateOf(log, a.id)
  {
    var ids := Ranked(LastSeen(log));
    GroupsRanked(log);
    UpToAggregates(log, ids, limit + 1);
    AggregatesMembers(log, UpTo(ids, limit + 1), a);
  }

  /** The empty id ranks among the first `limit + 1` exactly when at most `limit` ids are later. */
  lemma EmptyIdPlace(log: set<Event>, limit: nat)
    ensures "" in UpTo(Ranked(LastSeen(log)), limit + 1) <==> "" in Ids(log) && |LaterThanEmpty(log)| <= limit
  {
    var last := LastSeen(log);
    var ids := Ranked(last);
    RankedLists(last);
    if "" in Ids(log) {
      assert "" in ids;
      var i :| 0 <= i < |ids| && ids[i] == "";
      RankIsPlace(ids, last.Keys, RecentFirst(last), i);
      EmptyIsFirstOfTies(log);
      EmptyPlace(ids, last.Keys, RecentFirst(last), limit + 1, i);
    } else {
      UpToAscends(ids, RecentFirst(last), limit + 1);
    }
  }

  /** Of ids with the same last timestamp the empty one ranks first. */
  lemma EmptyIsFirstOfTies(log: set<Event>)
    requires "" in Ids(log)
    ensures Below(LastSeen(log).Keys, RecentFirst(LastSeen(log)), "") == LaterThanEmpty(log)
  {
    var last := LastSeen(log);
    forall id ensures id in Below(last.Keys, RecentFirst(last), "") <==> id in LaterThanEmpty(log) {
      if id in last { assert !StringLess(id, ""); }
    }
  }

  lemma EmptyPlace(ids: seq<string>, es: set<string>, less: (string, string) -> bool, n: nat, i: nat)
    requires StrictTotal(less, es) && Lists(ids, es, less) && i < |ids|
    ensures ids[i] in UpTo(ids, n) <==> i < n
  {
    UpToMember(ids, n, i);
    if ids[i] in UpTo(ids, n) {
      var j :| 0 <= j < |UpTo(ids, n)| && UpTo(ids, n)[j] == ids[i];
      assert ids[i] in ids && ids[j] in ids;
      AscendingAt(ids, less, j, i);
      AscendingAt(ids, less, i, j);
    }
  }

  lemma EmptyRowIff(log: set<Event>, limit: nat)
    ensures SlowQuery(Named(log), limit) == SlowQuery(log, limit) <==> !exists a ::
      a in SlowQuery(log, limit) && a.id == ""
  {
    forall a | a in SlowQuery(Named(log), limit) ensures a.id != "" { NamedRow(log, limit, a); }
    if forall a | a in SlowQuery(log, limit) :: a.id != "" {
      GroupsOrdered(log);
      SortedLists(Groups(log), ByRecency);
      SameRows(log, Sorted(Groups(log), ByRecency), limit);
    }
  }

  lemma NamedRow(log: set<Event>, limit: nat, a: Aggregate)
    requires a in SlowQuery(Named(log), limit)
    ensures a.id != ""
  {
    GroupsOrdered(Named(log));
    SortedLists(Groups(Named(log)), ByRecency);
    assert a in Sorted(Groups(Named(log)), ByRecency);
  }

  lemma SameRows(log: set<Event>, all: seq<Aggregate>, limit: nat)
    requires StrictTotal(ByRecency, Groups(log)) && Lists(all, Groups(log), ByRecency)
      && SlowQuery(log, limit) == UpTo(all, limit + 1)
    requires forall a | a in UpTo(all, limit + 1) :: a.id != ""
    ensures SlowQuery(Named(log), limit) == UpTo(all, limit + 1)
  {
    var head := UpTo(all, limit + 1);
    UpToAscends(all, ByRecency, limit + 1);
    forall a ensures a in Groups(Named(log)) <==> a in Groups(log) && a.id != "" { NamedGroupsAre(log, a); }
    HeadFirst(log, all, limit);
    GroupsOrdered(Named(log));
    HeadListed(Groups(Named(log)), head, ByRecency);
    var named := Sorted(Groups(Named(log)), ByRecency);
    SortedLists(Groups(Named(log)), ByRecency);
    if |head| <= limit {
      forall i | 0 <= i < |named| ensures named[i] in head { assert named[i] in named; }
      NoLonger(named, head, Groups(Named(log)));
    }
  }

  lemma HeadFirst(log: set<Event>, all: seq<Aggregate>, limit: nat)
    requires Lists(all, Groups(log), ByRecency)
    requires forall a | a in Groups(Named(log)) :: a in Groups(log)
    ensures var head := UpTo(all, limit + 1);
      forall i, b | 0 <= i < |head| && b in Groups(Named(log)) && b !in head :: ByRecency(head[i], b)
  {
    var head := UpTo(all, limit + 1);
    forall i, b | 0 <= i < |head| && b in Groups(Named(log)) && b !in head ensures ByRecency(head[i], b) {
      assert b in all;
      var j :| 0 <= j < |all| && all[j] == b;
      AscendingAt(all, ByRecency, i, j);
      UpToMember(all, limit + 1, j);
    }
  }

  lemma NamedGroupsAre(log: set<Event>, a: Aggregate)
    ensures a in Groups(Named(log)) <==> a in Groups(log) && a.id != ""
  {
    if a.id != "" { NamedGroup(log, a.id); }
  }

  /** A listing that begins with all its elements ends there. */
  lemma NoLonger(s: seq<Aggregate>, head: seq<Aggregate>, es: set<Aggregate>)
    requires StrictTotal(ByRecency, es) && Lists(s, es, ByRecency) && head <= s
    requires forall i | 0 <= i < |s| :: s[i] in head
    ensures s == head
  {
    forall e ensures e in head <==> e in es {
      if e in es {
        assert e in s;
        var i :| 0 <= i < |s| && s[i] == e;
      } else {
        assert e !in s;
      }
    }
    forall i, j | 0 <= i < j < |head| ensures ByRecency(head[i], head[j]) { AscendingAt(s, ByRecency, i, j); }
    ListingUnique(s, head, es, ByRecency);
  }

  lemma UpToMember<T>(s: seq<T>, n: nat, i: nat)
    ensures i < |UpTo(s, n)| ==> s[i] in UpTo(s, n)
  {
    if i < |UpTo(s, n)| { assert UpTo(s, n)[i] == s[i]; }
  }

  /** Such an input: one event, with the empty id. The query has a row for it, the scan none. */
  lemma EmptyIdExample()
    ensures var log := {Event(Some(""), 1, 1)};
      WellFormed(log) && SlowQuery(Named(log), 0) == [] && |SlowQuery(log, 0)| == 1
  {
    var e := Event(Some(""), 1, 1);
    var log := {e};
    assert Named(log) == {} && Groups(Named(log)) == {};
    assert e in Correlated(log) && Ids(log) == {""};
    assert Groups(log) == {AggregateOf(log, "")};
    GroupsOrdered(log);
    SortedLists(Groups(log), ByRecency);
    GroupsOrdered(Named(log));
    SortedLists(Groups(Named(log)), ByRecency);
  }
}

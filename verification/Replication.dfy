/**
 * Replication over whole sessions: pages read while the store keeps changing add up to one
 * answer, and a client that applies them holds exactly the granted view.
 */
module Replication {
  import opened Wrappers
  import opened Orders
  import opened Paging
  import opened RecordModel
  import opened RecordHistory
  import opened ChangeSessions

  // ---------- The client ----------

  function ApplyEntry(client: map<string, Data>, e: Entry): map<string, Data> {
    match e
    case Live(key, data, _, _) => client[key := data]
    case Tombstone(key, _, _, _) => client - {key}
  }

  /** A live entry sets its key, a tombstone removes it. */
  function Apply(client: map<string, Data>, es: seq<Entry>): map<string, Data>
    decreases |es|
  {
    if es == [] then client else Apply(ApplyEntry(client, es[0]), es[1..])
  }

  lemma {:induction false} ApplyConcat(client: map<string, Data>, a: seq<Entry>, b: seq<Entry>)
    ensures Apply(client, a + b) == Apply(Apply(client, a), b)
    decreases |a|
  {
    if a == [] {
      assert a + b == b;
    } else {
      assert (a + b)[0] == a[0] && (a + b)[1..] == a[1..] + b;
      ApplyConcat(ApplyEntry(client, a[0]), a[1..], b);
    }
  }

  lemma {:induction false} ApplyUntouched(client: map<string, Data>, es: seq<Entry>, k: string)
    requires forall e | e in es :: e.key != k
    ensures Lookup(Apply(client, es), k) == Lookup(client, k)
    decreases |es|
  {
    if es != [] {
      ApplyUntouched(ApplyEntry(client, es[0]), es[1..], k);
    }
  }

  lemma {:induction false} ApplyOnce(client: map<string, Data>, es: seq<Entry>, i: nat)
    requires i < |es| && forall j | i < j < |es| :: es[j].key != es[i].key
    ensures Lookup(Apply(client, es), es[i].key) == Effect(es[i])
    decreases |es|
  {
    if i == 0 {
      forall e | e in es[1..] ensures e.key != es[0].key {
        var j :| 0 <= j < |es[1..]| && es[1..][j] == e;
        assert es[j + 1] == e;
      }
      ApplyUntouched(ApplyEntry(client, es[0]), es[1..], es[0].key);
    } else {
      ApplyOnce(ApplyEntry(client, es[0]), es[1..], i - 1);
    }
  }

  /** Applying a full answer sets every key it mentions and no other. */
  lemma ApplyListing(
    client: map<string, Data>, h: seq<Row>, limit: Option<nat>, s: Session, grant: Grant, md: StreamMetadata, k: string)
    requires SessionFits(h, s)
    ensures Lookup(Apply(client, Listing(h, limit, s, grant, md)), k) ==
      if k in Answer(h, limit, s, grant, md) then Effect(Answer(h, limit, s, grant, md)[k]) else Lookup(client, k)
  {
    ListingLists(h, limit, s, grant, md);
    var m, es := Answer(h, limit, s, grant, md), Listing(h, limit, s, grant, md);
    forall e | e in es ensures e.key in m && m[e.key] == e {
      assert e in Entries(m);
      var j :| j in m && m[j] == e;
      AnswerEntry(h, limit, s, grant, md, j);
    }
    if k in m {
      AnswerEntry(h, limit, s, grant, md, k);
      assert m[k] in Entries(m) && m[k] in es;
      var i :| 0 <= i < |es| && es[i] == m[k];
      forall j | i < j < |es| ensures es[j].key != es[i].key {
        assert es[j] in es && ByVersion(es[i], es[j]);
      }
      ApplyOnce(client, es, i);
    } else {
      ApplyUntouched(client, es, k);
    }
  }

  /**
   * Delta sync is exact: from the granted view at `since`, applying the whole answer of a
   * session gives the granted view at the horizon. A bootstrap is the case since = 0, where
   * the client starts empty.
   */
  lemma DeltaSyncExact(h: seq<Row>, s: Session, grant: Grant, md: StreamMetadata)
    requires SessionFits(h, s) && Opening(s)
    ensures Apply(View(h[..s.sinceVersion], grant, md), Listing(h, None, s, grant, md))
      == View(h[..s.horizonVersion], grant, md)
  {
    var client, target := View(h[..s.sinceVersion], grant, md), View(h[..s.horizonVersion], grant, md);
    var result := Apply(client, Listing(h, None, s, grant, md));
    forall k ensures Lookup(result, k) == Lookup(target, k) {
      ApplyListing(client, h, None, s, grant, md, k);
      AnswerExact(h, s, grant, md, k);
    }
    SameByLookup(result, target);
  }

  // ---------- Sessions while the store changes ----------

  /** A session's answer does not depend on anything written after it was opened. */
  lemma AnswerStable(h: seq<Row>, h': seq<Row>, s: Session, grant: Grant, md: StreamMetadata)
    requires SessionFits(h, s) && Numbered(h') && h <= h'
    ensures Answer(h', None, s, grant, md) == Answer(h, None, s, grant, md)
  {
    assert forall lo, hi | 0 <= lo <= hi <= |h| :: h'[lo..hi] == h[lo..hi];
    assert Candidates(h', None, s) == Candidates(h, None, s) by {
      if s.mode == Bootstrap {
        forall k ensures Lookup(Candidates(h', None, s), k) == Lookup(Candidates(h, None, s), k) {
          CurrentBeforeHorizon(h, s.horizonVersion, k);
          CurrentBeforeHorizon(h', s.horizonVersion, k);
        }
        SameByLookup(Candidates(h', None, s), Candidates(h, None, s));
      }
    }
    assert Before(h', None, s) == Before(h, None, s);
    forall k ensures DeltaOf(h', None, s, grant, md, k) == DeltaOf(h, None, s, grant, md, k) {}
  }

  /** Resuming after a version owes exactly the entries with a later one. */
  lemma AnswerResumed(h: seq<Row>, limit: Option<nat>, s: Session, v: nat, grant: Grant, md: StreamMetadata, k: string)
    requires SessionFits(h, s) && s.afterVersion <= v
    ensures var (m, rest) := (Answer(h, limit, s, grant, md), Answer(h, limit, s.(afterVersion := v), grant, md));
      && (k in rest <==> k in m && v < m[k].version)
      && (k in rest ==> rest[k] == m[k])
  {
    if k in Candidates(h, limit, s) {
      DeltaMeaning(Lookup(Before(h, limit, s), k), Candidates(h, limit, s)[k], grant, md);
    }
    assert Candidates(h, limit, s) == Candidates(h, limit, s.(afterVersion := v));
  }

  lemma EntriesResumed(h: seq<Row>, limit: Option<nat>, s: Session, last: Entry, grant: Grant, md: StreamMetadata)
    requires SessionFits(h, s) && s.afterVersion <= last.version
    ensures (set e | e in Entries(Answer(h, limit, s, grant, md)) && ByVersion(last, e))
         == Entries(Answer(h, limit, s.(afterVersion := last.version), grant, md))
  {
    var m, rest := Answer(h, limit, s, grant, md), Answer(h, limit, s.(afterVersion := last.version), grant, md);
    forall k ensures (k in rest <==> k in m && last.version < m[k].version) && (k in rest ==> rest[k] == m[k]) {
      AnswerResumed(h, limit, s, last.version, grant, md, k);
    }
    forall e | e in Entries(m) && ByVersion(last, e) ensures e in Entries(rest) {
      var k :| k in m && m[k] == e;
      assert rest[k] == e;
    }
    forall e | e in Entries(rest) ensures e in Entries(m) && ByVersion(last, e) {
      var k :| k in rest && rest[k] == e;
      assert m[k] == e;
    }
  }

  lemma ListedVersion(h: seq<Row>, limit: Option<nat>, s: Session, grant: Grant, md: StreamMetadata, i: nat)
    requires SessionFits(h, s) && i < |Listing(h, limit, s, grant, md)|
    ensures s.afterVersion < Listing(h, limit, s, grant, md)[i].version <= s.horizonVersion
  {
    ListingLists(h, limit, s, grant, md);
    var m, all := Answer(h, limit, s, grant, md), Listing(h, limit, s, grant, md);
    assert all[i] in all && all[i] in Entries(m);
    var k :| k in m && m[k] == all[i];
    AnswerEntry(h, limit, s, grant, md, k);
  }

  /** The page cursor resumes exactly after the page. */
  lemma ResumeDropsPage(h: seq<Row>, limit: Option<nat>, s: Session, grant: Grant, md: StreamMetadata, n: nat)
    requires SessionFits(h, s) && 0 < n <= |Listing(h, limit, s, grant, md)|
    ensures var all := Listing(h, limit, s, grant, md);
      var resumed := s.(afterVersion := all[n - 1].version);
      && s.afterVersion < resumed.afterVersion <= s.horizonVersion
      && Listing(h, limit, resumed, grant, md) == all[n..]
  {
    var all := Listing(h, limit, s, grant, md);
    var last := all[n - 1];
    ListedVersion(h, limit, s, grant, md, n - 1);
    ListingLists(h, limit, s, grant, md);
    CutLists(all, Entries(Answer(h, limit, s, grant, md)), ByVersion, n);
    EntriesResumed(h, limit, s, last, grant, md);
    var resumed := s.(afterVersion := last.version);
    ListingLists(h, limit, resumed, grant, md);
    ListingUnique(all[n..], Listing(h, limit, resumed, grant, md), Entries(Answer(h, limit, resumed, grant, md)),
      ByVersion);
  }

  /** Page i is served, `ns[i]` entries at most, from the history `hs[i]` the store then has. */
  ghost predicate Reads(hs: seq<seq<Row>>, ns: seq<nat>, base: seq<Row>) {
    && |hs| == |ns|
    && (forall i | 0 <= i < |ns| :: ns[i] > 0)
    && (forall i | 0 <= i < |hs| :: Later(hs[i], base))
  }

  ghost predicate Later(h: seq<Row>, base: seq<Row>) {
    base <= h && Numbered(h)
  }

  ghost function AsServed(page: Page): Served<Entry, Session> {
    Served(page.data, if page.next.NextCursor? then Some(page.next.session) else None)
  }

  ghost function Serve(
    hs: seq<seq<Row>>, limit: Option<nat>, ns: seq<nat>, grant: Grant,
    md: StreamMetadata): (int, Session) -> Served<Entry, Session> {
    (i, s) =>
      if 0 <= i < |hs| && i < |ns| && ns[i] > 0 && Numbered(hs[i])
        then AsServed(PageOf(hs[i], limit, s, ns[i], grant, md))
      else Served([], None)
  }

  /** All entries a reader of the session receives; `true` when the session reported its end. */
  ghost function Deliver(
    hs: seq<seq<Row>>, limit: Option<nat>, ns: seq<nat>, s: Session, grant: Grant,
    md: StreamMetadata): (seq<Entry>, bool) {
    Collect(Serve(hs, limit, ns, grant, md), |ns|, 0, s)
  }

  lemma SamePage(base: seq<Row>, h: seq<Row>, s: Session, n: nat, grant: Grant, md: StreamMetadata)
    requires SessionFits(base, s) && base <= h && Numbered(h) && n > 0
    ensures PageOf(h, None, s, n, grant, md) == PageOf(base, None, s, n, grant, md)
  {
    AnswerStable(base, h, s, grant, md);
  }

  lemma PageResumes(
    h: seq<Row>, n: nat, base: seq<Row>, s: Session, owed: Session -> seq<Entry>, valid: Session -> bool,
    grant: Grant, md: StreamMetadata)
    requires Later(h, base) && n > 0 && SessionFits(base, s)
    requires forall d :: valid(d) <==> SessionFits(base, d)
    requires forall d | valid(d) :: owed(d) == Listing(base, None, d, grant, md)
    ensures ResumesAt(AsServed(PageOf(h, None, s, n, grant, md)), owed, valid, n, s)
  {
    SamePage(base, h, s, n, grant, md);
    if |Listing(base, None, s, grant, md)| > n {
      ResumeDropsPage(base, None, s, grant, md, n);
    }
  }

  /**
   * Sessions are isolated from later writes: whatever the page sizes and whatever is written
   * between the pages, the pages delivered are the first entries of the one answer at session
   * start, all of it once the session reports its end, and it ends after at most as many
   * pages as there are entries (or one, if there are none).
   */
  lemma SessionIsolated(hs: seq<seq<Row>>, ns: seq<nat>, base: seq<Row>, s: Session, grant: Grant, md: StreamMetadata)
    requires Reads(hs, ns, base) && SessionFits(base, s)
    ensures Deliver(hs, None, ns, s, grant, md).0 <= Listing(base, None, s, grant, md)
    ensures Deliver(hs, None, ns, s, grant, md).1 ==>
      Deliver(hs, None, ns, s, grant, md).0 == Listing(base, None, s, grant, md)
    ensures |hs| > 0 && |hs| >= |Listing(base, None, s, grant, md)| ==> Deliver(hs, None, ns, s, grant, md).1
  {
    var serve := Serve(hs, None, ns, grant, md);
    var valid := (d: Session) => SessionFits(base, d);
    var owed := (d: Session) => if Numbered(base) then Listing(base, None, d, grant, md) else [];
    forall j, d | 0 <= j < |ns| && valid(d) ensures ResumesAt(serve(j, d), owed, valid, ns[j], d) {
      assert Later(hs[j], base);
      PageResumes(hs[j], ns[j], base, d, owed, valid, grant, md);
    }
    PagesPartition(serve, owed, valid, ns, 0, s);
  }

  // ---------- A client over any number of sessions ----------

  /** One completed session: opened on history `base`, its pages served from later ones. */
  datatype Round = Round(base: seq<Row>, pages: seq<seq<Row>>, limits: seq<nat>)

  function Open(since: Option<nat>, horizon: nat): Session {
    match since
    case None => Session(Bootstrap, 0, 0, horizon)
    case Some(v) => Session(Changes, v, v, horizon)
  }

  /** Rounds follow one another on a growing history, and each is read to its end. */
  ghost predicate Completed(
    rounds: seq<Round>, limit: Option<nat>, since: Option<nat>, start: seq<Row>, grant: Grant, md: StreamMetadata)
    decreases |rounds|
  {
    rounds == [] ||
    var r := rounds[0];
    && start <= r.base && Numbered(r.base)
    && (since.Some? ==> since.value == |start|) && (since.None? ==> start == [])
    && Reads(r.pages, r.limits, r.base)
    && Deliver(r.pages, limit, r.limits, Open(since, |r.base|), grant, md).1
    && Completed(rounds[1..], limit, Some(|r.base|), r.base, grant, md)
  }

  ghost function Replicated(
    client: map<string, Data>, rounds: seq<Round>, limit: Option<nat>, since: Option<nat>, start: seq<Row>,
    grant: Grant, md: StreamMetadata): map<string, Data>
    requires Completed(rounds, limit, since, start, grant, md)
    decreases |rounds|
  {
    if rounds == [] then client
    else
      var r := rounds[0];
      var client' := Apply(client, Deliver(r.pages, limit, r.limits, Open(since, |r.base|), grant, md).0);
      Replicated(client', rounds[1..], limit, Some(|r.base|), r.base, grant, md)
  }

  /** The history that the last round was opened on. */
  ghost function LastOpened(rounds: seq<Round>, start: seq<Row>): seq<Row> {
    if rounds == [] then start else rounds[|rounds| - 1].base
  }

  /**
   * Replication: a client that bootstraps and then keeps following changes_since, page by page
   * and session by session, while the store changes underneath, holds after every session
   * exactly the granted view of the history that session was opened on.
   */
  lemma {:induction false} ReplicaIsView(
    client: map<string, Data>, rounds: seq<Round>, since: Option<nat>, start: seq<Row>, grant: Grant,
    md: StreamMetadata)
    requires Completed(rounds, None, since, start, grant, md)
    requires client == View(start, grant, md)
    ensures Replicated(client, rounds, None, since, start, grant, md) == View(LastOpened(rounds, start), grant, md)
    decreases |rounds|
  {
    if rounds != [] {
      var r := rounds[0];
      RoundExact(r, since, start, grant, md);
      ReplicaIsView(View(r.base, grant, md), rounds[1..], Some(|r.base|), r.base, grant, md);
      assert LastOpened(rounds[1..], r.base) == LastOpened(rounds, start);
    }
  }

  lemma RoundExact(r: Round, since: Option<nat>, start: seq<Row>, grant: Grant, md: StreamMetadata)
    requires start <= r.base && Numbered(r.base) && Reads(r.pages, r.limits, r.base)
    requires (since.Some? ==> since.value == |start|) && (since.None? ==> start == [])
    requires Deliver(r.pages, None, r.limits, Open(since, |r.base|), grant, md).1
    ensures Apply(View(start, grant, md), Deliver(r.pages, None, r.limits, Open(since, |r.base|), grant, md).0)
      == View(r.base, grant, md)
  {
    var s := Open(since, |r.base|);
    SessionIsolated(r.pages, r.limits, r.base, s, grant, md);
    DeltaSyncExact(r.base, s, grant, md);
    assert r.base[..|start|] == start && r.base[..|r.base|] == r.base;
  }
}

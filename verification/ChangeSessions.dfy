/**
 * Change sessions as values: which entries a session owes its reader, how they are paged, and
 * what a client that applies them ends with. Everything is a function of the change history,
 * the history limit and the session; the store's methods are proved against it.
 */
module ChangeSessions {
  import opened Wrappers
  import opened Orders
  import opened RecordModel
  import opened RecordHistory

  datatype Mode = Bootstrap | Changes

  datatype Session = Session(mode: Mode, sinceVersion: nat, afterVersion: nat, horizonVersion: nat)

  datatype Entry =
    | Live(key: string, data: Data, emittedAt: string, version: nat)
    | Tombstone(key: string, deletedAt: Option<string>, emittedAt: string, version: nat)

  datatype Next = NextCursor(session: Session) | NextChangesSince(version: nat)

  datatype Page = Page(data: seq<Entry>, next: Next)

  // ---------- One change ----------

  function DiscloseIfAny(row: Option<Row>, grant: Grant, md: StreamMetadata): Option<Data> {
    if row.Some? then Disclose(row.value, grant, md) else None
  }

  /** The entry a change is worth to a reader who last saw the key as `before`. */
  function Delta(before: Option<Row>, change: Row, grant: Grant, md: StreamMetadata): Option<Entry> {
    var beforeRecord := DiscloseIfAny(before, grant, md);
    var afterRecord := if change.deleted then None else Disclose(change, grant, md);
    if beforeRecord == afterRecord then None
    else if afterRecord.Some? then Some(Live(change.key, afterRecord.value, change.emittedAt, change.version))
    else Some(Tombstone(change.key, change.deletedAt, change.emittedAt, change.version))
  }

  /** What applying an entry leaves under its key. */
  function Effect(e: Entry): Option<Data> {
    match e
    case Live(_, data, _, _) => Some(data)
    case Tombstone(_, _, _, _) => None
  }

  // ---------- The answer of a session ----------

  /** The rows a session considers: latest per key, from what the tables still hold. */
  ghost function Candidates(h: seq<Row>, limit: Option<nat>, s: Session): map<string, Row> {
    match s.mode
    case Changes => LatestWithin(h, Max(Floor(h, limit), s.sinceVersion), s.horizonVersion)
    case Bootstrap =>
      var logged := LatestWithin(h, Floor(h, limit), s.horizonVersion);
      var current := map k | k in Latest(h) && Latest(h)[k].version <= s.horizonVersion :: Latest(h)[k];
      map k | k in logged + current && !(logged + current)[k].deleted :: (logged + current)[k]
  }

  /** The rows the log still holds from before the session's window. */
  ghost function Before(h: seq<Row>, limit: Option<nat>, s: Session): map<string, Row> {
    LatestWithin(h, Floor(h, limit), s.sinceVersion)
  }

  /** The entry owed for a key, given the rows to send and the rows from before. */
  function DeltaIn(
    rows: map<string, Row>, before: map<string, Row>, after: nat, grant: Grant, md: StreamMetadata,
    k: string): Option<Entry> {
    if k in rows && rows[k].version > after then Delta(Lookup(before, k), rows[k], grant, md) else None
  }

  ghost function Deltas(
    rows: map<string, Row>, before: map<string, Row>, after: nat, grant: Grant,
    md: StreamMetadata): map<string, Entry> {
    map k | k in rows && DeltaIn(rows, before, after, grant, md, k).Some? ::
      DeltaIn(rows, before, after, grant, md, k).value
  }

  ghost function DeltaOf(
    h: seq<Row>, limit: Option<nat>, s: Session, grant: Grant, md: StreamMetadata, k: string): Option<Entry> {
    DeltaIn(Candidates(h, limit, s), Before(h, limit, s), s.afterVersion, grant, md, k)
  }

  /** The entries a session still owes after `afterVersion`, by key. */
  ghost function Answer(
    h: seq<Row>, limit: Option<nat>, s: Session, grant: Grant, md: StreamMetadata): map<string, Entry> {
    Deltas(Candidates(h, limit, s), Before(h, limit, s), s.afterVersion, grant, md)
  }

  ghost function Entries(m: map<string, Entry>): set<Entry> {
    set k | k in m :: m[k]
  }

  predicate ByVersion(a: Entry, b: Entry) { a.version < b.version }

  ghost predicate SessionFits(h: seq<Row>, s: Session) {
    Numbered(h) && s.sinceVersion <= s.afterVersion && s.sinceVersion <= s.horizonVersion <= |h|
  }

  /** A candidate is the row of the history that its version numbers. */
  lemma CandidateRow(h: seq<Row>, limit: Option<nat>, s: Session, k: string)
    requires Numbered(h) && k in Candidates(h, limit, s)
    ensures var row := Candidates(h, limit, s)[k];
      row.key == k && 0 < row.version <= s.horizonVersion && row.version <= |h| && row == h[row.version - 1]
  {
    if s.mode == Changes {
      LatestWithinVersions(h, Max(Floor(h, limit), s.sinceVersion), s.horizonVersion, k);
    } else {
      if k in LatestWithin(h, Floor(h, limit), s.horizonVersion) {
        LatestWithinVersions(h, Floor(h, limit), s.horizonVersion, k);
      }
      assert h[0..|h|] == h;
      if k in Latest(h) { LatestWithinVersions(h, 0, |h|, k); }
    }
  }

  lemma AnswerEntry(h: seq<Row>, limit: Option<nat>, s: Session, grant: Grant, md: StreamMetadata, k: string)
    requires Numbered(h) && k in Answer(h, limit, s, grant, md)
    ensures var e := Answer(h, limit, s, grant, md)[k];
      e.key == k && s.afterVersion < e.version <= s.horizonVersion && e.version <= |h| && h[e.version - 1].key == k
  {
    CandidateRow(h, limit, s, k);
    DeltaMeaning(Lookup(Before(h, limit, s), k), Candidates(h, limit, s)[k], grant, md);
  }

  lemma EntryFound(m: map<string, Entry>, e: Entry) returns (k: string)
    requires e in Entries(m)
    ensures k in m && m[k] == e
  {
    k :| k in m && m[k] == e;
  }

  /** An entry sits under its own key, and its version names a row of that key. */
  lemma EntryOfAnswer(h: seq<Row>, limit: Option<nat>, s: Session, grant: Grant, md: StreamMetadata, e: Entry)
    requires Numbered(h) && e in Entries(Answer(h, limit, s, grant, md))
    ensures e.key in Answer(h, limit, s, grant, md) && Answer(h, limit, s, grant, md)[e.key] == e
    ensures s.afterVersion < e.version <= s.horizonVersion && e.version <= |h| && h[e.version - 1].key == e.key
  {
    var k := EntryFound(Answer(h, limit, s, grant, md), e);
    AnswerEntry(h, limit, s, grant, md, k);
  }

  /**
   * An entry tells of the row that its version numbers: its time, and either the granted fields
   * of a row that meets the grant, or, of a row that is deleted or does not, when it was deleted.
   */
  lemma EntryOfRow(h: seq<Row>, limit: Option<nat>, s: Session, grant: Grant, md: StreamMetadata, e: Entry)
    requires Numbered(h) && e in Entries(Answer(h, limit, s, grant, md))
    ensures 0 < e.version <= |h|
    ensures var row := h[e.version - 1];
      && e.key == row.key && e.emittedAt == row.emittedAt && (e.Live? <==> Granted(row, grant, md))
      && (e.Tombstone? ==> e.deletedAt == row.deletedAt)
      && (e.Live? ==>
        && (forall f ::
          f in e.data <==> f in row.payload && f in md.fields && (grant.fields.Some? ==> f in grant.fields.value))
        && (forall f | f in e.data :: e.data[f] == row.payload[f]))
  {
    var k := EntryFound(Answer(h, limit, s, grant, md), e);
    CandidateRow(h, limit, s, k);
    DeltaMeaning(Lookup(Before(h, limit, s), k), Candidates(h, limit, s)[k], grant, md);
    DisclosureExact(Candidates(h, limit, s)[k], grant, md);
  }

  ghost predicate RowOf(h: seq<Row>, e: Entry) {
    0 < e.version <= |h| && h[e.version - 1].key == e.key
  }

  /** Versions tell the entries of an answer apart, so they order it. */
  lemma AnswerOrdered(h: seq<Row>, limit: Option<nat>, s: Session, grant: Grant, md: StreamMetadata)
    requires Numbered(h)
    ensures StrictTotal(ByVersion, Entries(Answer(h, limit, s, grant, md)))
  {
    var es := Entries(Answer(h, limit, s, grant, md));
    var m := Answer(h, limit, s, grant, md);
    forall e | e in es ensures e.key in m && m[e.key] == e && RowOf(h, e) { EntryOfAnswer(h, limit, s, grant, md, e); }
    VersionsOrder(es, m, h);
  }

  lemma VersionsOrder(es: set<Entry>, m: map<string, Entry>, h: seq<Row>)
    requires forall e | e in es :: e.key in m && m[e.key] == e && RowOf(h, e)
    ensures StrictTotal(ByVersion, es)
  {
    forall a, b | a in es && b in es && a != b ensures ByVersion(a, b) || ByVersion(b, a) {
      assert RowOf(h, a) && RowOf(h, b);
    }
  }

  /** The entries still owed, in the order they are sent. */
  ghost function Listing(h: seq<Row>, limit: Option<nat>, s: Session, grant: Grant, md: StreamMetadata): seq<Entry>
    requires Numbered(h)
  {
    AnswerOrdered(h, limit, s, grant, md);
    Sorted(Entries(Answer(h, limit, s, grant, md)), ByVersion)
  }

  lemma ListingLists(h: seq<Row>, limit: Option<nat>, s: Session, grant: Grant, md: StreamMetadata)
    requires Numbered(h)
    ensures StrictTotal(ByVersion, Entries(Answer(h, limit, s, grant, md)))
    ensures Lists(Listing(h, limit, s, grant, md), Entries(Answer(h, limit, s, grant, md)), ByVersion)
  {
    AnswerOrdered(h, limit, s, grant, md);
    SortedLists(Entries(Answer(h, limit, s, grant, md)), ByVersion);
  }

  /** The page the store returns for a session. */
  ghost function PageOf(h: seq<Row>, limit: Option<nat>, s: Session, n: nat, grant: Grant, md: StreamMetadata): Page
    requires Numbered(h) && n > 0
  {
    var all := Listing(h, limit, s, grant, md);
    if |all| > n then Page(all[..n], NextCursor(s.(afterVersion := all[n - 1].version)))
    else Page(all, NextChangesSince(s.horizonVersion))
  }

  // ---------- Exactness ----------

  /** A delta is sent exactly when the disclosed data differ, and carries the new data. */
  lemma DeltaMeaning(before: Option<Row>, change: Row, grant: Grant, md: StreamMetadata)
    ensures Delta(before, change, grant, md).Some? <==> DiscloseIfAny(before, grant, md) != Disclose(change, grant, md)
    ensures Delta(before, change, grant, md).Some? ==>
      var e := Delta(before, change, grant, md).value;
      && e.key == change.key && e.version == change.version && Effect(e) == Disclose(change, grant, md)
      && e.emittedAt == change.emittedAt && (e.Tombstone? ==> e.deletedAt == change.deletedAt)
  {
  }

  /** The view at a version, key by key. */
  lemma ViewAt(h: seq<Row>, n: nat, grant: Grant, md: StreamMetadata, k: string)
    requires n <= |h|
    ensures Lookup(View(h[..n], grant, md), k) == DiscloseIfAny(Lookup(LatestWithin(h, 0, n), k), grant, md)
  {
    assert h[0..n] == h[..n];
  }

  /** The current table agrees with the log on every key that did not change after the horizon. */
  lemma CurrentBeforeHorizon(h: seq<Row>, n: nat, k: string)
    requires Numbered(h) && n <= |h|
    ensures k in Latest(h) && Latest(h)[k].version <= n ==>
      k in LatestWithin(h, 0, n) && Latest(h)[k] == LatestWithin(h, 0, n)[k]
    ensures k in LatestWithin(h, 0, n) ==> k in Latest(h)
  {
    assert h[0..|h|] == h;
    LatestWithinSplit(h, 0, n, |h|);
    if k in LatestWithin(h, n, |h|) { LatestWithinVersions(h, n, |h|, k); }
  }

  ghost predicate Opening(s: Session) {
    s.afterVersion == s.sinceVersion && (s.mode == Bootstrap ==> s.sinceVersion == 0)
  }

  /**
   * Unpruned answers are exact and minimal: a session owes an entry for a key if and only if
   * the key's granted data differ between its two ends, and the entry carries the new data.
   */
  lemma AnswerExact(h: seq<Row>, s: Session, grant: Grant, md: StreamMetadata, k: string)
    requires SessionFits(h, s) && Opening(s)
    ensures k in Answer(h, None, s, grant, md) <==>
      Lookup(View(h[..s.sinceVersion], grant, md), k) != Lookup(View(h[..s.horizonVersion], grant, md), k)
    ensures k in Answer(h, None, s, grant, md) ==>
      Effect(Answer(h, None, s, grant, md)[k]) == Lookup(View(h[..s.horizonVersion], grant, md), k)
  {
    var earlier, later := LatestWithin(h, 0, s.sinceVersion), LatestWithin(h, 0, s.horizonVersion);
    ViewAt(h, s.sinceVersion, grant, md, k);
    ViewAt(h, s.horizonVersion, grant, md, k);
    LatestWithinSplit(h, 0, s.sinceVersion, s.horizonVersion);
    CurrentBeforeHorizon(h, s.horizonVersion, k);
    if k in Candidates(h, None, s) {
      CandidateRow(h, None, s, k);
      if s.mode == Changes { LatestWithinVersions(h, s.sinceVersion, s.horizonVersion, k); }
      assert Candidates(h, None, s)[k] == later[k];
      DeltaMeaning(Lookup(earlier, k), later[k], grant, md);
    } else if s.mode == Bootstrap {
      assert k in later ==> later[k].deleted;
    }
  }
}

/**
 * Whole sessions under a history limit: the pages are served from a log that is pruned further
 * between any two of them, and a page cursor is accepted however much has gone.
 */
module PrunedPages {
  import opened Wrappers
  import opened Orders
  import opened Paging
  import opened RecordModel
  import opened RecordHistory
  import opened ChangeSessions
  import opened Replication
  import opened PrunedSessions

  // ---------- Pages ----------

  ghost predicate Readable(hs: seq<seq<Row>>, ns: seq<nat>) {
    |hs| == |ns| && forall i | 0 <= i < |hs| :: ns[i] > 0 && Numbered(hs[i])
  }

  /** The page that owes a version: the first whose cursor has moved past it, or the last page. */
  ghost function OwingIn(serve: (int, Session) -> Served<Entry, Session>, pages: nat, i: nat, s: Session, v: nat): nat
    requires i <= pages
    decreases pages - i
  {
    if i == pages then i
    else
      var page := serve(i, s);
      if page.next.None? || v <= page.next.value.afterVersion then i
      else OwingIn(serve, pages, i + 1, page.next.value, v)
  }

  ghost function Owing(
    hs: seq<seq<Row>>, limit: Option<nat>, ns: seq<nat>, i: nat, s: Session, v: nat, grant: Grant,
    md: StreamMetadata): nat
    requires Readable(hs, ns) && i <= |hs|
  {
    OwingIn(Serve(hs, limit, ns, grant, md), |hs|, i, s, v)
  }

  /** Where all pages are there to collect, some page owes every version. */
  lemma {:induction false} OwedAmongCollected(
    serve: (int, Session) -> Served<Entry, Session>, pages: nat, i: nat, s: Session, v: nat)
    requires i <= pages && Collect(serve, pages, i, s).1
    ensures OwingIn(serve, pages, i, s, v) < pages
    decreases pages - i
  {
    var page := serve(i, s);
    if page.next.Some? { OwedAmongCollected(serve, pages, i + 1, page.next.value, v); }
  }

  /** The page that owes the key's version still sends it. */
  ghost predicate SentByPages(
    hs: seq<seq<Row>>, limit: Option<nat>, ns: seq<nat>, i: nat, s: Session, base: seq<Row>, grant: Grant,
    md: StreamMetadata, k: string)
    requires Reads(hs, ns, base) && i <= |hs| && SessionFits(base, s)
  {
    ReadsReadable(hs, ns, base);
    var j := Owing(hs, limit, ns, i, s, RowVersion(base, s.horizonVersion, k), grant, md);
    j < |hs| && SendsLater(hs[j], base, limit, s, grant, md, k)
  }

  ghost predicate SendsLater(
    h: seq<Row>, base: seq<Row>, limit: Option<nat>, s: Session, grant: Grant, md: StreamMetadata, k: string)
    requires SessionFits(base, s)
  {
    Later(h, base) && Sends(h, limit, s, grant, md, k)
  }

  lemma ReadsReadable(hs: seq<seq<Row>>, ns: seq<nat>, base: seq<Row>)
    requires Reads(hs, ns, base)
    ensures Readable(hs, ns)
  {
    forall i | 0 <= i < |hs| ensures Numbered(hs[i]) { assert Later(hs[i], base); }
  }

  /** What a later history says about a session is what the history it was opened on says. */
  lemma SameEnds(h: seq<Row>, base: seq<Row>, s: Session, grant: Grant, md: StreamMetadata, k: string)
    requires SessionFits(base, s) && Later(h, base)
    ensures SessionFits(h, s)
    ensures RowVersion(h, s.horizonVersion, k) == RowVersion(base, s.horizonVersion, k)
    ensures View(h[..s.horizonVersion], grant, md) == View(base[..s.horizonVersion], grant, md)
    ensures View(h[..s.sinceVersion], grant, md) == View(base[..s.sinceVersion], grant, md)
  {
    assert h[..s.horizonVersion] == base[..s.horizonVersion] && h[..s.sinceVersion] == base[..s.sinceVersion];
    assert h[0..s.horizonVersion] == base[0..s.horizonVersion];
  }

  /** What is known of the entries that a reader receives under one key. */
  ghost predicate Carries(es: seq<Entry>, k: string, v: nat, after: nat, value: Option<Data>) {
    forall e | e in es && e.key == k :: e.version == v && v > after && Effect(e) == value
  }

  ghost predicate Mentions(es: seq<Entry>, k: string) {
    exists e :: e in es && e.key == k
  }

  /** The first n entries are those up to the version of the n-th. */
  lemma FirstEntries(all: seq<Entry>, n: nat)
    requires Ascending(all, ByVersion) && 0 < n <= |all|
    ensures forall i | 0 <= i < |all| :: all[i] in all[..n] <==> all[i].version <= all[n - 1].version
  {
    forall i | 0 <= i < |all| ensures all[i] in all[..n] <==> all[i].version <= all[n - 1].version {
      AscendingAt(all, ByVersion, n - 1, i);
      AscendingAt(all, ByVersion, i, n - 1);
      TakeMember(all, n, i);
      FirstPart(all, n, i);
    }
  }

  /** The entries of one page, by key. */
  lemma PageEntries(h: seq<Row>, limit: Option<nat>, s: Session, n: nat, grant: Grant, md: StreamMetadata, k: string)
    requires Issued(h, s) && n > 0
    ensures var page := PageOf(h, limit, s, n, grant, md);
      var v := RowVersion(h, s.horizonVersion, k);
      var last := page.next.NextChangesSince?;
      && Carries(page.data, k, v, s.afterVersion, Lookup(View(h[..s.horizonVersion], grant, md), k))
      && (Mentions(page.data, k) <==>
        k in Answer(h, limit, s, grant, md) && (last || v <= page.next.session.afterVersion))
      && (!last ==>
        page.next.session == s.(afterVersion := page.next.session.afterVersion)
        && s.afterVersion < page.next.session.afterVersion)
  {
    var m, all, page := Answer(h, limit, s, grant, md), Listing(h, limit, s, grant, md),
      PageOf(h, limit, s, n, grant, md);
    ListingLists(h, limit, s, grant, md);
    PageOwes(h, limit, s, grant, md, k);
    forall e | e in page.data ensures e in all && e.key in m && m[e.key] == e && s.afterVersion < e.version {
      assert e in all;
      EntryOfAnswer(h, limit, s, grant, md, e);
    }
    if |all| > n {
      ListedVersion(h, limit, s, grant, md, n - 1);
      FirstEntries(all, n);
    }
    if k in m {
      AnswerEntry(h, limit, s, grant, md, k);
      assert m[k] in Entries(m) && m[k] in all;
      var i :| 0 <= i < |all| && all[i] == m[k];
    }
  }

  lemma FirstPart(all: seq<Entry>, n: nat, i: nat)
    requires Ascending(all, ByVersion) && n <= |all| && i < |all|
    ensures all[i] in all[..n] ==> i < n
  {
    if all[i] in all[..n] {
      var j :| 0 <= j < n && all[..n][j] == all[i];
      AscendingAt(all, ByVersion, j, i);
    }
  }

  // ---------- Whole sessions ----------

  /**
   * What entries received from page i on say about one key: its value at the horizon, exactly if
   * its version is still to come and the page that owes it still sends it.
   */
  ghost predicate Told(
    got: seq<Entry>, hs: seq<seq<Row>>, limit: Option<nat>, ns: seq<nat>, base: seq<Row>, i: nat, s: Session,
    grant: Grant, md: StreamMetadata, k: string)
    requires Reads(hs, ns, base) && SessionFits(base, s) && i <= |ns|
  {
    var v := RowVersion(base, s.horizonVersion, k);
    && Carries(got, k, v, s.afterVersion, Lookup(View(base[..s.horizonVersion], grant, md), k))
    && (Mentions(got, k) <==> v > s.afterVersion && SentByPages(hs, limit, ns, i, s, base, grant, md, k))
  }

  /** Everything received from page i on, and whether the session reported its end. */
  ghost function Received(
    hs: seq<seq<Row>>, limit: Option<nat>, ns: seq<nat>, i: nat, s: Session, grant: Grant,
    md: StreamMetadata): (seq<Entry>, bool)
    requires i <= |ns|
  {
    Collect(Serve(hs, limit, ns, grant, md), |ns|, i, s)
  }

  lemma ReceivedStep(
    hs: seq<seq<Row>>, limit: Option<nat>, ns: seq<nat>, i: nat, s: Session, grant: Grant, md: StreamMetadata)
    requires Readable(hs, ns) && i <= |ns|
    ensures i == |ns| ==> !Received(hs, limit, ns, i, s, grant, md).1
    ensures i < |ns| ==>
      var page := PageOf(hs[i], limit, s, ns[i], grant, md);
      match page.next
      case NextChangesSince(_) => Received(hs, limit, ns, i, s, grant, md) == (page.data, true)
      case NextCursor(s') =>
        Received(hs, limit, ns, i, s, grant, md) ==
          (page.data + Received(hs, limit, ns, i + 1, s', grant, md).0, Received(hs, limit, ns, i + 1, s', grant, md).1)
  {
  }

  lemma {:induction false} PagesTell(
    hs: seq<seq<Row>>, limit: Option<nat>, ns: seq<nat>, base: seq<Row>, i: nat, s: Session, grant: Grant,
    md: StreamMetadata, k: string)
    requires Reads(hs, ns, base) && Issued(base, s) && i <= |ns|
    requires Received(hs, limit, ns, i, s, grant, md).1
    ensures Told(Received(hs, limit, ns, i, s, grant, md).0, hs, limit, ns, base, i, s, grant, md, k)
    decreases |ns| - i
  {
    var more, s' := OnePage(hs, limit, ns, base, i, s, grant, md, k);
    if more { PagesTell(hs, limit, ns, base, i + 1, s', grant, md, k); }
  }

  /** One page of a session that completes: it is the last, or another session goes on from it. */
  lemma OnePage(
    hs: seq<seq<Row>>, limit: Option<nat>, ns: seq<nat>, base: seq<Row>, i: nat, s: Session, grant: Grant,
    md: StreamMetadata, k: string)
    returns (more: bool, s': Session)
    requires Reads(hs, ns, base) && Issued(base, s) && i <= |ns| && Received(hs, limit, ns, i, s, grant, md).1
    ensures i < |ns|
    ensures !more ==> Told(Received(hs, limit, ns, i, s, grant, md).0, hs, limit, ns, base, i, s, grant, md, k)
    ensures more ==> Issued(base, s') && Received(hs, limit, ns, i + 1, s', grant, md).1
    ensures more ==>
      Told(Received(hs, limit, ns, i + 1, s', grant, md).0, hs, limit, ns, base, i + 1, s', grant, md, k) ==>
      Told(Received(hs, limit, ns, i, s, grant, md).0, hs, limit, ns, base, i, s, grant, md, k)
  {
    ReadsReadable(hs, ns, base);
    ReceivedStep(hs, limit, ns, i, s, grant, md);
    var next := PageOf(hs[i], limit, s, ns[i], grant, md).next;
    more, s' := next.NextCursor?, s;
    if more {
      s' := next.session;
      PageIssues(hs, limit, ns, base, i, s, grant, md);
    }
    if more ==> Told(Received(hs, limit, ns, i + 1, s', grant, md).0, hs, limit, ns, base, i + 1, s', grant, md, k) {
      StepTells(hs, limit, ns, base, i, s, grant, md, k);
    }
  }

  lemma PageIssues(
    hs: seq<seq<Row>>, limit: Option<nat>, ns: seq<nat>, base: seq<Row>, i: nat, s: Session, grant: Grant,
    md: StreamMetadata)
    requires Reads(hs, ns, base) && Issued(base, s) && i < |ns| && Readable(hs, ns)
    ensures var next := PageOf(hs[i], limit, s, ns[i], grant, md).next;
      next.NextCursor? ==> Issued(base, next.session)
  {
    assert Later(hs[i], base);
    PageTells(hs[i], limit, ns[i], base, s, grant, md, "");
  }

  /** From what the later pages tell to what all of them from page i on tell. */
  lemma StepTells(
    hs: seq<seq<Row>>, limit: Option<nat>, ns: seq<nat>, base: seq<Row>, i: nat, s: Session, grant: Grant,
    md: StreamMetadata, k: string)
    requires Reads(hs, ns, base) && Issued(base, s) && i < |ns| && Readable(hs, ns)
    requires var next := PageOf(hs[i], limit, s, ns[i], grant, md).next;
      next.NextCursor? ==>
        Issued(base, next.session)
          && Told(Received(hs, limit, ns, i + 1, next.session, grant, md).0, hs, limit, ns, base, i + 1, next.session,
          grant, md, k)
    ensures Told(Received(hs, limit, ns, i, s, grant, md).0, hs, limit, ns, base, i, s, grant, md, k)
  {
    assert Later(hs[i], base);
    ReceivedStep(hs, limit, ns, i, s, grant, md);
    var next := PageOf(hs[i], limit, s, ns[i], grant, md).next;
    if next.NextCursor? {
      RestTells(Received(hs, limit, ns, i + 1, next.session, grant, md).0, hs, limit, ns, base, i, s, grant, md, k);
    } else {
      LastPageTells(hs, limit, ns, base, i, s, grant, md, k);
    }
  }

  /** What a page tells, in terms of the history the session was opened on. */
  lemma PageTells(
    h: seq<Row>, limit: Option<nat>, n: nat, base: seq<Row>, s: Session, grant: Grant, md: StreamMetadata, k: string)
    requires Issued(base, s) && Later(h, base) && n > 0
    ensures var page := PageOf(h, limit, s, n, grant, md);
      var v := RowVersion(base, s.horizonVersion, k);
      && Carries(page.data, k, v, s.afterVersion, Lookup(View(base[..s.horizonVersion], grant, md), k))
      && (Mentions(page.data, k) <==>
            && v > s.afterVersion && SendsLater(h, base, limit, s, grant, md, k)
            && (page.next.NextChangesSince? || v <= page.next.session.afterVersion))
      && (page.next.NextCursor? ==>
            && Issued(base, page.next.session) && s.afterVersion < page.next.session.afterVersion
            && page.next.session == s.(afterVersion := page.next.session.afterVersion))
  {
    SameEnds(h, base, s, grant, md, k);
    PageEntries(h, limit, s, n, grant, md, k);
    PageOwes(h, limit, s, grant, md, k);
  }

  /** The last page tells everything. */
  lemma LastPageTells(
    hs: seq<seq<Row>>, limit: Option<nat>, ns: seq<nat>, base: seq<Row>, i: nat, s: Session, grant: Grant,
    md: StreamMetadata, k: string)
    requires Reads(hs, ns, base) && Readable(hs, ns) && Issued(base, s) && i < |ns|
    requires PageOf(hs[i], limit, s, ns[i], grant, md).next.NextChangesSince?
    ensures Told(PageOf(hs[i], limit, s, ns[i], grant, md).data, hs, limit, ns, base, i, s, grant, md, k)
  {
    assert Later(hs[i], base);
    PageTells(hs[i], limit, ns[i], base, s, grant, md, k);
    OwingStep(hs, limit, ns, i, s, RowVersion(base, s.horizonVersion, k), grant, md);
  }

  lemma RestTells(
    rest: seq<Entry>, hs: seq<seq<Row>>, limit: Option<nat>, ns: seq<nat>, base: seq<Row>, i: nat, s: Session,
    grant: Grant, md: StreamMetadata, k: string)
    requires Reads(hs, ns, base) && Issued(base, s) && i < |ns| && Later(hs[i], base)
    requires PageOf(hs[i], limit, s, ns[i], grant, md).next.NextCursor?
    requires SessionFits(base, PageOf(hs[i], limit, s, ns[i], grant, md).next.session)
    requires Told(rest, hs, limit, ns, base, i + 1, PageOf(hs[i], limit, s, ns[i], grant, md).next.session, grant, md,
      k)
    ensures Told(PageOf(hs[i], limit, s, ns[i], grant, md).data + rest, hs, limit, ns, base, i, s, grant, md, k)
  {
    var page := PageOf(hs[i], limit, s, ns[i], grant, md);
    ReadsReadable(hs, ns, base);
    PageTells(hs[i], limit, ns[i], base, s, grant, md, k);
    MentionsEither(page.data, rest, k);
    ResumedSame(hs, limit, ns, base, i, s, page.next.session, grant, md, k);
    CarriesBoth(page.data, rest, k, RowVersion(base, s.horizonVersion, k), s.afterVersion,
      page.next.session.afterVersion, Lookup(View(base[..s.horizonVersion], grant, md), k));
  }

  lemma CarriesBoth(a: seq<Entry>, b: seq<Entry>, k: string, v: nat, after: nat, after': nat, value: Option<Data>)
    requires Carries(a, k, v, after, value) && Carries(b, k, v, after', value) && after <= after'
    ensures Carries(a + b, k, v, after, value)
    ensures v <= after' ==> !Mentions(b, k)
  {
  }

  lemma MentionsEither(a: seq<Entry>, b: seq<Entry>, k: string)
    ensures Mentions(a + b, k) <==> Mentions(a, k) || Mentions(b, k)
  {
    assert forall e :: e in a + b <==> e in a || e in b;
  }

  lemma ResumedSame(
    hs: seq<seq<Row>>, limit: Option<nat>, ns: seq<nat>, base: seq<Row>, i: nat, s: Session, s': Session,
    grant: Grant, md: StreamMetadata, k: string)
    requires Reads(hs, ns, base) && Issued(base, s) && Issued(base, s') && i < |ns|
      && s' == s.(afterVersion := s'.afterVersion) && Readable(hs, ns)
    requires PageOf(hs[i], limit, s, ns[i], grant, md).next == NextCursor(s')
    ensures RowVersion(base, s.horizonVersion, k) > s'.afterVersion ==>
      (SentByPages(hs, limit, ns, i, s, base, grant, md, k) <==>
        SentByPages(hs, limit, ns, i + 1, s', base, grant, md, k))
    ensures RowVersion(base, s.horizonVersion, k) <= s'.afterVersion ==>
      (SentByPages(hs, limit, ns, i, s, base, grant, md, k) <==> SendsLater(hs[i], base, limit, s, grant, md, k))
  {
    var v := RowVersion(base, s.horizonVersion, k);
    OwingStep(hs, limit, ns, i, s, v, grant, md);
    var j := Owing(hs, limit, ns, i + 1, s', v, grant, md);
    if j < |hs| { SendsSame(hs[j], base, limit, s, s', grant, md, k); }
  }

  lemma OwingStep(
    hs: seq<seq<Row>>, limit: Option<nat>, ns: seq<nat>, i: nat, s: Session, v: nat, grant: Grant, md: StreamMetadata)
    requires Readable(hs, ns) && i < |hs|
    ensures var next := PageOf(hs[i], limit, s, ns[i], grant, md).next;
      Owing(hs, limit, ns, i, s, v, grant, md) ==
        if next.NextCursor? && v > next.session.afterVersion
          then Owing(hs, limit, ns, i + 1, next.session, v, grant, md) else i
  {
  }

  lemma SendsSame(
    h: seq<Row>, base: seq<Row>, limit: Option<nat>, s: Session, s': Session, grant: Grant, md: StreamMetadata,
    k: string)
    requires SessionFits(base, s) && SessionFits(base, s') && s' == s.(afterVersion := s'.afterVersion)
    ensures SendsLater(h, base, limit, s, grant, md, k) <==> SendsLater(h, base, limit, s', grant, md, k)
  {
  }

  /** Entries that agree on a key set it to their value, if there are any. */
  lemma {:induction false} ApplyAgreeing(client: map<string, Data>, es: seq<Entry>, k: string, value: Option<Data>)
    requires forall e | e in es && e.key == k :: Effect(e) == value
    ensures Lookup(Apply(client, es), k) == if Mentions(es, k) then value else Lookup(client, k)
    decreases |es|
  {
    if es != [] {
      var rest := es[1..];
      assert forall e :: e in es <==> e == es[0] || e in rest;
      ApplyAgreeing(ApplyEntry(client, es[0]), rest, k, value);
      assert Mentions(es, k) <==> es[0].key == k || Mentions(rest, k);
    }
  }

  /**
   * Paged sync under any history limit, for any client, key by key: a completed session sets the
   * key to its granted value at the horizon if the page that owes its version still sends it,
   * and leaves it alone otherwise.
   */
  lemma PrunedPagesApplied(
    hs: seq<seq<Row>>, limit: Option<nat>, ns: seq<nat>, base: seq<Row>, s: Session, grant: Grant,
    md: StreamMetadata, client: map<string, Data>, k: string)
    requires Reads(hs, ns, base) && Issued(base, s) && Opening(s) && Deliver(hs, limit, ns, s, grant, md).1
    ensures Lookup(Apply(client, Deliver(hs, limit, ns, s, grant, md).0), k) ==
      if SentByPages(hs, limit, ns, 0, s, base, grant, md, k) then Lookup(View(base[..s.horizonVersion], grant, md), k)
      else Lookup(client, k)
  {
    PagesTell(hs, limit, ns, base, 0, s, grant, md, k);
    ApplyAgreeing(client, Deliver(hs, limit, ns, s, grant, md).0, k,
      Lookup(View(base[..s.horizonVersion], grant, md), k));
    SentAreLater(hs, limit, ns, 0, s, base, grant, md, k);
  }

  /** Only versions inside the window are sent. */
  lemma SentAreLater(
    hs: seq<seq<Row>>, limit: Option<nat>, ns: seq<nat>, i: nat, s: Session, base: seq<Row>, grant: Grant,
    md: StreamMetadata, k: string)
    requires Reads(hs, ns, base) && i <= |hs| && SessionFits(base, s)
    ensures SentByPages(hs, limit, ns, i, s, base, grant, md, k) ==>
      RowVersion(base, s.horizonVersion, k) > s.sinceVersion
  {
    ReadsReadable(hs, ns, base);
    var j := Owing(hs, limit, ns, i, s, RowVersion(base, s.horizonVersion, k), grant, md);
    if j < |hs| && SendsLater(hs[j], base, limit, s, grant, md, k) { SameEnds(hs[j], base, s, grant, md, k); }
  }

  /** A changed key is not sent exactly if the page that owes it misses it. */
  lemma UnsentIffMissed(
    hs: seq<seq<Row>>, limit: Option<nat>, ns: seq<nat>, s: Session, base: seq<Row>, grant: Grant,
    md: StreamMetadata, k: string)
    requires Reads(hs, ns, base) && Readable(hs, ns) && Issued(base, s) && Differs(base, s, grant, md, k)
    ensures !SentByPages(hs, limit, ns, 0, s, base, grant, md, k) <==>
      var j := Owing(hs, limit, ns, 0, s, RowVersion(base, s.horizonVersion, k), grant, md);
      j < |hs| ==> SessionFits(hs[j], s) && Missed(hs[j], limit, s, grant, md, k)
  {
    var j := Owing(hs, limit, ns, 0, s, RowVersion(base, s.horizonVersion, k), grant, md);
    if j < |hs| {
      assert Later(hs[j], base);
      SameEnds(hs[j], base, s, grant, md, k);
      SentUnlessMissed(hs[j], limit, s, grant, md, k);
    }
  }

  /**
   * From the granted view at `since`: after a completed session the client holds the granted
   * value at the horizon, unless the change is not sent, and then it still holds what it had.
   */
  lemma PrunedPagesExact(
    hs: seq<seq<Row>>, limit: Option<nat>, ns: seq<nat>, base: seq<Row>, s: Session, grant: Grant,
    md: StreamMetadata, k: string)
    requires Reads(hs, ns, base) && Issued(base, s) && Opening(s) && Deliver(hs, limit, ns, s, grant, md).1
    ensures Lookup(Apply(View(base[..s.sinceVersion], grant, md), Deliver(hs, limit, ns, s, grant, md).0), k) ==
      if Differs(base, s, grant, md, k) && !SentByPages(hs, limit, ns, 0, s, base, grant, md, k)
      then Lookup(View(base[..s.sinceVersion], grant, md), k)
      else Lookup(View(base[..s.horizonVersion], grant, md), k)
  {
    PrunedPagesApplied(hs, limit, ns, base, s, grant, md, View(base[..s.sinceVersion], grant, md), k);
  }

  /** So paged sync is exact if and only if every change is sent by the page that owes it. */
  lemma PrunedPagesExactIff(
    hs: seq<seq<Row>>, limit: Option<nat>, ns: seq<nat>, base: seq<Row>, s: Session, grant: Grant, md: StreamMetadata)
    requires Reads(hs, ns, base) && Issued(base, s) && Opening(s) && Deliver(hs, limit, ns, s, grant, md).1
    ensures Apply(View(base[..s.sinceVersion], grant, md), Deliver(hs, limit, ns, s, grant, md).0)
      == View(base[..s.horizonVersion], grant, md)
      <==> forall k | Differs(base, s, grant, md, k) :: SentByPages(hs, limit, ns, 0, s, base, grant, md, k)
  {
    var result, target := Apply(View(base[..s.sinceVersion], grant, md), Deliver(hs, limit, ns, s, grant, md).0),
      View(base[..s.horizonVersion], grant, md);
    forall k
      ensures Lookup(result, k) == Lookup(target, k) <==>
        (Differs(base, s, grant, md, k) ==> SentByPages(hs, limit, ns, 0, s, base, grant, md, k))
    {
      PrunedPagesExact(hs, limit, ns, base, s, grant, md, k);
    }
    if forall k | Differs(base, s, grant, md, k) :: SentByPages(hs, limit, ns, 0, s, base, grant, md, k) {
      SameByLookup(result, target);
    }
  }

  /** A changed live key is not sent exactly when its row is gone from what the page that owes it is served from. */
  lemma LiveMissedIff(
    hs: seq<seq<Row>>, limit: Option<nat>, ns: seq<nat>, base: seq<Row>, s: Session, grant: Grant,
    md: StreamMetadata, k: string)
    requires Reads(hs, ns, base) && Readable(hs, ns) && Issued(base, s)
    requires Differs(base, s, grant, md, k) && k in View(base[..s.horizonVersion], grant, md)
    ensures !SentByPages(hs, limit, ns, 0, s, base, grant, md, k) <==>
      var j := Owing(hs, limit, ns, 0, s, RowVersion(base, s.horizonVersion, k), grant, md);
      j < |hs| ==> RowGone(hs[j], limit, s, k)
  {
    UnsentIffMissed(hs, limit, ns, s, base, grant, md, k);
    var j := Owing(hs, limit, ns, 0, s, RowVersion(base, s.horizonVersion, k), grant, md);
    if j < |hs| {
      assert Later(hs[j], base);
      SameEnds(hs[j], base, s, grant, md, k);
    }
  }

  /** As long as no page is read after pruning has passed `since`, every changed live key is sent. */
  lemma LiveArrivesInTime(
    hs: seq<seq<Row>>, limit: Option<nat>, ns: seq<nat>, base: seq<Row>, s: Session, grant: Grant,
    md: StreamMetadata, k: string)
    requires Reads(hs, ns, base) && Issued(base, s) && Opening(s) && Deliver(hs, limit, ns, s, grant, md).1
    requires forall j | 0 <= j < |hs| :: Floor(hs[j], limit) <= s.sinceVersion
    requires k in View(base[..s.horizonVersion], grant, md)
    ensures Lookup(Apply(View(base[..s.sinceVersion], grant, md), Deliver(hs, limit, ns, s, grant, md).0), k)
      == Lookup(View(base[..s.horizonVersion], grant, md), k)
  {
    PrunedPagesExact(hs, limit, ns, base, s, grant, md, k);
    if Differs(base, s, grant, md, k) {
      DiffersLater(base, s, grant, md, k);
      ReadsReadable(hs, ns, base);
      LiveMissedIff(hs, limit, ns, base, s, grant, md, k);
      OwedAmongCollected(Serve(hs, limit, ns, grant, md), |hs|, 0, s, RowVersion(base, s.horizonVersion, k));
      var j := Owing(hs, limit, ns, 0, s, RowVersion(base, s.horizonVersion, k), grant, md);
      assert Later(hs[j], base);
      SameEnds(hs[j], base, s, grant, md, k);
    }
  }

  /** Without a limit every change is sent. */
  lemma EverythingSentUnpruned(
    hs: seq<seq<Row>>, ns: seq<nat>, base: seq<Row>, s: Session, grant: Grant, md: StreamMetadata, k: string)
    requires Reads(hs, ns, base) && Issued(base, s) && Differs(base, s, grant, md, k)
      && Deliver(hs, None, ns, s, grant, md).1
    ensures SentByPages(hs, None, ns, 0, s, base, grant, md, k)
  {
    ReadsReadable(hs, ns, base);
    DiffersLater(base, s, grant, md, k);
    OwedAmongCollected(Serve(hs, None, ns, grant, md), |hs|, 0, s, RowVersion(base, s.horizonVersion, k));
    UnsentIffMissed(hs, None, ns, s, base, grant, md, k);
    var j := Owing(hs, None, ns, 0, s, RowVersion(base, s.horizonVersion, k), grant, md);
    assert Later(hs[j], base);
    SameEnds(hs[j], base, s, grant, md, k);
    OnlyTombstonesMissed(hs[j], None, s, grant, md, k);
    if k in LatestWithin(hs[j], 0, s.sinceVersion) { LatestWithinVersions(hs[j], 0, s.sinceVersion, k); }
  }

  // ---------- Sessions one after the other ----------

  /** The round sends the key. */
  ghost predicate RoundSends(
    r: Round, limit: Option<nat>, since: Option<nat>, grant: Grant, md: StreamMetadata, k: string)
    requires Reads(r.pages, r.limits, r.base) && SessionFits(r.base, Open(since, |r.base|))
  {
    SentByPages(r.pages, limit, r.limits, 0, Open(since, |r.base|), r.base, grant, md, k)
  }

  /** What a client that follows these rounds holds under a key: each round that sends it sets it. */
  ghost function KeyFollowed(
    rounds: seq<Round>, limit: Option<nat>, since: Option<nat>, start: seq<Row>, grant: Grant, md: StreamMetadata,
    k: string, value: Option<Data>): Option<Data>
    requires Completed(rounds, limit, since, start, grant, md)
    decreases |rounds|
  {
    if rounds == [] then value
    else
      var r := rounds[0];
      KeyFollowed(rounds[1..], limit, Some(|r.base|), r.base, grant, md, k,
        if RoundSends(r, limit, since, grant, md, k) then Lookup(View(r.base, grant, md), k) else value)
  }

  /**
   * Under any history limit a client that keeps following changes_since, from whatever it held,
   * holds under every key the granted value at the last session that sent it, or what it held at
   * first: a change that is missed stays missed until the key is sent again.
   */
  lemma {:induction false} FollowedExact(
    client: map<string, Data>, rounds: seq<Round>, limit: Option<nat>, since: Option<nat>, start: seq<Row>,
    grant: Grant, md: StreamMetadata, k: string)
    requires Completed(rounds, limit, since, start, grant, md)
    ensures Lookup(Replicated(client, rounds, limit, since, start, grant, md), k) ==
      KeyFollowed(rounds, limit, since, start, grant, md, k, Lookup(client, k))
    decreases |rounds|
  {
    if rounds != [] {
      var r := rounds[0];
      var s := Open(since, |r.base|);
      PrunedPagesApplied(r.pages, limit, r.limits, r.base, s, grant, md, client, k);
      assert r.base[..|r.base|] == r.base;
      var client' := Apply(client, Deliver(r.pages, limit, r.limits, s, grant, md).0);
      FollowedExact(client', rounds[1..], limit, Some(|r.base|), r.base, grant, md, k);
    }
  }
}

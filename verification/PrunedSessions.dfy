/**
 * What survives when the change log is pruned to a fixed limit: which changes_since cursors are
 * refused, what one page of an accepted session still delivers however much has been pruned
 * since it was opened, and what a client holds after all its pages.
 */
module PrunedSessions {
  import opened Wrappers
  import opened RecordModel
  import opened RecordHistory
  import opened ChangeSessions
  import opened Replication

  /** Pruning with a fixed limit keeps exactly the last min(counter, limit) versions. */
  lemma RetainedVersions(h: seq<Row>, limit: Option<nat>)
    requires Numbered(h)
    ensures |Retained(h, limit)| == (if limit.Some? then Min(limit.value, |h|) else |h|)
    ensures forall i | 0 <= i < |Retained(h, limit)| ::
      Retained(h, limit)[i].version == |h| - |Retained(h, limit)| + i + 1
  {
  }

  /** The store's refusal test: the cursor lies below the oldest retained version less one. */
  predicate Expired(log: seq<Row>, since: nat) {
    log != [] && since < log[0].version - 1
  }

  /** A changes_since cursor is refused exactly when some change after it has been pruned. */
  lemma ExpiryExact(h: seq<Row>, limit: Option<nat>, since: nat)
    requires Numbered(h) && (limit.Some? ==> limit.value > 0)
    ensures Expired(Retained(h, limit), since) <==>
      exists i :: since <= i < |h| && h[i] !in Retained(h, limit)
  {
    var log := Retained(h, limit);
    assert forall i | 0 <= i < |log| :: log[i].version > Floor(h, limit);
    forall i | 0 <= i < |h| ensures h[i] in log <==> i >= Floor(h, limit) {
      if i >= Floor(h, limit) {
        assert log[i - Floor(h, limit)] == h[i];
      }
    }
    if Expired(log, since) {
      assert h[since] !in log;
    }
  }

  /** The row a key had at `since` is in the history but the log no longer holds it. */
  ghost predicate BeforeLost(h: seq<Row>, limit: Option<nat>, since: nat, k: string)
    requires since <= |h|
  {
    k in LatestWithin(h, 0, since) && LatestWithin(h, 0, since)[k].version <= Floor(h, limit)
  }

  lemma BeforeRetained(h: seq<Row>, limit: Option<nat>, since: nat, k: string)
    requires Numbered(h) && since <= |h|
    ensures Lookup(LatestWithin(h, Floor(h, limit), since), k) ==
      if BeforeLost(h, limit, since, k) then None else Lookup(LatestWithin(h, 0, since), k)
  {
    var f := Floor(h, limit);
    if k in LatestWithin(h, 0, since) { LatestWithinVersions(h, 0, since, k); }
    if f <= since {
      LatestWithinSplit(h, 0, f, since);
      if k in LatestWithin(h, f, since) { LatestWithinVersions(h, f, since, k); }
      if k in LatestWithin(h, 0, f) { LatestWithinVersions(h, 0, f, k); }
    }
  }

  // ---------- One page ----------

  /** A session the store issued, at any of its pages. */
  ghost predicate Issued(h: seq<Row>, s: Session) {
    SessionFits(h, s) && (s.mode == Bootstrap ==> s.sinceVersion == 0)
  }

  /** The key's granted data differ between the two ends of the session. */
  ghost predicate Differs(h: seq<Row>, s: Session, grant: Grant, md: StreamMetadata, k: string)
    requires SessionFits(h, s)
  {
    Lookup(View(h[..s.sinceVersion], grant, md), k) != Lookup(View(h[..s.horizonVersion], grant, md), k)
  }

  /** The version of the key's row at the horizon, 0 if it has none. */
  ghost function RowVersion(h: seq<Row>, horizon: nat, k: string): nat {
    if k in LatestWithin(h, 0, horizon) then LatestWithin(h, 0, horizon)[k].version else 0
  }

  /** The key's row at the horizon is gone: pruned from the log and, for a bootstrap, no longer current. */
  ghost predicate RowGone(h: seq<Row>, limit: Option<nat>, s: Session, k: string) {
    && RowVersion(h, s.horizonVersion, k) <= Floor(h, limit)
    && (s.mode == Bootstrap && k in LatestWithin(h, 0, s.horizonVersion) ==>
          Lookup(Latest(h), k) != Some(LatestWithin(h, 0, s.horizonVersion)[k]))
  }

  /** A key whose old row was pruned and which has since left the reader's view: its tombstone is not sent. */
  ghost predicate TombstoneLost(
    h: seq<Row>, limit: Option<nat>, s: Session, grant: Grant, md: StreamMetadata, k: string)
    requires SessionFits(h, s)
  {
    && BeforeLost(h, limit, s.sinceVersion, k)
    && k in View(h[..s.sinceVersion], grant, md)
    && k !in View(h[..s.horizonVersion], grant, md)
  }

  /** What the log still says the reader had under the key. */
  ghost function SeenBefore(
    h: seq<Row>, limit: Option<nat>, s: Session, grant: Grant, md: StreamMetadata, k: string): Option<Data>
    requires SessionFits(h, s)
  {
    if BeforeLost(h, limit, s.sinceVersion, k) then None else Lookup(View(h[..s.sinceVersion], grant, md), k)
  }

  /** Whether a page served from this history still has an entry for the key, when its version comes up. */
  ghost predicate Sends(h: seq<Row>, limit: Option<nat>, s: Session, grant: Grant, md: StreamMetadata, k: string)
    requires SessionFits(h, s)
  {
    && RowVersion(h, s.horizonVersion, k) > s.sinceVersion
    && !RowGone(h, limit, s, k)
    && SeenBefore(h, limit, s, grant, md, k) != Lookup(View(h[..s.horizonVersion], grant, md), k)
  }

  /** A change that a page served from this history can no longer send. */
  ghost predicate Missed(h: seq<Row>, limit: Option<nat>, s: Session, grant: Grant, md: StreamMetadata, k: string)
    requires SessionFits(h, s)
  {
    Differs(h, s, grant, md, k) && (RowGone(h, limit, s, k) || TombstoneLost(h, limit, s, grant, md, k))
  }

  /** The row a page of changes would send for a key, whatever has been pruned. */
  lemma CandidateInWindow(h: seq<Row>, limit: Option<nat>, s: Session, k: string)
    requires SessionFits(h, s) && s.mode == Changes
    ensures var row := Lookup(LatestWithin(h, 0, s.horizonVersion), k);
      Lookup(Candidates(h, limit, s), k) ==
        if row.Some? && row.value.version > Max(Floor(h, limit), s.sinceVersion) then row else None
  {
    var lo, hor := Max(Floor(h, limit), s.sinceVersion), s.horizonVersion;
    if k in LatestWithin(h, 0, hor) { LatestWithinVersions(h, 0, hor, k); }
    if lo <= hor {
      LatestWithinSplit(h, 0, lo, hor);
      if k in LatestWithin(h, lo, hor) { LatestWithinVersions(h, lo, hor, k); }
      if k in LatestWithin(h, 0, lo) { LatestWithinVersions(h, 0, lo, k); }
    }
  }

  /** A key whose data differ between the two ends has a row in between. */
  lemma DiffersLater(h: seq<Row>, s: Session, grant: Grant, md: StreamMetadata, k: string)
    requires SessionFits(h, s) && Differs(h, s, grant, md, k)
    ensures k in LatestWithin(h, 0, s.horizonVersion) && RowVersion(h, s.horizonVersion, k) > s.sinceVersion
  {
    ViewAt(h, s.sinceVersion, grant, md, k);
    ViewAt(h, s.horizonVersion, grant, md, k);
    LatestWithinSplit(h, 0, s.sinceVersion, s.horizonVersion);
    if k in LatestWithin(h, s.sinceVersion, s.horizonVersion) {
      LatestWithinVersions(h, s.sinceVersion, s.horizonVersion, k);
    }
  }

  /**
   * Any page of changes, the first or a later one, whatever has been pruned: a changed key with
   * a version still to come is owed exactly unless its row or its tombstone is gone, so one
   * that is live at the horizon is owed exactly while its row is logged; and whatever is sent
   * carries the value at the horizon.
   */
  lemma PrunedAnswer(h: seq<Row>, limit: Option<nat>, s: Session, grant: Grant, md: StreamMetadata, k: string)
    requires SessionFits(h, s) && s.mode == Changes
    ensures var v := RowVersion(h, s.horizonVersion, k);
      && (Differs(h, s, grant, md, k) ==>
        (k in Answer(h, limit, s, grant, md) <==> v > s.afterVersion && !Missed(h, limit, s, grant, md, k)))
      && (Differs(h, s, grant, md, k) && k in View(h[..s.horizonVersion], grant, md) ==>
            (k in Answer(h, limit, s, grant, md) <==> v > Max(Floor(h, limit), s.afterVersion)))
      && (k in Answer(h, limit, s, grant, md) ==>
            && Answer(h, limit, s, grant, md)[k].version == v
            && Effect(Answer(h, limit, s, grant, md)[k]) == Lookup(View(h[..s.horizonVersion], grant, md), k))
  {
    ChangesOwe(h, limit, s, grant, md, k);
    if Differs(h, s, grant, md, k) {
      DiffersLater(h, s, grant, md, k);
      SentUnlessMissed(h, limit, s, grant, md, k);
    }
  }

  lemma ChangesOwe(h: seq<Row>, limit: Option<nat>, s: Session, grant: Grant, md: StreamMetadata, k: string)
    requires SessionFits(h, s) && s.mode == Changes
    ensures k in Answer(h, limit, s, grant, md) <==>
      Sends(h, limit, s, grant, md, k) && RowVersion(h, s.horizonVersion, k) > s.afterVersion
    ensures k in Answer(h, limit, s, grant, md) ==>
      && Answer(h, limit, s, grant, md)[k].version == RowVersion(h, s.horizonVersion, k)
      && Effect(Answer(h, limit, s, grant, md)[k]) == Lookup(View(h[..s.horizonVersion], grant, md), k)
  {
    ViewAt(h, s.sinceVersion, grant, md, k);
    ViewAt(h, s.horizonVersion, grant, md, k);
    BeforeRetained(h, limit, s.sinceVersion, k);
    CandidateInWindow(h, limit, s, k);
    if k in Candidates(h, limit, s) {
      DeltaMeaning(Lookup(Before(h, limit, s), k), Candidates(h, limit, s)[k], grant, md);
    }
  }

  /**
   * Any page of a bootstrap, whatever has been pruned: exactly the granted live records at the
   * horizon that are still to come and whose row then is still logged or still the current one.
   */
  lemma PrunedBootstrap(h: seq<Row>, limit: Option<nat>, s: Session, grant: Grant, md: StreamMetadata, k: string)
    requires SessionFits(h, s) && s.mode == Bootstrap && s.sinceVersion == 0
    ensures k in Answer(h, limit, s, grant, md) <==>
      k in View(h[..s.horizonVersion], grant, md) && RowVersion(h, s.horizonVersion, k) > s.afterVersion
        && !RowGone(h, limit, s, k)
    ensures k in Answer(h, limit, s, grant, md) ==>
      && Answer(h, limit, s, grant, md)[k].version == RowVersion(h, s.horizonVersion, k)
      && Effect(Answer(h, limit, s, grant, md)[k]) == Lookup(View(h[..s.horizonVersion], grant, md), k)
  {
    ViewAt(h, s.horizonVersion, grant, md, k);
    BootstrapCandidate(h, limit, s, k);
    if k in Candidates(h, limit, s) {
      CandidateRow(h, limit, s, k);
      DeltaMeaning(None, Candidates(h, limit, s)[k], grant, md);
      assert Lookup(Before(h, limit, s), k) == None;
    }
  }

  lemma BootstrapCandidate(h: seq<Row>, limit: Option<nat>, s: Session, k: string)
    requires SessionFits(h, s) && s.mode == Bootstrap
    ensures var row := Lookup(LatestWithin(h, 0, s.horizonVersion), k);
      Lookup(Candidates(h, limit, s), k) == if row.Some? && !row.value.deleted && !RowGone(h, limit, s, k) then row
        else None
  {
    var f, hor := Floor(h, limit), s.horizonVersion;
    CurrentBeforeHorizon(h, hor, k);
    if k in LatestWithin(h, 0, hor) { LatestWithinVersions(h, 0, hor, k); }
    BeforeRetained(h, limit, hor, k);
    if f > hor { assert LatestWithin(h, f, hor) == map[]; }
  }

  /** Both kinds of session: a page owes a key exactly if it sends it and its version is still to come. */
  lemma PageOwes(h: seq<Row>, limit: Option<nat>, s: Session, grant: Grant, md: StreamMetadata, k: string)
    requires Issued(h, s)
    ensures k in Answer(h, limit, s, grant, md) <==>
      Sends(h, limit, s, grant, md, k) && RowVersion(h, s.horizonVersion, k) > s.afterVersion
    ensures k in Answer(h, limit, s, grant, md) ==>
      && Answer(h, limit, s, grant, md)[k].version == RowVersion(h, s.horizonVersion, k)
      && Effect(Answer(h, limit, s, grant, md)[k]) == Lookup(View(h[..s.horizonVersion], grant, md), k)
  {
    if s.mode == Changes {
      ChangesOwe(h, limit, s, grant, md, k);
    } else {
      PrunedBootstrap(h, limit, s, grant, md, k);
      ViewAt(h, s.horizonVersion, grant, md, k);
      assert h[..0] == [];
      if k in LatestWithin(h, 0, s.horizonVersion) { LatestWithinVersions(h, 0, s.horizonVersion, k); }
    }
  }

  /** A change is sent exactly unless it is missed. */
  lemma SentUnlessMissed(h: seq<Row>, limit: Option<nat>, s: Session, grant: Grant, md: StreamMetadata, k: string)
    requires SessionFits(h, s) && Differs(h, s, grant, md, k)
    ensures Sends(h, limit, s, grant, md, k) <==> !Missed(h, limit, s, grant, md, k)
  {
    DiffersLater(h, s, grant, md, k);
  }

  /** A client that applies one whole answer holds the view at the horizon, but for the missed keys. */
  lemma PrunedSyncExact(h: seq<Row>, limit: Option<nat>, s: Session, grant: Grant, md: StreamMetadata, k: string)
    requires Issued(h, s) && Opening(s)
    ensures Lookup(Apply(View(h[..s.sinceVersion], grant, md), Listing(h, limit, s, grant, md)), k) ==
      if Missed(h, limit, s, grant, md, k)
      then Lookup(View(h[..s.sinceVersion], grant, md), k)
      else Lookup(View(h[..s.horizonVersion], grant, md), k)
  {
    ApplyListing(View(h[..s.sinceVersion], grant, md), h, limit, s, grant, md, k);
    PageOwes(h, limit, s, grant, md, k);
    if Differs(h, s, grant, md, k) { SentUnlessMissed(h, limit, s, grant, md, k); }
  }

  /** Delta sync under pruning, in one answer, is exact if and only if nothing is missed. */
  lemma PrunedSyncExactIff(h: seq<Row>, limit: Option<nat>, s: Session, grant: Grant, md: StreamMetadata)
    requires Issued(h, s) && Opening(s)
    ensures Apply(View(h[..s.sinceVersion], grant, md), Listing(h, limit, s, grant, md))
      == View(h[..s.horizonVersion], grant, md)
      <==> forall k :: !Missed(h, limit, s, grant, md, k)
  {
    var result, target := Apply(View(h[..s.sinceVersion], grant, md), Listing(h, limit, s, grant, md)),
      View(h[..s.horizonVersion], grant, md);
    forall k ensures Lookup(result, k) == Lookup(target, k) <==> !Missed(h, limit, s, grant, md, k) {
      PrunedSyncExact(h, limit, s, grant, md, k);
    }
    if forall k :: !Missed(h, limit, s, grant, md, k) {
      SameByLookup(result, target);
    }
  }

  /** While the whole window is still logged, an answer misses nothing but tombstones whose earlier row was pruned. */
  lemma OnlyTombstonesMissed(h: seq<Row>, limit: Option<nat>, s: Session, grant: Grant, md: StreamMetadata, k: string)
    requires Issued(h, s) && Floor(h, limit) <= s.sinceVersion
    ensures Missed(h, limit, s, grant, md, k) <==> TombstoneLost(h, limit, s, grant, md, k)
  {
    if Differs(h, s, grant, md, k) { DiffersLater(h, s, grant, md, k); }
  }

  /** With nothing written since the session opened, a bootstrap is exact under any pruning. */
  lemma FreshBootstrapExact(h: seq<Row>, limit: Option<nat>, grant: Grant, md: StreamMetadata)
    requires Numbered(h)
    ensures Apply(map[], Listing(h, limit, Session(Bootstrap, 0, 0, |h|), grant, md)) == View(h, grant, md)
  {
    var s := Session(Bootstrap, 0, 0, |h|);
    assert h[..0] == [] && h[..|h|] == h && h[0..|h|] == h;
    forall k ensures !Missed(h, limit, s, grant, md, k) {}
    PrunedSyncExactIff(h, limit, s, grant, md);
  }

  /**
   * The tombstone loss is real: one record, granted and then deleted, with room for one change
   * in the log. The cursor at version 1 is accepted, and the deletion is never sent.
   */
  lemma TombstoneLostExample(data: Data, md: StreamMetadata)
    ensures var h := [Row("a", 1, data, "t", false, None), Row("a", 2, data, "t", true, Some("t"))];
      var s := Session(Changes, 1, 1, 2);
      var everything := Grant(None, None, None);
      && IsHistory(h)
      && SessionFits(h, s)
      && !Expired(Retained(h, Some(1)), 1)
      && TombstoneLost(h, Some(1), s, everything, md, "a")
      && "a" !in Answer(h, Some(1), s, everything, md)
      && "a" in Answer(h, None, s, everything, md)
  {
    var first, second := Row("a", 1, data, "t", false, None), Row("a", 2, data, "t", true, Some("t"));
    var h := [first, second];
    var s := Session(Changes, 1, 1, 2);
    var everything := Grant(None, None, None);
    assert h[..0] == [] && h[..1] == [first] && h[0..1] == [first] && h[..2] == h;
    TwoRowsFold(first, second);
    assert IsHistory(h);
    PrunedAnswer(h, Some(1), s, everything, md, "a");
    AnswerExact(h, s, everything, md, "a");
  }

  lemma TwoRowsFold(first: Row, second: Row)
    requires first.key == second.key
    ensures Latest([first]) == map[first.key := first]
    ensures Latest([first, second]) == map[first.key := second]
  {
    assert [first][..0] == [] && [first, second][..1] == [first];
  }

  /**
   * So is the loss in a bootstrap: two records, one shown, the other written again before the
   * next page is read. Its row at the horizon is then neither logged nor current.
   */
  lemma BootstrapLostExample(data: Data, md: StreamMetadata)
    ensures var h := [Row("a", 1, data, "t", false, None), Row("b", 2, data, "t", false, None),
      Row("b", 3, data, "t", true, Some("t"))];
      var s := Session(Bootstrap, 0, 1, 2);
      var everything := Grant(None, None, None);
      && IsHistory(h)
      && Issued(h, s)
      && "b" in View(h[..2], everything, md)
      && "b" !in Answer(h, Some(1), s, everything, md)
      && "b" in Answer(h[..2], Some(1), s, everything, md)
  {
    var a, b, b' := Row("a", 1, data, "t", false, None), Row("b", 2, data, "t", false, None),
      Row("b", 3, data, "t", true, Some("t"));
    var h := [a, b, b'];
    var s := Session(Bootstrap, 0, 1, 2);
    var everything := Grant(None, None, None);
    ThreeRows(data);
    assert h[..2] == [a, b] && h[0..2] == [a, b] && [a, b][0..2] == [a, b] && [a, b][..2] == [a, b];
    HistoryNumbered(h);
    assert "b" in View([a, b], everything, md);
    BootstrapPage(h, [a, b], s, everything, md);
  }

  lemma ThreeRows(data: Data)
    ensures var (a, b, b') := (Row("a", 1, data, "t", false, None), Row("b", 2, data, "t", false, None),
      Row("b", 3, data, "t", true, Some("t")));
      && IsHistory([a, b, b'])
      && Latest([a, b]) == map["a" := a, "b" := b]
      && Latest([a, b, b']) == map["a" := a, "b" := b']
  {
    var (a, b, b') := (Row("a", 1, data, "t", false, None), Row("b", 2, data, "t", false, None),
      Row("b", 3, data, "t", true, Some("t")));
    var h := [a, b, b'];
    assert h[..0] == [] && h[..1] == [a] && h[..2] == [a, b] && [a, b][..1] == [a] && [a][..0] == [];
    assert Latest([a]) == map["a" := a];
    assert Latest([a, b]) == map["a" := a, "b" := b];
    forall i | 0 <= i < |h| ensures Effective(h, i) {}
  }

  lemma BootstrapPage(h: seq<Row>, early: seq<Row>, s: Session, grant: Grant, md: StreamMetadata)
    requires Numbered(h) && |h| == 3 && early == h[..2] && s == Session(Bootstrap, 0, 1, 2)
    requires "b" in Latest(early) && Latest(early)["b"].version == 2
      && Lookup(Latest(h), "b") != Some(Latest(early)["b"])
    requires "b" in View(early, grant, md)
    ensures "b" !in Answer(h, Some(1), s, grant, md)
    ensures "b" in Answer(early, Some(1), s, grant, md)
  {
    assert h[0..2] == early && early[0..2] == early && early[..2] == early;
    PrunedBootstrap(h, Some(1), s, grant, md, "b");
    PrunedBootstrap(early, Some(1), s, grant, md, "b");
  }
}

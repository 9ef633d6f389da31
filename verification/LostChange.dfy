/** A change lost between two pages: what a history limit can cost a reader that does everything right. */
module LostChange {
  import opened Wrappers
  import opened Orders
  import opened RecordModel
  import opened RecordHistory
  import opened ChangeSessions
  import opened RecordsRepository
  import opened ChangesClient

  function Written(key: string, version: nat, data: Data): Row {
    Row(key, version, data, "t", false, None)
  }

  function Shown(key: string, version: nat, data: Data, md: StreamMetadata): Entry {
    Live(key, Restrict(data, md.fields), "t", version)
  }

  /** The four rows of the example below, written under four keys. */
  lemma FourWrites(data: Data)
    ensures var (a, b, c, d) := (Written("a", 1, data), Written("b", 2, data), Written("c", 3, data),
      Written("d", 4, data));
      && IsHistory([a, b, c, d])
      && Latest([a, b]) == map["a" := a, "b" := b]
      && Latest([c, d]) == map["c" := c, "d" := d]
  {
    var (a, b, c, d) := (Written("a", 1, data), Written("b", 2, data), Written("c", 3, data), Written("d", 4, data));
    var h := [a, b, c, d];
    assert h[..0] == [] && h[..1] == [a] && h[..2] == [a, b] && h[..3] == [a, b, c];
    assert [a, b][..1] == [a] && [a][..0] == [] && [a, b, c][..2] == [a, b] && [c, d][..1] == [c] && [c][..0] == [];
    assert Latest([a]) == map["a" := a];
    assert Latest([a, b]) == map["a" := a, "b" := b];
    assert Latest([a, b, c]) == map["a" := a, "b" := b, "c" := c];
    assert Latest([c]) == map["c" := c];
    forall i | 0 <= i < |h| ensures Effective(h, i) {}
  }

  const everything: Grant := Grant(None, None, None)

  /** Page 1 of the example: of two entries, one is sent. */
  lemma FirstPageOfTwo(data: Data, md: StreamMetadata)
    ensures var h := [Written("a", 1, data), Written("b", 2, data)];
      && Numbered(h)
      && PageOf(h, Some(2), Session(Changes, 0, 0, 2), 1, everything, md)
        == Page([Shown("a", 1, data, md)], NextCursor(Session(Changes, 0, 1, 2)))
  {
    var h, s := [Written("a", 1, data), Written("b", 2, data)], Session(Changes, 0, 0, 2);
    var es := [Shown("a", 1, data, md), Shown("b", 2, data, md)];
    BothOwed(data, md);
    ListingLists(h, Some(2), s, everything, md);
    ListingUnique(Listing(h, Some(2), s, everything, md), es, Entries(Answer(h, Some(2), s, everything, md)),
      ByVersion);
    assert es[..1] == [es[0]];
  }

  lemma TwoListed(a: Entry, b: Entry, es: set<Entry>)
    requires es == {a, b} && a.version < b.version
    ensures Lists([a, b], es, ByVersion)
  {
  }

  lemma BothOwed(data: Data, md: StreamMetadata)
    ensures var h := [Written("a", 1, data), Written("b", 2, data)];
      Lists([Shown("a", 1, data, md), Shown("b", 2, data, md)],
        Entries(Answer(h, Some(2), Session(Changes, 0, 0, 2), everything, md)), ByVersion)
  {
    var h, s := [Written("a", 1, data), Written("b", 2, data)], Session(Changes, 0, 0, 2);
    FourWrites(data);
    assert h[0..2] == h && h[0..0] == [];
    assert LatestWithin(h, 0, 0) == map[] && LatestWithin(h, 0, 2) == Latest(h);
    var m := Answer(h, Some(2), s, everything, md);
    var a, b := Shown("a", 1, data, md), Shown("b", 2, data, md);
    assert DeltaOf(h, Some(2), s, everything, md, "a") == Some(a);
    assert DeltaOf(h, Some(2), s, everything, md, "b") == Some(b);
    assert "a" in m && "b" in m && m["a"] == a && m["b"] == b;
    assert forall k | k in m :: k == "a" || k == "b";
    assert Entries(m) == {a, b};
    TwoListed(a, b, Entries(m));
  }

  /** Page 2, read after two more writes: its rows are pruned and it is empty. */
  lemma SecondPageEmpty(h: seq<Row>, md: StreamMetadata)
    requires Numbered(h) && |h| == 4
    ensures PageOf(h, Some(2), Session(Changes, 0, 1, 2), 1, everything, md) == Page([], NextChangesSince(2))
  {
    var s := Session(Changes, 0, 1, 2);
    assert h[2..2] == [] && Candidates(h, Some(2), s) == map[];
    ListingLists(h, Some(2), s, everything, md);
    FirstIsMember(Listing(h, Some(2), s, everything, md));
  }

  /** The cursors the store hands out here are accepted. */
  lemma CursorsAccepted(h: seq<Row>, at: Location)
    requires |h| == 4
    ensures RequestedSession(h[..2], Some(2), at, Asking(at, Some(0))) == Success(Session(Changes, 0, 0, 2))
    ensures RequestedSession(h, Some(2), at, Resume(ChangesCursor(at, Session(Changes, 0, 1, 2))))
      == Success(Session(Changes, 0, 1, 2))
    ensures RequestedSession(h, Some(2), at, Asking(at, Some(2))) == Success(Session(Changes, 2, 2, 4))
  {
    NothingPruned(h[..2], Some(2), 0);
    NothingPruned(h, Some(2), 2);
  }

  /**
   * A live, changed record can be lost without a refusal. A history of two records with room
   * for two changes; a reader opens at version 0 and reads one of them; two more are written.
   * The page cursor is still accepted, the next page is empty and ends the session at version
   * 2, and the cursor for version 2 is accepted in its turn and never sends the second record.
   */
  lemma LostBetweenPages(at: Location, data: Data, md: StreamMetadata)
    ensures var h := [Written("a", 1, data), Written("b", 2, data), Written("c", 3, data), Written("d", 4, data)];
      && IsHistory(h) && Numbered(h) && Numbered(h[..2])
      && RequestedSession(h[..2], Some(2), at, Asking(at, Some(0))) == Success(Session(Changes, 0, 0, 2))
      && PageOf(h[..2], Some(2), Session(Changes, 0, 0, 2), 1, everything, md)
        == Page([Shown("a", 1, data, md)], NextCursor(Session(Changes, 0, 1, 2)))
      && RequestedSession(h, Some(2), at, Resume(ChangesCursor(at, Session(Changes, 0, 1, 2))))
        == Success(Session(Changes, 0, 1, 2))
      && PageOf(h, Some(2), Session(Changes, 0, 1, 2), 1, everything, md) == Page([], NextChangesSince(2))
      && RequestedSession(h, Some(2), at, Asking(at, Some(2))) == Success(Session(Changes, 2, 2, 4))
      && "b" in View(h, everything, md)
      && "b" !in Answer(h, Some(2), Session(Changes, 2, 2, 4), everything, md)
  {
    var (a, b, c, d) := (Written("a", 1, data), Written("b", 2, data), Written("c", 3, data), Written("d", 4, data));
    var h := [a, b, c, d];
    FourWrites(data);
    HistoryNumbered(h);
    assert h[..2] == [a, b];
    FirstPageOfTwo(data, md);
    SecondPageEmpty(h, md);
    CursorsAccepted(h, at);
    LastOfB(data, md);
  }

  lemma LastOfB(data: Data, md: StreamMetadata)
    ensures var h := [Written("a", 1, data), Written("b", 2, data), Written("c", 3, data), Written("d", 4, data)];
      "b" in View(h, everything, md) && "b" !in Answer(h, Some(2), Session(Changes, 2, 2, 4), everything, md)
  {
    var (a, b, c, d) := (Written("a", 1, data), Written("b", 2, data), Written("c", 3, data), Written("d", 4, data));
    var h := [a, b, c, d];
    FourWrites(data);
    LatestConcat([a, b], [c, d]);
    assert h == [a, b] + [c, d] && h[2..4] == [c, d];
    assert Latest(h)["b"] == b;
    assert "b" !in Candidates(h, Some(2), Session(Changes, 2, 2, 4));
  }

  lemma NothingPruned(h: seq<Row>, limit: Option<nat>, since: nat)
    requires Floor(h, limit) <= since
    ensures forall i | since <= i < |h| :: h[i] in Retained(h, limit)
  {
    forall i | since <= i < |h| ensures h[i] in Retained(h, limit) {
      assert Retained(h, limit)[i - Floor(h, limit)] == h[i];
    }
  }
}

/** The queries the store puts to its change log, each by its meaning on a table kept in version order. */
module Tables {
  import opened Wrappers
  import opened RecordModel
  import opened RecordHistory

  /** The rows with a version above lo and up to hi, in version order. */
  function Between(rows: seq<Row>, lo: int, hi: int): seq<Row> {
    if rows == [] then []
    else
      var n := |rows| - 1;
      Between(rows[..n], lo, hi) + if lo < rows[n].version <= hi then [rows[n]] else []
  }

  /** What deleting all versions up to v leaves. */
  function Above(rows: seq<Row>, v: int): seq<Row> {
    if rows == [] then []
    else
      var n := |rows| - 1;
      Above(rows[..n], v) + if v < rows[n].version then [rows[n]] else []
  }

  /** The highest version. */
  function MaxVersion(rows: seq<Row>): nat
    requires rows != []
  {
    var n := |rows| - 1;
    if n == 0 then rows[0].version else Max(MaxVersion(rows[..n]), rows[n].version)
  }

  /** The lowest version, if there is any row. */
  function MinVersion(rows: seq<Row>): Option<nat> {
    if rows == [] then None
    else
      var n := |rows| - 1;
      match MinVersion(rows[..n])
      case None => Some(rows[n].version)
      case Some(v) => Some(if v < rows[n].version then v else rows[n].version)
  }

  /** The newest row of a key at or below a version. */
  function SnapshotAt(rows: seq<Row>, k: string, v: int): Option<Row> {
    if rows == [] then None
    else
      var n := |rows| - 1;
      if rows[n].key == k && rows[n].version <= v then Some(rows[n]) else SnapshotAt(rows[..n], k, v)
  }

  // ---------- On the retained part of a history ----------

  lemma {:induction false} BetweenSlice(h: seq<Row>, floor: nat, n: nat, lo: nat, hi: nat)
    requires Numbered(h) && floor <= n <= |h|
    ensures var (start, end) := (Max(floor, lo), Min(hi, n));
      Between(h[floor..n], lo, hi) == if start <= end then h[start..end] else []
    decreases n
  {
    if floor < n {
      BetweenSlice(h, floor, n - 1, lo, hi);
      var rows := h[floor..n];
      assert rows[..|rows| - 1] == h[floor..n - 1];
      assert Between(rows, lo, hi) == Between(h[floor..n - 1], lo, hi) + if lo < n <= hi then [h[n - 1]] else [];
      SliceSnoc(h, Max(floor, lo), n);
    }
  }

  lemma SliceSnoc(h: seq<Row>, start: nat, n: nat)
    requires 0 < n <= |h|
    ensures start < n ==> h[start..n] == h[start..n - 1] + [h[n - 1]]
  {
  }

  lemma BetweenLatest(h: seq<Row>, floor: nat, lo: nat, hi: nat)
    requires Numbered(h) && floor <= |h|
    ensures Latest(Between(h[floor..], lo, hi)) == LatestWithin(h, Max(floor, lo), hi)
  {
    BetweenSlice(h, floor, |h|, lo, hi);
    assert h[floor..] == h[floor..|h|];
  }

  lemma {:induction false} AboveSlice(h: seq<Row>, floor: nat, n: nat, v: int)
    requires Numbered(h) && floor <= n <= |h| && v <= n
    ensures Above(h[floor..n], v) == h[(if v <= floor then floor else v)..n]
    decreases n
  {
    if floor < n {
      assert h[floor..n][..n - 1 - floor] == h[floor..n - 1];
      if v <= n - 1 {
        AboveSlice(h, floor, n - 1, v);
      } else {
        AboveNothing(h, floor, n, v);
      }
    }
  }

  lemma {:induction false} AboveNothing(h: seq<Row>, floor: nat, n: nat, v: int)
    requires Numbered(h) && floor <= n <= |h| && n <= v
    ensures Above(h[floor..n], v) == []
    decreases n
  {
    if floor < n {
      assert h[floor..n][..n - 1 - floor] == h[floor..n - 1];
      AboveNothing(h, floor, n - 1, v);
    }
  }

  lemma {:induction false} ExtremeVersions(h: seq<Row>, floor: nat, n: nat)
    requires Numbered(h) && floor < n <= |h|
    ensures MaxVersion(h[floor..n]) == n
    ensures MinVersion(h[floor..n]) == Some(floor + 1)
    decreases n
  {
    assert h[floor..n][..n - 1 - floor] == h[floor..n - 1];
    if floor < n - 1 { ExtremeVersions(h, floor, n - 1); }
  }

  /** The newest retained row of a key at or below a version. */
  lemma {:induction false} SnapshotSlice(h: seq<Row>, floor: nat, n: nat, k: string, v: nat)
    requires Numbered(h) && floor <= n <= |h|
    ensures SnapshotAt(h[floor..n], k, v) ==
      if floor <= Min(v, n) then Lookup(Latest(h[floor..Min(v, n)]), k) else None
    decreases n
  {
    if floor < n {
      var rows := h[floor..n];
      assert rows[..|rows| - 1] == h[floor..n - 1];
      SnapshotSlice(h, floor, n - 1, k, v);
    }
  }

  lemma SnapshotLatest(h: seq<Row>, floor: nat, k: string, v: nat)
    requires Numbered(h) && floor <= |h|
    ensures SnapshotAt(h[floor..], k, v) == Lookup(LatestWithin(h, floor, v), k)
  {
    SnapshotSlice(h, floor, |h|, k, v);
    assert h[floor..] == h[floor..|h|];
  }

  /** One pruning step after one append keeps the log at its limit. */
  lemma PruneKeepsRetained(h: seq<Row>, row: Row, limit: nat)
    requires Numbered(h + [row]) && limit > 0
    ensures var log := Retained(h, Some(limit)) + [row];
      Above(log, MaxVersion(log) - limit) == Retained(h + [row], Some(limit))
  {
    var h' := h + [row];
    var f := Floor(h, Some(limit));
    assert Retained(h, Some(limit)) + [row] == h'[f..|h'|];
    ExtremeVersions(h', f, |h'|);
    AboveSlice(h', f, |h'|, |h'| - limit);
    var g := Floor(h', Some(limit));
    assert g == (if |h'| - limit <= f then f else |h'| - limit);
    assert h'[g..] == h'[g..|h'|];
  }
}

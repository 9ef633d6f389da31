/**
 * The full change history of one (connection, stream) and what the three tables mean in terms
 * of it: the counter is its length, the change log its retained end, and the current table the
 * latest row of every key.
 */
module RecordHistory {
  import opened Wrappers
  import opened RecordModel

  datatype Operation =
    | Upsert(key: string, data: Data, emittedAt: string)
    | Delete(key: string, emittedAt: string)

  // ---------- Folding rows ----------

  /** The latest row of every key, reading the rows from oldest to newest. */
  function Latest(rows: seq<Row>): map<string, Row> {
    if rows == [] then map[]
    else Latest(rows[..|rows| - 1])[rows[|rows| - 1].key := rows[|rows| - 1]]
  }

  lemma {:induction false} LatestConcat(a: seq<Row>, b: seq<Row>)
    ensures Latest(a + b) == Latest(a) + Latest(b)
  {
    if b == [] {
      assert a + b == a;
    } else {
      LatestConcat(a, b[..|b| - 1]);
      assert (a + b)[..|a + b| - 1] == a + b[..|b| - 1];
    }
  }

  /** The latest row of a key is one of the rows, carries that key, and nothing after it does. */
  lemma {:induction false} LatestIsLast(rows: seq<Row>, k: string)
    ensures k in Latest(rows) ==> exists i :: IsLastOf(rows, k, i) && rows[i] == Latest(rows)[k]
    ensures k !in Latest(rows) ==> forall i | 0 <= i < |rows| :: rows[i].key != k
  {
    if rows != [] {
      var n := |rows| - 1;
      var before := rows[..n];
      LatestIsLast(before, k);
      assert forall i | 0 <= i < n :: rows[i] == before[i];
      if rows[n].key == k {
        assert IsLastOf(rows, k, n);
      } else if k in Latest(before) {
        var i :| IsLastOf(before, k, i) && before[i] == Latest(before)[k];
        assert IsLastOf(rows, k, i);
      }
    }
  }

  ghost predicate IsLastOf(rows: seq<Row>, k: string, i: int) {
    && 0 <= i < |rows|
    && rows[i].key == k
    && forall j | i < j < |rows| :: rows[j].key != k
  }

  // ---------- Histories ----------

  /** Versions count up from 1 without a gap. */
  ghost predicate Numbered(h: seq<Row>) {
    forall i | 0 <= i < |h| :: h[i].version == i + 1
  }

  /** The latest row per key within versions (lo, hi] of a history. */
  function LatestWithin(h: seq<Row>, lo: nat, hi: nat): map<string, Row> {
    var end := if hi <= |h| then hi else |h|;
    if lo <= end then Latest(h[lo..end]) else map[]
  }

  lemma LatestWithinVersions(h: seq<Row>, lo: nat, hi: nat, k: string)
    requires Numbered(h) && k in LatestWithin(h, lo, hi)
    ensures lo < LatestWithin(h, lo, hi)[k].version <= hi
    ensures LatestWithin(h, lo, hi)[k].version <= |h|
    ensures LatestWithin(h, lo, hi)[k].key == k
    ensures LatestWithin(h, lo, hi)[k] == h[LatestWithin(h, lo, hi)[k].version - 1]
  {
    var end := if hi <= |h| then hi else |h|;
    LatestIsLast(h[lo..end], k);
    var i :| IsLastOf(h[lo..end], k, i) && h[lo..end][i] == Latest(h[lo..end])[k];
    assert h[lo..end][i] == h[lo + i];
  }

  lemma LatestWithinSplit(h: seq<Row>, lo: nat, mid: nat, hi: nat)
    requires lo <= mid <= hi <= |h|
    ensures LatestWithin(h, lo, hi) == LatestWithin(h, lo, mid) + LatestWithin(h, mid, hi)
  {
    assert h[lo..hi] == h[lo..mid] + h[mid..hi];
    LatestConcat(h[lo..mid], h[mid..hi]);
  }

  /** What an operation appends to a history; nothing when it would change no live value. */
  function NextRow(h: seq<Row>, op: Operation): Option<Row> {
    var current := Lookup(Latest(h), op.key);
    match op
    case Upsert(key, data, emittedAt) =>
      if current.Some? && !current.value.deleted && current.value.payload == data then None
      else Some(Row(key, |h| + 1, data, emittedAt, false, None))
    case Delete(key, emittedAt) =>
      if current.None? || current.value.deleted then None
      else Some(Row(key, |h| + 1, current.value.payload, emittedAt, true, Some(emittedAt)))
  }

  /**
   * Row by row: an upsert that finds its data live appends nothing, any other one a live row
   * with its data and time; a deletion that finds nothing live appends nothing, any other one a
   * deleted row with the payload found, deleted at its time.
   */
  lemma AppendExact(h: seq<Row>, op: Operation)
    ensures op.Upsert? ==>
      Append(h, op) ==
      if exists i :: IsLastOf(h, op.key, i) && !h[i].deleted && h[i].payload == op.data then h
      else h + [Row(op.key, |h| + 1, op.data, op.emittedAt, false, None)]
    ensures op.Delete? && (forall i | IsLastOf(h, op.key, i) :: h[i].deleted) ==> Append(h, op) == h
    ensures op.Delete? ==> forall i | IsLastOf(h, op.key, i) && !h[i].deleted ::
      Append(h, op) == h + [Row(op.key, |h| + 1, h[i].payload, op.emittedAt, true, Some(op.emittedAt))]
  {
    LatestIsLast(h, op.key);
    assert forall i, j | IsLastOf(h, op.key, i) && IsLastOf(h, op.key, j) :: i == j;
  }

  function Append(h: seq<Row>, op: Operation): seq<Row> {
    match NextRow(h, op)
    case None => h
    case Some(row) => h + [row]
  }

  function AppendAll(h: seq<Row>, ops: seq<Operation>): seq<Row>
    decreases |ops|
  {
    if ops == [] then h else AppendAll(Append(h, ops[0]), ops[1..])
  }

  /** The operation that a logged row records. */
  function OperationOf(row: Row): Operation {
    if row.deleted then Delete(row.key, row.emittedAt) else Upsert(row.key, row.payload, row.emittedAt)
  }

  /** Every row of a history is the effect of its own operation on the rows before it. */
  ghost predicate IsHistory(h: seq<Row>) {
    forall i | 0 <= i < |h| :: Effective(h, i)
  }

  ghost predicate Effective(h: seq<Row>, i: nat)
    requires i < |h|
  {
    NextRow(h[..i], OperationOf(h[i])) == Some(h[i])
  }

  lemma HistoryNumbered(h: seq<Row>)
    requires IsHistory(h)
    ensures Numbered(h)
  {
    forall i | 0 <= i < |h| ensures h[i].version == i + 1 {
      assert Effective(h, i);
    }
  }

  lemma AppendIsHistory(h: seq<Row>, op: Operation)
    requires IsHistory(h)
    ensures IsHistory(Append(h, op))
    ensures h <= Append(h, op)
  {
    var h' := Append(h, op);
    forall i | 0 <= i < |h'| ensures Effective(h', i) {
      assert h'[..i] == h[..i];
      if i == |h| { assert h[..i] == h; } else { assert Effective(h, i); }
    }
  }

  lemma {:induction false} AppendAllIsHistory(h: seq<Row>, ops: seq<Operation>)
    requires IsHistory(h)
    ensures IsHistory(AppendAll(h, ops))
    ensures h <= AppendAll(h, ops)
    decreases |ops|
  {
    if ops != [] {
      AppendIsHistory(h, ops[0]);
      AppendAllIsHistory(Append(h, ops[0]), ops[1..]);
    }
  }

  /** A history is rebuilt by replaying the operations its own rows record. */
  lemma {:induction false} HistoryReplays(h: seq<Row>)
    requires IsHistory(h)
    ensures AppendAll([], OperationsOf(h)) == h
  {
    if h != [] {
      var n := |h| - 1;
      PrefixIsHistory(h, n);
      HistoryReplays(h[..n]);
      assert OperationsOf(h) == OperationsOf(h[..n]) + [OperationOf(h[n])];
      AppendAllSnoc([], OperationsOf(h[..n]), OperationOf(h[n]));
      LastAppended(h);
    }
  }

  lemma LastAppended(h: seq<Row>)
    requires IsHistory(h) && h != []
    ensures Append(h[..|h| - 1], OperationOf(h[|h| - 1])) == h
  {
    var n := |h| - 1;
    assert Effective(h, n);
    assert h == h[..n] + [h[n]];
  }

  lemma PrefixIsHistory(h: seq<Row>, n: nat)
    requires IsHistory(h) && n <= |h|
    ensures IsHistory(h[..n])
  {
    var p := h[..n];
    forall i | 0 <= i < n ensures Effective(p, i) {
      assert Effective(h, i) && p[..i] == h[..i] && p[i] == h[i];
    }
  }

  function OperationsOf(h: seq<Row>): seq<Operation> {
    seq(|h|, i requires 0 <= i < |h| => OperationOf(h[i]))
  }

  lemma {:induction false} AppendAllSnoc(h: seq<Row>, ops: seq<Operation>, op: Operation)
    ensures AppendAll(h, ops + [op]) == Append(AppendAll(h, ops), op)
    decreases |ops|
  {
    if ops == [] {
      assert ops + [op] == [op];
      assert AppendAll(Append(h, op), []) == Append(h, op);
    } else {
      assert (ops + [op])[0] == ops[0] && (ops + [op])[1..] == ops[1..] + [op];
      AppendAllSnoc(Append(h, ops[0]), ops[1..], op);
    }
  }

  // ---------- What a history means ----------

  /** The collected state a history stands for: the payload of every live key. */
  function LiveData(h: seq<Row>): map<string, Data> {
    map k | k in Latest(h) && !Latest(h)[k].deleted :: Latest(h)[k].payload
  }

  /** The state an operation asks for, on plain maps. */
  function Applied(live: map<string, Data>, op: Operation): map<string, Data> {
    match op
    case Upsert(key, data, _) => live[key := data]
    case Delete(key, _) => live - {key}
  }

  /**
   * The versioned log refines a plain key-value map: an operation has the effect it has on the
   * map, and it appends a change exactly when it changes the map.
   */
  lemma AppendRefinesMap(h: seq<Row>, op: Operation)
    ensures LiveData(Append(h, op)) == Applied(LiveData(h), op)
    ensures Append(h, op) == h <==> Applied(LiveData(h), op) == LiveData(h)
  {
    match NextRow(h, op)
    case None =>
      assert Append(h, op) == h;
    case Some(row) =>
      assert (h + [row])[..|h|] == h;
      assert |Append(h, op)| == |h| + 1;
      assert Latest(h + [row]) == Latest(h)[op.key := row];
      assert Lookup(Applied(LiveData(h), op), op.key) != Lookup(LiveData(h), op.key);
  }

  /** What a grant shows of a history: the granted data of every key that is visible. */
  ghost function View(h: seq<Row>, grant: Grant, md: StreamMetadata): map<string, Data> {
    map k | k in Latest(h) && Disclose(Latest(h)[k], grant, md).Some? :: Disclose(Latest(h)[k], grant, md).value
  }

  /**
   * The view, row by row: a key is in it exactly when its last row meets the grant, with the
   * stored, declared and granted fields of that row as stored.
   */
  lemma ViewExact(h: seq<Row>, grant: Grant, md: StreamMetadata, k: string)
    ensures k in View(h, grant, md) <==> exists i :: IsLastOf(h, k, i) && Granted(h[i], grant, md)
    ensures forall i | IsLastOf(h, k, i) && k in View(h, grant, md) ::
      && (forall f :: f in View(h, grant, md)[k] <==>
        f in h[i].payload && f in md.fields && (grant.fields.Some? ==> f in grant.fields.value))
      && (forall f | f in View(h, grant, md)[k] :: View(h, grant, md)[k][f] == h[i].payload[f])
  {
    LatestIsLast(h, k);
    if k in Latest(h) {
      var i :| IsLastOf(h, k, i) && h[i] == Latest(h)[k];
      assert forall j | IsLastOf(h, k, j) :: i == j;
      DisclosureExact(h[i], grant, md);
    }
  }

  /** The granted time range on the view of a history. */
  lemma ViewInTimeRange(h: seq<Row>, grant: Grant, md: StreamMetadata, k: string, i: nat, f: string, range: TimeRange)
    requires IsLastOf(h, k, i) && md.consentTimeField == Some(f) && grant.timeRange == Some(range)
    ensures f !in h[i].payload || h[i].payload[f] == Null ==> k !in View(h, grant, md)
    ensures forall t, s | f in h[i].payload && h[i].payload[f] == Text(t) && range.since == Some(s) && s != ""
      && md.instant(t) < md.instant(s) :: k !in View(h, grant, md)
    ensures forall t, u | f in h[i].payload && h[i].payload[f] == Text(t) && range.until == Some(u) && u != ""
      && md.instant(t) >= md.instant(u) :: k !in View(h, grant, md)
    ensures forall t | f in h[i].payload && h[i].payload[f] == Text(t)
      && (range.since.Some? && range.since.value != "" ==> md.instant(range.since.value) <= md.instant(t))
      && (range.until.Some? && range.until.value != "" ==> md.instant(t) < md.instant(range.until.value)) ::
      Lookup(View(h, grant, md), k) == Lookup(View(h, grant.(timeRange := None), md), k)
  {
    LatestIsLast(h, k);
    var j :| IsLastOf(h, k, j) && h[j] == Latest(h)[k];
    assert i == j;
    TimeRangeExact(h[i], grant, md, f, range);
  }

  /** What is written is what an unrestricted reader then sees under the key: the declared fields, or nothing. */
  lemma WrittenIsShown(h: seq<Row>, op: Operation, md: StreamMetadata)
    ensures Lookup(View(Append(h, op), Grant(None, None, None), md), op.key) ==
      if op.Upsert? then Some(Restrict(op.data, md.fields)) else None
    ensures forall k | k != op.key ::
      Lookup(View(Append(h, op), Grant(None, None, None), md), k) == Lookup(View(h, Grant(None, None, None), md), k)
  {
    match NextRow(h, op)
    case None =>
    case Some(row) =>
      assert (h + [row])[..|h|] == h;
      assert Latest(h + [row]) == Latest(h)[op.key := row];
  }

  // ---------- Pruning ----------

  /** The first version a log with this limit no longer holds is below Floor: it keeps (Floor, |h|]. */
  function Floor(h: seq<Row>, limit: Option<nat>): nat {
    match limit
    case None => 0
    case Some(n) => if |h| <= n then 0 else |h| - n
  }

  /** The part of the history that the change log keeps. */
  function Retained(h: seq<Row>, limit: Option<nat>): seq<Row> {
    h[Floor(h, limit)..]
  }
}

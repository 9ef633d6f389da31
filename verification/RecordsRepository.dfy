/**
 * GrantScopedRecordsRepository: three tables per (connection, stream), kept in step by every
 * mutation, and the grant-scoped reads over them.
 *
 * The ghost `history` is the full log, pruned rows included. `Valid` says what the tables are
 * in terms of it, and every method states its result on it.
 */
module RecordsRepository {
  import opened Wrappers
  import opened Orders
  import opened RecordModel
  import opened RecordHistory
  import opened ChangeSessions
  import opened PrunedSessions
  import opened Tables
  import opened Grants
  import opened CurrentPages
  import opened CurrentFilters
  import opened SnapshotImport
  import opened SnapshotEnvelopes

  datatype Location = Location(connectionId: string, stream: string)

  datatype Mutation = Unchanged | Changed(version: nat)

  datatype Since = Beginning | SinceCursor(at: Location, version: nat)

  datatype ChangesCursor = ChangesCursor(at: Location, session: Session)

  datatype CurrentCursor = CurrentCursor(at: Location, order: Direction, sort: SortKey)

  datatype CurrentRecord = CurrentRecord(key: string, data: Data, emittedAt: string)

  /** Every row records a record that passed validation when it was written. */
  ghost predicate Collected(h: seq<Row>, md: StreamMetadata) {
    forall i | 0 <= i < |h| :: Admitted(h, i, md)
  }

  ghost predicate Admitted(h: seq<Row>, i: nat, md: StreamMetadata)
    requires i < |h|
  {
    ValidateLive(h[i].key, Some(h[i].payload), h[i].emittedAt, md) == None
  }

  /** Accepted operations keep the history's rows valid. */
  lemma AppendCollected(h: seq<Row>, op: Operation, md: StreamMetadata)
    requires Collected(h, md) && Acceptable(op, md)
    ensures Collected(Append(h, op), md)
  {
    var h' := Append(h, op);
    forall i | 0 <= i < |h'| ensures Admitted(h', i, md) {
      if i < |h| {
        assert Admitted(h, i, md);
      } else if op.Delete? {
        LatestIsLast(h, op.key);
        var j :| IsLastOf(h, op.key, j) && h[j] == Latest(h)[op.key];
        assert Admitted(h, j, md);
      }
    }
  }

  /** The tables that a history and a history limit determine. */
  ghost predicate Consistent(current: map<string, Row>, log: seq<Row>, counter: nat, h: seq<Row>, limit: Option<nat>) {
    && IsHistory(h)
    && counter == |h|
    && current == Latest(h)
    && log == Retained(h, limit)
  }

  /**
   * What consistency gives table by table: the log's versions run without a gap up to the
   * counter and there are min(counter, limit) of them, every current row whose version is
   * still logged equals the logged row, and the current table is the fold of the full log.
   */
  lemma TablesInStep(current: map<string, Row>, log: seq<Row>, counter: nat, h: seq<Row>, limit: Option<nat>)
    requires Consistent(current, log, counter, h, limit)
    ensures |log| == if limit.Some? then Min(limit.value, counter) else counter
    ensures forall i | 0 <= i < |log| :: log[i].version == counter - |log| + i + 1
    ensures forall k | k in current :: current[k].key == k && 0 < current[k].version <= counter
    ensures forall k | k in current && current[k].version > counter - |log| ::
      current[k] == log[current[k].version - (counter - |log|) - 1]
    ensures limit.None? ==> current == Latest(log)
  {
    HistoryNumbered(h);
    RetainedVersions(h, limit);
    forall k | k in current ensures NamesItsRow(h, k) { LatestNamed(h, k); }
    forall k | k in current && current[k].version > counter - |log|
      ensures current[k] == log[current[k].version - (counter - |log|) - 1]
    {
      RetainedAt(h, limit, current[k].version);
    }
  }

  lemma RetainedAt(h: seq<Row>, limit: Option<nat>, v: nat)
    requires |h| - |Retained(h, limit)| < v <= |h|
    ensures Retained(h, limit)[v - (|h| - |Retained(h, limit)|) - 1] == h[v - 1]
  {
  }

  /** The latest row of a key is the row of the history that its version numbers. */
  ghost predicate NamesItsRow(h: seq<Row>, k: string)
    requires k in Latest(h)
  {
    var row := Latest(h)[k];
    row.key == k && 0 < row.version <= |h| && h[row.version - 1] == row
  }

  lemma LatestNamed(h: seq<Row>, k: string)
    requires Numbered(h) && k in Latest(h)
    ensures NamesItsRow(h, k)
  {
    assert h[0..|h|] == h;
    LatestWithinVersions(h, 0, |h|, k);
  }

  ghost predicate Tracks(
    current: map<string, Row>, log: seq<Row>, counter: nat, h: seq<Row>, limit: Option<nat>,
    md: Option<StreamMetadata>) {
    && Consistent(current, log, counter, h, limit)
    && (md.Some? ==> Collected(h, md.value))
  }

  lemma NothingStored(limit: Option<nat>, md: Option<StreamMetadata>)
    ensures Tracks(map[], [], 0, [], limit, md)
  {
  }

  /** Every stored record carries its own key, everything required, and times that can be read. */
  lemma StoredRecordsValid(
    current: map<string, Row>, log: seq<Row>, counter: nat, h: seq<Row>, limit: Option<nat>, md: StreamMetadata,
    k: string)
    requires Tracks(current, log, counter, h, limit, Some(md)) && k in current
    ensures ProperRecord(k, current[k].payload, current[k].emittedAt, md)
  {
    LatestIsLast(h, k);
    var i :| IsLastOf(h, k, i) && h[i] == Latest(h)[k];
    assert Admitted(h, i, md);
    RecordAcceptedIff(h[i].key, Some(h[i].payload), h[i].emittedAt, md);
  }

  /** The keys upserted so far, for each stream that is to be reset. */
  ghost predicate ObservedIn(observed: map<string, set<string>>, steps: seq<Step>) {
    forall s | s in observed :: observed[s] == UpsertKeys(OpsOn(steps, s))
  }

  // ---------- What the reads return, in terms of the history ----------

  datatype ChangesRequest = Open(since: Since) | Resume(cursor: ChangesCursor)

  /**
   * The session a request opens or resumes. A changes_since cursor is refused exactly when a
   * change after it is gone; a page cursor is accepted whatever has gone since it was issued.
   */
  ghost function RequestedSession(
    h: seq<Row>, limit: Option<nat>, at: Location, request: ChangesRequest): Result<Session, Error> {
    match request
    case Resume(cursor) => if cursor.at != at then Failure(InvalidCursor) else Success(cursor.session)
    case Open(Beginning) => Success(Session(Bootstrap, 0, 0, |h|))
    case Open(SinceCursor(from, v)) =>
      if from != at then Failure(InvalidCursor)
      else if exists i :: v <= i < |h| && h[i] !in Retained(h, limit) then Failure(CursorExpired)
      else Success(Session(Changes, v, v, |h|))
  }

  ghost function ChangesAnswer(
    h: seq<Row>, limit: Option<nat>, at: Location, request: ChangesRequest, n: nat, grant: Grant,
    md: StreamMetadata): Result<Page, Error>
    requires Numbered(h) && n > 0
  {
    match RequestedSession(h, limit, at, request)
    case Failure(e) => Failure(e)
    case Success(s) => Success(PageOf(h, limit, s, n, grant, md))
  }

  class GrantScopedRecordsRepository {
    const streams: map<string, StreamMetadata>
    const isTimestamp: string -> bool
    const historyLimit: Option<nat>
    var currentRecords: map<Location, map<string, Row>>
    var recordChanges: map<Location, seq<Row>>
    var versionCounters: map<Location, nat>
    ghost var history: map<Location, seq<Row>>

    // ---------- The tables, by location ----------

    function CurrentAt(at: Location): map<string, Row> reads this {
      if at in currentRecords then currentRecords[at] else map[]
    }

    function ChangesAt(at: Location): seq<Row> reads this {
      if at in recordChanges then recordChanges[at] else []
    }

    function CounterAt(at: Location): nat reads this {
      if at in versionCounters then versionCounters[at] else 0
    }

    ghost function HistoryAt(at: Location): seq<Row> reads this {
      if at in history then history[at] else []
    }

    ghost predicate InStep(at: Location) reads this {
      Tracks(CurrentAt(at), ChangesAt(at), CounterAt(at), HistoryAt(at), historyLimit, Lookup(streams, at.stream))
    }

    ghost predicate Valid() reads this {
      && (historyLimit.Some? ==> historyLimit.value > 0)
      && (forall s, t | s in streams :: streams[s].isTemporal(t, DateTime) == isTimestamp(t))
      && forall at: Location :: InStep(at)
    }

    constructor (streams: map<string, StreamMetadata>, isTimestamp: string -> bool, changeHistoryLimit: Option<nat>)
      requires changeHistoryLimit.Some? ==> changeHistoryLimit.value > 0
      requires forall s, t | s in streams :: streams[s].isTemporal(t, DateTime) == isTimestamp(t)
      ensures Valid()
      ensures this.streams == streams && this.isTimestamp == isTimestamp && historyLimit == changeHistoryLimit
      ensures forall at :: HistoryAt(at) == []
    {
      this.streams := streams;
      this.isTimestamp := isTimestamp;
      historyLimit := changeHistoryLimit;
      currentRecords, recordChanges, versionCounters, history := map[], map[], map[], map[];
      new;
      forall at ensures InStep(at) {
        assert CurrentAt(at) == map[] && ChangesAt(at) == [] && CounterAt(at) == 0 && HistoryAt(at) == [];
        NothingStored(historyLimit, Lookup(streams, at.stream));
      }
    }

    // ---------- Mutations ----------

    function LocationError(at: Location): Option<Error> {
      if at.connectionId == "" then Some(InvalidRequest("connectionId"))
      else if at.stream !in streams then Some(InvalidRecord)
      else None
    }

    function UpsertError(at: Location, key: string, data: Option<Data>, emittedAt: string): Option<Error> {
      if LocationError(at).Some? then LocationError(at) else ValidateLive(key, data, emittedAt, streams[at.stream])
    }

    function DeleteError(at: Location, key: string, emittedAt: string): Option<Error> {
      if LocationError(at).Some? then LocationError(at) else ValidateDelete(key, emittedAt, streams[at.stream])
    }

    /** A place to read or write: a connection that has a name and a stream that is known. */
    lemma LocationRefused(at: Location)
      ensures LocationError(at) == None <==> at.connectionId != "" && at.stream in streams
      ensures at.connectionId == "" ==> LocationError(at) == Some(InvalidRequest("connectionId"))
      ensures at.connectionId != "" && at.stream !in streams ==> LocationError(at) == Some(InvalidRecord)
    {
    }

    /** A write is accepted exactly at such a place and for a proper record or deletion. */
    lemma WriteRefused(at: Location, key: string, data: Option<Data>, emittedAt: string)
      ensures UpsertError(at, key, data, emittedAt) == None <==>
        && at.connectionId != "" && at.stream in streams
        && data.Some? && ProperRecord(key, data.value, emittedAt, streams[at.stream])
      ensures DeleteError(at, key, emittedAt) == None <==>
        && at.connectionId != "" && at.stream in streams
        && key != "" && streams[at.stream].isTemporal(emittedAt, DateTime)
      ensures LocationError(at).Some? ==>
        UpsertError(at, key, data, emittedAt) == LocationError(at) == DeleteError(at, key, emittedAt)
      ensures LocationError(at).None? ==>
        && UpsertError(at, key, data, emittedAt) == ValidateLive(key, data, emittedAt, streams[at.stream])
        && DeleteError(at, key, emittedAt) == ValidateDelete(key, emittedAt, streams[at.stream])
    {
      if at.stream in streams {
        RecordAcceptedIff(key, data, emittedAt, streams[at.stream]);
        DeletionAcceptedIff(key, emittedAt, streams[at.stream]);
      }
    }

    method Upsert(at: Location, key: string, data: Option<Data>, emittedAt: string) returns (r: Result<Mutation, Error>)
      requires Valid()
      modifies this
      ensures Valid()
      ensures UpsertError(at, key, data, emittedAt).Some? ==>
        r == Failure(UpsertError(at, key, data, emittedAt).value) && forall l :: HistoryAt(l) == old(HistoryAt(l))
      ensures UpsertError(at, key, data, emittedAt).None? ==>
        && r.Success? && data.Some?
        && HistoryAt(at) == Append(old(HistoryAt(at)), Operation.Upsert(key, data.value, emittedAt))
        && (r.value == if HistoryAt(at) == old(HistoryAt(at)) then Unchanged else Changed(|HistoryAt(at)|))
        && forall l | l != at :: HistoryAt(l) == old(HistoryAt(l))
      ensures r.Success? <==>
        && at.connectionId != "" && at.stream in streams
        && data.Some? && ProperRecord(key, data.value, emittedAt, streams[at.stream])
      ensures r.Success? ==> LiveData(HistoryAt(at)) == LiveData(old(HistoryAt(at)))[key := data.value]
    {
      WriteRefused(at, key, data, emittedAt);
      if data.Some? { AppendRefinesMap(HistoryAt(at), Operation.Upsert(key, data.value, emittedAt)); }
      var error := UpsertError(at, key, data, emittedAt);
      if error.Some? { return Failure(error.value); }
      var m := MutateInTransaction(at, Operation.Upsert(key, data.value, emittedAt));
      return Success(m);
    }

    method Delete(at: Location, key: string, emittedAt: string) returns (r: Result<Mutation, Error>)
      requires Valid()
      modifies this
      ensures Valid()
      ensures DeleteError(at, key, emittedAt).Some? ==>
        r == Failure(DeleteError(at, key, emittedAt).value) && forall l :: HistoryAt(l) == old(HistoryAt(l))
      ensures DeleteError(at, key, emittedAt).None? ==>
        && r.Success?
        && HistoryAt(at) == Append(old(HistoryAt(at)), Operation.Delete(key, emittedAt))
        && (r.value == if HistoryAt(at) == old(HistoryAt(at)) then Unchanged else Changed(|HistoryAt(at)|))
        && forall l | l != at :: HistoryAt(l) == old(HistoryAt(l))
      ensures r.Success? <==>
        && at.connectionId != "" && at.stream in streams
        && key != "" && streams[at.stream].isTemporal(emittedAt, DateTime)
      ensures r.Success? ==> LiveData(HistoryAt(at)) == LiveData(old(HistoryAt(at))) - {key}
    {
      WriteRefused(at, key, None, emittedAt);
      AppendRefinesMap(HistoryAt(at), Operation.Delete(key, emittedAt));
      var error := DeleteError(at, key, emittedAt);
      if error.Some? { return Failure(error.value); }
      var m := MutateInTransaction(at, Operation.Delete(key, emittedAt));
      return Success(m);
    }

    /** One mutation: the tables move in step with the history, at this location only. */
    method MutateInTransaction(at: Location, op: Operation) returns (m: Mutation)
      requires Valid() && at.stream in streams && Acceptable(op, streams[at.stream])
      modifies this
      ensures Valid()
      ensures HistoryAt(at) == Append(old(HistoryAt(at)), op)
      ensures forall l | l != at :: HistoryAt(l) == old(HistoryAt(l))
      ensures m == if HistoryAt(at) == old(HistoryAt(at)) then Unchanged else Changed(|HistoryAt(at)|)
    {
      ghost var h := HistoryAt(at);
      assert InStep(at);
      AppendCollected(h, op, streams[at.stream]);
      history := history[at := Append(h, op)];
      m := WriteTables(at, op, h);
      assert HistoryAt(at) == Append(h, op) && InStep(at);
      forall l | l != at ensures InStep(l) {
        assert old(InStep(l)) && HistoryAt(l) == old(HistoryAt(l));
      }
    }

    /** The one place where the three tables are written, statement by statement. */
    method WriteTables(at: Location, op: Operation, ghost h: seq<Row>) returns (m: Mutation)
      requires Consistent(CurrentAt(at), ChangesAt(at), CounterAt(at), h, historyLimit)
      requires historyLimit.Some? ==> historyLimit.value > 0
      modifies this`currentRecords, this`recordChanges, this`versionCounters
      ensures Consistent(CurrentAt(at), ChangesAt(at), CounterAt(at), Append(h, op), historyLimit)
      ensures forall l | l != at ::
        CurrentAt(l) == old(CurrentAt(l)) && ChangesAt(l) == old(ChangesAt(l)) && CounterAt(l) == old(CounterAt(l))
      ensures m == if Append(h, op) == h then Unchanged else Changed(|Append(h, op)|)
    {
      var rows := CurrentAt(at);
      var current := Lookup(rows, op.key);
      if op.Upsert? && current.Some? && !current.value.deleted && current.value.payload == op.data { return Unchanged; }
      if op.Delete? && (current.None? || current.value.deleted) { return Unchanged; }

      var version := CounterAt(at) + 1;
      var payload := if op.Upsert? then op.data else current.value.payload;
      var stored :=
        if op.Upsert? then Row(op.key, version, payload, op.emittedAt, false, None)
        else current.value.(version := version, emittedAt := op.emittedAt, deleted := true,
          deletedAt := Some(op.emittedAt));
      var change := Row(op.key, version, payload, op.emittedAt, op.Delete?, if op.Delete? then Some(op.emittedAt)
        else None);
      AppendStep(h, op, change);
      assert stored == change;
      RunStatements(at, stored, change, h);
      m := Changed(version);
    }

    /** The statements of a mutation in their order: counter, current row, change, pruning. */
    method RunStatements(at: Location, stored: Row, change: Row, ghost h: seq<Row>)
      requires historyLimit.Some? ==> historyLimit.value > 0
      requires Numbered(h + [change]) && ChangesAt(at) == Retained(h, historyLimit)
      modifies this`currentRecords, this`recordChanges, this`versionCounters
      ensures versionCounters == old(versionCounters)[at := old(CounterAt(at)) + 1]
      ensures currentRecords == old(currentRecords)[at := old(CurrentAt(at))[stored.key := stored]]
      ensures recordChanges == old(recordChanges)[at := Retained(h + [change], historyLimit)]
    {
      versionCounters := versionCounters[at := CounterAt(at) + 1];
      currentRecords := currentRecords[at := CurrentAt(at)[stored.key := stored]];
      recordChanges := recordChanges[at := ChangesAt(at) + [change]];
      PruneHistory(at, h, change);
    }

    lemma AppendStep(h: seq<Row>, op: Operation, change: Row)
      requires IsHistory(h) && NextRow(h, op) == Some(change)
      ensures Append(h, op) == h + [change] && IsHistory(h + [change]) && Numbered(h + [change])
      ensures Latest(h + [change]) == Latest(h)[op.key := change]
      ensures op.key in Latest(h) ==> Latest(h)[op.key].key == op.key
    {
      AppendIsHistory(h, op);
      HistoryNumbered(h + [change]);
      assert (h + [change])[..|h|] == h;
      LatestIsLast(h, op.key);
    }

    /** Deletes every change at or below the highest version less the limit. */
    method PruneHistory(at: Location, ghost h: seq<Row>, ghost row: Row)
      requires historyLimit.Some? ==> historyLimit.value > 0
      requires Numbered(h + [row])
      requires ChangesAt(at) == Retained(h, historyLimit) + [row]
      modifies this`recordChanges
      ensures recordChanges == old(recordChanges)[at := Retained(h + [row], historyLimit)]
    {
      if historyLimit.None? { return; }
      var log := ChangesAt(at);
      PruneKeepsRetained(h, row, historyLimit.value);
      recordChanges := recordChanges[at := Above(log, MaxVersion(log) - historyLimit.value)];
    }

    // ---------- Snapshot import ----------

    function ImportError(
      connectionId: string, entries: seq<StreamRecords>, snapshot: Option<SnapshotMetadata>): Option<Error> {
      if connectionId == "" then Some(InvalidRequest("connectionId"))
      else
        match CheckSnapshot(snapshot, entries, streams, isTimestamp)
        case Failure(e) => Some(e)
        case Success(_) =>
          match SnapshotSteps(entries, streams)
          case Failure(e) => Some(e)
          case Success(_) => None
    }

    /**
     * An import is accepted exactly when it names a connection, its metadata is in order and
     * all its envelopes are proper ones.
     */
    lemma ImportRefused(connectionId: string, entries: seq<StreamRecords>, snapshot: Option<SnapshotMetadata>)
      ensures ImportError(connectionId, entries, snapshot) == None <==>
        && connectionId != "" && ProperEntries(entries, streams)
        && CheckSnapshot(snapshot, entries, streams, isTimestamp).Success?
      ensures connectionId == "" ==>
        ImportError(connectionId, entries, snapshot) == Some(InvalidRequest("connectionId"))
      ensures connectionId != "" && CheckSnapshot(snapshot, entries, streams, isTimestamp).Failure? ==>
        ImportError(connectionId, entries, snapshot)
          == Some(CheckSnapshot(snapshot, entries, streams, isTimestamp).error)
    {
      SnapshotAcceptedIff(entries, streams);
    }

    /**
     * One transaction: any error leaves every table as it was; otherwise each stream of the
     * connection receives its operations and reset streams are reconciled.
     */
    method ImportSnapshot(connectionId: string, entries: seq<StreamRecords>, snapshot: Option<SnapshotMetadata>)
      returns (r: Result<(), Error>)
      requires Valid()
      modifies this
      ensures Valid()
      ensures ImportError(connectionId, entries, snapshot).Some? ==>
        && r == Failure(ImportError(connectionId, entries, snapshot).value)
        && currentRecords == old(currentRecords) && recordChanges == old(recordChanges)
        && versionCounters == old(versionCounters) && history == old(history)
      ensures ImportError(connectionId, entries, snapshot).None? ==>
        && r.Success?
        && var (steps, resets) := (SnapshotSteps(entries, streams).value,
          CheckSnapshot(snapshot, entries, streams, isTimestamp).value);
           forall s :: Imported(old(HistoryAt(Location(connectionId, s))), HistoryAt(Location(connectionId, s)),
             OpsOn(steps, s), s in resets.streams, resets.completedAt)
      ensures r.Success? ==> forall s ::
        Landed(entries, s, ResetsStream(snapshot, s),
          LiveData(old(HistoryAt(Location(connectionId, s)))), LiveData(HistoryAt(Location(connectionId, s))))
      ensures forall l: Location | l.connectionId != connectionId :: HistoryAt(l) == old(HistoryAt(l))
    {
      if connectionId == "" { return Failure(InvalidRequest("connectionId")); }
      var checked := CheckSnapshot(snapshot, entries, streams, isTimestamp);
      if checked.Failure? { return Failure(checked.error); }
      CheckedSnapshot(snapshot, entries, streams, isTimestamp);
      r := ImportChecked(connectionId, entries, checked.value);
      if r.Failure? { return; }
      forall s
        ensures Landed(entries, s, ResetsStream(snapshot, s),
          LiveData(old(HistoryAt(Location(connectionId, s)))), LiveData(HistoryAt(Location(connectionId, s))))
      {
        ImportLands(entries, streams, s, ResetsStream(snapshot, s), checked.value.completedAt,
          old(HistoryAt(Location(connectionId, s))), HistoryAt(Location(connectionId, s)));
      }
    }

    /** The transaction itself, with its rollback. */
    method ImportChecked(connectionId: string, entries: seq<StreamRecords>, resets: Resets)
      returns (r: Result<(), Error>)
      requires Valid() && connectionId != "" && AllDistinct(resets.streams)
      requires forall s | s in resets.streams :: s in streams
      requires resets.streams != [] ==> isTimestamp(resets.completedAt)
      modifies this
      ensures Valid()
      ensures match SnapshotSteps(entries, streams)
        case Failure(e) =>
          && r == Failure(e)
          && currentRecords == old(currentRecords) && recordChanges == old(recordChanges)
          && versionCounters == old(versionCounters) && history == old(history)
        case Success(steps) =>
          && r.Success?
          && forall s :: Imported(old(HistoryAt(Location(connectionId, s))), HistoryAt(Location(connectionId, s)),
            OpsOn(steps, s), s in resets.streams, resets.completedAt)
      ensures forall l: Location | l.connectionId != connectionId :: HistoryAt(l) == old(HistoryAt(l))
    {
      var current, changes, counters := currentRecords, recordChanges, versionCounters;
      ghost var before := history;
      ConsistentNow();
      var error, observed := ApplyEntries(connectionId, entries, resets.streams);
      if error.Some? {
        RollBack(current, changes, counters, before);
        return Failure(error.value);
      }
      label applied:
      ReconcileResets(connectionId, resets, observed);
      forall s
        ensures Imported(old(HistoryAt(Location(connectionId, s))), HistoryAt(Location(connectionId, s)),
          OpsOn(SnapshotSteps(entries, streams).value, s), s in resets.streams, resets.completedAt)
      {
        var at := Location(connectionId, s);
        assert old@applied(HistoryAt(at))
          == AppendAll(old(HistoryAt(at)), OpsOn(SnapshotSteps(entries, streams).value, s));
      }
      return Success(());
    }

    /** Tables that are in step with a history at every location. */
    ghost predicate AllConsistent(
      current: map<Location, map<string, Row>>, changes: map<Location, seq<Row>>, counters: map<Location, nat>,
      h: map<Location, seq<Row>>)
    {
      forall at: Location :: ConsistentAt(current, changes, counters, h, at)
    }

    ghost predicate ConsistentAt(
      current: map<Location, map<string, Row>>, changes: map<Location, seq<Row>>, counters: map<Location, nat>,
      h: map<Location, seq<Row>>, at: Location)
    {
      Tracks(
        if at in current then current[at] else map[], if at in changes then changes[at] else [],
        if at in counters then counters[at] else 0, if at in h then h[at] else [],
        historyLimit, Lookup(streams, at.stream))
    }

    lemma ConsistentNow()
      requires Valid()
      ensures AllConsistent(currentRecords, recordChanges, versionCounters, history)
    {
      forall at: Location ensures ConsistentAt(currentRecords, recordChanges, versionCounters, history, at) {
        assert InStep(at);
      }
    }

    /** The tables as they were. */
    method RollBack(
      current: map<Location, map<string, Row>>, changes: map<Location, seq<Row>>, counters: map<Location, nat>,
      ghost before: map<Location, seq<Row>>)
      requires Valid() && AllConsistent(current, changes, counters, before)
      modifies this
      ensures Valid()
      ensures currentRecords == current && recordChanges == changes && versionCounters == counters && history == before
    {
      currentRecords, recordChanges, versionCounters, history := current, changes, counters, before;
      forall at: Location ensures InStep(at) { assert ConsistentAt(current, changes, counters, before, at); }
    }

    /** The first loop of the transaction: every stream's envelopes, in order. */
    method ApplyEntries(connectionId: string, entries: seq<StreamRecords>, resetStreams: seq<string>)
      returns (error: Option<Error>, observed: map<string, set<string>>)
      requires Valid() && connectionId != ""
      modifies this
      ensures Valid()
      ensures error == match SnapshotSteps(entries, streams) case Failure(e) => Some(e) case Success(_) => None
      ensures forall l: Location | l.connectionId != connectionId :: HistoryAt(l) == old(HistoryAt(l))
      ensures error.None? ==>
        && (forall s :: HistoryAt(Location(connectionId, s)) ==
              AppendAll(old(HistoryAt(Location(connectionId, s))), OpsOn(SnapshotSteps(entries, streams).value, s)))
        && (forall s | s in resetStreams :: s in observed)
        && ObservedIn(observed, SnapshotSteps(entries, streams).value)
    {
      observed := map s | s in resetStreams :: {};
      assert UpsertKeys([]) == {};
      ghost var steps: seq<Step> := [];
      for i := 0 to |entries|
        invariant Valid()
        invariant SnapshotSteps(entries[..i], streams) == Success(steps)
        invariant forall l: Location | l.connectionId != connectionId :: HistoryAt(l) == old(HistoryAt(l))
        invariant forall s ::
          HistoryAt(Location(connectionId, s)) == AppendAll(old(HistoryAt(Location(connectionId, s))), OpsOn(steps, s))
        invariant forall s | s in resetStreams :: s in observed
        invariant ObservedIn(observed, steps)
      {
        error, observed := ApplyEntry(connectionId, entries[i], observed);
        if error.Some? {
          SnapshotErrorAt(entries, i, streams);
          return;
        }
        ghost var more := EntrySteps(entries[i], streams).value;
        forall s {
          OneMoreStream(entries, i, streams, steps, more, s, old(HistoryAt(Location(connectionId, s))));
        }
        steps := steps + more;
      }
      TakeSnoc(entries, |entries|);
      error := None;
    }

    /** The envelopes of one member of recordsByStream. */
    method ApplyEntry(connectionId: string, entry: StreamRecords, observed: map<string, set<string>>)
      returns (error: Option<Error>, observed': map<string, set<string>>)
      requires Valid() && connectionId != ""
      modifies this
      ensures Valid()
      ensures error == match EntrySteps(entry, streams) case Failure(e) => Some(e) case Success(_) => None
      ensures forall l: Location | l.connectionId != connectionId :: HistoryAt(l) == old(HistoryAt(l))
      ensures error.None? ==> var more := EntrySteps(entry, streams).value;
        && (forall s ::
          HistoryAt(Location(connectionId, s)) == AppendAll(old(HistoryAt(Location(connectionId, s))), OpsOn(more, s)))
        && observed'.Keys == observed.Keys
        && forall s | s in observed :: observed'[s] == observed[s] + UpsertKeys(OpsOn(more, s))
    {
      observed' := observed;
      if entry.stream !in streams { return Some(InvalidRecord), observed; }
      if entry.records.None? { return Some(InvalidSnapshot), observed; }
      var keys;
      error, keys := ApplyStream(Location(connectionId, entry.stream), entry.records.value);
      if error.Some? { return; }
      ghost var more := EntrySteps(entry, streams).value;
      forall s | s != entry.stream
        ensures UpsertKeys(OpsOn(more, s)) == {}
        ensures HistoryAt(Location(connectionId, s))
          == AppendAll(old(HistoryAt(Location(connectionId, s))), OpsOn(more, s))
      {
        StreamStepsOwn(entry.stream, entry.records.value, streams[entry.stream], s);
        assert Location(connectionId, s) != Location(connectionId, entry.stream);
      }
      if entry.stream in observed { observed' := observed[entry.stream := observed[entry.stream] + keys]; }
    }

    /** The envelopes of one stream; `keys` are those it upserts. */
    method ApplyStream(at: Location, records: seq<Envelope>) returns (error: Option<Error>, keys: set<string>)
      requires Valid() && at.stream in streams
      modifies this
      ensures Valid()
      ensures error
        == match StreamSteps(at.stream, records, streams[at.stream]) case Failure(e) => Some(e) case Success(_) => None
      ensures forall l | l != at :: HistoryAt(l) == old(HistoryAt(l))
      ensures error.None? ==>
        var ops := OpsOn(StreamSteps(at.stream, records, streams[at.stream]).value, at.stream);
        HistoryAt(at) == AppendAll(old(HistoryAt(at)), ops) && keys == UpsertKeys(ops)
    {
      keys := {};
      var md := streams[at.stream];
      ghost var steps: seq<Step> := [];
      for i := 0 to |records|
        invariant Valid()
        invariant StreamSteps(at.stream, records[..i], md) == Success(steps)
        invariant forall l | l != at :: HistoryAt(l) == old(HistoryAt(l))
        invariant HistoryAt(at) == AppendAll(old(HistoryAt(at)), OpsOn(steps, at.stream))
        invariant keys == UpsertKeys(OpsOn(steps, at.stream))
      {
        var applied := ApplyEnvelope(at, records[i]);
        if applied.Failure? {
          StreamErrorAt(at.stream, records, i, md);
          return Some(applied.error), keys;
        }
        var op := applied.value;
        OneMoreEnvelope(at.stream, records, i, md, steps, op, old(HistoryAt(at)));
        if op.Upsert? { keys := keys + {op.key}; }
        steps := steps + [Step(at.stream, op)];
      }
      TakeSnoc(records, |records|);
      return None, keys;
    }

    method ApplyEnvelope(at: Location, envelope: Envelope) returns (r: Result<Operation, Error>)
      requires Valid() && at.stream in streams
      modifies this
      ensures Valid()
      ensures r == EnvelopeOperation(at.stream, envelope, streams[at.stream])
      ensures forall l | l != at :: HistoryAt(l) == old(HistoryAt(l))
      ensures r.Success? ==> HistoryAt(at) == Append(old(HistoryAt(at)), r.value)
    {
      r := EnvelopeOperation(at.stream, envelope, streams[at.stream]);
      if r.Success? {
        EnvelopeAcceptable(at.stream, envelope, streams[at.stream]);
        var _ := MutateInTransaction(at, r.value);
      }
    }

    method ReconcileResets(connectionId: string, resets: Resets, observed: map<string, set<string>>)
      requires Valid() && AllDistinct(resets.streams)
      requires forall s | s in resets.streams :: s in streams && s in observed
      requires resets.streams != [] ==> isTimestamp(resets.completedAt)
      modifies this
      ensures Valid()
      ensures forall l: Location | l.connectionId != connectionId || l.stream !in resets.streams ::
        HistoryAt(l) == old(HistoryAt(l))
      ensures forall s | s in resets.streams ::
        Reconciled(old(HistoryAt(Location(connectionId, s))), HistoryAt(Location(connectionId, s)), observed[s],
          resets.completedAt)
    {
      for i := 0 to |resets.streams|
        invariant Valid()
        invariant forall l: Location | l.connectionId != connectionId || l.stream !in resets.streams[..i] ::
          HistoryAt(l) == old(HistoryAt(l))
        invariant forall s | s in resets.streams[..i] ::
          Reconciled(old(HistoryAt(Location(connectionId, s))), HistoryAt(Location(connectionId, s)), observed[s],
            resets.completedAt)
      {
        var s := resets.streams[i];
        assert s !in resets.streams[..i];
        assert resets.streams[..i + 1] == resets.streams[..i] + [s];
        ReconcileAuthoritativeFullRefresh(Location(connectionId, s), observed[s], resets.completedAt);
      }
      assert resets.streams[..|resets.streams|] == resets.streams;
    }

    /** Turns the live records absent from a full refresh into ordinary logged deletes. */
    method ReconcileAuthoritativeFullRefresh(at: Location, presentKeys: set<string>, emittedAt: string)
      requires Valid() && at.stream in streams && isTimestamp(emittedAt)
      modifies this
      ensures Valid()
      ensures Reconciled(old(HistoryAt(at)), HistoryAt(at), presentKeys, emittedAt)
      ensures forall l | l != at :: HistoryAt(l) == old(HistoryAt(l))
    {
      ghost var h := HistoryAt(at);
      var rest := LiveKeysExcept(at, presentKeys);
      ghost var stale := rest;
      ghost var keys: seq<string> := [];
      while rest != {}
        invariant Valid()
        invariant rest <= stale
        invariant ListsKeys(keys, stale - rest)
        invariant HistoryAt(at) == AppendAll(h, Deletes(keys, emittedAt))
        invariant forall l | l != at :: HistoryAt(l) == old(HistoryAt(l))
        decreases |rest|
      {
        var key :| key in rest;
        DeleteStale(at, key, emittedAt, h, keys);
        keys := NextListed(keys, stale, rest, key);
        rest := rest - {key};
      }
      NothingLeft(keys, stale, rest);
    }

    /** The live keys of the current table that a full refresh does not mention. */
    method LiveKeysExcept(at: Location, presentKeys: set<string>) returns (keys: set<string>)
      requires Valid() && at.stream in streams
      ensures keys == Stale(HistoryAt(at), presentKeys) && "" !in keys
    {
      assert InStep(at);
      var rows := CurrentAt(at);
      keys := set k | k in rows && !rows[k].deleted && k !in presentKeys;
      assert keys == Stale(HistoryAt(at), presentKeys);
      if "" in keys { StaleKeyNamed(HistoryAt(at), streams[at.stream], ""); }
    }

    method DeleteStale(at: Location, key: string, emittedAt: string, ghost h: seq<Row>, ghost keys: seq<string>)
      requires Valid() && at.stream in streams && isTimestamp(emittedAt) && key != ""
      requires HistoryAt(at) == AppendAll(h, Deletes(keys, emittedAt))
      modifies this
      ensures Valid()
      ensures HistoryAt(at) == AppendAll(h, Deletes(keys + [key], emittedAt))
      ensures forall l | l != at :: HistoryAt(l) == old(HistoryAt(l))
    {
      OneMoreDelete(h, keys, key, emittedAt);
      var _ := MutateInTransaction(at, Operation.Delete(key, emittedAt));
    }

    lemma StaleKeyNamed(h: seq<Row>, md: StreamMetadata, key: string)
      requires Collected(h, md) && key in LiveData(h)
      ensures key != ""
    {
      LatestIsLast(h, key);
      var i :| IsLastOf(h, key, i) && h[i] == Latest(h)[key];
      assert Admitted(h, i, md);
    }

    // ---------- Reads ----------

    /** What a request of this location is checked for before any row is read. */
    function ReadContext(
      at: Location, grant: Grant, fields: Option<seq<string>>, limit: int): Result<(nat, Grant), Error> {
      if LocationError(at).Some? then Failure(LocationError(at).value)
      else
        match NormalizeLimit(limit)
        case Failure(e) => Failure(e)
        case Success(n) =>
          match NormalizeGrant(grant, fields, streams[at.stream])
          case Failure(e) => Failure(e)
          case Success(g) => Success((n, g))
    }

    /** A read is accepted exactly at a place that exists, for a positive page size and an acceptable grant. */
    lemma ReadRefused(at: Location, grant: Grant, fields: Option<seq<string>>, limit: int)
      ensures LocationError(at).Some? ==> ReadContext(at, grant, fields, limit) == Failure(LocationError(at).value)
      ensures LocationError(at).None? && limit < 1 ==>
        ReadContext(at, grant, fields, limit) == Failure(InvalidRequest("limit"))
      ensures LocationError(at).None? && limit >= 1 ==>
        ReadContext(at, grant, fields, limit) ==
        match NormalizeGrant(grant, fields, streams[at.stream])
        case Failure(e) => Failure(e)
        case Success(g) => Success((if limit <= 100 then limit else 100, g))
    {
      LimitExact(limit);
    }

    /** A single record: exactly what the grant shows of the stored state under that key. */
    method GetCurrent(at: Location, key: string, grant: Grant) returns (r: Result<Option<CurrentRecord>, Error>)
      requires Valid()
      ensures LocationError(at).None? && key != "" && NormalizeGrant(grant, None, streams[at.stream]).Success? ==>
        && r.Success?
        && (r.value.Some? <==> key in View(HistoryAt(at), grant, streams[at.stream]))
        && (r.value.Some? ==>
          r.value.value
          == CurrentRecord(key, View(HistoryAt(at), grant, streams[at.stream])[key],
          Latest(HistoryAt(at))[key].emittedAt))
      ensures LocationError(at).Some? ==> r == Failure(LocationError(at).value)
      ensures LocationError(at).None? && key == "" ==> r == Failure(InvalidRequest("key"))
      ensures LocationError(at).None? && key != "" && NormalizeGrant(grant, None, streams[at.stream]).Failure? ==>
        r == Failure(NormalizeGrant(grant, None, streams[at.stream]).error)
    {
      var error := LocationError(at);
      if error.Some? { return Failure(error.value); }
      if key == "" { return Failure(InvalidRequest("key")); }
      var md := streams[at.stream];
      var normalized := NormalizeGrant(grant, None, md);
      if normalized.Failure? { return Failure(normalized.error); }
      assert InStep(at);
      var row := Lookup(CurrentAt(at), key);
      if row.None? || row.value.deleted { return Success(None); }
      NormalizedGrantNarrows(grant, None, md, row.value);
      var data := Disclose(row.value, normalized.value, md);
      return Success(if data.Some? then Some(CurrentRecord(key, data.value, row.value.emittedAt)) else None);
    }

    /** What a grant lets a reader see of the current records. */
    ghost function VisibleAt(at: Location, grant: Grant): set<CurrentEntry>
      requires at.stream in streams
      reads this
    {
      Visible(Latest(HistoryAt(at)), grant, streams[at.stream])
    }

    /** A cursor is good for the location and the direction it was issued for. */
    predicate Continues(cursor: Option<CurrentCursor>, at: Location, order: Direction) {
      cursor.Some? ==> cursor.value.at == at && cursor.value.order == order
    }

    lemma CursorRefused(cursor: Option<CurrentCursor>, at: Location, order: Direction)
      ensures !Continues(cursor, at, order) <==> exists c :: cursor == Some(c) && (c.at != at || c.order != order)
    {
    }

    /** One page of the current records that satisfy the filter, by keyset. */
    method ListCurrent(
      at: Location, grant: Grant, fields: Option<seq<string>>, filter: Option<Filter>,
      limit: int, cursor: Option<CurrentCursor>, order: Direction)
      returns (r: Result<CurrentPage, Error>)
      requires Valid()
      ensures ReadContext(at, grant, fields, limit).Failure? ==>
        r == Failure(ReadContext(at, grant, fields, limit).error)
      ensures ReadContext(at, grant, fields, limit).Success? && !Continues(cursor, at, order) ==>
        r == Failure(InvalidCursor)
      ensures ReadContext(at, grant, fields, limit).Success? && Continues(cursor, at, order) ==>
        var (n, g) := ReadContext(at, grant, fields, limit).value;
        var md, from := streams[at.stream], if cursor.Some? then Some(cursor.value.sort) else None;
        match r
        case Failure(error) => FilterRefused(VisibleAt(at, g), filter, g, md, error)
        case Success(page) =>
          && (forall error :: !FilterRefused(VisibleAt(at, g), filter, g, md, error))
          && IsPage(page, Filtered(VisibleAt(at, g), filter), from, n, order, md)
    {
      var context := ReadContext(at, grant, fields, limit);
      if context.Failure? { return Failure(context.error); }
      var (n, g) := context.value;
      if !Continues(cursor, at, order) { return Failure(InvalidCursor); }
      var md := streams[at.stream];
      var from := if cursor.Some? then Some(cursor.value.sort) else None;
      assert InStep(at);
      VisibleKeysDistinct(HistoryAt(at), g, md);
      var rows := FilterRows(Visible(CurrentAt(at), g, md), filter, g, md);
      if rows.Failure? { return Failure(rows.error); }
      var page := CutCurrentPage(rows.value, from, n, order, md);
      return Success(page);
    }

    lemma VisibleKeysDistinct(h: seq<Row>, grant: Grant, md: StreamMetadata)
      ensures KeysDistinct(Visible(Latest(h), grant, md))
    {
      forall k | k in Latest(h) ensures Latest(h)[k].key == k { LatestIsLast(h, k); }
    }

    /** The session a request opens or resumes. */
    function StartChangesSession(at: Location, request: ChangesRequest): Result<Session, Error>
      reads this
    {
      match request
      case Resume(cursor) => if cursor.at != at then Failure(InvalidCursor) else Success(cursor.session)
      case Open(Beginning) => Success(Session(Bootstrap, 0, 0, CounterAt(at)))
      case Open(SinceCursor(from, v)) =>
        if from != at then Failure(InvalidCursor)
        else
          var min := MinVersion(ChangesAt(at));
          if min.Some? && v < min.value - 1 then Failure(CursorExpired)
          else Success(Session(Changes, v, v, CounterAt(at)))
    }

    /** The test of a changes_since cursor on the retained log refuses exactly what `RequestedSession` refuses. */
    lemma SessionAgrees(at: Location, request: ChangesRequest)
      requires Valid()
      ensures StartChangesSession(at, request) == RequestedSession(HistoryAt(at), historyLimit, at, request)
    {
      assert InStep(at);
      var h, log := HistoryAt(at), ChangesAt(at);
      HistoryNumbered(h);
      if request.Open? && request.since.SinceCursor? {
        ExpiryExact(h, historyLimit, request.since.version);
        var f := Floor(h, historyLimit);
        assert log == h[f..|h|];
        if log != [] { ExtremeVersions(h, f, |h|); }
      }
    }

    /** One page of a change session. */
    method ListChanges(at: Location, grant: Grant, request: ChangesRequest, limit: int) returns (r: Result<Page, Error>)
      requires Valid()
      ensures match ReadContext(at, grant, None, limit)
        case Failure(e) => r == Failure(e)
        case Success((n, g)) =>
          Numbered(HistoryAt(at)) && n > 0
            && r == ChangesAnswer(HistoryAt(at), historyLimit, at, request, n, g, streams[at.stream])
    {
      var context := ReadContext(at, grant, None, limit);
      if context.Failure? { return Failure(context.error); }
      var (n, g) := context.value;
      var md := streams[at.stream];
      ghost var h := HistoryAt(at);
      assert InStep(at);
      HistoryNumbered(h);
      SessionAgrees(at, request);
      var started := StartChangesSession(at, request);
      if started.Failure? { return Failure(started.error); }
      var session := started.value;
      var owed := OwedEntries(at, session, g, md);
      var disclosed := Sort(owed, ByVersion);
      ListingLists(h, historyLimit, session, g, md);
      ListingUnique(disclosed, Listing(h, historyLimit, session, g, md), owed, ByVersion);
      if |disclosed| > n {
        r := Success(Page(disclosed[..n], NextCursor(session.(afterVersion := disclosed[n - 1].version))));
      } else {
        r := Success(Page(disclosed, NextChangesSince(session.horizonVersion)));
      }
    }

    /** The entries a session still owes, in no particular order. */
    method OwedEntries(at: Location, session: Session, grant: Grant, md: StreamMetadata) returns (owed: set<Entry>)
      requires Valid() && Numbered(HistoryAt(at))
      ensures owed == Entries(Answer(HistoryAt(at), historyLimit, session, grant, md))
    {
      var changes;
      if session.mode == Bootstrap {
        changes := BootstrapChanges(at, session);
      } else {
        changes := LatestChangesInWindow(at, session);
      }
      owed := set k | k in changes && DiscloseChange(at, changes[k], session, grant, md).Some? ::
        DiscloseChange(at, changes[k], session, grant, md).value;
      OwedIsAnswer(at, changes, session, grant, md);
    }

    /** The entry a change is worth, judged against what the log still holds from before the session. */
    function DiscloseChange(
      at: Location, change: Row, session: Session, grant: Grant, md: StreamMetadata): Option<Entry>
      reads this
    {
      Delta(SnapshotAt(ChangesAt(at), change.key, session.sinceVersion), change, grant, md)
    }

    ghost predicate IsAfter(changes: map<string, Row>, candidates: map<string, Row>, v: nat) {
      forall k :: (k in changes <==> k in candidates && candidates[k].version > v)
        && (k in changes ==> changes[k] == candidates[k])
    }

    lemma OwedIsAnswer(at: Location, changes: map<string, Row>, session: Session, grant: Grant, md: StreamMetadata)
      requires Valid() && Numbered(HistoryAt(at))
      requires IsAfter(changes, Candidates(HistoryAt(at), historyLimit, session), session.afterVersion)
      ensures (set k | k in changes && DiscloseChange(at, changes[k], session, grant, md).Some? ::
        DiscloseChange(at, changes[k], session, grant, md).value)
        == Entries(Answer(HistoryAt(at), historyLimit, session, grant, md))
    {
      assert InStep(at);
      var h := HistoryAt(at);
      var f := Floor(h, historyLimit);
      forall k | k in changes
        ensures DiscloseChange(at, changes[k], session, grant, md) == DeltaOf(h, historyLimit, session, grant, md, k)
      {
        CandidateRow(h, historyLimit, session, k);
        SnapshotLatest(h, f, k, session.sinceVersion);
      }
      var m := Answer(h, historyLimit, session, grant, md);
      forall k ensures k in m <==> k in changes && DiscloseChange(at, changes[k], session, grant, md).Some? {}
      forall e | e in Entries(m)
        ensures exists k :: k in changes && DiscloseChange(at, changes[k], session, grant, md) == Some(e)
      {
        var k :| k in m && m[k] == e;
        assert k in changes;
      }
    }

    /** The latest change of every key in the session's window. */
    method LatestChangesInWindow(at: Location, session: Session) returns (changes: map<string, Row>)
      requires Valid() && session.mode == Changes
      ensures IsAfter(changes, Candidates(HistoryAt(at), historyLimit, session), session.afterVersion)
    {
      assert InStep(at);
      ghost var h := HistoryAt(at);
      HistoryNumbered(h);
      var rows := Between(ChangesAt(at), session.sinceVersion, session.horizonVersion);
      BetweenLatest(h, Floor(h, historyLimit), session.sinceVersion, session.horizonVersion);
      var latestByKey := FoldRows(rows);
      changes := map k | k in latestByKey && latestByKey[k].version > session.afterVersion :: latestByKey[k];
    }

    /** The live records at the session's horizon, as far as log and current table still know them. */
    method BootstrapChanges(at: Location, session: Session) returns (changes: map<string, Row>)
      requires Valid() && session.mode == Bootstrap
      ensures IsAfter(changes, Candidates(HistoryAt(at), historyLimit, session), session.afterVersion)
    {
      assert InStep(at);
      ghost var h := HistoryAt(at);
      HistoryNumbered(h);
      var currentRows := CurrentAt(at);
      var snapshotRows := Between(ChangesAt(at), 0, session.horizonVersion);
      BetweenLatest(h, Floor(h, historyLimit), 0, session.horizonVersion);
      var latestBeforeHorizon := FoldRows(snapshotRows);
      latestBeforeHorizon := OverlayCurrent(latestBeforeHorizon, currentRows, session.horizonVersion);
      changes := map k | k in latestBeforeHorizon && !latestBeforeHorizon[k].deleted
        && latestBeforeHorizon[k].version > session.afterVersion :: latestBeforeHorizon[k];
    }
  }

  /** Current rows at or below the horizon replace the logged ones. */
  method OverlayCurrent(logged: map<string, Row>, current: map<string, Row>, horizon: nat)
    returns (latest: map<string, Row>)
    ensures latest == logged + map k | k in current && current[k].version <= horizon :: current[k]
  {
    latest := logged;
    var rest := current.Keys;
    while rest != {}
      invariant rest <= current.Keys
      invariant forall k ::
        Lookup(latest, k) == if k in current && k !in rest && current[k].version <= horizon then Some(current[k])
        else Lookup(logged, k)
      decreases |rest|
    {
      var k :| k in rest;
      if current[k].version <= horizon { latest := latest[k := current[k]]; }
      rest := rest - {k};
    }
    OverlayIs(latest, logged, current, horizon);
  }

  lemma OverlayIs(latest: map<string, Row>, logged: map<string, Row>, current: map<string, Row>, horizon: nat)
    requires forall k ::
      Lookup(latest, k) == if k in current && current[k].version <= horizon then Some(current[k]) else Lookup(logged, k)
    ensures latest == logged + map k | k in current && current[k].version <= horizon :: current[k]
  {
    SameByLookup(latest, logged + map k | k in current && current[k].version <= horizon :: current[k]);
  }

  /** Filling a map from rows in version order keeps the last row of every key. */
  method FoldRows(rows: seq<Row>) returns (latest: map<string, Row>)
    ensures latest == Latest(rows)
  {
    latest := map[];
    for i := 0 to |rows|
      invariant latest == Latest(rows[..i])
    {
      assert rows[..i + 1][..i] == rows[..i];
      latest := latest[rows[i].key := rows[i]];
    }
    assert rows[..|rows|] == rows;
  }

  /** Sorting the remaining rows and cutting off one page. */
  method CutCurrentPage(visible: set<CurrentEntry>, from: Option<SortKey>, n: nat, order: Direction, md: StreamMetadata)
    returns (page: CurrentPage)
    requires KeysDistinct(visible) && n > 0
    ensures IsPage(page, visible, from, n, order, md)
  {
    var sorted := Sort(Remaining(visible, from, order, md), RowOrder(order, md));
    SortedIsOwed(visible, from, sorted, order, md);
    page := if |sorted| > n then CurrentPage(sorted[..n], Some(sorted[n - 1].sort)) else CurrentPage(sorted, None);
    CutTakesPage(sorted, Remaining(visible, from, order, md), n, page);
  }

  lemma SortedIsOwed(
    visible: set<CurrentEntry>, from: Option<SortKey>, sorted: seq<CurrentEntry>, order: Direction, md: StreamMetadata)
    requires KeysDistinct(visible)
    requires var (rest, less) := (Remaining(visible, from, order, md), RowOrder(order, md));
      StrictTotal(less, rest) ==> Lists(sorted, rest, less)
    ensures InstantsDistinct(visible, md) ==> sorted == Owed(visible, from, order, md)
  {
    if InstantsDistinct(visible, md) {
      var rest := Remaining(visible, from, order, md);
      ComparatorIsOrder(rest, order, md);
      SortedLists(rest, RowOrder(order, md));
      ListingUnique(sorted, Owed(visible, from, order, md), rest, RowOrder(order, md));
    }
  }

  lemma CutTakesPage(sorted: seq<CurrentEntry>, rest: set<CurrentEntry>, n: nat, page: CurrentPage)
    requires n > 0 && |sorted| == |rest| && forall e :: e in sorted <==> e in rest
    requires forall i, j | 0 <= i < j < |sorted| :: sorted[i] != sorted[j]
    requires page == if |sorted| > n then CurrentPage(sorted[..n], Some(sorted[n - 1].sort))
      else CurrentPage(sorted, None)
    ensures TakesPage(page, rest, n)
  {
    forall e | e in page.data ensures e in rest { assert e in sorted; }
  }
}

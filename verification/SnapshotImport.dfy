/** What a collected snapshot asks of the store, and what importing it means for a stream's history. */
module SnapshotImport {
  import opened Wrappers
  import opened Orders
  import opened RecordModel
  import opened RecordHistory

  datatype Envelope =
    | Envelope(stream: string, op: Option<string>, key: string, data: Option<Data>, emittedAt: string)
    | NotAnObject

  /** One member of recordsByStream; `records` is None when the value is not an array. */
  datatype StreamRecords = StreamRecords(stream: string, records: Option<seq<Envelope>>)

  datatype SnapshotMetadata =
    | Described(collectionMode: string, resetStreams: Option<seq<string>>, completedAt: string)
    | Malformed

  datatype Resets = Resets(streams: seq<string>, completedAt: string)

  datatype Step = Step(stream: string, op: Operation)

  // ---------- Reading a snapshot ----------

  function EnvelopeOperation(stream: string, envelope: Envelope, md: StreamMetadata): Result<Operation, Error> {
    if envelope.NotAnObject? || envelope.stream != stream then Failure(InvalidRecord)
    else
      var op := if envelope.op.Some? then envelope.op.value else "upsert";
      if op == "upsert" then
        match ValidateLive(envelope.key, envelope.data, envelope.emittedAt, md)
        case Some(e) => Failure(e)
        case None => Success(Upsert(envelope.key, envelope.data.value, envelope.emittedAt))
      else if op == "delete" then
        match ValidateDelete(envelope.key, envelope.emittedAt, md)
        case Some(e) => Failure(e)
        case None => Success(Delete(envelope.key, envelope.emittedAt))
      else Failure(InvalidRecord)
  }

  ghost predicate Acceptable(op: Operation, md: StreamMetadata) {
    match op
    case Upsert(key, data, emittedAt) => ValidateLive(key, Some(data), emittedAt, md) == None
    case Delete(key, emittedAt) => ValidateDelete(key, emittedAt, md) == None
  }

  lemma EnvelopeAcceptable(stream: string, envelope: Envelope, md: StreamMetadata)
    ensures EnvelopeOperation(stream, envelope, md).Success? ==>
      Acceptable(EnvelopeOperation(stream, envelope, md).value, md)
  {
  }

  /** The operations of one stream's envelopes, or the first error among them. */
  function StreamSteps(stream: string, records: seq<Envelope>, md: StreamMetadata): Result<seq<Step>, Error> {
    if records == [] then Success([])
    else
      var n := |records| - 1;
      match StreamSteps(stream, records[..n], md)
      case Failure(e) => Failure(e)
      case Success(steps) =>
        match EnvelopeOperation(stream, records[n], md)
        case Failure(e) => Failure(e)
        case Success(op) => Success(steps + [Step(stream, op)])
  }

  function EntrySteps(entry: StreamRecords, streams: map<string, StreamMetadata>): Result<seq<Step>, Error> {
    if entry.stream !in streams then Failure(InvalidRecord)
    else if entry.records.None? then Failure(InvalidSnapshot)
    else StreamSteps(entry.stream, entry.records.value, streams[entry.stream])
  }

  function SnapshotSteps(entries: seq<StreamRecords>, streams: map<string, StreamMetadata>): Result<seq<Step>, Error> {
    if entries == [] then Success([])
    else
      var n := |entries| - 1;
      match SnapshotSteps(entries[..n], streams)
      case Failure(e) => Failure(e)
      case Success(steps) =>
        match EntrySteps(entries[n], streams)
        case Failure(e) => Failure(e)
        case Success(more) => Success(steps + more)
  }

  /** An error anywhere in a snapshot is the snapshot's error. */
  lemma {:induction false} StreamErrorSpreads(stream: string, records: seq<Envelope>, md: StreamMetadata, n: nat)
    requires n <= |records| && StreamSteps(stream, records[..n], md).Failure?
    ensures StreamSteps(stream, records, md) == StreamSteps(stream, records[..n], md)
    decreases |records|
  {
    if n < |records| {
      assert records[..|records| - 1][..n] == records[..n];
      StreamErrorSpreads(stream, records[..|records| - 1], md, n);
    } else {
      assert records[..n] == records;
    }
  }

  lemma {:induction false} SnapshotErrorSpreads(
    entries: seq<StreamRecords>, streams: map<string, StreamMetadata>, n: nat)
    requires n <= |entries| && SnapshotSteps(entries[..n], streams).Failure?
    ensures SnapshotSteps(entries, streams) == SnapshotSteps(entries[..n], streams)
    decreases |entries|
  {
    if n < |entries| {
      assert entries[..|entries| - 1][..n] == entries[..n];
      SnapshotErrorSpreads(entries[..|entries| - 1], streams, n);
    } else {
      assert entries[..n] == entries;
    }
  }

  /** The first envelope that fails gives the stream's error, ... */
  lemma StreamErrorAt(stream: string, records: seq<Envelope>, i: nat, md: StreamMetadata)
    requires i < |records| && StreamSteps(stream, records[..i], md).Success?
    requires EnvelopeOperation(stream, records[i], md).Failure?
    ensures StreamSteps(stream, records, md) == Failure(EnvelopeOperation(stream, records[i], md).error)
  {
    assert records[..i + 1][..i] == records[..i];
    StreamErrorSpreads(stream, records, md, i + 1);
  }

  /** ... and the first stream that fails the snapshot's. */
  lemma SnapshotErrorAt(entries: seq<StreamRecords>, i: nat, streams: map<string, StreamMetadata>)
    requires i < |entries| && SnapshotSteps(entries[..i], streams).Success?
    requires EntrySteps(entries[i], streams).Failure?
    ensures SnapshotSteps(entries, streams) == Failure(EntrySteps(entries[i], streams).error)
  {
    assert entries[..i + 1][..i] == entries[..i];
    SnapshotErrorSpreads(entries, streams, i + 1);
  }

  ghost predicate EnvelopeAccepted(stream: string, records: seq<Envelope>, md: StreamMetadata, i: nat)
    requires i < |records|
  {
    EnvelopeOperation(stream, records[i], md).Success?
  }

  /** A stream's envelopes are accepted exactly when each of them is. */
  lemma {:induction false} StreamStepsIff(stream: string, records: seq<Envelope>, md: StreamMetadata)
    ensures StreamSteps(stream, records, md).Success? <==> forall i | 0 <= i < |records| ::
      EnvelopeAccepted(stream, records, md, i)
  {
    if records != [] {
      var n := |records| - 1;
      StreamStepsIff(stream, records[..n], md);
      assert forall i | 0 <= i < n ::
        EnvelopeAccepted(stream, records[..n], md, i) <==> EnvelopeAccepted(stream, records, md, i);
      assert StreamSteps(stream, records, md).Success? <==>
        StreamSteps(stream, records[..n], md).Success? && EnvelopeAccepted(stream, records, md, n);
    }
  }

  /** An accepted stream asks for the operations of its envelopes, in their order. */
  lemma {:induction false} StreamStepsInOrder(stream: string, records: seq<Envelope>, md: StreamMetadata, i: nat)
    requires StreamSteps(stream, records, md).Success? && i < |records|
    ensures |StreamSteps(stream, records, md).value| == |records|
    ensures EnvelopeOperation(stream, records[i], md) == Success(StreamSteps(stream, records, md).value[i].op)
    ensures StreamSteps(stream, records, md).value[i].stream == stream
  {
    var n := |records| - 1;
    if n > 0 { StreamStepsInOrder(stream, records[..n], md, if i < n then i else 0); }
  }

  ghost predicate EntryAccepted(entry: StreamRecords, streams: map<string, StreamMetadata>) {
    && entry.stream in streams && entry.records.Some?
    && forall i | 0 <= i < |entry.records.value| ::
      EnvelopeAccepted(entry.stream, entry.records.value, streams[entry.stream], i)
  }

  lemma EntryStepsIff(entry: StreamRecords, streams: map<string, StreamMetadata>)
    ensures EntrySteps(entry, streams).Success? <==> EntryAccepted(entry, streams)
  {
    if entry.stream in streams && entry.records.Some? {
      StreamStepsIff(entry.stream, entry.records.value, streams[entry.stream]);
    }
  }

  /** Records are accepted exactly when every stream is known, holds an array, and every envelope is accepted. */
  lemma {:induction false} SnapshotStepsIff(entries: seq<StreamRecords>, streams: map<string, StreamMetadata>)
    ensures SnapshotSteps(entries, streams).Success? <==> forall e | e in entries :: EntryAccepted(e, streams)
  {
    if entries != [] {
      var n := |entries| - 1;
      SnapshotStepsIff(entries[..n], streams);
      assert forall e :: e in entries <==> e in entries[..n] || e == entries[n];
      EntryStepsIff(entries[n], streams);
      assert SnapshotSteps(entries, streams).Success? <==>
        SnapshotSteps(entries[..n], streams).Success? && EntrySteps(entries[n], streams).Success?;
    }
  }

  /** The first reset stream that cannot be reset. */
  function ResetError(
    resets: seq<string>, entries: seq<StreamRecords>, streams: map<string, StreamMetadata>): Option<Error> {
    if resets == [] then None
    else if resets[0] !in streams then Some(InvalidRecord)
    else if forall e | e in entries :: e.stream != resets[0] then Some(InvalidSnapshot)
    else ResetError(resets[1..], entries, streams)
  }

  predicate AllDistinct(names: seq<string>) {
    forall i, j | 0 <= i < j < |names| :: names[i] != names[j]
  }

  function CheckSnapshot(
    snapshot: Option<SnapshotMetadata>, entries: seq<StreamRecords>, streams: map<string, StreamMetadata>,
    isTimestamp: string -> bool): Result<Resets, Error> {
    match snapshot
    case None => Success(Resets([], ""))
    case Some(Malformed) => Failure(InvalidSnapshot)
    case Some(Described(mode, resetStreams, completedAt)) =>
      if mode != "full_refresh" && mode != "incremental" then Failure(InvalidSnapshot)
      else if resetStreams.None? || "" in resetStreams.value || !AllDistinct(resetStreams.value)
        then Failure(InvalidSnapshot)
      else if mode == "incremental" && resetStreams.value != [] then Failure(InvalidSnapshot)
      else
        match ResetError(resetStreams.value, entries, streams)
        case Some(e) => Failure(e)
        case None =>
          if resetStreams.value == [] then Success(Resets([], ""))
          else if !isTimestamp(completedAt) then Failure(InvalidSnapshot)
          else Success(Resets(resetStreams.value, completedAt))
  }

  lemma {:induction false} ResetErrorIff(
    resets: seq<string>, entries: seq<StreamRecords>, streams: map<string, StreamMetadata>)
    ensures ResetError(resets, entries, streams).None? <==> forall s | s in resets ::
      s in streams && Included(s, entries)
  {
    if resets != [] {
      ResetErrorIff(resets[1..], entries, streams);
      assert forall s :: s in resets <==> s == resets[0] || s in resets[1..];
      assert (forall e | e in entries :: e.stream != resets[0]) <==> !Included(resets[0], entries);
    }
  }

  ghost predicate Included(stream: string, entries: seq<StreamRecords>) {
    exists e :: e in entries && e.stream == stream
  }

  /**
   * Snapshot metadata is accepted exactly when it is absent, or says how it was collected and
   * resets, each once and only in a full refresh, streams that are known and included, with the
   * time it was completed; the streams to reset are then the ones it names.
   */
  lemma CheckedSnapshot(
    snapshot: Option<SnapshotMetadata>, entries: seq<StreamRecords>, streams: map<string, StreamMetadata>,
    isTimestamp: string -> bool)
    ensures CheckSnapshot(snapshot, entries, streams, isTimestamp).Success? <==> snapshot.Some? ==>
      && snapshot.value.Described? && snapshot.value.collectionMode in {"full_refresh", "incremental"}
      && snapshot.value.resetStreams.Some?
      && var resets := snapshot.value.resetStreams.value;
         && (forall i, j | 0 <= i < j < |resets| :: resets[i] != resets[j])
         && (forall s | s in resets :: s != "" && s in streams && Included(s, entries))
         && (resets != [] ==>
           snapshot.value.collectionMode == "full_refresh" && isTimestamp(snapshot.value.completedAt))
    ensures CheckSnapshot(snapshot, entries, streams, isTimestamp).Success? ==>
      var resets := CheckSnapshot(snapshot, entries, streams, isTimestamp).value;
      && resets.streams == (if snapshot.Some? then snapshot.value.resetStreams.value else [])
      && (resets.streams != [] ==> resets.completedAt == snapshot.value.completedAt)
  {
    if snapshot.Some? && snapshot.value.Described? && snapshot.value.resetStreams.Some? {
      ResetErrorIff(snapshot.value.resetStreams.value, entries, streams);
    }
  }

  // ---------- What it means for one stream ----------

  function OpsOn(steps: seq<Step>, stream: string): seq<Operation> {
    if steps == [] then []
    else
      var n := |steps| - 1;
      OpsOn(steps[..n], stream) + if steps[n].stream == stream then [steps[n].op] else []
  }

  lemma {:induction false} OpsOnConcat(a: seq<Step>, b: seq<Step>, stream: string)
    ensures OpsOn(a + b, stream) == OpsOn(a, stream) + OpsOn(b, stream)
  {
    if b == [] {
      assert a + b == a;
    } else {
      assert (a + b)[..|a + b| - 1] == a + b[..|b| - 1];
      OpsOnConcat(a, b[..|b| - 1], stream);
    }
  }

  /** A stream's steps are all its own. */
  lemma {:induction false} StreamStepsOwn(stream: string, records: seq<Envelope>, md: StreamMetadata, other: string)
    requires StreamSteps(stream, records, md).Success? && other != stream
    ensures OpsOn(StreamSteps(stream, records, md).value, other) == []
    decreases |records|
  {
    if records != [] {
      StreamStepsOwn(stream, records[..|records| - 1], md, other);
      var steps := StreamSteps(stream, records, md).value;
      assert steps[..|steps| - 1] == StreamSteps(stream, records[..|records| - 1], md).value;
    }
  }

  lemma {:induction false} AppendAllConcat(h: seq<Row>, a: seq<Operation>, b: seq<Operation>)
    ensures AppendAll(h, a + b) == AppendAll(AppendAll(h, a), b)
    decreases |a|
  {
    if a == [] {
      assert a + b == b;
    } else {
      assert (a + b)[0] == a[0] && (a + b)[1..] == a[1..] + b;
      AppendAllConcat(Append(h, a[0]), a[1..], b);
    }
  }

  function UpsertKeys(ops: seq<Operation>): set<string> {
    set op | op in ops && op.Upsert? :: op.key
  }

  lemma UpsertKeysConcat(a: seq<Operation>, b: seq<Operation>)
    ensures UpsertKeys(a + b) == UpsertKeys(a) + UpsertKeys(b)
  {
  }

  /** One more envelope: what it adds to the stream's steps and to its history. */
  lemma OneMoreEnvelope(
    stream: string, records: seq<Envelope>, i: nat, md: StreamMetadata, steps: seq<Step>, op: Operation, h: seq<Row>)
    requires i < |records| && StreamSteps(stream, records[..i], md) == Success(steps)
    requires EnvelopeOperation(stream, records[i], md) == Success(op)
    ensures var steps' := steps + [Step(stream, op)];
      && StreamSteps(stream, records[..i + 1], md) == Success(steps')
      && AppendAll(h, OpsOn(steps', stream)) == Append(AppendAll(h, OpsOn(steps, stream)), op)
      && UpsertKeys(OpsOn(steps', stream)) == UpsertKeys(OpsOn(steps, stream)) + (if op.Upsert? then {op.key} else {})
  {
    StreamStepsSnoc(stream, records, i, md, steps, op);
    OpsOnSnoc(steps, stream, op);
    AppendAllSnoc(h, OpsOn(steps, stream), op);
    UpsertKeysSnoc(OpsOn(steps, stream), op);
  }

  lemma StreamStepsSnoc(
    stream: string, records: seq<Envelope>, i: nat, md: StreamMetadata, steps: seq<Step>, op: Operation)
    requires i < |records| && StreamSteps(stream, records[..i], md) == Success(steps)
    requires EnvelopeOperation(stream, records[i], md) == Success(op)
    ensures StreamSteps(stream, records[..i + 1], md) == Success(steps + [Step(stream, op)])
  {
    assert records[..i + 1][..i] == records[..i];
  }

  lemma UpsertKeysSnoc(ops: seq<Operation>, op: Operation)
    ensures UpsertKeys(ops + [op]) == UpsertKeys(ops) + (if op.Upsert? then {op.key} else {})
  {
    UpsertKeysConcat(ops, [op]);
  }

  lemma OpsOnSnoc(steps: seq<Step>, stream: string, op: Operation)
    ensures OpsOn(steps + [Step(stream, op)], stream) == OpsOn(steps, stream) + [op]
  {
    assert (steps + [Step(stream, op)])[..|steps|] == steps;
  }

  /** One more stream: what it adds to the snapshot's steps and to a history. */
  lemma OneMoreStream(
    entries: seq<StreamRecords>, i: nat, streams: map<string, StreamMetadata>, steps: seq<Step>, more: seq<Step>,
    s: string, h: seq<Row>)
    requires i < |entries| && SnapshotSteps(entries[..i], streams) == Success(steps)
    requires EntrySteps(entries[i], streams) == Success(more)
    ensures SnapshotSteps(entries[..i + 1], streams) == Success(steps + more)
    ensures AppendAll(h, OpsOn(steps + more, s)) == AppendAll(AppendAll(h, OpsOn(steps, s)), OpsOn(more, s))
    ensures UpsertKeys(OpsOn(steps + more, s)) == UpsertKeys(OpsOn(steps, s)) + UpsertKeys(OpsOn(more, s))
    ensures s != entries[i].stream ==> OpsOn(more, s) == []
  {
    assert entries[..i + 1][..i] == entries[..i];
    OpsOnConcat(steps, more, s);
    AppendAllConcat(h, OpsOn(steps, s), OpsOn(more, s));
    UpsertKeysConcat(OpsOn(steps, s), OpsOn(more, s));
    if s != entries[i].stream {
      StreamStepsOwn(entries[i].stream, entries[i].records.value, streams[entries[i].stream], s);
    }
  }

  function Stale(h: seq<Row>, present: set<string>): set<string> {
    set k | k in LiveData(h) && k !in present
  }

  function Deletes(keys: seq<string>, at: string): seq<Operation> {
    seq(|keys|, i requires 0 <= i < |keys| => Delete(keys[i], at))
  }

  lemma OneMoreDelete(h: seq<Row>, keys: seq<string>, key: string, at: string)
    ensures AppendAll(h, Deletes(keys + [key], at)) == Append(AppendAll(h, Deletes(keys, at)), Delete(key, at))
  {
    assert Deletes(keys + [key], at) == Deletes(keys, at) + [Delete(key, at)];
    AppendAllSnoc(h, Deletes(keys, at), Delete(key, at));
  }

  ghost predicate ListsKeys(keys: seq<string>, s: set<string>) {
    AllDistinct(keys) && forall k :: k in keys <==> k in s
  }

  lemma ListsOneMore(keys: seq<string>, s: set<string>, key: string)
    requires ListsKeys(keys, s) && key !in s
    ensures ListsKeys(keys + [key], s + {key})
  {
    assert key !in keys;
  }

  ghost function NextListed(keys: seq<string>, all: set<string>, rest: set<string>, key: string): (keys': seq<string>)
    requires ListsKeys(keys, all - rest) && key in rest && rest <= all
    ensures keys' == keys + [key] && ListsKeys(keys', all - (rest - {key}))
  {
    ListsOneMore(keys, all - rest, key);
    assert all - (rest - {key}) == (all - rest) + {key};
    keys + [key]
  }

  lemma NothingLeft(keys: seq<string>, all: set<string>, rest: set<string>)
    requires ListsKeys(keys, all - rest) && rest == {}
    ensures ListsKeys(keys, all)
  {
    assert all - rest == all;
  }

  /** h2 is h1 after one logged delete, in some order, of every live key that is not present. */
  ghost predicate Reconciled(h1: seq<Row>, h2: seq<Row>, present: set<string>, at: string) {
    exists keys :: ListsKeys(keys, Stale(h1, present)) && h2 == AppendAll(h1, Deletes(keys, at))
  }

  /** The history of a stream after importing its operations, reset or merged. */
  ghost predicate Imported(h: seq<Row>, h': seq<Row>, ops: seq<Operation>, reset: bool, at: string) {
    if reset then Reconciled(AppendAll(h, ops), h', UpsertKeys(ops), at) else h' == AppendAll(h, ops)
  }

  // ---------- Effects on the live data ----------

  function AppliedAll(live: map<string, Data>, ops: seq<Operation>): map<string, Data>
    decreases |ops|
  {
    if ops == [] then live else AppliedAll(Applied(live, ops[0]), ops[1..])
  }

  lemma {:induction false} AppendAllRefinesMap(h: seq<Row>, ops: seq<Operation>)
    ensures LiveData(AppendAll(h, ops)) == AppliedAll(LiveData(h), ops)
    decreases |ops|
  {
    if ops != [] {
      AppendRefinesMap(h, ops[0]);
      AppendAllRefinesMap(Append(h, ops[0]), ops[1..]);
    }
  }

  function LastOp(ops: seq<Operation>, k: string): Option<Operation> {
    if ops == [] then None
    else
      var n := |ops| - 1;
      if ops[n].key == k then Some(ops[n]) else LastOp(ops[..n], k)
  }

  /** The payload an operation leaves under its key. */
  function Outcome(op: Operation): Option<Data> {
    if op.Upsert? then Some(op.data) else None
  }

  lemma {:induction false} LastOpDecides(live: map<string, Data>, ops: seq<Operation>, k: string)
    ensures Lookup(AppliedAll(live, ops), k) == match LastOp(ops, k)
      case None => Lookup(live, k)
      case Some(op) => Outcome(op)
    decreases |ops|
  {
    if ops != [] {
      var n := |ops| - 1;
      LastOpDecides(live, ops[..n], k);
      AppliedAllSnoc(live, ops[..n], ops[n]);
      assert ops == ops[..n] + [ops[n]];
    }
  }

  lemma {:induction false} AppliedAllSnoc(live: map<string, Data>, ops: seq<Operation>, op: Operation)
    ensures AppliedAll(live, ops + [op]) == Applied(AppliedAll(live, ops), op)
    decreases |ops|
  {
    if ops == [] {
      assert ops + [op] == [op];
      assert AppliedAll(Applied(live, op), []) == Applied(live, op);
    } else {
      assert (ops + [op])[0] == ops[0] && (ops + [op])[1..] == ops[1..] + [op];
      AppliedAllSnoc(Applied(live, ops[0]), ops[1..], op);
    }
  }

  lemma {:induction false} LastOpMember(ops: seq<Operation>, k: string)
    ensures LastOp(ops, k).Some? ==> LastOp(ops, k).value in ops && LastOp(ops, k).value.key == k
    ensures LastOp(ops, k).None? ==> forall op | op in ops :: op.key != k
  {
    if ops != [] {
      var n := |ops| - 1;
      LastOpMember(ops[..n], k);
      assert ops == ops[..n] + [ops[n]];
    }
  }

  lemma {:induction false} DeletesRemove(live: map<string, Data>, keys: seq<string>, at: string, k: string)
    ensures Lookup(AppliedAll(live, Deletes(keys, at)), k) == if k in keys then None else Lookup(live, k)
    decreases |keys|
  {
    if keys != [] {
      assert Deletes(keys, at)[1..] == Deletes(keys[1..], at);
      DeletesRemove(Applied(live, Delete(keys[0], at)), keys[1..], at, k);
      assert keys == [keys[0]] + keys[1..];
    }
  }

  /** Reconciling a reset stream leaves exactly the live keys that were present, untouched. */
  lemma ReconciledLive(h1: seq<Row>, h2: seq<Row>, present: set<string>, at: string, k: string)
    requires Reconciled(h1, h2, present, at)
    ensures Lookup(LiveData(h2), k) == if k in present then Lookup(LiveData(h1), k) else None
  {
    var keys :| ListsKeys(keys, Stale(h1, present)) && h2 == AppendAll(h1, Deletes(keys, at));
    AppendAllRefinesMap(h1, Deletes(keys, at));
    DeletesRemove(LiveData(h1), keys, at, k);
  }

  /**
   * After an import a reset stream's live keys are exactly those whose last operation in the
   * snapshot was an upsert, holding that payload; in a stream that is not reset, keys the
   * snapshot does not mention keep what they had.
   */
  lemma ImportExact(h: seq<Row>, h': seq<Row>, ops: seq<Operation>, reset: bool, at: string, k: string)
    requires Imported(h, h', ops, reset, at)
    ensures Lookup(LiveData(h'), k) == match LastOp(ops, k)
      case Some(op) => Outcome(op)
      case None => if reset then None else Lookup(LiveData(h), k)
  {
    AppendAllRefinesMap(h, ops);
    LastOpDecides(LiveData(h), ops, k);
    LastOpMember(ops, k);
    if reset {
      ReconciledLive(AppendAll(h, ops), h', UpsertKeys(ops), at, k);
    }
  }

  lemma ImportedGrows(h: seq<Row>, h': seq<Row>, ops: seq<Operation>, reset: bool, at: string)
    requires IsHistory(h) && Imported(h, h', ops, reset, at)
    ensures IsHistory(h') && h <= h'
  {
    AppendAllIsHistory(h, ops);
    if reset {
      var h1 := AppendAll(h, ops);
      var keys :| ListsKeys(keys, Stale(h1, UpsertKeys(ops))) && h' == AppendAll(h1, Deletes(keys, at));
      AppendAllIsHistory(h1, Deletes(keys, at));
    }
  }

  /** A key that stops being live does so by a logged delete of its own. */
  lemma RemovalIsLogged(h: seq<Row>, h': seq<Row>, k: string)
    requires IsHistory(h') && h <= h'
    requires k in LiveData(h) && k !in LiveData(h')
    ensures exists i :: |h| <= i < |h'| && h'[i].key == k && h'[i].deleted
  {
    HistoryNumbered(h');
    assert h'[..|h|] == h && h'[0..|h|] == h && h'[0..|h'|] == h';
    LatestWithinSplit(h', 0, |h|, |h'|);
    assert k in LatestWithin(h', |h|, |h'|);
    LatestWithinVersions(h', |h|, |h'|, k);
    var row := LatestWithin(h', |h|, |h'|)[k];
    assert h'[row.version - 1].deleted;
  }

  // ---------- Importing the same snapshot again ----------

  /** Operations on the same key agree on what they leave there. */
  predicate Repeatable(ops: seq<Operation>) {
    forall a, b | a in ops && b in ops && a.key == b.key :: Outcome(a) == Outcome(b)
  }

  lemma {:induction false} SilentIff(h: seq<Row>, ops: seq<Operation>)
    requires IsHistory(h)
    ensures AppendAll(h, ops) == h <==> forall op | op in ops :: Lookup(LiveData(h), op.key) == Outcome(op)
    decreases |ops|
  {
    if ops != [] {
      var op, rest := ops[0], ops[1..];
      AppendRefinesMap(h, op);
      AppendIsHistory(h, op);
      assert Applied(LiveData(h), op) == LiveData(h) <==> Lookup(LiveData(h), op.key) == Outcome(op);
      assert ops == [op] + rest;
      if Append(h, op) == h {
        SilentIff(h, rest);
      } else {
        AppendAllIsHistory(Append(h, op), rest);
      }
    }
  }

  /**
   * Re-importing a snapshot writes nothing, full-refresh reconciliation included, if and only
   * if its operations on the same key agree; mentioning each key at most once is enough.
   */
  lemma ReimportSilentIff(
    h: seq<Row>, h': seq<Row>, h'': seq<Row>, ops: seq<Operation>, reset: bool, at: string, at': string)
    requires IsHistory(h) && Imported(h, h', ops, reset, at) && Imported(h', h'', ops, reset, at')
    ensures h'' == h' <==> Repeatable(ops)
  {
    ImportedGrows(h, h', ops, reset, at);
    ImportedGrows(h', h'', ops, reset, at');
    SilentIff(h', ops);
    forall op | op in ops
      ensures exists l :: l in ops && l.key == op.key && Lookup(LiveData(h'), op.key) == Outcome(l)
    {
      ImportExact(h, h', ops, reset, at, op.key);
      LastOpMember(ops, op.key);
      assert LastOp(ops, op.key).value in ops;
    }
    AppendAllIsHistory(h', ops);
    if reset {
      ReconcileSilent(h', h'', ops, at', h, at);
    }
  }

  lemma ReconcileSilent(h': seq<Row>, h'': seq<Row>, ops: seq<Operation>, at': string, h: seq<Row>, at: string)
    requires IsHistory(h) && IsHistory(h') && Imported(h, h', ops, true, at) && Imported(h', h'', ops, true, at')
    ensures AppendAll(h', ops) == h' <==> h'' == h'
  {
    var h1 := AppendAll(h', ops);
    AppendAllIsHistory(h', ops);
    var keys :| ListsKeys(keys, Stale(h1, UpsertKeys(ops))) && h'' == AppendAll(h1, Deletes(keys, at'));
    AppendAllIsHistory(h1, Deletes(keys, at'));
    if h1 == h' {
      forall k | k in LiveData(h') ensures k in UpsertKeys(ops) {
        ImportExact(h, h', ops, true, at, k);
        LastOpMember(ops, k);
      }
      assert Stale(h1, UpsertKeys(ops)) == {};
      NoKeys(keys);
    }
  }

  lemma NoKeys(keys: seq<string>)
    requires ListsKeys(keys, {})
    ensures keys == []
  {
    FirstIsMember(keys);
  }

  /** Such an input: one key named twice with different payloads. Every import of it writes two changes. */
  lemma ReimportWritesExample(d1: Data, d2: Data, at: string)
    requires d1 != d2
    ensures !Repeatable(NamedTwice(d1, d2))
    ensures var ops := NamedTwice(d1, d2);
      var once := AppendAll([], ops);
      var twice := AppendAll(once, ops);
      && Imported([], once, ops, false, at) && Imported(once, twice, ops, false, at)
      && |once| == 2 && |twice| == 4
  {
    NotRepeatable(d1, d2);
    TwoWrites([], d1, d2);
    TwoWrites(AppendAll([], NamedTwice(d1, d2)), d1, d2);
  }

  function NamedTwice(d1: Data, d2: Data): seq<Operation> {
    [Upsert("a", d1, "t"), Upsert("a", d2, "t")]
  }

  lemma NotRepeatable(d1: Data, d2: Data)
    requires d1 != d2
    ensures !Repeatable(NamedTwice(d1, d2))
  {
    var ops := NamedTwice(d1, d2);
    assert ops[0] in ops && ops[1] in ops && Outcome(ops[0]) != Outcome(ops[1]);
  }

  /** Where the key does not hold d1, writing d1 and then d2 under it adds two rows and leaves d2. */
  lemma TwoWrites(h: seq<Row>, d1: Data, d2: Data)
    requires d1 != d2 && Lookup(LiveData(h), "a") != Some(d1)
    ensures var h' := AppendAll(h, NamedTwice(d1, d2));
      |h'| == |h| + 2 && Lookup(LiveData(h'), "a") == Some(d2)
  {
    var first, second := Upsert("a", d1, "t"), Upsert("a", d2, "t");
    OneWrite(h, first);
    OneWrite(Append(h, first), second);
    assert [first, second][1..] == [second] && [second][1..] == [];
    assert AppendAll(h, NamedTwice(d1, d2)) == AppendAll(Append(h, first), [second]);
    assert AppendAll(Append(h, first), [second]) == Append(Append(h, first), second);
  }

  lemma OneWrite(h: seq<Row>, op: Operation)
    requires op.Upsert? && Lookup(LiveData(h), op.key) != Some(op.data)
    ensures |Append(h, op)| == |h| + 1 && Lookup(LiveData(Append(h, op)), op.key) == Some(op.data)
  {
    AppendRefinesMap(h, op);
  }

  lemma OncePerKeyRepeatable(ops: seq<Operation>)
    requires forall i, j | 0 <= i < j < |ops| :: ops[i].key != ops[j].key
    ensures Repeatable(ops)
  {
    forall a, b | a in ops && b in ops && a.key == b.key ensures Outcome(a) == Outcome(b) {
      var i :| 0 <= i < |ops| && ops[i] == a;
      var j :| 0 <= j < |ops| && ops[j] == b;
    }
  }
}

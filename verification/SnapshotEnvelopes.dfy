/** What importing a snapshot leaves in the store, in terms of the envelopes it was given. */
module SnapshotEnvelopes {
  import opened Wrappers
  import opened RecordModel
  import opened RecordHistory
  import opened SnapshotImport

  // ---------- One envelope ----------

  /** An envelope that asks for its data to be stored: it says so, or nothing. */
  ghost predicate AsksToStore(e: Envelope) {
    e.Envelope? && (e.op == None || e.op == Some("upsert"))
  }

  ghost predicate AsksToDelete(e: Envelope) {
    e.Envelope? && e.op == Some("delete")
  }

  /** An envelope of this stream that can be carried out. */
  ghost predicate ProperEnvelope(stream: string, e: Envelope, md: StreamMetadata) {
    && e.Envelope? && e.stream == stream
    && ((AsksToStore(e) && e.data.Some? && ProperRecord(e.key, e.data.value, e.emittedAt, md))
      || (AsksToDelete(e) && e.key != "" && md.isTemporal(e.emittedAt, DateTime)))
  }

  /** An envelope is accepted exactly when it is a proper one, and asks for what it says. */
  lemma EnvelopeExact(stream: string, e: Envelope, md: StreamMetadata)
    ensures EnvelopeOperation(stream, e, md).Success? <==> ProperEnvelope(stream, e, md)
    ensures ProperEnvelope(stream, e, md) && AsksToStore(e) ==>
      EnvelopeOperation(stream, e, md) == Success(Upsert(e.key, e.data.value, e.emittedAt))
    ensures ProperEnvelope(stream, e, md) && AsksToDelete(e) ==>
      EnvelopeOperation(stream, e, md) == Success(Delete(e.key, e.emittedAt))
    ensures e.NotAnObject? || e.stream != stream || !(AsksToStore(e) || AsksToDelete(e)) ==>
      EnvelopeOperation(stream, e, md) == Failure(InvalidRecord)
  {
    if e.Envelope? {
      RecordAcceptedIff(e.key, e.data, e.emittedAt, md);
      DeletionAcceptedIff(e.key, e.emittedAt, md);
    }
  }

  /** A whole snapshot of proper envelopes: every stream known, every value a list. */
  ghost predicate ProperEntries(entries: seq<StreamRecords>, streams: map<string, StreamMetadata>) {
    forall e | e in entries ::
      && e.stream in streams && e.records.Some?
      && forall i | 0 <= i < |e.records.value| :: ProperEnvelope(e.stream, e.records.value[i], streams[e.stream])
  }

  lemma SnapshotAcceptedIff(entries: seq<StreamRecords>, streams: map<string, StreamMetadata>)
    ensures SnapshotSteps(entries, streams).Success? <==> ProperEntries(entries, streams)
  {
    SnapshotStepsIff(entries, streams);
    forall e, i | e in entries && e.stream in streams && e.records.Some? && 0 <= i < |e.records.value|
      ensures EnvelopeAccepted(e.stream, e.records.value, streams[e.stream], i)
        <==> ProperEnvelope(e.stream, e.records.value[i], streams[e.stream])
    {
      EnvelopeExact(e.stream, e.records.value[i], streams[e.stream]);
    }
  }

  // ---------- The last envelope of a key ----------

  ghost predicate Names(entry: StreamRecords, stream: string, k: string, j: int) {
    && entry.stream == stream && entry.records.Some? && 0 <= j < |entry.records.value|
    && entry.records.value[j].Envelope? && entry.records.value[j].key == k
  }

  /** The last envelope of a stream that names the key. */
  ghost predicate LastNamed(entries: seq<StreamRecords>, stream: string, k: string, i: int, j: int) {
    && 0 <= i < |entries| && Names(entries[i], stream, k, j)
    && (forall j' | j < j' :: !Names(entries[i], stream, k, j'))
    && (forall i', j' | i < i' < |entries| :: !Names(entries[i'], stream, k, j'))
  }

  ghost predicate NeverNamed(entries: seq<StreamRecords>, stream: string, k: string) {
    forall i, j | 0 <= i < |entries| :: !Names(entries[i], stream, k, j)
  }

  /** What an envelope asks to be left under its key. */
  ghost function Asked(e: Envelope): Option<Data>
    requires e.Envelope?
  {
    if e.op == Some("delete") then None else e.data
  }

  /**
   * What an import leaves in a stream: a key whose last envelope asks for its deletion holds
   * nothing, any other key that is named its last envelope's data, and a key that is not named
   * nothing in a stream that is reset and what it held in one that is not.
   */
  ghost predicate Landed(
    entries: seq<StreamRecords>, stream: string, reset: bool, live: map<string, Data>, live': map<string, Data>) {
    && (forall k, i, j | LastNamed(entries, stream, k, i, j) ::
      Lookup(live', k) == Asked(entries[i].records.value[j]))
    && (forall k | NeverNamed(entries, stream, k) :: Lookup(live', k) == if reset then None else Lookup(live, k))
  }

  /** Metadata that names the stream among those to reset. */
  ghost predicate ResetsStream(snapshot: Option<SnapshotMetadata>, stream: string) {
    exists mode, resets, at :: snapshot == Some(Described(mode, Some(resets), at)) && stream in resets
  }

  lemma {:induction false} LastOpAt(ops: seq<Operation>, k: string, j: nat)
    requires j < |ops| && ops[j].key == k && forall j' | j < j' < |ops| :: ops[j'].key != k
    ensures LastOp(ops, k) == Some(ops[j])
  {
    if j < |ops| - 1 { LastOpAt(ops[..|ops| - 1], k, j); }
  }

  lemma {:induction false} LastOpConcat(a: seq<Operation>, b: seq<Operation>, k: string)
    ensures LastOp(a + b, k) == if LastOp(b, k).Some? then LastOp(b, k) else LastOp(a, k)
  {
    if b == [] {
      assert a + b == a;
    } else {
      assert (a + b)[..|a + b| - 1] == a + b[..|b| - 1];
      LastOpConcat(a, b[..|b| - 1], k);
    }
  }

  /** The operations of an accepted entry, on its own stream and on others. */
  lemma EntryOps(entry: StreamRecords, streams: map<string, StreamMetadata>, stream: string)
    requires EntrySteps(entry, streams).Success?
    ensures entry.records.Some?
    ensures var ops := OpsOn(EntrySteps(entry, streams).value, stream);
      if entry.stream != stream then ops == []
      else
        && |ops| == |entry.records.value|
        && forall j | 0 <= j < |ops| ::
          EnvelopeOperation(stream, entry.records.value[j], streams[stream]) == Success(ops[j])
  {
    var records, md := entry.records.value, streams[entry.stream];
    if entry.stream != stream {
      StreamStepsOwn(entry.stream, records, md, stream);
    } else {
      StreamOps(stream, records, md);
    }
  }

  lemma {:induction false} StreamOps(stream: string, records: seq<Envelope>, md: StreamMetadata)
    requires StreamSteps(stream, records, md).Success?
    ensures var ops := OpsOn(StreamSteps(stream, records, md).value, stream);
      && |ops| == |records|
      && forall j | 0 <= j < |ops| :: EnvelopeOperation(stream, records[j], md) == Success(ops[j])
  {
    if records != [] {
      var n := |records| - 1;
      StreamOps(stream, records[..n], md);
      OpsOnSnoc(StreamSteps(stream, records[..n], md).value, stream, EnvelopeOperation(stream, records[n], md).value);
    }
  }

  lemma EntryLastOp(entry: StreamRecords, streams: map<string, StreamMetadata>, stream: string, k: string, j: nat)
    requires EntrySteps(entry, streams).Success? && Names(entry, stream, k, j)
    requires forall j' | j < j' :: !Names(entry, stream, k, j')
    ensures stream in streams && EnvelopeOperation(stream, entry.records.value[j], streams[stream]).Success?
    ensures LastOp(OpsOn(EntrySteps(entry, streams).value, stream), k)
      == Some(EnvelopeOperation(stream, entry.records.value[j], streams[stream]).value)
  {
    EntryOps(entry, streams, stream);
    var ops := OpsOn(EntrySteps(entry, streams).value, stream);
    forall j' | 0 <= j' < |ops| ensures (ops[j'].key == k) <==> Names(entry, stream, k, j') {
      EnvelopeExact(stream, entry.records.value[j'], streams[stream]);
    }
    LastOpAt(ops, k, j);
  }

  lemma EntryNoOp(entry: StreamRecords, streams: map<string, StreamMetadata>, stream: string, k: string)
    requires EntrySteps(entry, streams).Success? && forall j :: !Names(entry, stream, k, j)
    ensures LastOp(OpsOn(EntrySteps(entry, streams).value, stream), k) == None
  {
    EntryOps(entry, streams, stream);
    var ops := OpsOn(EntrySteps(entry, streams).value, stream);
    forall j | 0 <= j < |ops| ensures ops[j].key != k {
      EnvelopeExact(stream, entry.records.value[j], streams[stream]);
      assert !Names(entry, stream, k, j);
    }
    LastOpMember(ops, k);
  }

  /** The last operation on a key is that of its last envelope. */
  lemma {:induction false} LastNamedDecides(
    entries: seq<StreamRecords>, streams: map<string, StreamMetadata>, stream: string, k: string, i: int, j: int)
    requires SnapshotSteps(entries, streams).Success? && LastNamed(entries, stream, k, i, j)
    ensures stream in streams
    ensures EnvelopeOperation(stream, entries[i].records.value[j], streams[stream]).Success?
    ensures LastOp(OpsOn(SnapshotSteps(entries, streams).value, stream), k)
      == Some(EnvelopeOperation(stream, entries[i].records.value[j], streams[stream]).value)
  {
    var n := |entries| - 1;
    var before, last := SnapshotSteps(entries[..n], streams).value, EntrySteps(entries[n], streams).value;
    OpsOnConcat(before, last, stream);
    LastOpConcat(OpsOn(before, stream), OpsOn(last, stream), k);
    if i == n {
      EntryLastOp(entries[n], streams, stream, k, j);
    } else {
      EntryNoOp(entries[n], streams, stream, k);
      LastNamedDecides(entries[..n], streams, stream, k, i, j);
    }
  }

  lemma {:induction false} NeverNamedDecides(
    entries: seq<StreamRecords>, streams: map<string, StreamMetadata>, stream: string, k: string)
    requires SnapshotSteps(entries, streams).Success? && NeverNamed(entries, stream, k)
    ensures LastOp(OpsOn(SnapshotSteps(entries, streams).value, stream), k) == None
  {
    if entries != [] {
      var n := |entries| - 1;
      var before, last := SnapshotSteps(entries[..n], streams).value, EntrySteps(entries[n], streams).value;
      OpsOnConcat(before, last, stream);
      LastOpConcat(OpsOn(before, stream), OpsOn(last, stream), k);
      EntryNoOp(entries[n], streams, stream, k);
      NeverNamedDecides(entries[..n], streams, stream, k);
    }
  }

  /** An import lands as its envelopes say. */
  lemma ImportLands(
    entries: seq<StreamRecords>, streams: map<string, StreamMetadata>, stream: string, reset: bool, at: string,
    h: seq<Row>, h': seq<Row>)
    requires SnapshotSteps(entries, streams).Success?
    requires Imported(h, h', OpsOn(SnapshotSteps(entries, streams).value, stream), reset, at)
    ensures Landed(entries, stream, reset, LiveData(h), LiveData(h'))
  {
    var ops, live, live' := OpsOn(SnapshotSteps(entries, streams).value, stream), LiveData(h), LiveData(h');
    forall k
      ensures Lookup(live', k) == match LastOp(ops, k)
        case Some(op) => Outcome(op)
        case None => if reset then None else Lookup(live, k)
    {
      ImportExact(h, h', ops, reset, at, k);
    }
    forall k, i, j | LastNamed(entries, stream, k, i, j)
      ensures LastOp(ops, k).Some? && Outcome(LastOp(ops, k).value) == Asked(entries[i].records.value[j])
    {
      LastNamedDecides(entries, streams, stream, k, i, j);
      EnvelopeExact(stream, entries[i].records.value[j], streams[stream]);
    }
    forall k | NeverNamed(entries, stream, k) ensures LastOp(ops, k).None? {
      NeverNamedDecides(entries, streams, stream, k);
    }
  }
}

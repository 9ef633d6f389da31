/**
 * Boot-time run reconciliation, reference-implementation/lib/controller-boot.ts: claim an
 * identity, stamp an epoch, abandon the runs that earlier processes left open, repair their
 * durable projection. On SQLite the pass is not one transaction: `budget` is the number of
 * writing statements the process still gets through before it dies.
 */
module BootReconciliation {
  import opened Wrappers
  import opened Orders
  import opened BootLog
  import opened BootConvergence
  import opened BootOutcomes

  class ControllerDatabase {
    var identity: Option<string>
    var events: seq<SpineEvent>
    var history: map<string, RunRow>
    var budget: nat

    ghost predicate Valid() reads this`events {
      UniqueCauses(events) && EventIdsUnique(events)
    }

    constructor (events: seq<SpineEvent>, history: map<string, RunRow>)
      requires UniqueCauses(events) && EventIdsUnique(events)
      ensures Valid() && identity == None && this.events == events && this.history == history
    {
      identity, this.events, this.history, budget := None, events, history, 0;
    }

    /** One more writing statement, unless the process dies before it. */
    method Spend() returns (alive: bool)
      modifies this`budget
      ensures alive <==> old(budget) > 0
      ensures budget == if alive then old(budget) - 1 else 0
    {
      alive := budget > 0;
      if alive { budget := budget - 1; }
    }

    /** A random event id: one that is not taken. */
    method FreshId() returns (id: string)
      ensures !HasId(events, id)
    {
      id := "evt_";
      while HasId(events, id)
        decreases |LongIds(events, id)|
      {
        FewerLongIds(events, id);
        id := id + "0";
      }
    }

    // ---------- Identity and epoch ----------

    /** Another process, booting at the same time, writes its own identity, if there is none yet. */
    method OtherProcess(writes: Option<string>)
      modifies this`identity
      ensures identity == if old(identity).None? then writes else old(identity)
    {
      if identity.None? { identity := writes; }
    }

    /**
     * The identity is written once, and every process ends with the one that was written first:
     * what was there, else what a rival writes before either of this one's first two
     * statements, else this one's seed. A rival that comes later changes nothing.
     */
    method LoadOrCreateDurableControllerId(seed: string, rivals: Rivals) returns (id: string)
      modifies this`identity
      ensures identity == Some(id) && id == FirstWritten(old(identity), rivals, seed)
    {
      OtherProcess(rivals.beforeRead);
      if identity.Some? && identity.value != "" { return identity.value; }
      OtherProcess(rivals.beforeInsert);
      if identity.None? { identity := Some(seed); }
      OtherProcess(rivals.afterInsert);
      id := if identity.Some? then identity.value else seed;
    }

    /** The boot event, numbered above every earlier boot of this controller. */
    method EmitControllerBooted(controllerId: string, bootEpoch: string) returns (epoch: BootEpoch)
      requires Valid()
      modifies this`events
      ensures Valid()
      ensures epoch.controllerId == controllerId && epoch.bootEpoch == bootEpoch
      ensures forall e | e in old(events) && e.eventType == "controller.booted"
        && e.controllerId == Some(controllerId) :: e.seqNo < epoch.seqNo
      ensures |events| == |old(events)| + 1 && events[..|old(events)|] == old(events)
      ensures events[|old(events)|].eventType == "controller.booted" && events[|old(events)|].seqNo == epoch.seqNo
      ensures events[|old(events)|].controllerId == Some(controllerId)
        && events[|old(events)|].bootEpoch == Some(bootEpoch)
    {
      epoch := BootEpoch(controllerId, bootEpoch, NextSeqIn(events, controllerId));
      var id := FreshId();
      var at: int := *;
      events := events + [SpineEvent(id, "controller.booted", at, None, None, None, None, Some(controllerId),
        Some(bootEpoch), epoch.seqNo, None, None)];
    }

    // ---------- Selecting ----------

    method SelectOrphans(epoch: BootEpoch) returns (orphans: seq<OrphanRow>)
      ensures orphans == OrphansUpTo(events, epoch, |events|)
    {
      orphans := [];
      for i := 0 to |events|
        invariant orphans == OrphansUpTo(events, epoch, i)
      {
        var s := events[i];
        if Orphan(events, s, epoch) { orphans := orphans + [OrphanRow(s, AwaitingInteraction(events, s.runId))]; }
      }
    }

    /** For every drifted run and connection, its earliest terminal event. */
    method SelectDrifted() returns (drifted: map<(string, string), SpineEvent>)
      ensures Selected(drifted, history, events) && |drifted| <= |history|
    {
      drifted := map[];
      var rest := history.Keys;
      while rest != {}
        invariant rest <= history.Keys
        invariant forall k | k in history && k !in rest && Drifted(history[k], events) ::
          (history[k].runId.value, history[k].instance.value) in drifted
        invariant forall p | p in drifted :: EarliestEnd(drifted[p], events, Some(p.0))
        invariant |drifted| + |rest| <= |history.Keys|
        decreases |rest|
      {
        SomeMember(rest);
        var k :| k in rest;
        rest := rest - {k};
        var r := history[k];
        if Drifted(r, events) && (r.runId.value, r.instance.value) !in drifted {
          EarliestExists(events, r.runId);
          ghost var first :| EarliestEnd(first, events, r.runId);
          assert first in events;
          var e :| e in events && EarliestEnd(e, events, r.runId);
          drifted := drifted[(r.runId.value, r.instance.value) := e];
        }
      }
    }

    // ---------- Writing ----------

    /** One update: the running rows of a run and connection adopt a terminal event. */
    method UpdateRunning(runId: string, instance: string, e: SpineEvent) returns (changes: nat)
      modifies this`history
      ensures history.Keys == old(history).Keys
      ensures forall k | k in old(history) ::
        history[k] == if Matches(old(history)[k], Some(runId), Some(instance)) then Projected(old(history)[k], e)
          else old(history)[k]
      ensures changes == |Matching(old(history), runId, instance)|
    {
      changes := |Matching(history, runId, instance)|;
      history := map k | k in history ::
        if Matches(history[k], Some(runId), Some(instance)) then Projected(history[k], e) else history[k];
    }

    /**
     * One abandonment: the event, then its projection onto exactly the running rows of its run
     * and connection. The index refuses a second event for the same start; a start without run
     * or connection id has no row to project on; a process that dies in between leaves the
     * event alone.
     */
    method EmitRunAbandoned(orphan: OrphanRow) returns (completed: bool, inserted: bool)
      requires Valid() && orphan.start in events && orphan.start.eventType == "run.started"
        && OnlyAbandoned(events, orphan.start.runId)
      modifies this`events, this`history, this`budget
      ensures Valid()
      ensures inserted <==> old(budget) > 0 && !AbandonedBy(old(events), orphan.start.eventId)
      ensures completed <==> old(budget) >= if inserted && HasRow(orphan.start) then 2 else 1
      ensures if inserted then Appends(old(events), events, orphan) && |events| == |old(events)| + 1
        else events == old(events)
      ensures completed ==> AbandonedBy(events, orphan.start.eventId)
      ensures HistoryOwnEvolves(old(history), history, events)
      ensures completed && inserted && HasRow(orphan.start) ==> forall k | k in old(history) ::
        history[k] == if Matches(old(history)[k], orphan.start.runId, orphan.start.instance)
          then Projected(old(history)[k], events[|events| - 1]) else old(history)[k]
      ensures !(completed && inserted && HasRow(orphan.start)) ==> history == old(history)
      ensures old(budget) <= budget + 2 && (!completed ==> budget == 0)
    {
      inserted := false;
      completed := Spend();
      if !completed || AbandonedBy(events, orphan.start.eventId) { return; }
      var id := FreshId();
      var at: int := *;
      var e := AbandonmentOf(orphan.start, orphan.awaitingInteraction, id, at);
      ghost var log := events;
      events := events + [e];
      inserted := true;
      KeysKept(log, e);
      AddedAbandonments(log, events);
      assert e in events;
      if HasRow(orphan.start) {
        completed := Spend();
        if !completed { return; }
        var _ := UpdateRunning(orphan.start.runId.value, orphan.start.instance.value, e);
        ProjectionEvolves(old(history), history, events, orphan, e);
      }
    }

    // ---------- The pass ----------

    /**
     * The first half: an abandonment, event then projection, for every orphan selected. What is
     * left undone when the process dies is bounded: two statements at most went into each event.
     */
    method AbandonOrphans(epoch: BootEpoch) returns (completed: bool, abandoned: nat, selected: nat)
      requires Valid()
      modifies this`events, this`history, this`budget
      ensures Valid()
      ensures if completed then old(budget) <= budget + 2 * |old(events)|
        else budget == 0 && old(budget) < 2 * |old(events)|
      ensures !completed ==> old(budget) <= 2 * (|events| - |old(events)|)
      ensures Abandoning(old(events), old(history), events, history, epoch)
      ensures completed ==> AllAbandoned(old(events), events, epoch)
      ensures selected == |OrphanPlaces(old(events), epoch)|
      ensures completed ==> abandoned == selected == |events| - |old(events)|
      ensures completed ==> history.Keys == old(history).Keys && forall k | k in old(history) ::
        if Claimed(old(history)[k], old(events), epoch) then history[k].status == "abandoned"
          else history[k] == old(history)[k]
    {
      ghost var log, h := events, history;
      var orphans := SelectOrphans(epoch);
      OrphansCounted(log, epoch, |log|);
      OrphansApart(log, epoch, |log|);
      assert PlacesUpTo(log, epoch, |log|) == OrphanPlaces(log, epoch);
      OrphansListed(log, epoch);
      abandoned, selected := 0, |orphans|;
      for i := 0 to |orphans|
        invariant Valid() && abandoned == i && old(budget) <= budget + 2 * i
        invariant Midway(orphans, i, log, h, events, history, epoch)
      {
        completed := AbandonNext(orphans, i, epoch, log, h);
        if !completed { return; }
        abandoned := abandoned + 1;
      }
      completed := true;
      AllEmitted(orphans, log, h, events, history, epoch);
    }

    /** One orphan of the selection: its event and projection, at two statements at most. */
    method AbandonNext(
      orphans: seq<OrphanRow>, i: nat, epoch: BootEpoch, ghost log: seq<SpineEvent>, ghost h: map<string, RunRow>)
      returns (completed: bool)
      requires Valid() && i < |orphans| && Apart(orphans) && Midway(orphans, i, log, h, events, history, epoch)
      requires forall o | o in orphans ::
        Orphan(log, o.start, epoch) && o.awaitingInteraction == AwaitingInteraction(log, o.start.runId)
      modifies this`events, this`history, this`budget
      ensures Valid() && Abandoning(log, h, events, history, epoch)
      ensures completed ==> Midway(orphans, i + 1, log, h, events, history, epoch) && old(budget) <= budget + 2
      ensures !completed ==> budget == 0 && old(budget) <= 2 * (|events| - |old(events)|) && old(budget) < 2
    {
      ghost var log', h' := events, history;
      assert orphans[i] in orphans;
      OrphanOnlyAbandoned(log, events, orphans[i].start.runId);
      NotYetAbandoned(orphans, i, log, h, events, history);
      var inserted;
      completed, inserted := EmitRunAbandoned(orphans[i]);
      OneMoreAbandonment(log, h, log', h', events, history, orphans[i], epoch);
      if completed { EmittedOneMore(orphans, i, log, h, log', h', events, history); }
    }

    lemma AllEmitted(orphans: seq<OrphanRow>, log: seq<SpineEvent>, h: map<string, RunRow>,
                     log': seq<SpineEvent>, h': map<string, RunRow>, epoch: BootEpoch)
      requires forall o | o in orphans :: Orphan(log, o.start, epoch)
      requires forall s | Orphan(log, s, epoch) :: OrphanRow(s, AwaitingInteraction(log, s.runId)) in orphans
      requires Emitted(orphans, |orphans|, log, h, log', h')
      requires forall j | 0 <= j < |orphans| :: AbandonedBy(log', orphans[j].start.eventId)
      ensures AllAbandoned(log, log', epoch)
      ensures forall k | k in h :: if Claimed(h[k], log, epoch) then h'[k].status == "abandoned" else h'[k] == h[k]
    {
      forall s | Orphan(log, s, epoch) ensures exists j :: 0 <= j < |orphans| && orphans[j].start == s {
        var o := OrphanRow(s, AwaitingInteraction(log, s.runId));
        assert o in orphans;
      }
      forall k | k in h ensures Claimed(h[k], log, epoch) <==> ClaimedByFirst(orphans, |orphans|, h[k]) {
        if ClaimedByFirst(orphans, |orphans|, h[k]) {
          var j :| 0 <= j < |orphans| && Claims(orphans[j].start, h[k]);
          assert orphans[j] in orphans;
        }
      }
    }

    lemma OrphanOnlyAbandoned(log: seq<SpineEvent>, log': seq<SpineEvent>, runId: Option<string>)
      requires !Terminated(log, runId) && AddsAbandonments(log, log')
      ensures OnlyAbandoned(log', runId)
    {
      AddedAbandonments(log, log');
    }

    /** The second half: every drifted row adopts its run's earliest terminal event. */
    method RepairTerminalRunHistoryDrift()
      returns (completed: bool, repaired: nat, ghost all: map<(string, string), SpineEvent>,
        ghost left: set<(string, string)>)
      modifies this`history, this`budget
      ensures if completed then old(budget) <= budget + |old(history)| else budget == 0 && old(budget) < |old(history)|
      ensures RepairedUpTo(old(history), history, events, all, left, old(budget) - budget)
        && (completed <==> left == {})
      ensures HistoryEvolves(old(history), history, events)
      ensures completed ==> forall k | k in history :: Repaired(old(history)[k], history[k], events)
      ensures completed ==> repaired == |DriftedRows(old(history), events)|
    {
      var drifted := SelectDrifted();
      all := drifted;
      completed, repaired, left := RepairRuns(drifted);
      RepairEvolves(old(history), history, drifted, left, events);
    }

    /** One update for every drifted run and connection, as long as the process lives. */
    method RepairRuns(drifted: map<(string, string), SpineEvent>)
      returns (completed: bool, repaired: nat, ghost left: set<(string, string)>)
      modifies this`history, this`budget
      ensures PartlyRepaired(old(history), history, drifted, left) && |left| == |drifted| - (old(budget) - budget)
      ensures repaired == |CoveredRows(old(history), drifted, left)|
      ensures (completed <==> left == {}) && (!completed ==> budget == 0)
    {
      ghost var h := history;
      var rest := drifted.Keys;
      repaired := 0;
      while rest != {}
        invariant PartlyRepaired(h, history, drifted, rest)
        invariant repaired == |CoveredRows(h, drifted, rest)|
        invariant |rest| == |drifted| - (old(budget) - budget)
        decreases |rest|
      {
        completed := Spend();
        if !completed { return completed, repaired, rest; }
        var p :| p in rest;
        ghost var h' := history;
        var changes := UpdateRunning(p.0, p.1, drifted[p]);
        OneMoreRepair(h, h', history, drifted, rest, p);
        repaired := repaired + changes;
        rest := rest - {p};
      }
      return true, repaired, rest;
    }

    /** The whole pass, statement by statement. */
    method ReconcileSqlite(epoch: BootEpoch) returns (completed: bool, result: ReconcileResult)
      requires Valid()
      modifies this`events, this`history, this`budget
      ensures Valid()
      ensures Pass(old(events), old(history), events, history, epoch)
      ensures forall i | |old(events)| <= i < |events| :: events[i].eventType == "run.abandoned"
      ensures completed ==> Finished(old(events), events, history, epoch)
      ensures old(budget) >= Needed(old(events), old(history)) ==> completed
      ensures if completed then old(budget) <= budget + Needed(old(events), old(history)) else budget == 0
      ensures !completed ==> old(budget) <= 2 * (|events| - |old(events)|) || AllAbandoned(old(events), events, epoch)
      ensures completed ==> |events| == |old(events)| + |OrphanPlaces(old(events), epoch)|
      ensures completed ==> result == Counts(old(events), old(history), events, epoch)
      ensures completed ==> RowsSettled(old(events), old(history), events, history, epoch)
    {
      ghost var log, h := events, history;
      var abandoned, selected, repaired;
      completed, abandoned, selected := AbandonOrphans(epoch);
      ghost var h' := history;
      HalvesPass(log, h, events, h', h', epoch);
      if !completed { return false, ReconcileResult(0, 0, 0); }
      ghost var all, left;
      completed, repaired, all, left := RepairTerminalRunHistoryDrift();
      HalvesPass(log, h, events, h', history, epoch);
      if completed {
        HalvesFinish(log, events, h', history, epoch);
        StillDrifted(log, h, events, h', epoch);
        HalvesSettle(log, h, events, h', history, epoch);
      }
      result := ReconcileResult(abandoned, repaired, selected);
    }

    lemma HalvesPass(
      log: seq<SpineEvent>, h: map<string, RunRow>, log': seq<SpineEvent>, h': map<string, RunRow>,
      h'': map<string, RunRow>, epoch: BootEpoch)
      requires Abandoning(log, h, log', h', epoch) && HistoryEvolves(h', h'', log')
      ensures Pass(log, h, log', h'', epoch)
    {
      forall k | k in h ensures Evolves(h[k], h''[k], log') {
        OwnIsEvolution(h[k], h'[k], log');
        EvolvesFurther(h[k], h'[k], h''[k], log');
      }
    }

    /** What the first half leaves to the second: the drifted rows it did not claim itself. */
    lemma StillDrifted(
      log: seq<SpineEvent>, h: map<string, RunRow>, log': seq<SpineEvent>, h': map<string, RunRow>, epoch: BootEpoch)
      requires h'.Keys == h.Keys
      requires forall k | k in h :: if Claimed(h[k], log, epoch) then h'[k].status == "abandoned" else h'[k] == h[k]
      ensures DriftedRows(h', log') == DriftedRows(h, log') - ClaimedRows(log, h, epoch)
    {
    }

    lemma HalvesFinish(
      log: seq<SpineEvent>, log': seq<SpineEvent>, h': map<string, RunRow>, h'': map<string, RunRow>, epoch: BootEpoch)
      requires AllAbandoned(log, log', epoch)
      requires h''.Keys == h'.Keys && forall k | k in h'' :: Repaired(h'[k], h''[k], log')
      ensures Finished(log, log', h'', epoch)
    {
      forall k | k in h'' && Drifted(h''[k], log') ensures StillRunning(h''[k], log') {
        assert Repaired(h'[k], h''[k], log');
      }
    }

    /** On Postgres the same statements run in one transaction: a crash leaves nothing behind. */
    method ReconcilePostgres(epoch: BootEpoch) returns (completed: bool, result: ReconcileResult)
      requires Valid()
      modifies this`events, this`history, this`budget
      ensures Valid()
      ensures !completed ==> events == old(events) && history == old(history)
      ensures completed ==>
        Pass(old(events), old(history), events, history, epoch) && Finished(old(events), events, history, epoch)
      ensures old(budget) >= Needed(old(events), old(history)) ==> completed
      ensures completed ==> |events| == |old(events)| + |OrphanPlaces(old(events), epoch)|
      ensures completed ==> result == Counts(old(events), old(history), events, epoch)
      ensures completed ==> RowsSettled(old(events), old(history), events, history, epoch)
    {
      var log, h := events, history;
      completed, result := ReconcileSqlite(epoch);
      if !completed { events, history := log, h; }
    }

    // ---------- Booting ----------

    /**
     * One boot: identity, epoch, pass, by a process that gets through this many writing
     * statements once its identity is settled. Given enough of them it finishes.
     */
    method Boot(seed: string, process: Process) returns (completed: bool, ghost epoch: BootEpoch)
      requires Valid()
      modifies this
      ensures Valid()
      ensures epoch.bootEpoch == process.bootEpoch
      ensures epoch.controllerId == FirstWritten(old(identity), process.rivals, seed)
        && identity == Some(epoch.controllerId)
      ensures Booted(BootRecord(old(events), old(history), events, history, epoch, completed), process)
      ensures !completed ==> budget == 0
    {
      budget := process.statements;
      var id := LoadOrCreateDurableControllerId(seed, process.rivals);
      epoch := BootEpoch(id, process.bootEpoch, 0);
      completed := Spend();
      if !completed { return; }
      var stamped := EmitControllerBooted(id, process.bootEpoch);
      epoch := stamped;
      ghost var booted := events;
      assert LogAdvances(old(events), booted, epoch);
      var result;
      completed, result := ReconcileSqlite(stamped);
      BootedPass(old(events), old(history), booted, events, history, epoch, completed);
      if completed { BootedSettles(old(events), old(history), booted, events, history, epoch, booted[|old(events)|]); }
    }

    /**
     * Boots until one gets through, with nothing else happening: each starts from what the one
     * before it left, the first with statements enough for what it finds gets through, and the
     * whole has then done what a single uninterrupted boot does.
     */
    method RebootUntilReconciled(seed: string, processes: seq<Process>)
      returns (completed: bool, ghost boots: seq<BootRecord>)
      requires Valid() && UniqueRuns(events) && processes != []
      requires AllFresh(events, processes)
      modifies this
      ensures Valid() && UniqueRuns(events)
      ensures Reboots(boots, processes, old(events), old(history), events, history, identity)
      ensures completed == boots[|boots| - 1].completed && (!completed ==> |boots| == |processes|)
    {
      ghost var epoch;
      completed, epoch := Boot(seed, processes[0]);
      boots := [BootRecord(old(events), old(history), events, history, epoch, completed)];
      RebootsBegin(boots[0], processes, identity);
      var tried := 1;
      while !completed && tried < |processes|
        invariant Valid() && Reboots(boots, processes, old(events), old(history), events, history, identity)
        invariant completed == boots[|boots| - 1].completed && tried == |boots|
        decreases |processes| - tried
      {
        ghost var b;
        completed, b := BootNext(seed, processes, tried, boots, old(events), old(history));
        boots, tried := boots + [b], tried + 1;
      }
      assert Together(old(events), old(history), boots[|boots| - 1]);
    }

    /** One more boot after some that did not finish. */
    method BootNext(seed: string, processes: seq<Process>, tried: nat, ghost boots: seq<BootRecord>,
                    ghost log: seq<SpineEvent>, ghost h: map<string, RunRow>)
      returns (completed: bool, ghost b: BootRecord)
      requires Valid() && tried == |boots| < |processes| && !(boots != [] && boots[|boots| - 1].completed)
      requires Reboots(boots, processes, log, h, events, history, identity)
      requires UniqueRuns(log) && AllFresh(log, processes)
      modifies this
      ensures Valid() && b.completed == completed
      ensures Reboots(boots + [b], processes, log, h, events, history, identity)
    {
      ghost var found, rows, epoch := events, history, BootEpoch("", "", 0);
      completed, epoch := Boot(seed, processes[tried]);
      b := BootRecord(found, rows, events, history, epoch, completed);
      RebootsGoOn(boots, processes, log, h, b, identity);
    }

    // ---------- A controller's life ----------

    /** Any other writers' events, as far as the indexes admit them. */
    method InsertEvents(es: seq<SpineEvent>)
      requires Valid()
      modifies this`events
      ensures Valid() && events == Inserted(old(events), es)
    {
      for i := 0 to |es|
        invariant Valid() && events == Inserted(old(events), es[..i])
      {
        assert es[..i + 1][..i] == es[..i];
        var e := es[i];
        if !RefusedByIndex(events, e) {
          KeysKept(events, e);
          events := events + [e];
        }
      }
      assert es[..|es|] == es;
    }

    /** One life: a boot, then other writers' events and rows. */
    method Live(seed: string, life: Lifetime) returns (ghost b: BootRecord)
      requires Valid()
      modifies this
      ensures Valid() && b.log == old(events) && b.rows == old(history) && Booted(b, life.process)
      ensures b.epoch.controllerId == FirstWritten(old(identity), life.process.rivals, seed)
        && identity == Some(b.epoch.controllerId)
      ensures events == Inserted(b.log', life.activity) && history == life.rows
    {
      var completed, epoch := Boot(seed, life.process);
      b := BootRecord(old(events), old(history), events, history, epoch, completed);
      InsertEvents(life.activity);
      history := life.rows;
    }

    /**
     * Boot after boot, finished or not, with runs starting and ending, interactions, other
     * controllers and writes to run_history in between. Each boot starts from what the one
     * before it and the activity after that left, and does what a boot does; at the end no
     * start that a finished boot was to settle is unsettled, every start has at most one
     * abandonment, and every new abandonment comes from a boot's orphan or from the activity.
     */
    method RunLifetimes(seed: string, lives: seq<Lifetime>) returns (ghost boots: seq<BootRecord>)
      requires Valid()
      modifies this
      ensures Valid()
      ensures Lives(boots, lives, old(events), old(history), events, history, identity)
      ensures forall i, s | 0 <= i < |lives| && boots[i].completed && s in boots[i].log'
        && OwnedPrior(s, boots[i].epoch) ::
        Settled(events, s)
    {
      boots := [];
      for i := 0 to |lives|
        invariant Valid() && Lives(boots, lives[..i], old(events), old(history), events, history, identity)
      {
        ghost var record := Live(seed, lives[i]);
        LivesGoOn(boots, lives, i, old(events), old(history), record, identity);
        boots := boots + [record];
      }
      TakeSnoc(lives, |lives|);
      LivesSettle(boots, lives, old(events), old(history), events, history, identity);
    }
  }

  /** The state of a pass after the first i abandonments. */
  ghost predicate Midway(orphans: seq<OrphanRow>, i: nat, log: seq<SpineEvent>, h: map<string, RunRow>,
                         log': seq<SpineEvent>, h': map<string, RunRow>, epoch: BootEpoch)
    requires i <= |orphans|
  {
    && Abandoning(log, h, log', h', epoch)
    && Emitted(orphans, i, log, h, log', h')
    && forall j | 0 <= j < i :: AbandonedBy(log', orphans[j].start.eventId)
  }

  /** What a finished pass reports: the orphans, all abandoned, and the drifted rows that none of them claims. */
  ghost function Counts(
    log: seq<SpineEvent>, h: map<string, RunRow>, log': seq<SpineEvent>, epoch: BootEpoch): ReconcileResult {
    var orphans := |OrphanPlaces(log, epoch)|;
    ReconcileResult(orphans, |DriftedRows(h, log') - ClaimedRows(log, h, epoch)|, orphans)
  }

  function LongIds(log: seq<SpineEvent>, id: string): set<string> {
    set e | e in log && |e.eventId| >= |id| :: e.eventId
  }

  lemma FewerLongIds(log: seq<SpineEvent>, id: string)
    requires HasId(log, id)
    ensures |LongIds(log, id + "0")| < |LongIds(log, id)|
  {
    assert id in LongIds(log, id) && LongIds(log, id + "0") <= LongIds(log, id) - {id};
    SubsetSize(LongIds(log, id + "0"), LongIds(log, id) - {id});
  }

  // ---------- Selecting, in one line ----------

  /** The orphans among the first n events of a log. */
  function OrphansUpTo(log: seq<SpineEvent>, epoch: BootEpoch, n: nat): seq<OrphanRow>
    requires n <= |log|
  {
    if n == 0 then []
    else if Orphan(log, log[n - 1], epoch) then
      OrphansUpTo(log, epoch, n - 1) + [OrphanRow(log[n - 1], AwaitingInteraction(log, log[n - 1].runId))]
    else OrphansUpTo(log, epoch, n - 1)
  }

  lemma {:induction false} OrphansUpToMembers(log: seq<SpineEvent>, epoch: BootEpoch, n: nat, o: OrphanRow)
    requires n <= |log|
    ensures o in OrphansUpTo(log, epoch, n) <==>
      Orphan(log, o.start, epoch) && o.awaitingInteraction == AwaitingInteraction(log, o.start.runId)
        && o.start in log[..n]
  {
    if n > 0 {
      OrphansUpToMembers(log, epoch, n - 1, o);
      assert log[..n] == log[..n - 1] + [log[n - 1]];
    }
  }

  lemma OrphansListed(log: seq<SpineEvent>, epoch: BootEpoch)
    ensures var orphans := OrphansUpTo(log, epoch, |log|);
      && (forall o | o in orphans ::
        Orphan(log, o.start, epoch) && o.awaitingInteraction == AwaitingInteraction(log, o.start.runId))
      && (forall s | Orphan(log, s, epoch) :: OrphanRow(s, AwaitingInteraction(log, s.runId)) in orphans)
  {
    assert log[..|log|] == log;
    forall o ensures o in OrphansUpTo(log, epoch, |log|) <==>
      Orphan(log, o.start, epoch) && o.awaitingInteraction == AwaitingInteraction(log, o.start.runId)
    {
      OrphansUpToMembers(log, epoch, |log|, o);
    }
  }

  lemma {:induction false} OrphansCounted(log: seq<SpineEvent>, epoch: BootEpoch, n: nat)
    requires n <= |log|
    ensures |OrphansUpTo(log, epoch, n)| == |PlacesUpTo(log, epoch, n)| <= n
    decreases n
  {
    if n > 0 {
      OrphansCounted(log, epoch, n - 1);
      OnePlaceMore(log, epoch, n);
    }
  }

  lemma OnePlaceMore(log: seq<SpineEvent>, epoch: BootEpoch, n: nat)
    requires 0 < n <= |log|
    ensures PlacesUpTo(log, epoch, n)
      == PlacesUpTo(log, epoch, n - 1) + (if Orphan(log, log[n - 1], epoch) then {n - 1} else {})
    ensures (n - 1) !in PlacesUpTo(log, epoch, n - 1)
  {
  }

  lemma {:induction false} OrphansApart(log: seq<SpineEvent>, epoch: BootEpoch, n: nat)
    requires n <= |log| && EventIdsUnique(log)
    ensures Apart(OrphansUpTo(log, epoch, n))
    decreases n
  {
    if n > 0 {
      OrphansApart(log, epoch, n - 1);
      var before := OrphansUpTo(log, epoch, n - 1);
      forall j | 0 <= j < |before| ensures before[j].start.eventId != log[n - 1].eventId {
        OrphansUpToMembers(log, epoch, n - 1, before[j]);
        AnotherId(log, n - 1, before[j].start);
      }
    }
  }

  lemma AnotherId(log: seq<SpineEvent>, n: nat, s: SpineEvent)
    requires EventIdsUnique(log) && n < |log| && s in log[..n]
    ensures s.eventId != log[n].eventId
  {
    var p :| 0 <= p < n && log[..n][p] == s;
  }

  function PlacesUpTo(log: seq<SpineEvent>, epoch: BootEpoch, n: nat): set<nat>
    requires n <= |log|
  {
    set i: nat | i < n && Orphan(log, log[i], epoch)
  }

  /** Projecting an abandonment onto the rows of its run and connection is an evolution of the history. */
  lemma ProjectionEvolves(
    h: map<string, RunRow>, h': map<string, RunRow>, log: seq<SpineEvent>, orphan: OrphanRow, e: SpineEvent)
    requires orphan.start in log && orphan.start.eventType == "run.started" && OnlyAbandoned(log, orphan.start.runId)
    requires e in log && e == AbandonmentOf(orphan.start, orphan.awaitingInteraction, e.eventId, e.at)
      && HasRow(orphan.start)
    requires h'.Keys == h.Keys
    requires forall k | k in h :: h'[k] == if Claims(orphan.start, h[k]) then Projected(h[k], e) else h[k]
    ensures HistoryOwnEvolves(h, h', log)
  {
    forall k | k in h && h'[k] != h[k] ensures OwnAbandonment(e, h[k], log) && Ends(e, h[k].runId) {}
  }

  /** What rival processes write, if there is no identity yet, around this one's two statements. */
  datatype Rivals = Rivals(beforeRead: Option<string>, beforeInsert: Option<string>, afterInsert: Option<string>)

  function FirstWritten(identity: Option<string>, rivals: Rivals, seed: string): string {
    if identity.Some? then identity.value
    else if rivals.beforeRead.Some? then rivals.beforeRead.value
    else if rivals.beforeInsert.Some? then rivals.beforeInsert.value
    else seed
  }

  /** A process: the epoch it stamps, its rivals, and how many writing statements it gets through before it dies. */
  datatype Process = Process(bootEpoch: string, rivals: Rivals, statements: nat)

  /** A process and what happens between its boot and the next: events inserted, rows as then found. */
  datatype Lifetime = Lifetime(process: Process, activity: seq<SpineEvent>, rows: map<string, RunRow>)

  /** A boot: the tables it finds, the tables it leaves, its epoch, and whether it finished. */
  datatype BootRecord = BootRecord(
    log: seq<SpineEvent>,
    rows: map<string, RunRow>,
    log': seq<SpineEvent>,
    rows': map<string, RunRow>,
    epoch: BootEpoch,
    completed: bool)

  /** Writing statements that a boot needs at most: its own event, and a pass over a log one longer. */
  function BootNeeds(log: seq<SpineEvent>, h: map<string, RunRow>): nat {
    Needed(log, h) + 3
  }

  /**
   * What a boot does: its own event first, then a pass. It finishes whenever it has statements
   * enough; and while orphans are left over, no two of its statements went by without an event.
   */
  ghost predicate Booted(b: BootRecord, process: Process) {
    && b.epoch.bootEpoch == process.bootEpoch
    && Pass(b.log, b.rows, b.log', b.rows', b.epoch)
    && (b.completed ==> Finished(b.log, b.log', b.rows', b.epoch))
    && (b.completed ==> RowsSettled(b.log, b.rows, b.log', b.rows', b.epoch))
    && (process.statements >= BootNeeds(b.log, b.rows) ==> b.completed)
    && (process.statements <= 2 * (|b.log'| - |b.log|) || AllAbandoned(b.log, b.log', b.epoch))
    && (if process.statements > 0 then Stamped(b.log, b.log', b.epoch) else b.log' == b.log && b.rows' == b.rows)
  }

  ghost predicate Settled(log: seq<SpineEvent>, s: SpineEvent) {
    Terminated(log, s.runId) || AbandonedBy(log, s.eventId)
  }

  // ---------- Chains ----------

  /** Each boot finds what the one before it left. */
  ghost predicate BootsChained(boots: seq<BootRecord>, log: seq<SpineEvent>, h: map<string, RunRow>,
                               log': seq<SpineEvent>, h': map<string, RunRow>) {
    && boots != []
    && boots[0].log == log && boots[0].rows == h
    && (forall i | 0 < i < |boots| :: boots[i].log == boots[i - 1].log' && boots[i].rows == boots[i - 1].rows')
    && boots[|boots| - 1].log' == log' && boots[|boots| - 1].rows' == h'
  }

  /**
   * Boots one after the other, none of them finished but perhaps the last: each did what a boot
   * does to what it found, and together they did what one boot does.
   */
  ghost predicate Reboots(boots: seq<BootRecord>, processes: seq<Process>, log: seq<SpineEvent>, h: map<string, RunRow>,
                          log': seq<SpineEvent>, h': map<string, RunRow>, identity: Option<string>) {
    && 0 < |boots| <= |processes| && BootsChained(boots, log, h, log', h')
    && (forall i | 0 <= i < |boots| :: Booted(boots[i], processes[i]) && identity == Some(boots[i].epoch.controllerId))
    && (forall i | 0 <= i < |boots| - 1 :: !boots[i].completed)
    && Together(log, h, boots[|boots| - 1])
  }

  /** No run of the log was started under the epoch of any of these processes. */
  ghost predicate AllFresh(log: seq<SpineEvent>, processes: seq<Process>) {
    forall s, p | s in log && s.eventType == "run.started" && p in processes :: s.bootEpoch != Some(p.bootEpoch)
  }

  /** From these tables to those the boot leaves, what one boot under its epoch does. */
  ghost predicate Together(log: seq<SpineEvent>, h: map<string, RunRow>, b: BootRecord) {
    && Fresh(log, b.epoch) && UniqueRuns(b.log')
    && Pass(log, h, b.log', b.rows', b.epoch)
    && (b.completed ==> Finished(log, b.log', b.rows', b.epoch))
  }

  lemma TogetherGoesOn(log: seq<SpineEvent>, h: map<string, RunRow>, last: BootRecord, b: BootRecord, process: Process)
    requires Together(log, h, last) && b.log == last.log' && b.rows == last.rows' && Booted(b, process)
    requires b.epoch.controllerId == last.epoch.controllerId
    requires UniqueRuns(log) && UniqueCauses(b.log') && Fresh(log, b.epoch)
    ensures Together(log, h, b)
  {
    PassesCompose(log, h, b.log, b.rows, b.log', b.rows', last.epoch, b.epoch);
    if b.completed { FinishCompletes(log, h, b.log, b.rows, b.log', b.rows', last.epoch, b.epoch); }
  }

  lemma RebootsBegin(b: BootRecord, processes: seq<Process>, identity: Option<string>)
    requires processes != [] && Booted(b, processes[0]) && identity == Some(b.epoch.controllerId)
    requires UniqueRuns(b.log) && UniqueCauses(b.log') && Fresh(b.log, b.epoch)
    ensures Reboots([b], processes, b.log, b.rows, b.log', b.rows', identity)
  {
    RunsStayUnique(b.log, b.log', b.epoch);
  }

  lemma RebootsGoOn(boots: seq<BootRecord>, processes: seq<Process>, log: seq<SpineEvent>, h: map<string, RunRow>,
                    b: BootRecord, identity: Option<string>)
    requires Reboots(boots, processes, log, h, b.log, b.rows, identity) && !boots[|boots| - 1].completed
    requires |boots| < |processes| && Booted(b, processes[|boots|]) && identity == Some(b.epoch.controllerId)
    requires UniqueRuns(log) && UniqueCauses(b.log') && Fresh(log, b.epoch)
    ensures Reboots(boots + [b], processes, log, h, b.log', b.rows', identity)
  {
    TogetherGoesOn(log, h, boots[|boots| - 1], b, processes[|boots|]);
    ChainOneMore(boots, log, h, b);
    EachBooted(boots, processes, b, identity);
  }

  lemma ChainOneMore(boots: seq<BootRecord>, log: seq<SpineEvent>, h: map<string, RunRow>, b: BootRecord)
    requires BootsChained(boots, log, h, b.log, b.rows)
    ensures BootsChained(boots + [b], log, h, b.log', b.rows')
  {
  }

  lemma EachBooted(boots: seq<BootRecord>, processes: seq<Process>, b: BootRecord, identity: Option<string>)
    requires |boots| < |processes| && Booted(b, processes[|boots|]) && identity == Some(b.epoch.controllerId)
    requires forall i | 0 <= i < |boots| ::
      Booted(boots[i], processes[i]) && identity == Some(boots[i].epoch.controllerId)
    ensures var boots' := boots + [b];
      forall i | 0 <= i < |boots'| :: Booted(boots'[i], processes[i]) && identity == Some(boots'[i].epoch.controllerId)
  {
    var boots' := boots + [b];
    forall i | 0 <= i < |boots'|
      ensures Booted(boots'[i], processes[i]) && identity == Some(boots'[i].epoch.controllerId)
    {
      if i < |boots| { assert boots'[i] == boots[i]; }
    }
  }

  /** The indexes refuse an event id that is taken, and a second abandonment of the same start. */
  predicate RefusedByIndex(log: seq<SpineEvent>, e: SpineEvent) {
    HasId(log, e.eventId) || (e.eventType == "run.abandoned" && e.causedBy.Some? && AbandonedBy(log, e.causedBy.value))
  }

  /** An event is refused exactly when its id is taken, or it abandons a start that was abandoned before. */
  lemma RefusedIff(log: seq<SpineEvent>, e: SpineEvent)
    ensures RefusedByIndex(log, e) <==> exists f ::
      && f in log
      && (f.eventId == e.eventId
        || (f.eventType == "run.abandoned" && e.eventType == "run.abandoned" && e.causedBy != None
          && f.causedBy == e.causedBy))
  {
  }

  lemma KeysKept(log: seq<SpineEvent>, e: SpineEvent)
    requires UniqueCauses(log) && EventIdsUnique(log) && !RefusedByIndex(log, e)
    ensures UniqueCauses(log + [e]) && EventIdsUnique(log + [e])
  {
  }

  /** The log after other writers' events. */
  function Inserted(log: seq<SpineEvent>, es: seq<SpineEvent>): seq<SpineEvent> {
    if es == [] then log
    else
      var e, before := es[|es| - 1], Inserted(log, es[..|es| - 1]);
      if RefusedByIndex(before, e) then before else before + [e]
  }

  lemma {:induction false} InsertedGrows(log: seq<SpineEvent>, es: seq<SpineEvent>)
    ensures log <= Inserted(log, es)
    ensures forall e | e in Inserted(log, es) :: e in log || e in es
  {
    if es != [] {
      InsertedGrows(log, es[..|es| - 1]);
      assert forall e | e in es[..|es| - 1] :: e in es;
    }
  }

  /** A boot finds the log with the activity after the boot before, and the rows as they were then. */
  ghost predicate FindsLife(b: BootRecord, life: Lifetime, log: seq<SpineEvent>, h: map<string, RunRow>) {
    log == Inserted(b.log', life.activity) && h == life.rows
  }

  /** Each boot finds what the life before it left. */
  ghost predicate LivesChained(
    boots: seq<BootRecord>, lives: seq<Lifetime>, log: seq<SpineEvent>, h: map<string, RunRow>,
    log': seq<SpineEvent>, h': map<string, RunRow>) {
    && |boots| == |lives|
    && (boots == [] ==> log' == log && h' == h)
    && (boots != [] ==> boots[0].log == log && boots[0].rows == h)
    && (forall i | 0 < i < |boots| :: FindsLife(boots[i - 1], lives[i - 1], boots[i].log, boots[i].rows))
    && (boots != [] ==> FindsLife(boots[|boots| - 1], lives[|lives| - 1], log', h'))
  }

  lemma LifeOneMore(boots: seq<BootRecord>, lives: seq<Lifetime>, log: seq<SpineEvent>, h: map<string, RunRow>,
                    b: BootRecord, life: Lifetime)
    requires LivesChained(boots, lives, log, h, b.log, b.rows)
    ensures LivesChained(boots + [b], lives + [life], log, h, Inserted(b.log', life.activity), life.rows)
  {
    var boots', lives' := boots + [b], lives + [life];
    forall i | 0 < i < |boots'| ensures FindsLife(boots'[i - 1], lives'[i - 1], boots'[i].log, boots'[i].rows) {
      if i < |boots| { assert FindsLife(boots[i - 1], lives[i - 1], boots[i].log, boots[i].rows); }
    }
  }

  /** A whole life so far: what every boot found, did and left, and where every new abandonment comes from. */
  ghost predicate Lives(boots: seq<BootRecord>, lives: seq<Lifetime>, log: seq<SpineEvent>, h: map<string, RunRow>,
                        log': seq<SpineEvent>, h': map<string, RunRow>, identity: Option<string>) {
    && LivesChained(boots, lives, log, h, log', h') && log <= log'
    && (forall i | 0 <= i < |boots| :: Lived(boots[i], lives[i], log', identity))
    && (forall e | e in log' && e !in log && e.eventType == "run.abandoned" :: Explained(e, boots, lives))
  }

  ghost predicate Lived(b: BootRecord, life: Lifetime, now: seq<SpineEvent>, identity: Option<string>) {
    Booted(b, life.process) && b.log' <= now && identity == Some(b.epoch.controllerId)
  }

  lemma LivesGoOn(boots: seq<BootRecord>, all: seq<Lifetime>, i: nat, log: seq<SpineEvent>, h: map<string, RunRow>,
                  b: BootRecord, identity: Option<string>)
    requires i < |all| && Booted(b, all[i].process) && identity == Some(b.epoch.controllerId)
    requires Lives(boots, all[..i], log, h, b.log, b.rows, if boots == [] then None else identity)
    ensures Lives(boots + [b], all[..i + 1], log, h, Inserted(b.log', all[i].activity), all[i].rows, identity)
  {
    TakeSnoc(all, i);
    LivesOneMore(boots, all[..i], log, h, b, all[i], identity);
  }

  lemma LivesOneMore(boots: seq<BootRecord>, lives: seq<Lifetime>, log: seq<SpineEvent>, h: map<string, RunRow>,
                     b: BootRecord, life: Lifetime, identity: Option<string>)
    requires Booted(b, life.process) && identity == Some(b.epoch.controllerId)
    requires Lives(boots, lives, log, h, b.log, b.rows, if boots == [] then None else identity)
    ensures Lives(boots + [b], lives + [life], log, h, Inserted(b.log', life.activity), life.rows, identity)
  {
    var now := Inserted(b.log', life.activity);
    var boots', lives' := boots + [b], lives + [life];
    InsertedGrows(b.log', life.activity);
    LifeOneMore(boots, lives, log, h, b, life);
    ExplainedFurther(boots, lives, log, b, life);
    forall i | 0 <= i < |boots'| ensures Lived(boots'[i], lives'[i], now, identity) {
      if i < |boots| { assert Lived(boots[i], lives[i], b.log, identity); }
    }
  }

  /** No start that a finished boot was to settle is unsettled at the end. */
  lemma LivesSettle(boots: seq<BootRecord>, lives: seq<Lifetime>, log: seq<SpineEvent>, h: map<string, RunRow>,
                    log': seq<SpineEvent>, h': map<string, RunRow>, identity: Option<string>)
    requires Lives(boots, lives, log, h, log', h', identity)
    ensures forall i, s | 0 <= i < |boots| && boots[i].completed && s in boots[i].log'
      && OwnedPrior(s, boots[i].epoch) ::
      Settled(log', s)
  {
    forall i, s | 0 <= i < |boots| && boots[i].completed && s in boots[i].log' && OwnedPrior(s, boots[i].epoch)
      ensures Settled(log', s)
    {
      assert Lived(boots[i], lives[i], log', identity);
      NothingOrphaned(boots[i].log, boots[i].rows, boots[i].log', boots[i].rows', boots[i].epoch, s);
      Grows(boots[i].log', log');
    }
  }

  /** An abandonment is that of an orphan a boot found, or other writers' doing. */
  ghost predicate Explained(e: SpineEvent, boots: seq<BootRecord>, lives: seq<Lifetime>) {
    |boots| == |lives| && exists i :: 0 <= i < |boots| && ExplainedBy(e, boots[i], lives[i])
  }

  ghost predicate ExplainedBy(e: SpineEvent, b: BootRecord, life: Lifetime) {
    e in life.activity || exists s :: Abandons(e, s, b.log, b.epoch)
  }

  lemma ExplainedFurther(
    boots: seq<BootRecord>, lives: seq<Lifetime>, first: seq<SpineEvent>, b: BootRecord, life: Lifetime)
    requires |boots| == |lives| && LogAdvances(b.log, b.log', b.epoch)
    requires forall e | e in b.log && e !in first && e.eventType == "run.abandoned" :: Explained(e, boots, lives)
    ensures forall e | e in Inserted(b.log', life.activity) && e !in first && e.eventType == "run.abandoned" ::
      Explained(e, boots + [b], lives + [life])
  {
    InsertedGrows(b.log', life.activity);
    var boots', lives' := boots + [b], lives + [life];
    forall e | e in Inserted(b.log', life.activity) && e !in first && e.eventType == "run.abandoned"
      ensures Explained(e, boots', lives')
    {
      if e in b.log {
        var i :| 0 <= i < |boots| && ExplainedBy(e, boots[i], lives[i]);
        assert boots'[i] == boots[i] && lives'[i] == lives[i];
      } else {
        if e in b.log' { AddedOrOld(b.log, b.log', b.epoch, e); }
        assert ExplainedBy(e, boots'[|boots|], lives'[|lives|]);
      }
    }
  }
}

/**
 * What boot reconciliation amounts to over any number of boots, finished or cut short at any
 * statement: it is complete, confined, idempotent, and a crash changes nothing in the end.
 */
module BootConvergence {
  import opened Wrappers
  import opened BootLog

  // ---------- One pass ----------

  lemma AddedOrOld(log: seq<SpineEvent>, log': seq<SpineEvent>, epoch: BootEpoch, e: SpineEvent)
    requires LogAdvances(log, log', epoch) && e in log'
    ensures e in log || Added(e, log, epoch)
    ensures e.eventType == "run.started" ==> e in log
  {
    var i :| 0 <= i < |log'| && log'[i] == e;
    if i >= |log| { assert Added(log'[i], log, epoch); }
  }

  lemma Grows(log: seq<SpineEvent>, log': seq<SpineEvent>)
    requires log <= log'
    ensures forall e | e in log :: e in log'
    ensures forall r | Terminated(log, r) :: Terminated(log', r)
    ensures forall c | AbandonedBy(log, c) :: AbandonedBy(log', c)
  {
    assert forall e | e in log :: e in log';
  }

  /**
   * Complete: after a finished pass every start of this controller under another epoch has a
   * terminal event for its run or an abandonment of its own.
   */
  lemma NothingOrphaned(
    log: seq<SpineEvent>, h: map<string, RunRow>, log': seq<SpineEvent>, h': map<string, RunRow>, epoch: BootEpoch,
    s: SpineEvent)
    requires Pass(log, h, log', h', epoch) && Finished(log, log', h', epoch)
    requires s in log' && OwnedPrior(s, epoch)
    ensures Terminated(log', s.runId) || AbandonedBy(log', s.eventId)
  {
    AddedOrOld(log, log', epoch, s);
    Grows(log, log');
    if Orphan(log, s, epoch) { assert AbandonedBy(log', s.eventId); }
  }

  /**
   * Confined: a pass, finished or not, abandons only starts of this controller under another
   * epoch whose run had not ended, each once; and it never touches a row that is not running,
   * the identity of a row, or the records it emitted.
   */
  lemma OnlyOwnOrphansAbandoned(
    log: seq<SpineEvent>, h: map<string, RunRow>, log': seq<SpineEvent>, h': map<string, RunRow>, epoch: BootEpoch,
    e: SpineEvent)
    requires Pass(log, h, log', h', epoch) && UniqueCauses(log') && e in log' && e !in log
      && e.eventType == "run.abandoned"
    ensures exists s :: CausedByOrphan(e, s, log, epoch)
    ensures forall f | f in log' && f.eventType == "run.abandoned" && f.causedBy == e.causedBy :: f == e
    ensures h'.Keys == h.Keys
    ensures forall k | k in h ::
      h'[k].runId == h[k].runId && h'[k].instance == h[k].instance && h'[k].recordsEmitted == h[k].recordsEmitted
    ensures forall k | k in h && h[k].status != "running" :: h'[k] == h[k]
  {
    AddedOrOld(log, log', epoch, e);
    var s :| Abandons(e, s, log, epoch);
    assert CausedByOrphan(e, s, log, epoch);
    forall f | f in log' && f.eventType == "run.abandoned" && f.causedBy == e.causedBy ensures f == e {
      SameCause(log', e, f);
    }
    forall k | k in h ensures Evolves(h[k], h'[k], log') {}
  }

  ghost predicate CausedByOrphan(e: SpineEvent, s: SpineEvent, log: seq<SpineEvent>, epoch: BootEpoch) {
    && s in log && s.eventType == "run.started"
    && e.causedBy == Some(s.eventId) && e.runId == s.runId
    && (s.controllerId == None || s.controllerId == Some(epoch.controllerId))
    && s.bootEpoch != Some(epoch.bootEpoch)
    && !Terminated(log, s.runId) && !AbandonedBy(log, s.eventId)
  }

  lemma SameCause(log: seq<SpineEvent>, e: SpineEvent, f: SpineEvent)
    requires UniqueCauses(log) && e in log && f in log
    requires e.eventType == "run.abandoned" && f.eventType == "run.abandoned" && e.causedBy.Some?
      && e.causedBy == f.causedBy
    ensures e == f
  {
    var i :| 0 <= i < |log| && log[i] == e;
    var j :| 0 <= j < |log| && log[j] == f;
  }

  /** No row is left drifted unless the terminal event it adopted itself says "running". */
  lemma NoRowLeftRunning(log: seq<SpineEvent>, log': seq<SpineEvent>, h': map<string, RunRow>, epoch: BootEpoch)
    requires Finished(log, log', h', epoch)
    requires forall e | e in log' && IsTerminal(e) :: StatusOf(e) != "running"
    ensures forall k | k in h' :: !Drifted(h'[k], log')
  {
    forall k | k in h' ensures !Drifted(h'[k], log') {
      assert Drifted(h'[k], log') ==> StillRunning(h'[k], log');
    }
  }

  /** Idempotent: a second pass adds nothing, and changes no row that the first one settled. */
  lemma SecondPassSilent(log: seq<SpineEvent>, h: map<string, RunRow>, log': seq<SpineEvent>, h': map<string, RunRow>,
                         log'': seq<SpineEvent>, h'': map<string, RunRow>, epoch: BootEpoch)
    requires Pass(log, h, log', h', epoch) && Finished(log, log', h', epoch)
    requires Pass(log', h', log'', h'', epoch) && forall i | |log'| <= i < |log''| ::
      log''[i].eventType == "run.abandoned"
    ensures log'' == log'
    ensures forall k | k in h' :: h''[k] == h'[k] || StillRunning(h'[k], log')
    ensures (forall e | e in log' && IsTerminal(e) :: StatusOf(e) != "running") ==> h'' == h'
  {
    if |log''| > |log'| {
      assert Added(log''[|log'|], log', epoch);
      var s :| Abandons(log''[|log'|], s, log', epoch);
      NothingOrphaned(log, h, log', h', epoch, s);
      assert false;
    }
    forall k | k in h' ensures h''[k] == h'[k] || StillRunning(h'[k], log') {
      assert Evolves(h'[k], h''[k], log'');
    }
    if forall e | e in log' && IsTerminal(e) :: StatusOf(e) != "running" {
      NoRowLeftRunning(log, log', h', epoch);
    }
  }

  /** A boot adds its own event, numbered and named for its epoch, and after it only abandonments. */
  ghost predicate Stamped(log: seq<SpineEvent>, log': seq<SpineEvent>, epoch: BootEpoch) {
    && log <= log' && |log| < |log'|
    && log'[|log|].eventType == "controller.booted" && log'[|log|].seqNo == epoch.seqNo
    && log'[|log|].controllerId == Some(epoch.controllerId) && log'[|log|].bootEpoch == Some(epoch.bootEpoch)
    && forall i | |log| < i < |log'| :: log'[i].eventType == "run.abandoned"
  }

  /**
   * A second boot, under an epoch of its own, after a finished one under which no run was
   * started: it adds its own event and nothing else, and changes no row that is settled.
   */
  lemma SecondBootSilent(log: seq<SpineEvent>, h: map<string, RunRow>, log': seq<SpineEvent>, h': map<string, RunRow>,
                         log'': seq<SpineEvent>, h'': map<string, RunRow>, epoch: BootEpoch, epoch': BootEpoch)
    requires Pass(log, h, log', h', epoch) && Finished(log, log', h', epoch) && Fresh(log, epoch)
    requires epoch'.controllerId == epoch.controllerId
    requires Pass(log', h', log'', h'', epoch') && Stamped(log', log'', epoch')
    ensures |log''| == |log'| + 1
    ensures forall k | k in h' :: h''[k] == h'[k] || StillRunning(h'[k], log')
    ensures (forall e | e in log' && IsTerminal(e) :: StatusOf(e) != "running") ==> h'' == h'
  {
    if |log''| > |log'| + 1 {
      assert Added(log''[|log'| + 1], log', epoch');
      var s :| Abandons(log''[|log'| + 1], s, log', epoch');
      AddedOrOld(log, log', epoch, s);
      NothingOrphaned(log, h, log', h', epoch, s);
      assert false;
    }
    assert forall e | e in log'' :: e in log' || e.eventType == "controller.booted";
    forall k | k in h' ensures h''[k] == h'[k] || StillRunning(h'[k], log') {
      assert Evolves(h'[k], h''[k], log'');
    }
    if forall e | e in log' && IsTerminal(e) :: StatusOf(e) != "running" {
      NoRowLeftRunning(log, log', h', epoch);
    }
  }

  // ---------- Many boots ----------

  /** No run of the log was started under this epoch. */
  ghost predicate Fresh(log: seq<SpineEvent>, epoch: BootEpoch) {
    forall s | s in log && s.eventType == "run.started" :: s.bootEpoch != Some(epoch.bootEpoch)
  }

  /** Run ids are unique: one start and at most one terminal event for each. */
  ghost predicate UniqueRuns(log: seq<SpineEvent>) {
    && (forall e, f | e in log && f in log && IsTerminal(e) && IsTerminal(f) && e.runId.Some? && e.runId == f.runId ::
      e == f)
    && (forall s, t | s in log && t in log && s.eventType == "run.started" && t.eventType == "run.started"
      && s.runId.Some? && s.runId == t.runId :: s == t)
  }

  lemma SameId(log: seq<SpineEvent>, e: SpineEvent, f: SpineEvent)
    requires EventIdsUnique(log) && e in log && f in log && e.eventId == f.eventId
    ensures e == f
  {
    var i :| 0 <= i < |log| && log[i] == e;
    var j :| 0 <= j < |log| && log[j] == f;
  }

  /** A terminal event a pass added is the abandonment of the run's own orphaned start. */
  lemma NewEnd(log: seq<SpineEvent>, log': seq<SpineEvent>, epoch: BootEpoch, e: SpineEvent)
    requires LogAdvances(log, log', epoch) && e in log' && e !in log && IsTerminal(e)
    ensures exists s :: Abandons(e, s, log, epoch)
  {
    AddedOrOld(log, log', epoch, e);
  }

  lemma RunsStayUnique(log: seq<SpineEvent>, log': seq<SpineEvent>, epoch: BootEpoch)
    requires UniqueRuns(log) && LogAdvances(log, log', epoch) && UniqueCauses(log')
    ensures UniqueRuns(log')
  {
    forall e, f | e in log' && f in log' && IsTerminal(e) && IsTerminal(f) && e.runId.Some? && e.runId == f.runId
      ensures e == f
    {
      OneEnd(log, log', epoch, e, f);
    }
    forall s | s in log' && s.eventType == "run.started" ensures s in log { AddedOrOld(log, log', epoch, s); }
  }

  lemma OneEnd(log: seq<SpineEvent>, log': seq<SpineEvent>, epoch: BootEpoch, e: SpineEvent, f: SpineEvent)
    requires UniqueRuns(log) && LogAdvances(log, log', epoch) && UniqueCauses(log')
    requires e in log' && f in log' && IsTerminal(e) && IsTerminal(f) && e.runId.Some? && e.runId == f.runId
    ensures e == f
  {
    if e !in log { NewEndIsFirst(log, log', epoch, e); }
    if f !in log { NewEndIsFirst(log, log', epoch, f); }
    if e !in log && f !in log {
      NewEnd(log, log', epoch, e);
      var s :| Abandons(e, s, log, epoch);
      NewEnd(log, log', epoch, f);
      var t :| Abandons(f, t, log, epoch);
      assert s == t;
      SameCause(log', e, f);
    }
  }

  lemma NewEndIsFirst(log: seq<SpineEvent>, log': seq<SpineEvent>, epoch: BootEpoch, e: SpineEvent)
    requires LogAdvances(log, log', epoch) && e in log' && e !in log && IsTerminal(e) && e.runId.Some?
    ensures forall f | f in log && IsTerminal(f) :: f.runId != e.runId
  {
    NewEnd(log, log', epoch, e);
    var s :| Abandons(e, s, log, epoch);
    assert forall f | f in log :: !Ends(f, s.runId);
  }

  /** Abandonments and boots settle no interaction and request none. */
  lemma AwaitingStays(log: seq<SpineEvent>, log': seq<SpineEvent>, epoch: BootEpoch, runId: Option<string>)
    requires LogAdvances(log, log', epoch)
    ensures AwaitingInteraction(log', runId) == AwaitingInteraction(log, runId)
  {
    Grows(log, log');
    forall e | e in log' && (e.eventType in REQUEST_EVENT_TYPES || e.eventType in RESOLUTION_EVENT_TYPES)
      ensures e in log
    {
      AddedOrOld(log, log', epoch, e);
    }
    assert forall q | q in log :: Pending(log', q) == Pending(log, q);
  }

  /** An orphan of a later boot was one before. */
  lemma OrphanBefore(
    log: seq<SpineEvent>, log': seq<SpineEvent>, epoch: BootEpoch, epoch': BootEpoch, e: SpineEvent, s: SpineEvent)
    requires LogAdvances(log, log', epoch) && Abandons(e, s, log', epoch')
    ensures Abandons(e, s, log, epoch')
  {
    AddedOrOld(log, log', epoch, s);
    Grows(log, log');
    AwaitingStays(log, log', epoch, s.runId);
  }

  lemma LogAdvancesFurther(
    log0: seq<SpineEvent>, log1: seq<SpineEvent>, log2: seq<SpineEvent>, epoch1: BootEpoch, epoch2: BootEpoch)
    requires LogAdvances(log0, log1, epoch1) && LogAdvances(log1, log2, epoch2)
    requires epoch1.controllerId == epoch2.controllerId && Fresh(log0, epoch2)
    ensures LogAdvances(log0, log2, epoch2)
  {
    forall i | |log0| <= i < |log2| ensures Added(log2[i], log0, epoch2) {
      var e := log2[i];
      if i < |log1| {
        assert e == log1[i] && Added(log1[i], log0, epoch1);
        if e.eventType != "controller.booted" {
          var s :| Abandons(e, s, log0, epoch1);
          assert Abandons(e, s, log0, epoch2);
        }
      } else if e.eventType != "controller.booted" {
        var s :| Abandons(e, s, log1, epoch2);
        OrphanBefore(log0, log1, epoch1, epoch2, e, s);
      }
    }
  }

  /** Where every run ends once, what a row adopted stays the authority on it. */
  lemma EvolutionStays(r: RunRow, r': RunRow, log: seq<SpineEvent>, log': seq<SpineEvent>)
    requires Evolves(r, r', log) && log <= log' && UniqueRuns(log')
    ensures Evolves(r, r', log')
  {
    Grows(log, log');
    if r' != r {
      var e :| Authority(e, r, log) && r' == Projected(r, e);
      assert EarliestEnd(e, log', r.runId);
      assert Authority(e, r, log');
    }
  }

  /** Two boots, the first cut short anywhere, do what one may do. */
  lemma PassesCompose(log0: seq<SpineEvent>, h0: map<string, RunRow>, log1: seq<SpineEvent>, h1: map<string, RunRow>,
                      log2: seq<SpineEvent>, h2: map<string, RunRow>, epoch1: BootEpoch, epoch2: BootEpoch)
    requires Pass(log0, h0, log1, h1, epoch1) && Pass(log1, h1, log2, h2, epoch2)
    requires epoch1.controllerId == epoch2.controllerId && Fresh(log0, epoch2)
    requires UniqueRuns(log0) && UniqueCauses(log2)
    ensures Pass(log0, h0, log2, h2, epoch2) && UniqueRuns(log2)
  {
    LogAdvancesFurther(log0, log1, log2, epoch1, epoch2);
    RunsStayUnique(log0, log2, epoch2);
    forall k | k in h0 ensures Evolves(h0[k], h2[k], log2) {
      EvolutionStays(h0[k], h1[k], log1, log2);
      EvolvesFurther(h0[k], h1[k], h2[k], log2);
    }
  }

  /** If the second of them finishes, everything the first one was to do is done. */
  lemma FinishCompletes(log0: seq<SpineEvent>, h0: map<string, RunRow>, log1: seq<SpineEvent>, h1: map<string, RunRow>,
                        log2: seq<SpineEvent>, h2: map<string, RunRow>, epoch1: BootEpoch, epoch2: BootEpoch)
    requires Pass(log0, h0, log1, h1, epoch1) && Pass(log1, h1, log2, h2, epoch2)
    requires epoch1.controllerId == epoch2.controllerId && UniqueRuns(log0)
    requires Finished(log1, log2, h2, epoch2)
    ensures Finished(log0, log2, h2, epoch2)
  {
    Grows(log0, log1);
    Grows(log1, log2);
    forall s | Orphan(log0, s, epoch2) ensures AbandonedBy(log2, s.eventId) {
      EndedOrphanAbandoned(log0, log1, epoch1, s, epoch2);
    }
  }

  /** An orphan whose run has ended since was abandoned. */
  lemma EndedOrphanAbandoned(
    log0: seq<SpineEvent>, log1: seq<SpineEvent>, epoch1: BootEpoch, s: SpineEvent, epoch2: BootEpoch)
    requires LogAdvances(log0, log1, epoch1) && UniqueRuns(log0) && Orphan(log0, s, epoch2)
    ensures Terminated(log1, s.runId) ==> AbandonedBy(log1, s.eventId)
  {
    if Terminated(log1, s.runId) {
      var e :| e in log1 && Ends(e, s.runId);
      NewEnd(log0, log1, epoch1, e);
      var t :| Abandons(e, t, log0, epoch1);
      assert t == s;
    }
  }

  /** The boot event before a pass changes nothing for it. */
  lemma BootedPass(
    log: seq<SpineEvent>, h: map<string, RunRow>, booted: seq<SpineEvent>, log': seq<SpineEvent>,
    h': map<string, RunRow>, epoch: BootEpoch, completed: bool)
    requires LogAdvances(log, booted, epoch) && |booted| == |log| + 1 && booted[|log|].eventType == "controller.booted"
    requires Pass(booted, h, log', h', epoch) && (completed ==> Finished(booted, log', h', epoch))
    ensures Pass(log, h, log', h', epoch)
    ensures completed ==> Finished(log, log', h', epoch)
    ensures AllAbandoned(booted, log', epoch) ==> AllAbandoned(log, log', epoch)
  {
    Grows(log, booted);
    assert forall e | e in booted :: e in log || e.eventType == "controller.booted";
    forall i | |log| <= i < |log'| ensures Added(log'[i], log, epoch) {
      if i >= |booted| && log'[i].eventType != "controller.booted" {
        var s :| Abandons(log'[i], s, booted, epoch);
        OrphanBefore(log, booted, epoch, epoch, log'[i], s);
      }
    }
    forall s | Orphan(log, s, epoch) ensures Orphan(booted, s, epoch) {}
  }

  // ---------- The outcome ----------

  /**
   * With unique run ids the history a finished reconciliation leaves is the history before,
   * with every row that was running against the final log set to the event that ended its run.
   */
  lemma OutcomeIsRepair(
    log: seq<SpineEvent>, h: map<string, RunRow>, log': seq<SpineEvent>, h': map<string, RunRow>, epoch: BootEpoch,
    k: string)
    requires Pass(log, h, log', h', epoch) && Finished(log, log', h', epoch)
    requires UniqueRuns(log') && k in h
    ensures Repaired(h[k], h'[k], log')
  {
    assert Evolves(h[k], h'[k], log');
    if h'[k] != h[k] {
      var e :| Authority(e, h[k], log') && h'[k] == Projected(h[k], e);
      assert EarliestEnd(e, log', h[k].runId);
    } else if Drifted(h[k], log') {
      assert StillRunning(h'[k], log');
    }
  }

  // ---------- Rows that stay running ----------

  /** The earliest event that ends the run says itself that the run is running. */
  predicate EndsRunning(log: seq<SpineEvent>, runId: Option<string>) {
    exists e :: e in log && EarliestEnd(e, log, runId) && StatusOf(e) == "running"
  }

  /** Events that end a run at the same instant agree on whether they say "running". */
  ghost predicate TiesAgree(log: seq<SpineEvent>) {
    forall e, f | e in log && f in log && Ends(e, e.runId) && Ends(f, e.runId) && e.at == f.at ::
      StatusOf(e) == "running" <==> StatusOf(f) == "running"
  }

  /**
   * After a finished pass a row is running against a terminal log exactly if it was running
   * before and the earliest event that ended its run, before the pass, says "running".
   */
  lemma StuckIff(
    log: seq<SpineEvent>, h: map<string, RunRow>, log': seq<SpineEvent>, h': map<string, RunRow>, epoch: BootEpoch,
    k: string)
    requires Pass(log, h, log', h', epoch) && Finished(log, log', h', epoch) && TiesAgree(log) && k in h
    ensures Drifted(h'[k], log') <==> h[k].status == "running" && Identified(h[k]) && EndsRunning(log, h[k].runId)
  {
    assert Evolves(h[k], h'[k], log');
    if Drifted(h'[k], log') { StuckOnlyIf(log, h, log', h', epoch, k); }
    if h[k].status == "running" && Identified(h[k]) && EndsRunning(log, h[k].runId) {
      StuckIfSo(log, h, log', h', epoch, k);
    }
  }

  lemma StuckOnlyIf(
    log: seq<SpineEvent>, h: map<string, RunRow>, log': seq<SpineEvent>, h': map<string, RunRow>, epoch: BootEpoch,
    k: string)
    requires Pass(log, h, log', h', epoch) && Finished(log, log', h', epoch) && k in h && Drifted(h'[k], log')
    ensures h[k].status == "running" && Identified(h[k]) && EndsRunning(log, h[k].runId)
  {
    assert Evolves(h[k], h'[k], log') && StillRunning(h'[k], log');
    var e :| EarliestEnd(e, log', h'[k].runId) && StatusOf(e) == "running";
    AddedOrOld(log, log', epoch, e);
    Grows(log, log');
    assert EarliestEnd(e, log, h[k].runId);
  }

  lemma StuckIfSo(
    log: seq<SpineEvent>, h: map<string, RunRow>, log': seq<SpineEvent>, h': map<string, RunRow>, epoch: BootEpoch,
    k: string)
    requires Pass(log, h, log', h', epoch) && TiesAgree(log) && k in h && Evolves(h[k], h'[k], log')
    requires h[k].status == "running" && Identified(h[k]) && EndsRunning(log, h[k].runId)
    ensures Drifted(h'[k], log')
  {
    Grows(log, log');
    if h'[k] != h[k] {
      var e :| e in log && EarliestEnd(e, log, h[k].runId) && StatusOf(e) == "running";
      var f :| Authority(f, h[k], log') && h'[k] == Projected(h[k], f);
      EndedBefore(log, log', epoch, e, f, h[k].runId);
      assert EarliestEnd(f, log', h[k].runId);
      assert e.at == f.at && Ends(e, e.runId) && Ends(f, e.runId);
    }
  }

  /** The ends of a run that had ended before are those it had. */
  lemma EndedBefore(
    log: seq<SpineEvent>, log': seq<SpineEvent>, epoch: BootEpoch, e: SpineEvent, f: SpineEvent, runId: Option<string>)
    requires LogAdvances(log, log', epoch) && e in log && Ends(e, runId) && f in log' && Ends(f, runId)
    ensures f in log
  {
    if f !in log {
      NewEndIsFirst(log, log', epoch, f);
    }
  }

  /**
   * So no row is left running against a terminal log if and only if none was running whose run
   * had ended, at first, with an event that says "running".
   */
  lemma NoRowLeftRunningIff(
    log: seq<SpineEvent>, h: map<string, RunRow>, log': seq<SpineEvent>, h': map<string, RunRow>, epoch: BootEpoch)
    requires Pass(log, h, log', h', epoch) && Finished(log, log', h', epoch) && TiesAgree(log)
    ensures (forall k | k in h' :: !Drifted(h'[k], log')) <==>
      (forall k | k in h && h[k].status == "running" && Identified(h[k]) :: !EndsRunning(log, h[k].runId))
  {
    forall k | k in h
      ensures Drifted(h'[k], log') <==> h[k].status == "running" && Identified(h[k]) && EndsRunning(log, h[k].runId)
    {
      StuckIff(log, h, log', h', epoch, k);
    }
  }

  /**
   * Such an input: a running row, and an event that completes its run, or reports its browser
   * surface as failed, with the status "running". Every finished pass leaves the row as it is.
   */
  lemma StuckExample(eventType: string, log': seq<SpineEvent>, h': map<string, RunRow>, epoch: BootEpoch)
    requires eventType == "run.completed" || eventType == "run.browser_surface_failed"
    requires var end := SpineEvent("e", eventType, 1, Some("r"), Some("c"), Some("running"), None, None, None, 0, None,
      None);
      var row := RunRow(Some("r"), Some("c"), "running", None, None, 0);
      Pass([end], map["1" := row], log', h', epoch) && Finished([end], log', h', epoch)
    ensures "1" in h' && Drifted(h'["1"], log')
  {
    var end := SpineEvent("e", eventType, 1, Some("r"), Some("c"), Some("running"), None, None, None, 0, None, None);
    var row := RunRow(Some("r"), Some("c"), "running", None, None, 0);
    assert end in [end] && EarliestEnd(end, [end], Some("r"));
    StuckIff([end], map["1" := row], log', h', epoch, "1");
  }

  /**
   * Convergence: two finished reconciliations of the same log and history, interrupted in
   * different ways or not at all, abandon the same starts and give every row the same status
   * and reason, and the same completion time where the same event ended the run.
   */
  lemma SameOutcome(log: seq<SpineEvent>, h: map<string, RunRow>,
                    logA: seq<SpineEvent>, hA: map<string, RunRow>, epochA: BootEpoch,
                    logB: seq<SpineEvent>, hB: map<string, RunRow>, epochB: BootEpoch, k: string, c: string)
    requires Pass(log, h, logA, hA, epochA) && Finished(log, logA, hA, epochA)
    requires Pass(log, h, logB, hB, epochB) && Finished(log, logB, hB, epochB)
    requires epochA.controllerId == epochB.controllerId && Fresh(log, epochA) && Fresh(log, epochB)
    requires UniqueRuns(log) && UniqueCauses(logA) && UniqueCauses(logB) && EventIdsUnique(log) && k in h
    ensures AbandonedBy(logA, c) <==> AbandonedBy(logB, c)
    ensures hA[k].status == hB[k].status && hA[k].reason == hB[k].reason
    ensures (exists e :: e in logA && e in logB && Ends(e, h[k].runId)) ==> hA[k] == hB[k]
  {
    SameCauses(log, h, logA, epochA, logB, hB, epochB, c);
    SameCauses(log, h, logB, epochB, logA, hA, epochA, c);
    RunsStayUnique(log, logA, epochA);
    RunsStayUnique(log, logB, epochB);
    OutcomeIsRepair(log, h, logA, hA, epochA, k);
    OutcomeIsRepair(log, h, logB, hB, epochB, k);
    if Terminated(logA, h[k].runId) {
      SameEnd(log, h, logA, epochA, logB, hB, epochB, h[k].runId);
      var e, f :| Counterparts(e, f, logA, logB, h[k].runId);
    }
    if Terminated(logB, h[k].runId) {
      SameEnd(log, h, logB, epochB, logA, hA, epochA, h[k].runId);
      var e, f :| Counterparts(e, f, logB, logA, h[k].runId);
    }
  }

  lemma SameCauses(log: seq<SpineEvent>, h: map<string, RunRow>, logA: seq<SpineEvent>, epochA: BootEpoch,
                   logB: seq<SpineEvent>, hB: map<string, RunRow>, epochB: BootEpoch, c: string)
    requires LogAdvances(log, logA, epochA)
    requires Pass(log, h, logB, hB, epochB) && Finished(log, logB, hB, epochB)
    requires epochA.controllerId == epochB.controllerId && Fresh(log, epochB)
    ensures AbandonedBy(logA, c) ==> AbandonedBy(logB, c)
  {
    Grows(log, logB);
    if AbandonedBy(logA, c) && !AbandonedBy(log, c) {
      var e :| e in logA && e.eventType == "run.abandoned" && e.causedBy == Some(c);
      NewEnd(log, logA, epochA, e);
      var s :| Abandons(e, s, log, epochA);
      assert Orphan(log, s, epochB);
    }
  }

  /** The event that ends a run in one log has a counterpart with the same status and reason in the other. */
  lemma SameEnd(log: seq<SpineEvent>, h: map<string, RunRow>, logA: seq<SpineEvent>, epochA: BootEpoch,
                logB: seq<SpineEvent>, hB: map<string, RunRow>, epochB: BootEpoch, runId: Option<string>)
    requires LogAdvances(log, logA, epochA) && Terminated(logA, runId)
    requires Pass(log, h, logB, hB, epochB) && Finished(log, logB, hB, epochB)
    requires epochA.controllerId == epochB.controllerId && Fresh(log, epochB)
    requires UniqueRuns(log) && EventIdsUnique(log)
    ensures exists e, f :: Counterparts(e, f, logA, logB, runId)
  {
    Grows(log, logB);
    var e :| e in logA && Ends(e, runId);
    if e in log {
      assert Counterparts(e, e, logA, logB, runId);
    } else {
      NewEnd(log, logA, epochA, e);
      var s :| Abandons(e, s, log, epochA);
      assert Orphan(log, s, epochB);
      var f := AbandonmentFound(log, h, logB, hB, epochB, s);
      assert Counterparts(e, f, logA, logB, runId);
    }
  }

  ghost predicate Counterparts(
    e: SpineEvent, f: SpineEvent, logA: seq<SpineEvent>, logB: seq<SpineEvent>, runId: Option<string>) {
    e in logA && f in logB && Ends(e, runId) && Ends(f, runId) && StatusOf(e) == StatusOf(f) && e.reason == f.reason
  }

  lemma AbandonmentFound(
    log: seq<SpineEvent>, h: map<string, RunRow>, log': seq<SpineEvent>, h': map<string, RunRow>, epoch: BootEpoch,
    s: SpineEvent)
    returns (f: SpineEvent)
    requires Pass(log, h, log', h', epoch) && Finished(log, log', h', epoch) && EventIdsUnique(log)
      && Orphan(log, s, epoch)
    ensures f in log' && Abandons(f, s, log, epoch)
  {
    f :| f in log' && f.eventType == "run.abandoned" && f.causedBy == Some(s.eventId);
    NewEnd(log, log', epoch, f);
    var t :| Abandons(f, t, log, epoch);
    SameId(log, s, t);
  }
}

/**
 * What a boot pass does, in terms of the events and rows themselves: which starts it abandons
 * and with what event, and what every running row ends up with. The event types, statuses and
 * reasons are those the tables hold.
 */
module BootOutcomes {
  import opened Wrappers
  import opened BootLog

  // ---------- Events ----------

  /** A terminal event of this run. */
  ghost predicate EndsRun(e: SpineEvent, run: string) {
    && e.runId == Some(run)
    && (e.eventType == "run.completed" || e.eventType == "run.failed" || e.eventType == "run.browser_surface_failed"
      || e.eventType == "run.cancelled" || e.eventType == "run.abandoned")
  }

  ghost predicate HasEnded(log: seq<SpineEvent>, run: string) {
    exists e :: e in log && EndsRun(e, run)
  }

  /** A start that nothing ended: of this controller, of another boot, its run not ended, itself not abandoned. */
  ghost predicate LeftOpen(log: seq<SpineEvent>, s: SpineEvent, epoch: BootEpoch) {
    && s in log && s.eventType == "run.started"
    && (s.controllerId == None || s.controllerId == Some(epoch.controllerId))
    && s.bootEpoch != Some(epoch.bootEpoch)
    && (forall run | s.runId == Some(run) :: !HasEnded(log, run))
    && (forall e | e in log && e.eventType == "run.abandoned" :: e.causedBy != Some(s.eventId))
  }

  /** The owner was asked something for this run and the question was never closed. */
  ghost predicate OwnerAsked(log: seq<SpineEvent>, runId: Option<string>) {
    runId.Some? && exists q :: q in log && q.runId == runId && Unanswered(log, q)
  }

  ghost predicate Unanswered(log: seq<SpineEvent>, q: SpineEvent) {
    && (q.eventType == "run.interaction_required" || q.eventType == "run.assistance_requested")
    && q.interactionId.Some?
    && forall d | d in log && d.interactionId == q.interactionId ::
      && d.eventType != "run.interaction_completed" && d.eventType != "run.assistance_resolved"
      && d.eventType != "run.assistance_cancelled" && d.eventType != "run.assistance_timed_out"
  }

  /** The event that abandons a start. */
  ghost predicate IsAbandonment(e: SpineEvent, s: SpineEvent, log: seq<SpineEvent>) {
    && e.eventType == "run.abandoned" && e.status == Some("abandoned")
    && e.runId == s.runId && e.causedBy == Some(s.eventId)
    && e.reason == Some(if OwnerAsked(log, s.runId) then "controller_terminated_while_awaiting_owner_interaction"
      else "controller_terminated_before_run_finished")
  }

  lemma EndsIff(log: seq<SpineEvent>, runId: Option<string>)
    ensures forall e :: Ends(e, runId) <==> runId.Some? && EndsRun(e, runId.value)
    ensures Terminated(log, runId) <==> runId.Some? && HasEnded(log, runId.value)
  {
  }

  lemma OrphanIff(log: seq<SpineEvent>, s: SpineEvent, epoch: BootEpoch)
    ensures Orphan(log, s, epoch) <==> LeftOpen(log, s, epoch)
  {
    EndsIff(log, s.runId);
  }

  lemma AwaitingIff(log: seq<SpineEvent>, runId: Option<string>)
    ensures AwaitingInteraction(log, runId) <==> OwnerAsked(log, runId)
  {
    forall q ensures Pending(log, q) <==> Unanswered(log, q) {}
  }

  /** Whatever a pass adds is a boot event or the abandonment of a start that was left open. */
  lemma AddedExact(log: seq<SpineEvent>, log': seq<SpineEvent>, epoch: BootEpoch, e: SpineEvent)
    requires LogAdvances(log, log', epoch) && e in log' && e !in log
    ensures e.eventType == "controller.booted" || exists s :: LeftOpen(log, s, epoch) && IsAbandonment(e, s, log)
  {
    var i :| 0 <= i < |log'| && log'[i] == e;
    assert Added(log'[i], log, epoch);
    if e.eventType != "controller.booted" {
      var s :| Abandons(e, s, log, epoch);
      OrphanIff(log, s, epoch);
      AwaitingIff(log, s.runId);
      assert LeftOpen(log, s, epoch) && IsAbandonment(e, s, log);
    }
  }

  /**
   * A start whose run had ended in any of the five ways, or that was abandoned already, or that
   * belongs to another controller or to this boot, is not abandoned by a pass.
   */
  lemma NotOpenNotAbandoned(
    log: seq<SpineEvent>, h: map<string, RunRow>, log': seq<SpineEvent>, h': map<string, RunRow>, epoch: BootEpoch,
    s: SpineEvent, e: SpineEvent)
    requires Pass(log, h, log', h', epoch) && EventIdsUnique(log')
    requires s in log && s.eventType == "run.started" && !LeftOpen(log, s, epoch)
    requires e in log' && e.eventType == "run.abandoned" && e.causedBy == Some(s.eventId)
    ensures e in log
  {
    CauseWasOpen(log, log', epoch, s, e);
  }

  /** A start that a new abandonment names was left open. */
  lemma CauseWasOpen(log: seq<SpineEvent>, log': seq<SpineEvent>, epoch: BootEpoch, s: SpineEvent, e: SpineEvent)
    requires LogAdvances(log, log', epoch) && EventIdsUnique(log') && s in log && e in log'
    ensures e !in log && e.eventType == "run.abandoned" && e.causedBy == Some(s.eventId) ==>
      LeftOpen(log, s, epoch) && IsAbandonment(e, s, log)
  {
    if e !in log && e.eventType == "run.abandoned" && e.causedBy == Some(s.eventId) {
      AddedExact(log, log', epoch, e);
      var t :| LeftOpen(log, t, epoch) && IsAbandonment(e, t, log);
      assert log' == log + log'[|log|..];
      OneOfId(log', s, t);
    }
  }

  lemma OneOfId(log: seq<SpineEvent>, s: SpineEvent, t: SpineEvent)
    requires EventIdsUnique(log) && s in log && t in log && s.eventId == t.eventId
    ensures s == t
  {
    var i :| 0 <= i < |log| && log[i] == s;
    var j :| 0 <= j < |log| && log[j] == t;
  }

  /** A start that was left open is abandoned by a pass that finishes, with an event of its own. */
  lemma OpenAbandoned(
    log: seq<SpineEvent>, h: map<string, RunRow>, log': seq<SpineEvent>, h': map<string, RunRow>, epoch: BootEpoch,
    s: SpineEvent)
    requires Pass(log, h, log', h', epoch) && Finished(log, log', h', epoch) && EventIdsUnique(log')
    requires LeftOpen(log, s, epoch)
    ensures exists e :: e in log' && e !in log && IsAbandonment(e, s, log)
  {
    OrphanIff(log, s, epoch);
    var e :| e in log' && e.eventType == "run.abandoned" && e.causedBy == Some(s.eventId);
    assert e !in log;
    CauseWasOpen(log, log', epoch, s, e);
  }

  // ---------- Rows ----------

  /** The row says how and when its run ended, and is otherwise as it was. */
  ghost predicate ShowsEnd(r: RunRow, r': RunRow, e: SpineEvent) {
    && r'.runId == r.runId && r'.instance == r.instance && r'.recordsEmitted == r.recordsEmitted
    && r'.completedAt == Some(e.at) && r'.reason == e.reason
    && (e.eventType == "run.failed" ==> r'.status == "failed")
    && (e.eventType == "run.cancelled" ==> r'.status == "cancelled")
    && (e.eventType == "run.abandoned" ==> r'.status == "abandoned")
    && (e.eventType == "run.completed" ==>
      r'.status == if e.status == None || e.status == Some("") then "succeeded" else e.status.value)
    && (e.eventType == "run.browser_surface_failed" ==>
      r'.status == if e.status == None || e.status == Some("") then "surface_failed" else e.status.value)
  }

  ghost predicate FirstEnd(e: SpineEvent, log: seq<SpineEvent>, run: string) {
    e in log && EndsRun(e, run) && forall t | t in log && EndsRun(t, run) :: e.at <= t.at
  }

  /** A start of the very run and connection of this row, both named. */
  ghost predicate StartOf(s: SpineEvent, run: string, instance: string) {
    s.runId == Some(run) && run != "" && s.instance == Some(instance) && instance != ""
  }

  /**
   * What a pass that finishes leaves in a row. One that was not running, or has no run or
   * connection id, is untouched. The others show the earliest end their run had; if it had none
   * and a start of that run and connection was left open, the abandonment of such a start; if a
   * start of that run alone was, the earliest abandonment; and else they run on.
   */
  ghost predicate RowSettled(r: RunRow, r': RunRow, log: seq<SpineEvent>, log': seq<SpineEvent>, epoch: BootEpoch) {
    if r.status != "running" || r.runId.None? || r.instance.None? then r' == r
    else
      var (run, instance) := (r.runId.value, r.instance.value);
      if HasEnded(log, run) then exists e :: FirstEnd(e, log, run) && ShowsEnd(r, r', e)
      else if exists s :: LeftOpen(log, s, epoch) && StartOf(s, run, instance) then
        exists e :: e in log' && e !in log && AbandonsStartOf(e, log, run, instance) && ShowsEnd(r, r', e)
      else if HasEnded(log', run) then exists e :: FirstEnd(e, log', run) && ShowsEnd(r, r', e)
      else r' == r
  }

  ghost predicate AbandonsStartOf(e: SpineEvent, log: seq<SpineEvent>, run: string, instance: string) {
    e.eventType == "run.abandoned" && exists s ::
      s in log && s.eventType == "run.started" && e.causedBy == Some(s.eventId) && s.runId == Some(run)
      && s.instance == Some(instance)
  }

  ghost predicate RowsSettled(
    log: seq<SpineEvent>, h: map<string, RunRow>, log': seq<SpineEvent>, h': map<string, RunRow>, epoch: BootEpoch) {
    h'.Keys == h.Keys && forall k | k in h :: RowSettled(h[k], h'[k], log, log', epoch)
  }

  lemma ProjectedShowsEnd(r: RunRow, e: SpineEvent)
    requires IsTerminal(e)
    ensures ShowsEnd(r, Projected(r, e), e)
  {
  }

  lemma ClaimedIff(r: RunRow, log: seq<SpineEvent>, epoch: BootEpoch)
    ensures Claimed(r, log, epoch) <==>
      && r.status == "running" && r.runId.Some? && r.instance.Some?
      && exists s :: LeftOpen(log, s, epoch) && StartOf(s, r.runId.value, r.instance.value)
  {
    forall s ensures Orphan(log, s, epoch) <==> LeftOpen(log, s, epoch) { OrphanIff(log, s, epoch); }
    if Claimed(r, log, epoch) {
      var s :| Orphan(log, s, epoch) && Claims(s, r);
      assert LeftOpen(log, s, epoch) && StartOf(s, r.runId.value, r.instance.value);
    }
  }

  /** A run that had ended gets no further end from abandonments. */
  lemma SameEnds(log: seq<SpineEvent>, log': seq<SpineEvent>, epoch: BootEpoch, run: string, e: SpineEvent)
    requires LogAdvances(log, log', epoch) && HasEnded(log, run)
    ensures e in log' && EndsRun(e, run) <==> e in log && EndsRun(e, run)
  {
    assert log' == log + log'[|log|..];
    if e in log' && e !in log { AddedExact(log, log', epoch, e); }
  }

  /** The two halves of a pass together settle every row. */
  lemma HalvesSettle(
    log: seq<SpineEvent>, h: map<string, RunRow>, log': seq<SpineEvent>, h': map<string, RunRow>,
    h'': map<string, RunRow>, epoch: BootEpoch)
    requires Abandoning(log, h, log', h', epoch) && h''.Keys == h'.Keys
    requires forall k | k in h :: if Claimed(h[k], log, epoch) then h'[k].status == "abandoned" else h'[k] == h[k]
    requires forall k | k in h'' :: Repaired(h'[k], h''[k], log')
    ensures RowsSettled(log, h, log', h'', epoch)
  {
    forall k | k in h ensures RowSettled(h[k], h''[k], log, log', epoch) {
      ClaimedIff(h[k], log, epoch);
      if Claimed(h[k], log, epoch) {
        ClaimedSettles(log, h[k], log', h'[k], epoch);
      } else {
        RepairSettles(log, h[k], log', h''[k], epoch);
      }
    }
  }

  lemma ClaimedSettles(log: seq<SpineEvent>, r: RunRow, log': seq<SpineEvent>, r': RunRow, epoch: BootEpoch)
    requires Claimed(r, log, epoch) && LogAdvances(log, log', epoch) && OwnEvolves(r, r', log')
      && r'.status == "abandoned"
    ensures RowSettled(r, r', log, log', epoch)
  {
    ClaimedIff(r, log, epoch);
    var e :| OwnAbandonment(e, r, log') && Ends(e, r.runId) && r' == Projected(r, e);
    EndsIff(log, r.runId);
    ProjectedShowsEnd(r, e);
    assert e !in log;
    var s :| s in log' && s.eventType == "run.started" && e.causedBy == Some(s.eventId) && s.runId == r.runId
      && s.instance == r.instance;
    if s !in log { AddedExact(log, log', epoch, s); }
    assert AbandonsStartOf(e, log, r.runId.value, r.instance.value);
  }

  lemma RepairSettles(log: seq<SpineEvent>, r: RunRow, log': seq<SpineEvent>, r': RunRow, epoch: BootEpoch)
    requires !Claimed(r, log, epoch) && LogAdvances(log, log', epoch) && Repaired(r, r', log')
    ensures RowSettled(r, r', log, log', epoch)
  {
    ClaimedIff(r, log, epoch);
    EndsIff(log', r.runId);
    assert log' == log + log'[|log|..];
    if Drifted(r, log') {
      var e :| EarliestEnd(e, log', r.runId) && r' == Projected(r, e);
      ProjectedShowsEnd(r, e);
      assert FirstEnd(e, log', r.runId.value);
      if HasEnded(log, r.runId.value) {
        forall t { SameEnds(log, log', epoch, r.runId.value, t); }
        assert FirstEnd(e, log, r.runId.value);
      }
    }
  }

  /** A boot event before the pass makes no difference to the rows. */
  lemma BootedSettles(
    log: seq<SpineEvent>, h: map<string, RunRow>, booted: seq<SpineEvent>, log': seq<SpineEvent>,
    h': map<string, RunRow>, epoch: BootEpoch, boot: SpineEvent)
    requires booted == log + [boot] && boot.eventType == "controller.booted"
    requires RowsSettled(booted, h, log', h', epoch)
    ensures RowsSettled(log, h, log', h', epoch)
  {
    forall run ensures HasEnded(booted, run) <==> HasEnded(log, run) {}
    forall e, run ensures FirstEnd(e, booted, run) <==> FirstEnd(e, log, run) {}
    forall s ensures LeftOpen(booted, s, epoch) <==> LeftOpen(log, s, epoch) {}
    forall k | k in h ensures RowSettled(h[k], h'[k], log, log', epoch) {
      assert RowSettled(h[k], h'[k], booted, log', epoch);
    }
  }

  /** The counts a pass reports: starts left open, and rows that show an end none of them gave. */
  lemma CountsExact(log: seq<SpineEvent>, h: map<string, RunRow>, log': seq<SpineEvent>, epoch: BootEpoch)
    ensures OrphanPlaces(log, epoch) == set i: nat | i < |log| && LeftOpen(log, log[i], epoch)
    ensures DriftedRows(h, log') - ClaimedRows(log, h, epoch) ==
      set k | k in h && h[k].status == "running" && h[k].runId.Some? && h[k].instance.Some?
        && HasEnded(log', h[k].runId.value)
        && !exists s :: LeftOpen(log, s, epoch) && StartOf(s, h[k].runId.value, h[k].instance.value)
  {
    forall i: nat | i < |log| { OrphanIff(log, log[i], epoch); }
    forall k | k in h
      ensures Drifted(h[k], log') <==>
        && h[k].status == "running" && h[k].runId.Some? && h[k].instance.Some?
        && HasEnded(log', h[k].runId.value)
      ensures Claimed(h[k], log, epoch) <==>
        && h[k].status == "running" && h[k].runId.Some? && h[k].instance.Some?
        && exists s :: LeftOpen(log, s, epoch) && StartOf(s, h[k].runId.value, h[k].instance.value)
    {
      ClaimedIff(h[k], log, epoch);
      EndsIff(log', h[k].runId);
    }
  }
}

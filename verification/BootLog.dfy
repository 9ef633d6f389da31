/**
 * The tables of boot-time run reconciliation, reference-implementation/lib/controller-boot.ts,
 * and what a pass may do to them: which starts are orphans, what may be added to the event log,
 * how a run_history row may change.
 */
module BootLog {
  import opened Wrappers

  // ---------- The tables ----------

  datatype SpineEvent = SpineEvent(
    eventId: string,
    eventType: string,
    at: int,
    runId: Option<string>,
    instance: Option<string>,
    status: Option<string>,
    interactionId: Option<string>,
    controllerId: Option<string>,
    bootEpoch: Option<string>,
    seqNo: nat,
    reason: Option<string>,
    causedBy: Option<string>)

  datatype RunRow = RunRow(
    runId: Option<string>,
    instance: Option<string>,
    status: string,
    completedAt: Option<int>,
    reason: Option<string>,
    recordsEmitted: int)

  datatype BootEpoch = BootEpoch(controllerId: string, bootEpoch: string, seqNo: nat)

  const TERMINAL_EVENT_TYPES: set<string> := {"run.completed", "run.failed", "run.browser_surface_failed",
    "run.cancelled", "run.abandoned"}
  const REQUEST_EVENT_TYPES: set<string> := {"run.interaction_required", "run.assistance_requested"}
  const RESOLUTION_EVENT_TYPES: set<string> := {"run.interaction_completed", "run.assistance_resolved",
    "run.assistance_cancelled", "run.assistance_timed_out"}
  const ABANDONED_AT_BOOT_REASON: string := "controller_terminated_before_run_finished"
  const ABANDONED_AWAITING_INTERACTION_REASON: string := "controller_terminated_while_awaiting_owner_interaction"

  predicate IsTerminal(e: SpineEvent) {
    e.eventType in TERMINAL_EVENT_TYPES
  }

  /** A terminal event of this run; a missing run id matches nothing. */
  predicate Ends(e: SpineEvent, runId: Option<string>) {
    IsTerminal(e) && runId.Some? && e.runId == runId
  }

  predicate Terminated(log: seq<SpineEvent>, runId: Option<string>) {
    exists e :: e in log && Ends(e, runId)
  }

  predicate AbandonedBy(log: seq<SpineEvent>, cause: string) {
    exists e :: e in log && e.eventType == "run.abandoned" && e.causedBy == Some(cause)
  }

  // ---------- Orphans ----------

  /** Started under another epoch by this controller; a missing controller counts as this one. */
  predicate OwnedPrior(s: SpineEvent, epoch: BootEpoch) {
    && s.eventType == "run.started"
    && s.bootEpoch != Some(epoch.bootEpoch)
    && (s.controllerId == None || s.controllerId == Some(epoch.controllerId))
  }

  predicate Orphan(log: seq<SpineEvent>, s: SpineEvent, epoch: BootEpoch) {
    s in log && OwnedPrior(s, epoch) && !Terminated(log, s.runId) && !AbandonedBy(log, s.eventId)
  }

  predicate Pending(log: seq<SpineEvent>, q: SpineEvent) {
    && q.eventType in REQUEST_EVENT_TYPES && q.interactionId.Some?
    && !exists d :: d in log && d.interactionId == q.interactionId && d.eventType in RESOLUTION_EVENT_TYPES
  }

  /** Some interaction was requested for the run and never settled. */
  predicate AwaitingInteraction(log: seq<SpineEvent>, runId: Option<string>) {
    runId.Some? && exists q :: q in log && q.runId == runId && Pending(log, q)
  }

  function TerminalReasonFor(awaiting: bool): string {
    if awaiting then ABANDONED_AWAITING_INTERACTION_REASON else ABANDONED_AT_BOOT_REASON
  }

  function AbandonmentOf(s: SpineEvent, awaiting: bool, id: string, at: int): SpineEvent {
    SpineEvent(id, "run.abandoned", at, s.runId, None, Some("abandoned"), None, None, None, 0,
      Some(TerminalReasonFor(awaiting)), Some(s.eventId))
  }

  /** At most one abandonment per cause, as the unique index demands. */
  ghost predicate UniqueCauses(log: seq<SpineEvent>) {
    forall i, j | 0 <= i < j < |log| && log[i].eventType == "run.abandoned" && log[j].eventType == "run.abandoned"
      && log[i].causedBy.Some? ::
      log[i].causedBy != log[j].causedBy
  }

  /** The event id is the primary key. */
  ghost predicate EventIdsUnique(log: seq<SpineEvent>) {
    forall i, j | 0 <= i < j < |log| :: log[i].eventId != log[j].eventId
  }

  predicate HasId(log: seq<SpineEvent>, id: string) {
    exists e :: e in log && e.eventId == id
  }

  /** Where the orphans of a log stand. */
  function OrphanPlaces(log: seq<SpineEvent>, epoch: BootEpoch): set<nat> {
    set i: nat | i < |log| && Orphan(log, log[i], epoch)
  }

  // ---------- The projection ----------

  function TerminalStatusForEventType(eventType: string, status: Option<string>): string {
    var given := status.Some? && status.value != "";
    if eventType == "run.completed" then (if given then status.value else "succeeded")
    else if eventType == "run.cancelled" then "cancelled"
    else if eventType == "run.abandoned" then "abandoned"
    else if eventType == "run.browser_surface_failed" then (if given then status.value else "surface_failed")
    else "failed"
  }

  function StatusOf(e: SpineEvent): string {
    TerminalStatusForEventType(e.eventType, e.status)
  }

  /** A row that adopts a terminal event: its status, time and reason, and nothing else. */
  function Projected(r: RunRow, e: SpineEvent): RunRow {
    r.(status := StatusOf(e), completedAt := Some(e.at), reason := e.reason)
  }

  predicate Identified(r: RunRow) {
    r.runId.Some? && r.instance.Some?
  }

  /** A row that claims to run although the log says its run ended. */
  predicate Drifted(r: RunRow, log: seq<SpineEvent>) {
    r.status == "running" && Identified(r) && Terminated(log, r.runId)
  }

  predicate EarliestEnd(e: SpineEvent, log: seq<SpineEvent>, runId: Option<string>) {
    e in log && Ends(e, runId) && forall t | t in log && Ends(t, runId) :: e.at <= t.at
  }

  lemma {:induction false} EarliestExists(log: seq<SpineEvent>, runId: Option<string>)
    requires Terminated(log, runId)
    ensures exists e :: EarliestEnd(e, log, runId)
  {
    var n := |log| - 1;
    var init, last := log[..n], log[n];
    assert log == init + [last];
    if Terminated(init, runId) {
      EarliestExists(init, runId);
      var e :| EarliestEnd(e, init, runId);
      if Ends(last, runId) && last.at < e.at {
        assert EarliestEnd(last, log, runId);
      } else {
        assert EarliestEnd(e, log, runId);
      }
    } else {
      assert EarliestEnd(last, log, runId);
    }
  }

  /** Nothing but abandonments ends this run. */
  ghost predicate OnlyAbandoned(log: seq<SpineEvent>, runId: Option<string>) {
    forall f | f in log && Ends(f, runId) :: f.eventType == "run.abandoned"
  }

  /** The abandonment of a start of this very run and connection, whose run nothing else ends. */
  ghost predicate OwnAbandonment(e: SpineEvent, r: RunRow, log: seq<SpineEvent>) {
    && e in log && e.eventType == "run.abandoned" && OnlyAbandoned(log, r.runId)
    && exists s ::
      s in log && s.eventType == "run.started" && e.causedBy == Some(s.eventId) && s.runId == r.runId
      && s.instance == r.instance
  }

  ghost predicate Authority(e: SpineEvent, r: RunRow, log: seq<SpineEvent>) {
    && e in log && Ends(e, r.runId)
    && (EarliestEnd(e, log, r.runId) || OwnAbandonment(e, r, log))
  }

  /** What may happen to a row: nothing, or, while it runs, adopting what ended its run. */
  ghost predicate Evolves(r: RunRow, r': RunRow, log: seq<SpineEvent>) {
    r' == r || (r.status == "running" && Identified(r) && exists e :: Authority(e, r, log) && r' == Projected(r, e))
  }

  ghost predicate HistoryEvolves(h: map<string, RunRow>, h': map<string, RunRow>, log: seq<SpineEvent>) {
    h'.Keys == h.Keys && forall k | k in h :: Evolves(h[k], h'[k], log)
  }

  /** The changes of the first half of a pass: rows adopt the abandonment of their own start. */
  ghost predicate OwnEvolves(r: RunRow, r': RunRow, log: seq<SpineEvent>) {
    r' == r || (r.status == "running" && Identified(r) && exists e ::
      OwnAbandonment(e, r, log) && Ends(e, r.runId) && r' == Projected(r, e))
  }

  ghost predicate HistoryOwnEvolves(h: map<string, RunRow>, h': map<string, RunRow>, log: seq<SpineEvent>) {
    h'.Keys == h.Keys && forall k | k in h :: OwnEvolves(h[k], h'[k], log)
  }

  // ---------- What a pass may add to the log ----------

  ghost predicate Abandons(e: SpineEvent, s: SpineEvent, log: seq<SpineEvent>, epoch: BootEpoch) {
    Orphan(log, s, epoch) && e == AbandonmentOf(s, AwaitingInteraction(log, s.runId), e.eventId, e.at)
  }

  ghost predicate Added(e: SpineEvent, log: seq<SpineEvent>, epoch: BootEpoch) {
    e.eventType == "controller.booted" || exists s :: Abandons(e, s, log, epoch)
  }

  /** Everything added is a boot or the abandonment of an orphan of the log before. */
  ghost predicate LogAdvances(log: seq<SpineEvent>, log': seq<SpineEvent>, epoch: BootEpoch) {
    && log <= log'
    && forall i | |log| <= i < |log'| :: Added(log'[i], log, epoch)
  }

  /** What holds whenever a pass stops, finished or not. */
  ghost predicate Pass(
    log: seq<SpineEvent>, h: map<string, RunRow>, log': seq<SpineEvent>, h': map<string, RunRow>, epoch: BootEpoch) {
    LogAdvances(log, log', epoch) && HistoryEvolves(h, h', log')
  }

  ghost predicate AllAbandoned(log: seq<SpineEvent>, log': seq<SpineEvent>, epoch: BootEpoch) {
    forall s | Orphan(log, s, epoch) :: AbandonedBy(log', s.eventId)
  }

  /** What a finished pass leaves: every orphan abandoned, every drifted row repaired. */
  ghost predicate Finished(log: seq<SpineEvent>, log': seq<SpineEvent>, h': map<string, RunRow>, epoch: BootEpoch) {
    && AllAbandoned(log, log', epoch)
    && (forall k | k in h' && Drifted(h'[k], log') :: StillRunning(h'[k], log'))
  }

  /** The one way to stay drifted: the adopted event's own status says "running". */
  ghost predicate StillRunning(r: RunRow, log: seq<SpineEvent>) {
    exists e :: EarliestEnd(e, log, r.runId) && StatusOf(e) == "running" && r == Projected(r, e)
  }

  datatype ReconcileResult = ReconcileResult(abandoned: nat, repaired: nat, selected: nat)

  datatype OrphanRow = OrphanRow(start: SpineEvent, awaitingInteraction: bool)

  // ---------- Helper facts on growing logs ----------

  lemma EvolvesFurther(r: RunRow, r': RunRow, r'': RunRow, log: seq<SpineEvent>)
    requires Evolves(r, r', log) && Evolves(r', r'', log)
    ensures Evolves(r, r'', log)
  {
    if r' != r && r'' != r' {
      var e :| Authority(e, r', log) && r'' == Projected(r', e);
      assert Authority(e, r, log) && r'' == Projected(r, e);
    }
  }

  ghost predicate AddsAbandonments(log: seq<SpineEvent>, log': seq<SpineEvent>) {
    log <= log' && forall i | |log| <= i < |log'| :: log'[i].eventType == "run.abandoned"
  }

  lemma AddedAbandonments(log: seq<SpineEvent>, log': seq<SpineEvent>)
    requires AddsAbandonments(log, log')
    ensures forall e | e in log :: e in log'
    ensures forall e | e in log' :: e in log || e.eventType == "run.abandoned"
    ensures forall r | OnlyAbandoned(log, r) :: OnlyAbandoned(log', r)
  {
    forall e | e in log' ensures e in log || e.eventType == "run.abandoned" {
      var i :| 0 <= i < |log'| && log'[i] == e;
    }
  }

  /** Adopted abandonments stay what they are when more runs are abandoned. */
  lemma OwnStays(r: RunRow, r': RunRow, log: seq<SpineEvent>, log': seq<SpineEvent>)
    requires OwnEvolves(r, r', log) && AddsAbandonments(log, log')
    ensures OwnEvolves(r, r', log')
  {
    AddedAbandonments(log, log');
    if r' != r {
      var e :| OwnAbandonment(e, r, log) && Ends(e, r.runId) && r' == Projected(r, e);
      assert OwnAbandonment(e, r, log');
    }
  }

  lemma OwnEvolvesFurther(r: RunRow, r': RunRow, r'': RunRow, log: seq<SpineEvent>, log': seq<SpineEvent>)
    requires OwnEvolves(r, r', log) && OwnEvolves(r', r'', log') && AddsAbandonments(log, log')
    ensures OwnEvolves(r, r'', log')
  {
    OwnStays(r, r', log, log');
  }

  lemma OwnIsEvolution(r: RunRow, r': RunRow, log: seq<SpineEvent>)
    requires OwnEvolves(r, r', log)
    ensures Evolves(r, r', log)
  {
    if r' != r {
      var e :| OwnAbandonment(e, r, log) && Ends(e, r.runId) && r' == Projected(r, e);
      assert Authority(e, r, log);
    }
  }

  /** What the repair does to one row. */
  ghost predicate Repaired(r: RunRow, r': RunRow, log: seq<SpineEvent>) {
    if Drifted(r, log) then exists e :: EarliestEnd(e, log, r.runId) && r' == Projected(r, e) else r' == r
  }

  predicate Covered(r: RunRow, drifted: map<(string, string), SpineEvent>, rest: set<(string, string)>) {
    && r.status == "running" && Identified(r)
    && (r.runId.value, r.instance.value) in drifted
    && (r.runId.value, r.instance.value) !in rest
  }

  /** A row after the updates of all drifted runs but the rest. */
  function RepairedRow(r: RunRow, drifted: map<(string, string), SpineEvent>, rest: set<(string, string)>): RunRow {
    if Covered(r, drifted, rest) then Projected(r, drifted[(r.runId.value, r.instance.value)]) else r
  }

  /** One above the highest number of this controller's boots so far, or 1. */
  function NextSeqIn(log: seq<SpineEvent>, controllerId: string): (n: nat)
    ensures n > 0
    ensures forall e | e in log && e.eventType == "controller.booted" && e.controllerId == Some(controllerId) ::
      e.seqNo < n
    ensures n == 1 || exists e ::
      e in log && e.eventType == "controller.booted" && e.controllerId == Some(controllerId) && e.seqNo + 1 == n
  {
    if log == [] then 1
    else
      var last := log[|log| - 1];
      var n := NextSeqIn(log[..|log| - 1], controllerId);
      assert log == log[..|log| - 1] + [last];
      if last.eventType == "controller.booted" && last.controllerId == Some(controllerId) && last.seqNo >= n
        then last.seqNo + 1 else n
  }

  /** Writing statements that a pass over this log and history needs at most. */
  function Needed(log: seq<SpineEvent>, h: map<string, RunRow>): nat {
    2 * |log| + |h|
  }

  /** A start that carries both run and connection id, neither empty: only then a row can be matched. */
  predicate HasRow(s: SpineEvent) {
    s.runId.Some? && s.runId.value != "" && s.instance.Some? && s.instance.value != ""
  }

  predicate Matches(r: RunRow, runId: Option<string>, instance: Option<string>) {
    r.runId == runId && r.instance == instance && r.status == "running"
  }

  lemma SomeMember<T>(s: set<T>)
    requires s != {}
    ensures exists x :: x in s
  {
  }

  lemma HistoryOwnEvolvesFurther(
    h: map<string, RunRow>, h': map<string, RunRow>, h'': map<string, RunRow>, log: seq<SpineEvent>,
    log': seq<SpineEvent>)
    requires HistoryOwnEvolves(h, h', log) && HistoryOwnEvolves(h', h'', log') && AddsAbandonments(log, log')
    ensures HistoryOwnEvolves(h, h'', log')
  {
    forall k | k in h ensures OwnEvolves(h[k], h''[k], log') { OwnEvolvesFurther(h[k], h'[k], h''[k], log, log'); }
  }

  ghost predicate Appends(log: seq<SpineEvent>, log': seq<SpineEvent>, o: OrphanRow) {
    log' == log || exists id, at :: log' == log + [AbandonmentOf(o.start, o.awaitingInteraction, id, at)]
  }

  /** The state in the middle of the first half of a pass. */
  ghost predicate Abandoning(
    log: seq<SpineEvent>, h: map<string, RunRow>, log': seq<SpineEvent>, h': map<string, RunRow>, epoch: BootEpoch) {
    && LogAdvances(log, log', epoch)
    && AddsAbandonments(log, log')
    && HistoryOwnEvolves(h, h', log')
  }

  /** A running row of an orphan's own run and connection: the abandonment itself is projected onto it. */
  ghost predicate Claimed(r: RunRow, log: seq<SpineEvent>, epoch: BootEpoch) {
    exists s :: Orphan(log, s, epoch) && Claims(s, r)
  }

  predicate Claims(s: SpineEvent, r: RunRow) {
    HasRow(s) && Matches(r, s.runId, s.instance)
  }

  ghost function ClaimedRows(log: seq<SpineEvent>, h: map<string, RunRow>, epoch: BootEpoch): set<string> {
    set k | k in h && Claimed(h[k], log, epoch)
  }

  ghost predicate ClaimedByFirst(orphans: seq<OrphanRow>, n: nat, r: RunRow)
    requires n <= |orphans|
  {
    exists j :: 0 <= j < n && Claims(orphans[j].start, r)
  }

  ghost predicate CausedByFirst(orphans: seq<OrphanRow>, n: nat, c: string)
    requires n <= |orphans|
  {
    exists j :: 0 <= j < n && orphans[j].start.eventId == c
  }

  /** The exact state after the first n abandonments: n events more, and exactly their rows abandoned. */
  ghost predicate Emitted(orphans: seq<OrphanRow>, n: nat, log: seq<SpineEvent>, h: map<string, RunRow>,
                          log': seq<SpineEvent>, h': map<string, RunRow>)
    requires n <= |orphans|
  {
    && |log'| == |log| + n && h'.Keys == h.Keys
    && (forall c | AbandonedBy(log', c) :: AbandonedBy(log, c) || CausedByFirst(orphans, n, c))
    && (forall k | k in h :: if ClaimedByFirst(orphans, n, h[k]) then h'[k].status == "abandoned" else h'[k] == h[k])
  }

  lemma EmittedOneMore(orphans: seq<OrphanRow>, n: nat, log: seq<SpineEvent>, h: map<string, RunRow>,
                       log': seq<SpineEvent>, h': map<string, RunRow>, log'': seq<SpineEvent>, h'': map<string, RunRow>)
    requires n < |orphans| && Emitted(orphans, n, log, h, log', h')
    requires Appends(log', log'', orphans[n]) && |log''| == |log'| + 1
    requires h''.Keys == h'.Keys
    requires forall k | k in h' ::
      h''[k] == if Claims(orphans[n].start, h'[k]) then Projected(h'[k], log''[|log'|]) else h'[k]
    ensures Emitted(orphans, n + 1, log, h, log'', h'')
  {
    var o, e := orphans[n], log''[|log'|];
    assert log'' == log' + [e] && e.eventType == "run.abandoned" && e.causedBy == Some(o.start.eventId);
    forall c | AbandonedBy(log'', c) ensures AbandonedBy(log, c) || CausedByFirst(orphans, n + 1, c) {
      if AbandonedBy(log', c) {
        assert AbandonedBy(log, c) || CausedByFirst(orphans, n, c);
      } else {
        assert c == o.start.eventId;
      }
    }
    forall k | k in h
      ensures if ClaimedByFirst(orphans, n + 1, h[k]) then h''[k].status == "abandoned" else h''[k] == h[k]
    {
      assert ClaimedByFirst(orphans, n + 1, h[k]) <==> ClaimedByFirst(orphans, n, h[k]) || Claims(o.start, h[k]);
    }
  }

  /** Orphans selected from a log keyed by event id are told apart by it, so each is abandoned anew. */
  ghost predicate Apart(orphans: seq<OrphanRow>) {
    forall i, j | 0 <= i < j < |orphans| :: orphans[i].start.eventId != orphans[j].start.eventId
  }

  lemma NotYetAbandoned(orphans: seq<OrphanRow>, n: nat, log: seq<SpineEvent>, h: map<string, RunRow>,
                        log': seq<SpineEvent>, h': map<string, RunRow>)
    requires n < |orphans| && Apart(orphans) && Emitted(orphans, n, log, h, log', h')
    requires !AbandonedBy(log, orphans[n].start.eventId)
    ensures !AbandonedBy(log', orphans[n].start.eventId)
  {
  }

  /** One more abandonment is an allowed addition, and forgets none of the earlier ones. */
  lemma OneMoreAbandonment(log: seq<SpineEvent>, h: map<string, RunRow>, log': seq<SpineEvent>, h': map<string, RunRow>,
                           log'': seq<SpineEvent>, h'': map<string, RunRow>, o: OrphanRow, epoch: BootEpoch)
    requires Abandoning(log, h, log', h', epoch) && Orphan(log, o.start, epoch)
    requires o.awaitingInteraction == AwaitingInteraction(log, o.start.runId)
    requires Appends(log', log'', o) && HistoryOwnEvolves(h', h'', log'')
    ensures Abandoning(log, h, log'', h'', epoch)
    ensures forall c | AbandonedBy(log', c) :: AbandonedBy(log'', c)
  {
    assert forall e | e in log' :: e in log'';
    forall i | |log| <= i < |log''| ensures Added(log''[i], log, epoch) && log''[i].eventType == "run.abandoned" {
      if i < |log'| {
        assert Added(log'[i], log, epoch);
      } else {
        assert Abandons(log''[i], o.start, log, epoch);
      }
    }
    HistoryOwnEvolvesFurther(h, h', h'', log', log'');
  }

  /** The drifted runs of a history, each with its earliest terminal event. */
  ghost predicate Selected(drifted: map<(string, string), SpineEvent>, h: map<string, RunRow>, log: seq<SpineEvent>) {
    && (forall k | k in h && Drifted(h[k], log) :: (h[k].runId.value, h[k].instance.value) in drifted)
    && (forall p | p in drifted :: EarliestEnd(drifted[p], log, Some(p.0)))
  }

  function Matching(h: map<string, RunRow>, runId: string, instance: string): set<string> {
    set k | k in h && Matches(h[k], Some(runId), Some(instance))
  }

  function DriftedRows(h: map<string, RunRow>, log: seq<SpineEvent>): set<string> {
    set k | k in h && Drifted(h[k], log)
  }

  function CoveredRows(
    h: map<string, RunRow>, drifted: map<(string, string), SpineEvent>, rest: set<(string, string)>): set<string> {
    set k | k in h && Covered(h[k], drifted, rest)
  }

  /** All drifted runs but the rest have been repaired. */
  ghost predicate PartlyRepaired(
    h: map<string, RunRow>, h': map<string, RunRow>, drifted: map<(string, string), SpineEvent>,
    rest: set<(string, string)>) {
    && rest <= drifted.Keys
    && h'.Keys == h.Keys
    && forall k | k in h :: h'[k] == RepairedRow(h[k], drifted, rest)
  }

  /** As many of the drifted runs have been repaired as statements were spent. */
  ghost predicate RepairedUpTo(h: map<string, RunRow>, h': map<string, RunRow>, log: seq<SpineEvent>,
                               drifted: map<(string, string), SpineEvent>, rest: set<(string, string)>, spent: int) {
    Selected(drifted, h, log) && PartlyRepaired(h, h', drifted, rest) && |rest| == |drifted| - spent
  }

  lemma RepairEvolves(
    h: map<string, RunRow>, h': map<string, RunRow>, drifted: map<(string, string), SpineEvent>,
    rest: set<(string, string)>, log: seq<SpineEvent>)
    requires Selected(drifted, h, log) && PartlyRepaired(h, h', drifted, rest)
    ensures HistoryEvolves(h, h', log)
    ensures rest == {} ==> CoveredRows(h, drifted, rest) == DriftedRows(h, log) && forall k | k in h ::
      Repaired(h[k], h'[k], log)
  {
    forall k | k in h
      ensures Evolves(h[k], h'[k], log)
      ensures rest == {} ==> Repaired(h[k], h'[k], log) && (Covered(h[k], drifted, rest) <==> Drifted(h[k], log))
    {
      if Covered(h[k], drifted, rest) {
        var e := drifted[(h[k].runId.value, h[k].instance.value)];
        assert EarliestEnd(e, log, h[k].runId);
        assert Authority(e, h[k], log);
      }
    }
  }

  /** One more update: it repairs the rows of one run and connection, and touches no other row. */
  lemma OneMoreRepair(h: map<string, RunRow>, h': map<string, RunRow>, h'': map<string, RunRow>,
                      drifted: map<(string, string), SpineEvent>, rest: set<(string, string)>, p: (string, string))
    requires PartlyRepaired(h, h', drifted, rest) && p in rest
    requires h''.Keys == h'.Keys
    requires forall k | k in h' ::
      h''[k] == if Matches(h'[k], Some(p.0), Some(p.1)) then Projected(h'[k], drifted[p]) else h'[k]
    ensures PartlyRepaired(h, h'', drifted, rest - {p})
    ensures |CoveredRows(h, drifted, rest - {p})| == |CoveredRows(h, drifted, rest)| + |Matching(h', p.0, p.1)|
  {
    forall k | k in h
      ensures Matches(h'[k], Some(p.0), Some(p.1)) <==>
        Covered(h[k], drifted, rest - {p}) && !Covered(h[k], drifted, rest)
    {
    }
    var before, now := CoveredRows(h, drifted, rest), Matching(h', p.0, p.1);
    assert before !! now;
    assert CoveredRows(h, drifted, rest - {p}) == before + now;
  }
}

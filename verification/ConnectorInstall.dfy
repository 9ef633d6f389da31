/**
 * Crash-safe publication of the connector bundle, scripts/resolve-connectors.js. The file system
 * is an install root and a set of transaction directories beside it. Renames are atomic. What
 * becomes of each file-system step, that it happens, that it fails or that the process dies
 * there, is given by a schedule; a recursive delete that fails or dies stops half-way.
 * Installers run one after another.
 */
module ConnectorInstall {
  import opened Wrappers
  import opened Orders

  /** The content of a directory: a bundle that passed its check, or anything else. */
  datatype Tree = Complete(bundle: string) | Other(content: string)

  datatype Owner = Owner(installRoot: string, pid: int)

  datatype Transaction = Transaction(owner: Option<Owner>, next: Option<Tree>, previous: Option<Tree>)

  /** process.kill(pid, 0): the process runs, is gone, or the question is refused. */
  datatype Probe = Running | Gone | Denied

  datatype Outcome = Done | Crashed | Failed(error: InstallError)

  datatype InstallError =
    | StillRunning
    | ProbeDenied
    | SeveralCandidates
    | InvalidLock
    | BuildFailed
    | PublicationFailed
    | RollbackFailed
    | FileSystemFailed

  // ---------- Schedules ----------

  datatype Step = Happens | Fails | Dies

  /** What becomes of the next step; beyond the schedule every step happens. */
  function Next(steps: seq<Step>): Step {
    if steps == [] then Happens else steps[0]
  }

  function Drop(steps: seq<Step>, n: nat): seq<Step> {
    if n <= |steps| then steps[n..] else []
  }

  function OutcomeOf(s: Step): Outcome {
    match s
    case Happens => Done
    case Fails => Failed(FileSystemFailed)
    case Dies => Crashed
  }

  /** The steps taken explain the outcome: all of them happened, or all but the last, and that one is to blame. */
  ghost predicate Explains(before: seq<Step>, after: seq<Step>, o: Outcome) {
    || (o == Done && after == before)
    || (before != [] && if before[0] == Happens then Explains(before[1..], after, o)
      else o == OutcomeOf(before[0]) && after == before[1..])
  }

  /** Some step taken was of this kind. */
  ghost predicate Includes(before: seq<Step>, after: seq<Step>, x: Step) {
    |after| < |before| && (before[0] == x || Includes(before[1..], after, x))
  }

  lemma OneStep(steps: seq<Step>)
    ensures Explains(steps, Drop(steps, 1), OutcomeOf(Next(steps)))
  {
    if steps != [] { assert Drop(steps, 1) == steps[1..]; }
  }

  /** Steps that all happened, and then some that explain an outcome. */
  lemma {:induction false} ThenSteps(a: seq<Step>, b: seq<Step>, c: seq<Step>, o: Outcome)
    requires Explains(a, b, Done) && Explains(b, c, o)
    ensures Explains(a, c, o)
    decreases |a|
  {
    if b != a { ThenSteps(a[1..], b, c, o); }
  }

  /** What is left of a schedule. */
  predicate Suffix(before: seq<Step>, after: seq<Step>) {
    before == after || (before != [] && Suffix(before[1..], after))
  }

  lemma {:induction false} SuffixFurther(a: seq<Step>, b: seq<Step>, c: seq<Step>)
    requires Suffix(a, b) && Suffix(b, c)
    ensures Suffix(a, c) && |c| <= |b| <= |a|
    decreases |a|, |b|
  {
    if a != b {
      SuffixFurther(a[1..], b, c);
    } else if b != c {
      SuffixFurther(b[1..], b[1..], c);
    }
  }

  /** A death was among the steps taken if the process died, a failed step if it reports a failure. */
  ghost predicate Blames(before: seq<Step>, after: seq<Step>, o: Outcome) {
    && Suffix(before, after)
    && (o == Crashed ==> Includes(before, after, Dies))
    && (o.Failed? ==> Includes(before, after, Fails))
  }

  lemma {:induction false} ExplainsBlames(before: seq<Step>, after: seq<Step>, o: Outcome)
    requires Explains(before, after, o)
    ensures Blames(before, after, o)
    decreases |before|
  {
    if o != Done || after != before {
      if before[0] == Happens { ExplainsBlames(before[1..], after, o); }
    }
  }

  /** What was among the later steps was among all of them, ... */
  lemma {:induction false} BlamesLater(a: seq<Step>, b: seq<Step>, c: seq<Step>, o: Outcome)
    requires Suffix(a, b) && Blames(b, c, o)
    ensures Blames(a, c, o)
    decreases |a|
  {
    SuffixFurther(a, b, c);
    if a != b { BlamesLater(a[1..], b, c, o); }
  }

  /** ... and so was what was among the earlier ones. */
  lemma {:induction false} BlamesEarlier(a: seq<Step>, b: seq<Step>, c: seq<Step>, o: Outcome)
    requires Blames(a, b, o) && Suffix(b, c)
    ensures Blames(a, c, o)
  {
    SuffixFurther(a, b, c);
    if o == Crashed { AmongMore(a, b, c, Dies); }
    if o.Failed? { AmongMore(a, b, c, Fails); }
  }

  lemma {:induction false} AmongMore(a: seq<Step>, b: seq<Step>, c: seq<Step>, x: Step)
    requires Includes(a, b, x) && |c| <= |b|
    ensures Includes(a, c, x)
    decreases |a|
  {
    if a[0] != x { AmongMore(a[1..], b, c, x); }
  }

  /** The outcomes a single step can have. */
  predicate Plain(o: Outcome) {
    o == Done || o == Crashed || o == Failed(FileSystemFailed)
  }

  /** A step of this kind among the first n of the schedule. */
  ghost predicate Within(steps: seq<Step>, n: nat, x: Step) {
    exists i :: 0 <= i < n && i < |steps| && steps[i] == x
  }

  /** What was among the steps taken, n at most, was among the first n. */
  lemma {:induction false} TakenWithin(before: seq<Step>, after: seq<Step>, n: nat, x: Step)
    requires Includes(before, after, x) && |before| <= |after| + n
    ensures Within(before, n, x)
    decreases |before|
  {
    if before[0] == x {
      assert Within(before, n, x);
    } else {
      TakenWithin(before[1..], after, n - 1, x);
      var i :| 0 <= i < n - 1 && i < |before[1..]| && before[1..][i] == x;
      assert before[i + 1] == x;
    }
  }

  /** Either every step taken happened, or one of them failed. */
  ghost predicate Tidy(before: seq<Step>, after: seq<Step>, smooth: bool) {
    if smooth then Explains(before, after, Done) else Includes(before, after, Fails)
  }

  lemma {:induction false} SmoothExcludes(before: seq<Step>, after: seq<Step>)
    requires Explains(before, after, Done)
    ensures !Includes(before, after, Fails)
    decreases |before|
  {
    if before != after { SmoothExcludes(before[1..], after); }
  }

  lemma TidyLater(a: seq<Step>, b: seq<Step>, c: seq<Step>, smooth: bool)
    requires Explains(a, b, Done) && Tidy(b, c, smooth) && Suffix(b, c)
    ensures Tidy(a, c, smooth)
  {
    if smooth {
      ThenSteps(a, b, c, Done);
    } else {
      ExplainsBlames(a, b, Done);
      BlamesLater(a, b, c, Failed(FileSystemFailed));
    }
  }

  predicate OwnedBy(t: Transaction, installRoot: string) {
    t.owner.Some? && t.owner.value.installRoot == installRoot
  }

  /** A transaction that recovery would restore from: both trees are still there. */
  predicate Interrupted(t: Transaction, installRoot: string) {
    OwnedBy(t, installRoot) && t.next.Some? && t.previous.Some?
  }

  /**
   * What every step keeps. `latest` is what was published last (or what was there at first):
   * either the root holds it and no transaction looks interrupted, or the root is gone and
   * exactly one transaction does, with `latest` as its previous tree.
   */
  ghost predicate Safe(
    installRoot: string, root: Option<Tree>, transactions: map<string, Transaction>, latest: Option<Tree>) {
    if root.Some? || latest.None? then
      && root == latest
      && forall n | n in transactions :: !Interrupted(transactions[n], installRoot)
    else
      exists n :: Holds(installRoot, transactions, latest, n)
  }

  /** The one interrupted transaction, and it holds `latest`. */
  ghost predicate Holds(installRoot: string, transactions: map<string, Transaction>, latest: Option<Tree>, n: string) {
    && n in transactions
    && Interrupted(transactions[n], installRoot)
    && transactions[n].previous == latest
    && forall m | m in transactions && m != n :: !Interrupted(transactions[m], installRoot)
  }

  /** A transaction already published by a process that is gone: only leftovers to delete. */
  predicate Leftover(t: Transaction, installRoot: string, probe: int -> Probe) {
    OwnedBy(t, installRoot) && t.next.None? && probe(t.owner.value.pid) == Gone
  }

  /** A reason to refuse: the owner cannot be asked about, or still runs while there is no root. */
  predicate Refuses(t: Transaction, installRoot: string, root: Option<Tree>, probe: int -> Probe) {
    OwnedBy(t, installRoot)
      && (probe(t.owner.value.pid) == Denied || (root.None? && probe(t.owner.value.pid) == Running))
  }

  /** What recovery asks of a transaction, in terms of its owner file, its two trees and the probe. */
  lemma TransactionMeaning(t: Transaction, installRoot: string, root: Option<Tree>, probe: int -> Probe)
    ensures OwnedBy(t, installRoot) <==> exists pid :: t.owner == Some(Owner(installRoot, pid))
    ensures Leftover(t, installRoot, probe) <==>
      exists pid :: t.owner == Some(Owner(installRoot, pid)) && probe(pid) == Gone && t.next == None
    ensures Interrupted(t, installRoot) <==>
      exists pid :: t.owner == Some(Owner(installRoot, pid)) && t.next != None && t.previous != None
    ensures Refuses(t, installRoot, root, probe) <==>
      exists pid :: t.owner == Some(Owner(installRoot, pid))
        && (probe(pid) == Denied || (probe(pid) == Running && root == None))
  {
  }

  /** Part of a recursive delete: parts of `t` may be gone or damaged, nothing is added. */
  predicate Shrunk(t: Transaction, t': Transaction) {
    && (t'.owner == t.owner || t'.owner.None?)
    && (t.next.None? ==> t'.next.None?)
    && (t.previous.None? ==> t'.previous.None?)
  }

  // ---------- Two facts about safe states ----------

  /** Recovery never meets two candidates, and the one it meets holds the latest tree. */
  lemma OneCandidate(
    installRoot: string, root: Option<Tree>, transactions: map<string, Transaction>, latest: Option<Tree>, m: string,
    n: string)
    requires Safe(installRoot, root, transactions, latest)
    requires m in transactions && Interrupted(transactions[m], installRoot)
    requires n in transactions && Interrupted(transactions[n], installRoot)
    ensures m == n && root.None? && transactions[m].previous == latest
  {
  }

  /** A published transaction, whose next tree is gone, is never restored from. */
  lemma PublishedNotRestored(
    installRoot: string, root: Option<Tree>, transactions: map<string, Transaction>, latest: Option<Tree>, n: string,
    t: Transaction)
    requires Safe(installRoot, root, transactions, latest)
    requires n !in transactions || !Interrupted(transactions[n], installRoot)
    requires !Interrupted(t, installRoot)
    ensures Safe(installRoot, root, transactions[n := t], latest)
    ensures Safe(installRoot, root, transactions - {n}, latest)
  {
    if root.None? && latest.Some? {
      var held :| Holds(installRoot, transactions, latest, held);
      assert Holds(installRoot, transactions[n := t], latest, held);
      assert Holds(installRoot, transactions - {n}, latest, held);
    }
  }

  // ---------- The steps of one publication ----------

  /**
   * What the schedule makes of the two renames and the rollback: outcome, whether the old tree
   * is moved, whether the new one is published.
   */
  function Publication(steps: seq<Step>, hadPrevious: bool): (Outcome, bool, bool) {
    if !hadPrevious then
      match Next(steps)
      case Happens => (Done, false, true)
      case Dies => (Crashed, false, false)
      case Fails => (Failed(PublicationFailed), false, false)
    else
      match Next(steps)
      case Happens => SecondRename(Drop(steps, 1))
      case Dies => (Crashed, false, false)
      case Fails => (Failed(PublicationFailed), false, false)
  }

  function SecondRename(steps: seq<Step>): (Outcome, bool, bool) {
    match Next(steps)
    case Happens => (Done, true, true)
    case Dies => (Crashed, true, false)
    case Fails =>
      match Next(Drop(steps, 1))
      case Happens => (Failed(PublicationFailed), false, false)
      case Dies => (Crashed, true, false)
      case Fails => (Failed(RollbackFailed), true, false)
  }

  /** One attempt by one process. */
  datatype Run =
    | Recovering(steps: seq<Step>, probe: int -> Probe)
    | Installing(bundle: string, pid: int, lockValid: bool, steps: seq<Step>, probe: int -> Probe)

  /** The tree of the last attempt that passed the second rename, or what was there at first. */
  function LastPublished(runs: seq<Run>, passed: seq<bool>, first: Option<Tree>): Option<Tree>
    requires |runs| == |passed|
  {
    if runs == [] then first
    else
      var n := |runs| - 1;
      if passed[n] && runs[n].Installing? then Some(Complete(runs[n].bundle))
        else LastPublished(runs[..n], passed[..n], first)
  }

  /** What an attempt finds and leaves. */
  datatype State = State(root: Option<Tree>, transactions: map<string, Transaction>, latest: Option<Tree>)

  /** Steps of a recovery at most: two for the candidate, one for each leftover. */
  function RecoverySteps(transactions: map<string, Transaction>): nat {
    2 + |transactions|
  }

  /** Steps of an installation at most: those of a recovery, and its own. */
  function InstallSteps(transactions: map<string, Transaction>): nat {
    RecoverySteps(transactions) + 7
  }

  /**
   * The transactions after a recovery: those found but, once there is something to serve, the
   * interrupted one and the leftovers of processes that are gone.
   */
  ghost function AfterRecovery(installRoot: string, s: State, probe: int -> Probe): map<string, Transaction> {
    map n | n in s.transactions && (s.latest.None?
      || !(Leftover(s.transactions[n], installRoot, probe) || Interrupted(s.transactions[n], installRoot))) ::
      s.transactions[n]
  }

  /** These transactions and one more. */
  ghost predicate OneMore(before: map<string, Transaction>, after: map<string, Transaction>) {
    exists name :: name in after && name !in before && Elsewhere(after, name) == before
  }

  /** Some transaction of this root has an owner that forbids going on. */
  ghost predicate Forbidden(installRoot: string, s: State, probe: int -> Probe) {
    exists n :: n in s.transactions && Refuses(s.transactions[n], installRoot, s.root, probe)
  }

  /**
   * A reason for an attempt not to succeed, in what it finds: a step that fails or is the last
   * among those it takes, an owner that forbids going on, an invalid lock.
   */
  ghost predicate Disturbed(installRoot: string, run: Run, s: State) {
    var n := if run.Installing? then InstallSteps(s.transactions) else RecoverySteps(s.transactions);
    || Within(run.steps, n, Fails) || Within(run.steps, n, Dies)
    || Forbidden(installRoot, s, run.probe)
    || (run.Installing? && !run.lockValid)
  }

  /** A transaction as this attempt may leave it: one it found, whole or in part, or its own. */
  ghost predicate Traceable(installRoot: string, run: Run, s: State, n: string, t: Transaction) {
    || (n in s.transactions && Shrunk(s.transactions[n], t))
    || (n !in s.transactions && run.Installing? && (t.owner == None || t.owner == Some(Owner(installRoot, run.pid))))
  }

  /**
   * One attempt, from what it finds to what it leaves. Undisturbed it succeeds; a success has
   * the latest tree in place, and an installation's is its bundle; only an attempt that passed
   * the second rename changes what is latest; a refusal changes nothing; and every transaction
   * left was found or is the attempt's own, which stays only if its delete failed, the process
   * died, or a failed rollback left the latest tree in it.
   */
  ghost predicate Attempted(installRoot: string, run: Run, s: State, s': State, o: Outcome, passed: bool) {
    && Safe(installRoot, s'.root, s'.transactions, s'.latest)
    && (o != Done ==> Disturbed(installRoot, run, s))
    && (o == Done ==> s'.root == s'.latest)
    && (run.Installing? && o == Done ==> passed)
    && (passed ==> run.Installing? && !o.Failed?)
    && s'.latest == (if passed then Some(Complete(run.bundle)) else s.latest)
    && (o == Failed(StillRunning) || o == Failed(ProbeDenied) <==> Forbidden(installRoot, s, run.probe))
    && (o == Failed(StillRunning) || o == Failed(ProbeDenied) ==> s' == s)
    && (forall n | n in s'.transactions :: Traceable(installRoot, run, s, n, s'.transactions[n]))
    && (o == Done || o == Failed(InvalidLock) || o == Failed(BuildFailed) || o == Failed(PublicationFailed) ==>
      || s'.transactions == AfterRecovery(installRoot, s, run.probe)
      || (run.Installing? && o == Done && Within(run.steps, InstallSteps(s.transactions), Fails)
        && OneMore(AfterRecovery(installRoot, s, run.probe), s'.transactions)))
    && (o == Failed(RollbackFailed) ==> OneMore(AfterRecovery(installRoot, s, run.probe), s'.transactions))
  }

  class ConnectorDirectory {
    const installRoot: string
    var root: Option<Tree>
    var transactions: map<string, Transaction>
    var steps: seq<Step>
    ghost var latest: Option<Tree>

    ghost predicate Valid() reads this`root, this`transactions, this`latest {
      Safe(installRoot, root, transactions, latest)
    }

    constructor (installRoot: string, root: Option<Tree>)
      ensures Valid() && this.installRoot == installRoot && this.root == root && latest == root && transactions == map[]
        && steps == []
    {
      this.installRoot, this.root, latest := installRoot, root, root;
      transactions, steps := map[], [];
    }

    /** The next step of the schedule. */
    method Attempt() returns (o: Outcome)
      modifies this`steps
      ensures steps == Drop(old(steps), 1) && o == OutcomeOf(Next(old(steps))) && Explains(old(steps), steps, o)
    {
      OneStep(steps);
      o := OutcomeOf(Next(steps));
      steps := Drop(steps, 1);
    }

    ghost function Now(): State reads this`root, this`transactions, this`latest {
      State(root, transactions, latest)
    }

    // ---------- Recursive deletion ----------

    /** rmSync(transaction, { recursive: true }): entries disappear one by one, in any order. */
    method RemoveTransaction(n: string) returns (o: Outcome)
      requires Valid() && n in transactions && !Interrupted(transactions[n], installRoot)
      modifies this`transactions, this`steps
      ensures Valid()
      ensures o == OutcomeOf(Next(old(steps))) && steps == Drop(old(steps), 1) && Explains(old(steps), steps, o)
      ensures o == Done ==> transactions == old(transactions) - {n}
      ensures o != Done ==>
        n in transactions && Shrunk(old(transactions[n]), transactions[n])
        && transactions == old(transactions)[n := transactions[n]]
    {
      o := Attempt();
      if o == Done {
        PublishedNotRestored(installRoot, root, transactions, latest, n, transactions[n]);
        transactions := transactions - {n};
      } else {
        Damage(n);
      }
    }

    /** A delete that stops half-way: any entries may be gone or damaged. */
    method Damage(n: string)
      requires Valid() && n in transactions && !Interrupted(transactions[n], installRoot)
      modifies this`transactions
      ensures Valid()
      ensures n in transactions && Shrunk(old(transactions[n]), transactions[n])
        && transactions == old(transactions)[n := transactions[n]]
    {
      var t := transactions[n];
      if * { t := t.(owner := None); }
      if t.next.Some? { if * { t := t.(next := None); } else if * { t := t.(next := Some(Other("partly deleted"))); } }
      if t.previous.Some? { if * { t := t.(previous := None); }
        else if * { t := t.(previous := Some(Other("partly deleted"))); } }
      PublishedNotRestored(installRoot, root, transactions, latest, n, t);
      transactions := transactions[n := t];
    }

    // ---------- Recovery ----------

    /** What the scan collects, or the reason it refuses to go on. */
    method ScanTransactions(probe: int -> Probe) returns (o: Outcome, candidates: set<string>, completed: set<string>)
      requires Valid()
      ensures o == Done ==> forall n ::
        && (n in candidates <==> n in transactions && root.None? && Interrupted(transactions[n], installRoot))
        && (n in completed <==> n in transactions && Leftover(transactions[n], installRoot, probe))
      ensures o == Done || o == Failed(StillRunning) || o == Failed(ProbeDenied)
      ensures o == Done <==> forall n | n in transactions :: !Refuses(transactions[n], installRoot, root, probe)
    {
      candidates, completed := {}, {};
      var rest := transactions.Keys;
      while rest != {}
        invariant rest <= transactions.Keys
        invariant forall n | n in transactions && n !in rest :: !Refuses(transactions[n], installRoot, root, probe)
        invariant forall n ::
          n in candidates <==>
          n in transactions && n !in rest && root.None? && Interrupted(transactions[n], installRoot)
        invariant forall n ::
          n in completed <==> n in transactions && n !in rest && Leftover(transactions[n], installRoot, probe)
        decreases |rest|
      {
        var n :| n in rest;
        var t := transactions[n];
        rest := rest - {n};
        if OwnedBy(t, installRoot) {
          match probe(t.owner.value.pid) {
            case Denied => return Failed(ProbeDenied), {}, {};
            case Running => if root.None? { return Failed(StillRunning), {}, {}; }
            case Gone =>
              if t.next.None? { completed := completed + {n}; }
              else if root.None? && t.previous.Some? { candidates := candidates + {n}; }
          }
        }
      }
      return Done, candidates, completed;
    }

    /**
     * Recovery refuses exactly while an owner cannot be asked about, or runs without a root.
     * Otherwise it fails or dies only where the schedule says so, and finished it has put what
     * was published last back and deleted the restored and leftover transactions, no others.
     */
    method RecoverInterruptedInstall(probe: int -> Probe) returns (o: Outcome)
      requires Valid()
      modifies this`root, this`transactions, this`steps
      ensures Valid()
      ensures o == Failed(StillRunning) || o == Failed(ProbeDenied) <==>
        exists n :: n in old(transactions) && Refuses(old(transactions)[n], installRoot, old(root), probe)
      ensures o == Failed(StillRunning) || o == Failed(ProbeDenied) ==>
        root == old(root) && transactions == old(transactions) && steps == old(steps)
      ensures o != Failed(StillRunning) && o != Failed(ProbeDenied) ==> Explains(old(steps), steps, o) && Plain(o)
      ensures |old(steps)| <= |steps| + RecoverySteps(old(transactions))
      ensures o == Done ==> root == latest
      ensures old(root) == latest ==> root == latest
      ensures forall n | n in transactions :: n in old(transactions) && Shrunk(old(transactions)[n], transactions[n])
      ensures forall n | n in old(transactions) && !OwnedBy(old(transactions)[n], installRoot) ::
        n in transactions && transactions[n] == old(transactions)[n]
      ensures o == Done ==>
        transactions == AfterRecovery(installRoot, old(Now()), probe) && Explains(old(steps), steps, o)
    {
      var candidates, completed;
      o, candidates, completed := ScanTransactions(probe);
      if o != Done { return; }
      assert forall m, n | m in candidates && n in candidates :: m == n by {
        forall m, n | m in candidates && n in candidates ensures m == n {
          OneCandidate(installRoot, root, transactions, latest, m, n);
        }
      }
      AtMostOne(candidates);
      if |candidates| > 1 { return Failed(SeveralCandidates); }
      if |candidates| == 1 {
        var n :| n in candidates;
        o := RestorePrevious(n);
        if o != Done { return; }
      }
      if root.Some? {
        ghost var before, there := steps, transactions;
        SubsetSize(completed, old(transactions).Keys);
        o := RemoveCompleted(completed);
        ThenSteps(old(steps), before, steps, o);
        forall n | n in transactions ensures n in old(transactions) && Shrunk(old(transactions)[n], transactions[n]) {
          assert n in there;
        }
      }
    }

    lemma AtMostOne(s: set<string>)
      requires forall m, n | m in s && n in s :: m == n
      ensures |s| <= 1
    {
      if s != {} {
        var m :| m in s;
        assert s == {m};
      }
    }

    /** Rename the previous tree back, then delete the transaction. */
    method RestorePrevious(n: string) returns (o: Outcome)
      requires Valid() && root.None? && n in transactions && Interrupted(transactions[n], installRoot)
      modifies this`root, this`transactions, this`steps
      ensures Valid()
      ensures Explains(old(steps), steps, o) && Plain(o) && |old(steps)| <= |steps| + 2
      ensures n in transactions ==> Shrunk(old(transactions)[n], transactions[n])
      ensures o == Done ==> root == latest && transactions == old(transactions) - {n}
      ensures root == old(root) || root == latest
      ensures forall m | m != n ::
        (m in transactions <==> m in old(transactions))
        && (m in transactions ==> transactions[m] == old(transactions)[m])
      ensures n in old(transactions)
    {
      o := Attempt();
      if o != Done { return; }
      OneCandidate(installRoot, root, transactions, latest, n, n);
      root, transactions := transactions[n].previous, transactions[n := transactions[n].(previous := None)];
      ghost var before := steps;
      o := RemoveTransaction(n);
      ThenSteps(old(steps), before, steps, o);
    }

    /** Leftovers of published transactions go once the root is there. */
    method RemoveCompleted(completed: set<string>) returns (o: Outcome)
      requires Valid() && root.Some?
      requires forall n | n in completed :: n in transactions && OwnedBy(transactions[n], installRoot)
      modifies this`transactions, this`steps
      ensures Valid()
      ensures Explains(old(steps), steps, o) && Plain(o) && |old(steps)| <= |steps| + |completed|
      ensures forall n | n in transactions :: n in old(transactions) && Shrunk(old(transactions)[n], transactions[n])
      ensures forall n | n in old(transactions) && n !in completed ::
        n in transactions && transactions[n] == old(transactions)[n]
      ensures o == Done ==> forall n | n in completed :: n !in transactions
    {
      var rest := completed;
      while rest != {}
        invariant Valid() && rest <= completed
        invariant Explains(old(steps), steps, Done) && |old(steps)| <= |steps| + |completed| - |rest|
        invariant forall n | n in completed && n !in rest :: n !in transactions
        invariant forall n | n in rest :: n in transactions && transactions[n] == old(transactions)[n]
        invariant forall n | n in transactions ::
          n in old(transactions) && Shrunk(old(transactions)[n], transactions[n])
        invariant forall n | n in old(transactions) && n !in completed ::
          n in transactions && transactions[n] == old(transactions)[n]
        decreases |rest|
      {
        var n :| n in rest;
        rest := rest - {n};
        ghost var before := steps;
        o := RemoveTransaction(n);
        ThenSteps(old(steps), before, steps, o);
        if o != Done { return; }
      }
      return Done;
    }

    // ---------- Installation ----------

    /** mkdtempSync: a directory name that is not taken. */
    method FreshName(taken: set<string>) returns (name: string)
      ensures name !in taken
    {
      name := "a";
      while name in taken
        decreases |LongNames(taken, name)|
      {
        FewerLongNames(taken, name);
        name := name + "a";
      }
    }

    /**
     * One installation of a bundle. It is refused like a recovery or for an invalid lock;
     * otherwise it does not succeed only if a step it took failed, or the process died there.
     * Success means that the bundle is in place. A failure before publication leaves the
     * previous tree in place, unless the rollback failed too, and then a transaction keeps it.
     */
    method InstallConnectorsAtomically(bundle: string, pid: int, lockValid: bool, probe: int -> Probe)
      returns (o: Outcome, published: bool)
      requires Valid()
      modifies this
      ensures Valid()
      ensures o == Done ==> published && root == latest
      ensures latest == if published then Some(Complete(bundle)) else old(latest)
      ensures o.Failed? ==> !published && o.error != SeveralCandidates
      ensures o == Failed(StillRunning) || o == Failed(ProbeDenied) <==> Forbidden(installRoot, old(Now()), probe)
      ensures o == Failed(StillRunning) || o == Failed(ProbeDenied) ==> Now() == old(Now())
      ensures o == Failed(InvalidLock) ==> !lockValid
      ensures !Refused(o) ==> Blames(old(steps), steps, o)
      ensures |old(steps)| <= |steps| + InstallSteps(old(transactions))
      ensures o.Failed? && o.error in {InvalidLock, BuildFailed, PublicationFailed} ==> root == latest
      ensures o == Failed(RollbackFailed) ==> root.None? && exists n :: Holds(installRoot, transactions, latest, n)
      ensures OwnOrFound(old(transactions), transactions, installRoot, pid)
      ensures o == Failed(InvalidLock) || o == Failed(BuildFailed) || o == Failed(PublicationFailed) ==>
        transactions == AfterRecovery(installRoot, old(Now()), probe)
      ensures o == Failed(RollbackFailed) ==> OneMore(AfterRecovery(installRoot, old(Now()), probe), transactions)
      ensures o == Done ==>
        if Includes(old(steps), steps, Fails) then OneMore(AfterRecovery(installRoot, old(Now()), probe), transactions)
        else transactions == AfterRecovery(installRoot, old(Now()), probe)
    {
      published := false;
      ghost var start := steps;
      var taken := transactions.Keys;
      o := RecoverInterruptedInstall(probe);
      if Refused(o) { return; }
      ExplainsBlames(start, steps, o);
      if o != Done { return; }
      if !lockValid { return Failed(InvalidLock), false; }
      ghost var recovered, there := steps, transactions;
      o, published := InstallRecovered(bundle, pid, taken);
      BlamesLater(start, recovered, steps, o);
      OwnThenFound(old(transactions), there, transactions, taken, installRoot, pid);
      if o == Done {
        TidyLater(start, recovered, steps, transactions == there);
        if transactions == there { SmoothExcludes(start, steps); }
      }
    }

    /** The rest of an installation, with the root as it was published last. */
    method InstallRecovered(bundle: string, pid: int, taken: set<string>) returns (o: Outcome, published: bool)
      requires Valid() && root == latest && transactions.Keys <= taken
      modifies this
      ensures Valid()
      ensures o == Done ==> published && root == latest
      ensures latest == if published then Some(Complete(bundle)) else old(latest)
      ensures o.Failed? ==> !published && o.error in {BuildFailed, PublicationFailed, RollbackFailed, FileSystemFailed}
      ensures Blames(old(steps), steps, o) && |old(steps)| <= |steps| + 7
      ensures o.Failed? && o.error in {BuildFailed, PublicationFailed} ==> root == latest
      ensures o == Failed(RollbackFailed) ==> root.None? && exists n :: Holds(installRoot, transactions, latest, n)
      ensures OwnOrSame(old(transactions), transactions, taken, installRoot, pid)
      ensures o == Failed(BuildFailed) || o == Failed(PublicationFailed) ==> transactions == old(transactions)
      ensures o == Failed(RollbackFailed) ==> OneMore(old(transactions), transactions)
      ensures o == Done ==> transactions == old(transactions) || OneMore(old(transactions), transactions)
      ensures o == Done ==> Tidy(old(steps), steps, transactions == old(transactions))
    {
      ghost var start := steps;
      o := Attempt();
      ExplainsBlames(start, steps, o);
      if o != Done { return o, false; }
      ghost var created := steps;
      var hadPrevious := root.Some?;
      var name := FreshName(taken);
      PublishedNotRestored(installRoot, root, transactions, latest, name, Transaction(None, None, None));
      SameElsewhere(transactions, name, Transaction(None, None, None));
      transactions := transactions[name := Transaction(None, None, None)];
      ghost var there := transactions;
      o, published := PublishStaged(bundle, pid, name, hadPrevious);
      BlamesLater(start, created, steps, o);
      OnlyOwnAdded(old(transactions), there, transactions, name, taken, installRoot, pid);
      OneMoreOrSame(old(transactions), transactions, name);
      if o == Done { TidyLater(start, created, steps, name !in transactions); }
    }

    /** The try block and its finally: stage, publish, clean up. */
    method PublishStaged(bundle: string, pid: int, name: string, hadPrevious: bool)
      returns (o: Outcome, published: bool)
      requires Valid() && root == latest && hadPrevious == root.Some? && name in transactions
        && transactions[name] == Transaction(None, None, None)
      modifies this
      ensures Valid()
      ensures o == Done ==> published && root == latest
      ensures latest == if published then Some(Complete(bundle)) else old(latest)
      ensures Blames(old(steps), steps, o) && |old(steps)| <= |steps| + 6
      ensures OnlyOwn(old(transactions), transactions, name, installRoot, pid)
      ensures o.Failed? ==> !published && o.error in {BuildFailed, PublicationFailed, RollbackFailed, FileSystemFailed}
      ensures o.Failed? && o.error in {BuildFailed, PublicationFailed} ==> root == latest
      ensures o == Failed(RollbackFailed) ==> root.None? && Holds(installRoot, transactions, latest, name)
      ensures o == Failed(BuildFailed) || o == Failed(PublicationFailed) ==> name !in transactions
      ensures o == Done ==> Tidy(old(steps), steps, name !in transactions)
    {
      ghost var start := steps;
      o := Stage(bundle, pid, name);
      var moved;
      moved, published := false, false;
      if o == Done {
        ghost var staged := steps;
        o, moved, published := Publish(bundle, name, hadPrevious);
        BlamesLater(start, staged, steps, o);
        if o == Done { ThenSteps(start, staged, steps, o); }
      }
      if o == Crashed || (moved && !published) { return; }
      ghost var done, last := steps, OutcomeOf(Next(steps));
      o := CleanUp(name, o, published, start);
      if o == Done {
        ThenSteps(start, done, steps, last);
        ExplainsBlames(start, steps, last);
      }
    }

    /** Deleting the transaction: a failure matters only if nothing was published. */
    method CleanUp(name: string, o: Outcome, published: bool, ghost start: seq<Step>) returns (o': Outcome)
      requires Valid() && name in transactions && !Interrupted(transactions[name], installRoot)
        && Blames(start, steps, o)
      modifies this`transactions, this`steps
      ensures Valid() && Blames(start, steps, o') && |old(steps)| <= |steps| + 1
      ensures Elsewhere(transactions, name) == Elsewhere(old(transactions), name)
      ensures name in transactions <==> Next(old(steps)) != Happens
      ensures name in transactions ==> Shrunk(old(transactions)[name], transactions[name])
      ensures Explains(old(steps), steps, OutcomeOf(Next(old(steps))))
      ensures o' == match Next(old(steps))
        case Happens => o
        case Dies => Crashed
        case Fails => if published then o else Failed(FileSystemFailed)
    {
      ghost var done := steps;
      var removed := RemoveTransaction(name);
      SameElsewhere(old(transactions), name, if name in transactions then transactions[name]
        else Transaction(None, None, None));
      ExplainsBlames(done, steps, removed);
      BothBlamed(start, done, steps, o, removed);
      return if removed == Crashed || (removed.Failed? && !published) then removed else o;
    }

    lemma BothBlamed(a: seq<Step>, b: seq<Step>, c: seq<Step>, o: Outcome, removed: Outcome)
      requires Blames(a, b, o) && Blames(b, c, removed)
      ensures Blames(a, c, o) && Blames(a, c, removed)
    {
      BlamesEarlier(a, b, c, o);
      BlamesLater(a, b, c, removed);
    }

    /** Owner file, then copied support files, downloaded and checked bundle and lock file. */
    method Stage(bundle: string, pid: int, name: string) returns (o: Outcome)
      requires Valid() && root == latest && name in transactions && transactions[name] == Transaction(None, None, None)
      modifies this`transactions, this`steps
      ensures Valid() && root == latest
      ensures name in transactions && transactions[name].previous.None?
      ensures o == Done ==>
        transactions[name] == Transaction(Some(Owner(installRoot, pid)), Some(Complete(bundle)), None)
      ensures o == Done || o == Crashed || o == Failed(BuildFailed)
      ensures o == Done ==> Explains(old(steps), steps, o)
      ensures Blames(old(steps), steps, o) && |old(steps)| <= |steps| + 2
      ensures OnlyOwn(old(transactions), transactions, name, installRoot, pid)
    {
      ghost var start := steps;
      o := Attempt();
      ExplainsBlames(start, steps, o);
      if o != Done { return if o == Crashed then Crashed else Failed(BuildFailed); }
      Set(name, Transaction(Some(Owner(installRoot, pid)), None, None));
      ghost var owned := steps;
      o := Build(bundle, name, transactions[name]);
      BlamesLater(start, owned, steps, o);
      if o == Done { ThenSteps(start, owned, steps, o); }
    }

    /** Copying, downloading, checking and the lock file, as one step that may stop half-way. */
    method Build(bundle: string, name: string, t: Transaction) returns (o: Outcome)
      requires Valid() && root == latest && name in transactions && transactions[name] == t
      requires t.next.None? && t.previous.None? && t.owner.Some?
      modifies this`transactions, this`steps
      ensures Valid() && root == latest
      ensures o == Done || o == Crashed || o == Failed(BuildFailed)
      ensures name in transactions
        && transactions[name] == t.(next := Some(if o == Done then Complete(bundle) else Other("partly written")))
      ensures Elsewhere(transactions, name) == Elsewhere(old(transactions), name)
      ensures o == Done ==> Explains(old(steps), steps, o)
      ensures Blames(old(steps), steps, o) && |old(steps)| <= |steps| + 1
    {
      ghost var start := steps;
      o := Attempt();
      ExplainsBlames(start, steps, o);
      Set(name, t.(next := Some(if o == Done then Complete(bundle) else Other("partly written"))));
      if o.Failed? { o := Failed(BuildFailed); }
    }

    method Set(name: string, t: Transaction)
      requires Valid() && name in transactions && !Interrupted(transactions[name], installRoot)
        && !Interrupted(t, installRoot)
      modifies this`transactions
      ensures Valid() && name in transactions && transactions[name] == t
      ensures Elsewhere(transactions, name) == Elsewhere(old(transactions), name)
    {
      SameElsewhere(transactions, name, t);
      PublishedNotRestored(installRoot, root, transactions, latest, name, t);
      transactions := transactions[name := t];
    }

    /** The two renames, and the rollback of the first when the second fails, as the schedule has them. */
    method Publish(bundle: string, name: string, hadPrevious: bool) returns (o: Outcome, moved: bool, published: bool)
      requires Valid() && root == latest && hadPrevious == root.Some?
      requires name in transactions && OwnedBy(transactions[name], installRoot)
      requires transactions[name].next == Some(Complete(bundle)) && transactions[name].previous.None?
      modifies this
      ensures Valid()
      ensures (o, moved, published) == Publication(old(steps), hadPrevious)
      ensures Blames(old(steps), steps, o) && |old(steps)| <= |steps| + 3
      ensures o == Done ==> Explains(old(steps), steps, o)
      ensures Elsewhere(transactions, name) == Elsewhere(old(transactions), name)
      ensures name in transactions && transactions[name].owner == old(transactions)[name].owner
      ensures published ==> root == latest == Some(Complete(bundle))
      ensures !published ==> latest == old(latest)
      ensures o == Failed(PublicationFailed) ==> root == latest
      ensures o == Failed(RollbackFailed) ==> root.None? && Holds(installRoot, transactions, latest, name)
      ensures name in transactions && (!moved || published ==> !Interrupted(transactions[name], installRoot))
    {
      ghost var start := steps;
      o := Attempt();
      ExplainsBlames(start, steps, o);
      if o != Done { return if o == Crashed then Crashed else Failed(PublicationFailed), false, false; }
      if !hadPrevious {
        PublishNext(name);
        return Done, false, true;
      }
      SameElsewhere(transactions, name, transactions[name].(previous := root));
      root, transactions := None, transactions[name := transactions[name].(previous := root)];
      assert Holds(installRoot, transactions, latest, name);
      ghost var renamed := steps;
      o, moved, published := PublishMoved(bundle, name);
      BlamesLater(start, renamed, steps, o);
      if o == Done { ThenSteps(start, renamed, steps, o); }
    }

    /** The new tree takes the root's place. */
    method PublishNext(name: string)
      requires root.None? && name in transactions && OwnedBy(transactions[name], installRoot)
        && transactions[name].next.Some?
      requires forall n | n in transactions && n != name :: !Interrupted(transactions[n], installRoot)
      modifies this`root, this`transactions, this`latest
      ensures Valid() && root == latest == old(transactions[name].next)
      ensures name in transactions && transactions[name] == old(transactions[name]).(next := None)
      ensures Elsewhere(transactions, name) == Elsewhere(old(transactions), name)
    {
      SameElsewhere(transactions, name, transactions[name].(next := None));
      root, transactions := transactions[name].next, transactions[name := transactions[name].(next := None)];
      latest := root;
    }

    /** The second rename with the old tree out of the way, and the rollback when it fails. */
    method PublishMoved(bundle: string, name: string) returns (o: Outcome, moved: bool, published: bool)
      requires Valid() && root.None? && Holds(installRoot, transactions, latest, name) && latest.Some?
      requires transactions[name].next == Some(Complete(bundle))
      modifies this
      ensures Valid()
      ensures (o, moved, published) == SecondRename(old(steps))
      ensures Blames(old(steps), steps, o) && |old(steps)| <= |steps| + 2
      ensures o == Done ==> Explains(old(steps), steps, o)
      ensures published ==> root == latest == Some(Complete(bundle))
      ensures !published ==> latest == old(latest)
      ensures o == Failed(PublicationFailed) ==> root == latest
      ensures o == Failed(RollbackFailed) ==> root.None? && Holds(installRoot, transactions, latest, name)
      ensures Elsewhere(transactions, name) == Elsewhere(old(transactions), name)
      ensures name in transactions && transactions[name].owner == old(transactions)[name].owner
      ensures !moved || published ==> !Interrupted(transactions[name], installRoot)
    {
      moved, published := true, false;
      ghost var start := steps;
      o := Attempt();
      ExplainsBlames(start, steps, o);
      if o == Crashed { return; }
      if o == Done {
        PublishNext(name);
        return Done, true, true;
      }
      ghost var failed := steps;
      var rolled := Attempt();
      ExplainsBlames(failed, steps, rolled);
      BothBlamed(start, failed, steps, o, rolled);
      if rolled == Crashed { return Crashed, true, false; }
      if rolled != Done { return Failed(RollbackFailed), true, false; }
      SameElsewhere(transactions, name, transactions[name].(previous := None));
      root, transactions := transactions[name].previous, transactions[name := transactions[name].(previous := None)];
      return Failed(PublicationFailed), false, false;
    }

    // ---------- Any sequence of attempts ----------

    /**
     * Any sequence of installs and recoveries, each with its own schedule, each starting from
     * what the one before it left: an undisturbed attempt succeeds; `latest` is the last bundle
     * published, by exactly the attempts that passed the second rename; and after a success it
     * is what the root holds.
     */
    method RunAttempts(runs: seq<Run>) returns (outcomes: seq<Outcome>, passed: seq<bool>, ghost found: seq<State>)
      requires Valid()
      modifies this
      ensures Valid()
      ensures Chained(installRoot, runs, outcomes, passed, found) && found[0] == old(Now()) && found[|runs|] == Now()
      ensures latest == LastPublished(runs, passed, old(latest))
      ensures runs != [] && outcomes[|runs| - 1] == Done ==> root == latest
    {
      outcomes, passed, found := [], [], [Now()];
      for i := 0 to |runs|
        invariant Valid()
        invariant Chained(installRoot, runs[..i], outcomes, passed, found) && found[0] == old(Now())
          && found[i] == Now()
        invariant latest == LastPublished(runs[..i], passed, old(latest))
        invariant i > 0 && outcomes[i - 1] == Done ==> root == latest
      {
        var o, p := RunOne(runs[i]);
        ChainedOneMore(installRoot, runs, i, outcomes, passed, found, Now(), o, p, old(latest));
        outcomes, passed, found := outcomes + [o], passed + [p], found + [Now()];
      }
      TakeSnoc(runs, |runs|);
    }

    /** One attempt by a new process. */
    method RunOne(run: Run) returns (o: Outcome, passed: bool)
      requires Valid()
      modifies this
      ensures Valid() && Attempted(installRoot, run, old(Now()), Now(), o, passed)
    {
      if run.Installing? {
        o, passed := RunInstalling(run);
      } else {
        o := RunRecovering(run);
        passed := false;
      }
    }

    method RunRecovering(run: Run) returns (o: Outcome)
      requires Valid() && run.Recovering?
      modifies this
      ensures Valid() && Attempted(installRoot, run, old(Now()), Now(), o, false)
    {
      steps := run.steps;
      o := RecoverInterruptedInstall(run.probe);
      if !Refused(o) { ExplainsBlames(run.steps, steps, o); }
      Blamable(run.steps, steps, RecoverySteps(old(transactions)), o);
    }

    method RunInstalling(run: Run) returns (o: Outcome, passed: bool)
      requires Valid() && run.Installing?
      modifies this
      ensures Valid() && Attempted(installRoot, run, old(Now()), Now(), o, passed)
    {
      steps := run.steps;
      o, passed := InstallConnectorsAtomically(run.bundle, run.pid, run.lockValid, run.probe);
      Blamable(run.steps, steps, InstallSteps(old(transactions)), o);
    }
  }

  lemma Blamable(before: seq<Step>, after: seq<Step>, n: nat, o: Outcome)
    requires !Refused(o) ==> Blames(before, after, o)
    requires |before| <= |after| + n
    ensures o != Done && !Refused(o) ==> Within(before, n, Fails) || Within(before, n, Dies)
    ensures Includes(before, after, Fails) ==> Within(before, n, Fails)
  {
    if Includes(before, after, Fails) { TakenWithin(before, after, n, Fails); }
    if o != Done && !Refused(o) { TakenWithin(before, after, n, if o == Crashed then Dies else Fails); }
  }

  /** Transactions that were found, whole or in part, or are the process's own. */
  ghost predicate OwnOrFound(
    before: map<string, Transaction>, after: map<string, Transaction>, installRoot: string, pid: int) {
    forall n | n in after ::
      || (n in before && Shrunk(before[n], after[n]))
      || (n !in before && (after[n].owner == None || after[n].owner == Some(Owner(installRoot, pid))))
  }

  /** Transactions that were there, or the process's own under a name not taken. */
  ghost predicate OwnOrSame(
    before: map<string, Transaction>, after: map<string, Transaction>, taken: set<string>, installRoot: string,
    pid: int) {
    forall n | n in after ::
      || (n in before && after[n] == before[n])
      || (n !in taken && (after[n].owner == None || after[n].owner == Some(Owner(installRoot, pid))))
  }

  /** The transactions under other names. */
  function Elsewhere(transactions: map<string, Transaction>, name: string): map<string, Transaction> {
    transactions - {name}
  }

  lemma SameElsewhere(transactions: map<string, Transaction>, name: string, t: Transaction)
    ensures Elsewhere(transactions[name := t], name) == Elsewhere(transactions, name)
    ensures Elsewhere(transactions - {name}, name) == Elsewhere(transactions, name)
  {
  }

  lemma OneMoreOrSame(before: map<string, Transaction>, after: map<string, Transaction>, name: string)
    requires name !in before && Elsewhere(after, name) == Elsewhere(before, name)
    ensures if name in after then OneMore(before, after) && after != before else after == before
  {
    assert Elsewhere(before, name) == before;
    if name !in after { assert Elsewhere(after, name) == after; }
  }

  lemma OnlyOwnAdded(before: map<string, Transaction>, mid: map<string, Transaction>, after: map<string, Transaction>,
                     name: string, taken: set<string>, installRoot: string, pid: int)
    requires name !in taken && before.Keys <= taken
    requires Elsewhere(mid, name) == Elsewhere(before, name) && OnlyOwn(mid, after, name, installRoot, pid)
    ensures OwnOrSame(before, after, taken, installRoot, pid)
  {
    forall n | n in after && n != name ensures n in before && after[n] == before[n] {
      assert n in Elsewhere(after, name) && n in Elsewhere(before, name);
    }
  }

  /** Nothing but the process's own transaction has changed. */
  ghost predicate OnlyOwn(
    before: map<string, Transaction>, after: map<string, Transaction>, name: string, installRoot: string, pid: int) {
    && Elsewhere(after, name) == Elsewhere(before, name)
    && (name in after ==> after[name].owner == None || after[name].owner == Some(Owner(installRoot, pid)))
  }

  lemma OwnThenFound(
    a: map<string, Transaction>, b: map<string, Transaction>, c: map<string, Transaction>, taken: set<string>,
    installRoot: string, pid: int)
    requires forall n | n in b :: n in a && Shrunk(a[n], b[n])
    requires OwnOrSame(b, c, taken, installRoot, pid) && a.Keys <= taken
    ensures OwnOrFound(a, c, installRoot, pid)
  {
  }

  /** Attempts one after the other, each from what the one before it left. */
  ghost predicate Chained(
    installRoot: string, runs: seq<Run>, outcomes: seq<Outcome>, passed: seq<bool>, found: seq<State>) {
    && |outcomes| == |passed| == |runs| && |found| == |runs| + 1
    && forall i | 0 <= i < |runs| :: Attempted(installRoot, runs[i], found[i], found[i + 1], outcomes[i], passed[i])
  }

  lemma ChainedOneMore(
    installRoot: string, runs: seq<Run>, i: nat, outcomes: seq<Outcome>, passed: seq<bool>, found: seq<State>,
    s: State, o: Outcome, p: bool, first: Option<Tree>)
    requires i < |runs| && Chained(installRoot, runs[..i], outcomes, passed, found)
    requires Attempted(installRoot, runs[i], found[i], s, o, p)
      && found[i].latest == LastPublished(runs[..i], passed, first)
    ensures Chained(installRoot, runs[..i + 1], outcomes + [o], passed + [p], found + [s])
    ensures s.latest == LastPublished(runs[..i + 1], passed + [p], first)
  {
    var runs', outcomes', passed', found' := runs[..i + 1], outcomes + [o], passed + [p], found + [s];
    forall j | 0 <= j < |runs'|
      ensures Attempted(installRoot, runs'[j], found'[j], found'[j + 1], outcomes'[j], passed'[j])
    {
      if j < i {
        assert Attempted(installRoot, runs[..i][j], found[j], found[j + 1], outcomes[j], passed[j]);
      }
    }
    assert runs'[..i] == runs[..i] && passed'[..i] == passed;
  }

  function LongNames(taken: set<string>, name: string): set<string> {
    set n | n in taken && |n| >= |name|
  }

  lemma FewerLongNames(taken: set<string>, name: string)
    requires name in taken
    ensures |LongNames(taken, name + "a")| < |LongNames(taken, name)|
  {
    assert name in LongNames(taken, name) && LongNames(taken, name + "a") <= LongNames(taken, name) - {name};
    SubsetSize(LongNames(taken, name + "a"), LongNames(taken, name) - {name});
  }

  predicate Refused(o: Outcome) {
    o == Failed(StillRunning) || o == Failed(ProbeDenied) || o == Failed(InvalidLock)
  }
}

/**
 * Transactions, savepoints and the write-ahead log of `src/engine/mod.rs`, `src/txn/mod.rs` and
 * `src/storage/recovery.rs`, over an abstract catalog on which a statement either succeeds with a new
 * catalog or fails and changes nothing.
 */
module Engine {
  import opened Options

  datatype Txn<Catalog> = Txn(id: nat, snapshot: Catalog)

  /** A log record; the markers carry no statement. */
  datatype Record<Stmt> = Record(txnId: nat, sql: Option<Stmt>, isCommit: bool, isRollback: bool)

  datatype Command<Stmt> =
    | Begin
    | Commit
    | Rollback
    | Run(stmt: Stmt)
    | Savepoint(name: string)
    | RollbackTo(name: string)
    | Release(name: string)

  datatype State<Catalog, Stmt> = State(
    catalog: Catalog,
    active: Option<Txn<Catalog>>,
    nextId: nat,
    savepoints: seq<(string, Catalog)>,
    wal: seq<Record<Stmt>>)
  {
    /** The catalog statements run against: the snapshot while a transaction is active. */
    function Working(): Catalog {
      if active.Some? then active.value.snapshot else catalog
    }

    function WithWorking(c: Catalog): State<Catalog, Stmt> {
      if active.Some? then this.(active := Some(active.value.(snapshot := c))) else this.(catalog := c)
    }
  }

  type Apply<!Catalog, !Stmt> = (Stmt, Catalog) -> Option<Catalog>

  /** The position of the most recent savepoint with this name, or -1. */
  function FindSavepoint<Catalog>(savepoints: seq<(string, Catalog)>, name: string): (p: int)
    ensures -1 <= p < |savepoints|
    ensures p >= 0 ==> savepoints[p].0 == name
    ensures forall k | p < k < |savepoints| :: savepoints[k].0 != name
  {
    if savepoints == [] then -1
    else if savepoints[|savepoints| - 1].0 == name then |savepoints| - 1
    else FindSavepoint(savepoints[..|savepoints| - 1], name)
  }

  /** What one command does to the engine; a command that fails changes nothing. */
  function Step<Catalog, Stmt>(apply: Apply<Catalog, Stmt>, s: State<Catalog, Stmt>, cmd: Command<Stmt>)
    : State<Catalog, Stmt>
  {
    match cmd
    case Begin =>
      if s.active.Some? then s
      else s.(active := Some(Txn(s.nextId, s.catalog)), nextId := s.nextId + 1,
              wal := s.wal + [Record(s.nextId, None, false, false)])
    case Commit =>
      if s.active.None? then s
      else s.(catalog := s.active.value.snapshot, active := None, savepoints := [],
              wal := s.wal + [Record(s.active.value.id, None, true, false)])
    case Rollback =>
      if s.active.None? then s
      else s.(active := None, savepoints := [],
              wal := s.wal + [Record(s.active.value.id, None, false, true)])
    case Run(stmt) =>
      var id := if s.active.Some? then s.active.value.id else 0;
      match apply(stmt, s.Working()) {
        case None => s
        case Some(c) => s.WithWorking(c).(wal := s.wal + [Record(id, Some(stmt), false, false)])
      }
    case Savepoint(name) => s.(savepoints := s.savepoints + [(name, s.Working())])
    case RollbackTo(name) =>
      var p := FindSavepoint(s.savepoints, name);
      if p < 0 then s
      else s.WithWorking(s.savepoints[p].1).(savepoints := s.savepoints[..p + 1])
    case Release(name) =>
      var p := FindSavepoint(s.savepoints, name);
      if p < 0 then s else s.(savepoints := s.savepoints[..p])
  }

  ghost predicate OnStack<Catalog>(savepoints: seq<(string, Catalog)>, name: string) {
    exists p | 0 <= p < |savepoints| :: savepoints[p].0 == name
  }

  /** When the command is accepted. */
  ghost predicate Accepts<Catalog, Stmt>(apply: Apply<Catalog, Stmt>, s: State<Catalog, Stmt>, cmd: Command<Stmt>) {
    match cmd
    case Begin => s.active.None?
    case Commit => s.active.Some?
    case Rollback => s.active.Some?
    case Run(stmt) => apply(stmt, s.Working()).Some?
    case Savepoint(_) => true
    case RollbackTo(name) => OnStack(s.savepoints, name)
    case Release(name) => OnStack(s.savepoints, name)
  }

  function RunAll<Catalog, Stmt>(apply: Apply<Catalog, Stmt>, s: State<Catalog, Stmt>, cmds: seq<Command<Stmt>>)
    : State<Catalog, Stmt>
    decreases |cmds|
  {
    if cmds == [] then s else Step(apply, RunAll(apply, s, cmds[..|cmds| - 1]), cmds[|cmds| - 1])
  }

  function Fresh<Catalog, Stmt>(c0: Catalog): State<Catalog, Stmt> {
    State(c0, None, 1, [], [])
  }

  // ---------------------------------------------------------------- replay

  /** Transactions with a commit marker. */
  function CommittedIds<Stmt>(log: seq<Record<Stmt>>): set<nat> {
    if log == [] then {}
    else
      var r := log[|log| - 1];
      var ids := CommittedIds(log[..|log| - 1]);
      if r.isCommit && r.txnId != 0 then ids + {r.txnId} else ids
  }

  /** One record of the second pass: skipped, or executed with its error ignored. */
  function ReplayRecord<Catalog, Stmt>(
    apply: Apply<Catalog, Stmt>, r: Record<Stmt>, ids: set<nat>, c: Catalog): Catalog
  {
    if r.isRollback || (r.txnId != 0 && r.txnId !in ids) || r.sql.None? then c
    else match apply(r.sql.value, c) case Some(c') => c' case None => c
  }

  function ReplayWith<Catalog, Stmt>(
    apply: Apply<Catalog, Stmt>, log: seq<Record<Stmt>>, ids: set<nat>, c: Catalog): Catalog
    decreases |log|
  {
    if log == [] then c
    else ReplayRecord(apply, log[|log| - 1], ids, ReplayWith(apply, log[..|log| - 1], ids, c))
  }

  function Replay<Catalog, Stmt>(apply: Apply<Catalog, Stmt>, log: seq<Record<Stmt>>, c: Catalog): Catalog {
    ReplayWith(apply, log, CommittedIds(log), c)
  }

  lemma ReplaySnoc<Catalog, Stmt>(
    apply: Apply<Catalog, Stmt>, log: seq<Record<Stmt>>, r: Record<Stmt>, ids: set<nat>, c: Catalog)
    ensures ReplayWith(apply, log + [r], ids, c) == ReplayRecord(apply, r, ids, ReplayWith(apply, log, ids, c))
    ensures CommittedIds(log + [r])
         == if r.isCommit && r.txnId != 0 then CommittedIds(log) + {r.txnId} else CommittedIds(log)
  {
    assert (log + [r])[..|log|] == log;
  }

  /** A record flagged as a rollback, or without a statement, changes nothing in replay. */
  lemma MarkersAreSkipped<Catalog, Stmt>(
    apply: Apply<Catalog, Stmt>, log: seq<Record<Stmt>>, r: Record<Stmt>, ids: set<nat>, c: Catalog)
    ensures r.isRollback || r.sql.None? ==> ReplayWith(apply, log + [r], ids, c) == ReplayWith(apply, log, ids, c)
  {
    ReplaySnoc(apply, log, r, ids, c);
  }

  /** An id no record carries makes no difference to replay. */
  lemma {:induction false} UnusedId<Catalog, Stmt>(
    apply: Apply<Catalog, Stmt>, log: seq<Record<Stmt>>, ids: set<nat>, id: nat, c: Catalog)
    requires forall r | r in log :: r.txnId != id
    ensures ReplayWith(apply, log, ids + {id}, c) == ReplayWith(apply, log, ids, c)
    ensures id !in CommittedIds(log)
    decreases |log|
  {
    if log != [] {
      UnusedId(apply, log[..|log| - 1], ids, id, c);
    }
  }

  // ---------------------------------------------------------------- crash recovery

  /**
   * The log explains the state: replaying it gives the main catalog, and replaying it as if the active
   * transaction had committed gives that transaction's snapshot.
   */
  ghost predicate Recoverable<Catalog, Stmt>(apply: Apply<Catalog, Stmt>, c0: Catalog, s: State<Catalog, Stmt>) {
    && Replay(apply, s.wal, c0) == s.catalog
    && (s.active.Some? ==>
          && s.active.value.id != 0
          && s.active.value.id !in CommittedIds(s.wal)
          && ReplayWith(apply, s.wal, CommittedIds(s.wal) + {s.active.value.id}, c0) == s.active.value.snapshot)
  }

  /** `BEGIN` is about to use an id that no record in the log carries. */
  ghost predicate FreshId<Catalog, Stmt>(s: State<Catalog, Stmt>) {
    s.nextId != 0 && forall r | r in s.wal :: r.txnId != s.nextId
  }

  /** The command finds its savepoint and rolls the working catalog back to it. */
  predicate RollsBack<Catalog, Stmt>(s: State<Catalog, Stmt>, cmd: Command<Stmt>) {
    cmd.RollbackTo? && FindSavepoint(s.savepoints, cmd.name) >= 0
  }

  /** If the command rolls back to a savepoint, it restores the catalog already in work. */
  ghost predicate KeepsWork<Catalog, Stmt>(s: State<Catalog, Stmt>, cmd: Command<Stmt>) {
    RollsBack(s, cmd) ==> s.savepoints[FindSavepoint(s.savepoints, cmd.name)].1 == s.Working()
  }

  /** A command keeps the log and the state together unless it rolls the work back, which is not logged. */
  lemma StepRecoverable<Catalog, Stmt>(
    apply: Apply<Catalog, Stmt>, c0: Catalog, s: State<Catalog, Stmt>, cmd: Command<Stmt>)
    requires Recoverable(apply, c0, s)
    requires cmd.Begin? && s.active.None? ==> FreshId(s)
    ensures Recoverable(apply, c0, Step(apply, s, cmd)) <==> KeepsWork(s, cmd)
  {
    var s' := Step(apply, s, cmd);
    if |s'.wal| > |s.wal| {
      var r := s'.wal[|s.wal|];
      assert s'.wal == s.wal + [r];
      var ids := CommittedIds(s.wal);
      ReplaySnoc(apply, s.wal, r, ids, c0);
      if cmd.Begin? {
        UnusedId(apply, s.wal, ids, s.nextId, c0);
        ReplaySnoc(apply, s.wal, r, ids + {s.nextId}, c0);
      } else if s.active.Some? {
        ReplaySnoc(apply, s.wal, r, ids + {s.active.value.id}, c0);
      }
    }
  }

  /** Every successful `ROLLBACK TO` of the run restores the catalog already in work. */
  ghost predicate RunKeepsWork<Catalog, Stmt>(
    apply: Apply<Catalog, Stmt>, s: State<Catalog, Stmt>, cmds: seq<Command<Stmt>>)
  {
    KeepsWorkUpTo(apply, s, cmds, |cmds|)
  }

  ghost predicate KeepsWorkUpTo<Catalog, Stmt>(
    apply: Apply<Catalog, Stmt>, s: State<Catalog, Stmt>, cmds: seq<Command<Stmt>>, k: nat)
    requires k <= |cmds|
  {
    forall j | 0 <= j < k :: KeepsWorkAt(apply, s, cmds, j)
  }

  ghost predicate KeepsWorkAt<Catalog, Stmt>(
    apply: Apply<Catalog, Stmt>, s: State<Catalog, Stmt>, cmds: seq<Command<Stmt>>, j: nat)
    requires j < |cmds|
  {
    KeepsWork(RunAll(apply, s, cmds[..j]), cmds[j])
  }

  /** Within one session ids only grow, so every `BEGIN` is fresh. */
  ghost predicate IdsBelow<Catalog, Stmt>(s: State<Catalog, Stmt>) {
    && s.nextId >= 1
    && (forall r | r in s.wal :: r.txnId < s.nextId)
    && (s.active.Some? ==> s.active.value.id < s.nextId)
  }

  lemma {:induction false} SessionIds<Catalog, Stmt>(
    apply: Apply<Catalog, Stmt>, s: State<Catalog, Stmt>, cmds: seq<Command<Stmt>>)
    requires IdsBelow(s)
    ensures IdsBelow(RunAll(apply, s, cmds))
    decreases |cmds|
  {
    if cmds != [] {
      SessionIds(apply, s, cmds[..|cmds| - 1]);
    }
  }

  ghost predicate FreshBegins<Catalog, Stmt>(
    apply: Apply<Catalog, Stmt>, s: State<Catalog, Stmt>, cmds: seq<Command<Stmt>>)
  {
    forall j | 0 <= j < |cmds| :: cmds[j].Begin? ==> FreshId(RunAll(apply, s, cmds[..j]))
  }

  ghost predicate RecoverableAt<Catalog, Stmt>(
    apply: Apply<Catalog, Stmt>, c0: Catalog, s: State<Catalog, Stmt>, cmds: seq<Command<Stmt>>, j: nat)
    requires j <= |cmds|
  {
    Recoverable(apply, c0, RunAll(apply, s, cmds[..j]))
  }

  /** The state after each of the first `k` commands is recoverable. */
  ghost predicate RecoverableUpTo<Catalog, Stmt>(
    apply: Apply<Catalog, Stmt>, c0: Catalog, s: State<Catalog, Stmt>, cmds: seq<Command<Stmt>>, k: nat)
    requires k <= |cmds|
  {
    forall j | 0 <= j <= k :: RecoverableAt(apply, c0, s, cmds, j)
  }

  lemma RecoverableNext<Catalog, Stmt>(
    apply: Apply<Catalog, Stmt>, c0: Catalog, s: State<Catalog, Stmt>, cmds: seq<Command<Stmt>>, j: nat)
    requires j < |cmds| && FreshBegins(apply, s, cmds) && RecoverableAt(apply, c0, s, cmds, j)
    ensures RecoverableAt(apply, c0, s, cmds, j + 1) <==> KeepsWorkAt(apply, s, cmds, j)
  {
    NextPrefix(apply, s, cmds, j);
    StepRecoverable(apply, c0, RunAll(apply, s, cmds[..j]), cmds[j]);
  }

  lemma {:induction false} RunRecoverableUpTo<Catalog, Stmt>(
    apply: Apply<Catalog, Stmt>, c0: Catalog, s: State<Catalog, Stmt>, cmds: seq<Command<Stmt>>, k: nat)
    requires Recoverable(apply, c0, s) && FreshBegins(apply, s, cmds) && k <= |cmds|
    ensures RecoverableUpTo(apply, c0, s, cmds, k) <==> KeepsWorkUpTo(apply, s, cmds, k)
  {
    if k == 0 {
      assert cmds[..0] == [];
    } else {
      RunRecoverableUpTo(apply, c0, s, cmds, k - 1);
      assert RecoverableUpTo(apply, c0, s, cmds, k)
        <==> RecoverableUpTo(apply, c0, s, cmds, k - 1) && RecoverableAt(apply, c0, s, cmds, k);
      assert KeepsWorkUpTo(apply, s, cmds, k)
        <==> KeepsWorkUpTo(apply, s, cmds, k - 1) && KeepsWorkAt(apply, s, cmds, k - 1);
      if RecoverableAt(apply, c0, s, cmds, k - 1) {
        RecoverableNext(apply, c0, s, cmds, k - 1);
      }
    }
  }

  lemma RunSnoc<Catalog, Stmt>(
    apply: Apply<Catalog, Stmt>, s: State<Catalog, Stmt>, cmds: seq<Command<Stmt>>, cmd: Command<Stmt>)
    ensures RunAll(apply, s, cmds + [cmd]) == Step(apply, RunAll(apply, s, cmds), cmd)
  {
    assert (cmds + [cmd])[..|cmds|] == cmds;
  }

  lemma NextPrefix<Catalog, Stmt>(
    apply: Apply<Catalog, Stmt>, s: State<Catalog, Stmt>, cmds: seq<Command<Stmt>>, k: nat)
    requires k < |cmds|
    ensures RunAll(apply, s, cmds[..k + 1]) == Step(apply, RunAll(apply, s, cmds[..k]), cmds[k])
  {
    assert cmds[..k + 1] == cmds[..k] + [cmds[k]];
    RunSnoc(apply, s, cmds[..k], cmds[k]);
  }

  /**
   * A run on fresh ids is recoverable at every point if and only if every successful `ROLLBACK TO` in it
   * restores the catalog already in work.
   */
  lemma RunRecoverable<Catalog, Stmt>(
    apply: Apply<Catalog, Stmt>, c0: Catalog, s: State<Catalog, Stmt>, cmds: seq<Command<Stmt>>)
    requires Recoverable(apply, c0, s) && FreshBegins(apply, s, cmds)
    ensures RecoverableUpTo(apply, c0, s, cmds, |cmds|) <==> RunKeepsWork(apply, s, cmds)
  {
    RunRecoverableUpTo(apply, c0, s, cmds, |cmds|);
  }

  /** A session that starts with all ids of the log below the next one hands out fresh ids throughout. */
  lemma SessionRecoverable<Catalog, Stmt>(
    apply: Apply<Catalog, Stmt>, c0: Catalog, s: State<Catalog, Stmt>, cmds: seq<Command<Stmt>>)
    requires Recoverable(apply, c0, s) && IdsBelow(s)
    ensures RecoverableUpTo(apply, c0, s, cmds, |cmds|) <==> RunKeepsWork(apply, s, cmds)
    ensures RunKeepsWork(apply, s, cmds) ==> Recoverable(apply, c0, RunAll(apply, s, cmds))
  {
    forall j | 0 <= j < |cmds| && cmds[j].Begin? ensures FreshId(RunAll(apply, s, cmds[..j])) {
      SessionIds(apply, s, cmds[..j]);
    }
    RunRecoverable(apply, c0, s, cmds);
    assert cmds[..|cmds|] == cmds;
    assert RecoverableUpTo(apply, c0, s, cmds, |cmds|) ==> RecoverableAt(apply, c0, s, cmds, |cmds|);
  }

  /** Every prefix of the log a run wrote is the whole log of some prefix of that run. */
  lemma {:induction false} LogPrefix<Catalog, Stmt>(
    apply: Apply<Catalog, Stmt>, s: State<Catalog, Stmt>, cmds: seq<Command<Stmt>>, k: nat)
    returns (j: nat)
    requires |s.wal| <= k <= |RunAll(apply, s, cmds).wal|
    ensures j <= |cmds| && RunAll(apply, s, cmds[..j]).wal == RunAll(apply, s, cmds).wal[..k]
    decreases |cmds|
  {
    var log := RunAll(apply, s, cmds).wal;
    if k == |log| {
      assert cmds[..|cmds|] == cmds && log[..k] == log;
      return |cmds|;
    }
    var n := |cmds| - 1;
    var before := RunAll(apply, s, cmds[..n]).wal;
    assert before <= log && |log| <= |before| + 1;
    j := LogPrefix(apply, s, cmds[..n], k);
    assert cmds[..n][..j] == cmds[..j];
  }

  /** Replaying gives the main catalog, whatever the active transaction has done. */
  ghost predicate Restorable<Catalog, Stmt>(apply: Apply<Catalog, Stmt>, c0: Catalog, s: State<Catalog, Stmt>) {
    && Replay(apply, s.wal, c0) == s.catalog
    && (s.active.Some? ==> s.active.value.id != 0 && s.active.value.id !in CommittedIds(s.wal))
  }

  /** The transaction active after `j` commands has lost work to a `ROLLBACK TO`. */
  ghost predicate LostWork<Catalog, Stmt>(
    apply: Apply<Catalog, Stmt>, s: State<Catalog, Stmt>, cmds: seq<Command<Stmt>>, j: nat)
    requires j <= |cmds|
  {
    && j > 0 && RunAll(apply, s, cmds[..j]).active.Some?
    && (LostWork(apply, s, cmds, j - 1) || !KeepsWorkAt(apply, s, cmds, j - 1))
  }

  /** No work is lost outside a transaction or in one that commits. */
  ghost predicate CommitsWork<Catalog, Stmt>(
    apply: Apply<Catalog, Stmt>, s: State<Catalog, Stmt>, cmds: seq<Command<Stmt>>)
  {
    forall j | 0 <= j < |cmds| :: CommitsWorkAt(apply, s, cmds, j)
  }

  ghost predicate CommitsWorkAt<Catalog, Stmt>(
    apply: Apply<Catalog, Stmt>, s: State<Catalog, Stmt>, cmds: seq<Command<Stmt>>, j: nat)
    requires j < |cmds|
  {
    && (RunAll(apply, s, cmds[..j]).active.None? ==> KeepsWorkAt(apply, s, cmds, j))
    && (cmds[j].Commit? ==> !LostWork(apply, s, cmds, j))
  }

  lemma StepRestorable<Catalog, Stmt>(
    apply: Apply<Catalog, Stmt>, c0: Catalog, s: State<Catalog, Stmt>, cmd: Command<Stmt>)
    requires Restorable(apply, c0, s) && (cmd.Begin? && s.active.None? ==> FreshId(s))
    requires s.active.None? ==> KeepsWork(s, cmd)
    requires cmd.Commit? ==> Recoverable(apply, c0, s)
    ensures Restorable(apply, c0, Step(apply, s, cmd))
  {
    if s.active.None? || cmd.Commit? {
      StepRecoverable(apply, c0, s, cmd);
    } else {
      var s' := Step(apply, s, cmd);
      if |s'.wal| > |s.wal| {
        ReplaySnoc(apply, s.wal, s'.wal[|s.wal|], CommittedIds(s.wal), c0);
      }
    }
  }

  lemma {:induction false} RunRestorable<Catalog, Stmt>(
    apply: Apply<Catalog, Stmt>, c0: Catalog, s: State<Catalog, Stmt>, cmds: seq<Command<Stmt>>, j: nat)
    requires Recoverable(apply, c0, s) && IdsBelow(s) && CommitsWork(apply, s, cmds) && j <= |cmds|
    ensures Restorable(apply, c0, RunAll(apply, s, cmds[..j]))
    ensures !LostWork(apply, s, cmds, j) ==> Recoverable(apply, c0, RunAll(apply, s, cmds[..j]))
  {
    if j == 0 {
      assert cmds[..0] == [];
    } else {
      RunRestorable(apply, c0, s, cmds, j - 1);
      SessionIds(apply, s, cmds[..j - 1]);
      NextPrefix(apply, s, cmds, j - 1);
      assert CommitsWorkAt(apply, s, cmds, j - 1);
      var u := RunAll(apply, s, cmds[..j - 1]);
      StepRestorable(apply, c0, u, cmds[j - 1]);
      if !LostWork(apply, s, cmds, j - 1) {
        StepRecoverable(apply, c0, u, cmds[j - 1]);
      }
    }
  }

  /** It is enough that every `ROLLBACK TO` restores the catalog already in work. */
  lemma {:induction false} KeptIsNotLost<Catalog, Stmt>(
    apply: Apply<Catalog, Stmt>, s: State<Catalog, Stmt>, cmds: seq<Command<Stmt>>, j: nat)
    requires RunKeepsWork(apply, s, cmds) && j <= |cmds|
    ensures !LostWork(apply, s, cmds, j)
  {
    if j > 0 {
      KeptIsNotLost(apply, s, cmds, j - 1);
      assert KeepsWorkAt(apply, s, cmds, j - 1);
    }
  }

  lemma KeepsWorkCommits<Catalog, Stmt>(
    apply: Apply<Catalog, Stmt>, s: State<Catalog, Stmt>, cmds: seq<Command<Stmt>>)
    requires RunKeepsWork(apply, s, cmds)
    ensures CommitsWork(apply, s, cmds)
  {
    forall j | 0 <= j < |cmds| ensures CommitsWorkAt(apply, s, cmds, j) {
      KeptIsNotLost(apply, s, cmds, j);
      assert KeepsWorkAt(apply, s, cmds, j);
    }
  }

  /**
   * Crash recovery.  Cut the log of any run at any record: replaying what is left from the initial
   * catalog rebuilds exactly the catalog that was committed when that record had just been written,
   * so rolled-back and unfinished transactions leave no trace.
   */
  lemma CrashRecovery<Catalog, Stmt>(apply: Apply<Catalog, Stmt>, c0: Catalog, cmds: seq<Command<Stmt>>, k: nat)
    returns (j: nat)
    requires CommitsWork(apply, Fresh(c0), cmds)
    requires k <= |RunAll(apply, Fresh(c0), cmds).wal|
    ensures j <= |cmds|
    ensures RunAll(apply, Fresh(c0), cmds[..j]).wal == RunAll(apply, Fresh(c0), cmds).wal[..k]
    ensures Replay(apply, RunAll(apply, Fresh(c0), cmds).wal[..k], c0) == RunAll(apply, Fresh(c0), cmds[..j]).catalog
  {
    j := LogPrefix(apply, Fresh(c0), cmds, k);
    RunRestorable(apply, c0, Fresh(c0), cmds, j);
  }

  /**
   * Savepoints are not logged, so a successful `ROLLBACK TO` breaks recovery: once the transaction
   * commits, replay agrees with the engine if and only if the savepoint's catalog was still the
   * working catalog.
   */
  lemma RollbackToExact<Catalog, Stmt>(apply: Apply<Catalog, Stmt>, c0: Catalog, s: State<Catalog, Stmt>, name: string)
    requires Recoverable(apply, c0, s) && RollsBack<Catalog, Stmt>(s, RollbackTo(name))
    ensures var s' := Step(apply, Step(apply, s, RollbackTo(name)), Commit);
            Replay(apply, s'.wal, c0) == s'.catalog
            <==> s.savepoints[FindSavepoint(s.savepoints, name)].1 == s.Working()
  {
    if s.active.Some? {
      ReplaySnoc(apply, s.wal, Record(s.active.value.id, None, true, false),
                 CommittedIds(s.wal) + {s.active.value.id}, c0);
    }
  }

  lemma OneStatement<Catalog, Stmt>(apply: Apply<Catalog, Stmt>, c0: Catalog, x: Stmt)
    requires apply(x, c0).Some?
    ensures var log := [] + [Record(1, None, false, false)] + [Record(1, Some(x), false, false)]
                          + [Record(1, None, true, false)];
            Replay(apply, log, c0) == apply(x, c0).value
  {
    var log: seq<Record<Stmt>> := [];
    var a, b, c := Record(1, None, false, false), Record(1, Some(x), false, false), Record(1, None, true, false);
    var ids: set<nat> := {1};
    ReplaySnoc(apply, log, a, ids, c0);
    ReplaySnoc(apply, log + [a], b, ids, c0);
    ReplaySnoc(apply, log + [a] + [b], c, ids, c0);
    assert CommittedIds(log + [a] + [b] + [c]) == ids;
  }

  /**
   * A run that loses it: begin, savepoint, run `x`, roll back to the savepoint, commit.  The engine is back
   * at the initial catalog, replay runs `x`.
   */
  lemma RollbackToReplayed<Catalog, Stmt>(apply: Apply<Catalog, Stmt>, c0: Catalog, name: string, x: Stmt)
    requires apply(x, c0).Some?
    ensures var s := RunAll(apply, Fresh(c0), [Begin] + [Savepoint(name)] + [Run(x)] + [RollbackTo(name)] + [Commit]);
            s.catalog == c0 && Replay(apply, s.wal, c0) == apply(x, c0).value
  {
    var f: State<Catalog, Stmt> := Fresh(c0);
    RunSnoc(apply, f, [], Begin);
    RunSnoc(apply, f, [Begin], Savepoint(name));
    RunSnoc(apply, f, [Begin] + [Savepoint(name)], Run(x));
    RunSnoc(apply, f, [Begin] + [Savepoint(name)] + [Run(x)], RollbackTo(name));
    RunSnoc(apply, f, [Begin] + [Savepoint(name)] + [Run(x)] + [RollbackTo(name)], Commit);
    OneStatement(apply, c0, x);
  }

  // ---------------------------------------------------------------- isolation and savepoints

  ghost predicate StaysActive<Catalog, Stmt>(
    apply: Apply<Catalog, Stmt>, s: State<Catalog, Stmt>, cmds: seq<Command<Stmt>>)
  {
    forall j | 0 <= j <= |cmds| :: RunAll(apply, s, cmds[..j]).active.Some?
  }

  lemma FoundOnStack<Catalog>(savepoints: seq<(string, Catalog)>, name: string)
    ensures FindSavepoint(savepoints, name) >= 0 <==> OnStack(savepoints, name)
  {
  }

  /** A rejected command changes nothing; an accepted one is logged unless it is about savepoints. */
  lemma AcceptedIsLogged<Catalog, Stmt>(apply: Apply<Catalog, Stmt>, s: State<Catalog, Stmt>, cmd: Command<Stmt>)
    ensures !Accepts(apply, s, cmd) ==> Step(apply, s, cmd) == s
    ensures |Step(apply, s, cmd).wal| == |s.wal| + 1
            <==> Accepts(apply, s, cmd) && !cmd.Savepoint? && !cmd.RollbackTo? && !cmd.Release?
  {
    if cmd.RollbackTo? || cmd.Release? {
      FoundOnStack(s.savepoints, cmd.name);
    }
  }

  /** The commands that can take savepoints off the stack. */
  predicate Unstacks<Stmt>(cmd: Command<Stmt>) {
    cmd.Commit? || cmd.Rollback? || cmd.RollbackTo? || cmd.Release?
  }

  /** Every other command leaves the savepoints there, in every run, across `BEGIN` too. */
  lemma {:induction false} SavepointsStay<Catalog, Stmt>(
    apply: Apply<Catalog, Stmt>, s: State<Catalog, Stmt>, cmds: seq<Command<Stmt>>)
    requires forall j | 0 <= j < |cmds| :: !Unstacks(cmds[j])
    ensures s.savepoints <= RunAll(apply, s, cmds).savepoints
    decreases |cmds|
  {
    if cmds != [] {
      SavepointsStay(apply, s, cmds[..|cmds| - 1]);
    }
  }

  /** The end of a transaction is final: no savepoint of before it can be rolled back to or released. */
  lemma EndIsFinal<Catalog, Stmt>(
    apply: Apply<Catalog, Stmt>, s: State<Catalog, Stmt>, end: Command<Stmt>, name: string)
    requires s.active.Some? && (end.Commit? || end.Rollback?)
    ensures var t := Step(apply, s, end);
            && t.active.None? && t.catalog == (if end.Commit? then s.Working() else s.catalog)
            && !Accepts(apply, t, RollbackTo(name)) && Step(apply, t, RollbackTo(name)) == t
            && !Accepts(apply, t, Release(name)) && Step(apply, t, Release(name)) == t
  {
  }

  /** Nothing a transaction does reaches the main catalog before it ends. */
  lemma {:induction false} Isolation<Catalog, Stmt>(
    apply: Apply<Catalog, Stmt>, s: State<Catalog, Stmt>, cmds: seq<Command<Stmt>>)
    requires StaysActive(apply, s, cmds)
    ensures RunAll(apply, s, cmds).catalog == s.catalog
    decreases |cmds|
  {
    assert cmds[..|cmds|] == cmds;
    if cmds != [] {
      var n := |cmds| - 1;
      forall j | 0 <= j <= n ensures RunAll(apply, s, cmds[..n][..j]).active.Some? {
        assert cmds[..n][..j] == cmds[..j];
      }
      Isolation(apply, s, cmds[..n]);
      assert RunAll(apply, s, cmds[..n]).active.Some?;
      assert RunAll(apply, s, cmds).active.Some?;
    }
  }

  /** `ROLLBACK` leaves the main catalog as it was at `BEGIN`. */
  lemma RollbackRestores<Catalog, Stmt>(apply: Apply<Catalog, Stmt>, s: State<Catalog, Stmt>, cmds: seq<Command<Stmt>>)
    requires s.active.None? && StaysActive(apply, Step(apply, s, Begin), cmds)
    ensures Step(apply, RunAll(apply, Step(apply, s, Begin), cmds), Rollback).catalog == s.catalog
  {
    Isolation(apply, Step(apply, s, Begin), cmds);
  }

  /** The savepoint at height `p` is never taken off the stack, and its name is not declared again. */
  ghost predicate KeepsSavepoint<Catalog, Stmt>(
    apply: Apply<Catalog, Stmt>, s: State<Catalog, Stmt>, cmds: seq<Command<Stmt>>, p: nat, name: string)
  {
    && (forall j | 0 <= j <= |cmds| :: |RunAll(apply, s, cmds[..j]).savepoints| > p)
    && (forall j | 0 <= j < |cmds| :: cmds[j] != Savepoint(name))
  }

  lemma {:induction false} SavepointSurvives<Catalog, Stmt>(
    apply: Apply<Catalog, Stmt>, s: State<Catalog, Stmt>, cmds: seq<Command<Stmt>>, p: nat, name: string)
    requires KeepsSavepoint(apply, s, cmds, p, name)
    requires FindSavepoint(s.savepoints, name) == p
    ensures var t := RunAll(apply, s, cmds);
            FindSavepoint(t.savepoints, name) == p && t.savepoints[..p + 1] == s.savepoints[..p + 1]
    decreases |cmds|
  {
    assert cmds[..|cmds|] == cmds;
    if cmds != [] {
      var n := |cmds| - 1;
      forall j | 0 <= j <= n ensures |RunAll(apply, s, cmds[..n][..j]).savepoints| > p {
        assert cmds[..n][..j] == cmds[..j];
      }
      SavepointSurvives(apply, s, cmds[..n], p, name);
      var u, t := RunAll(apply, s, cmds[..n]), RunAll(apply, s, cmds);
      assert |t.savepoints| > p;
      assert t.savepoints[..p + 1] == u.savepoints[..p + 1];
      FoundAt(u.savepoints, t.savepoints, name, p);
    }
  }

  lemma FoundAt<Catalog>(u: seq<(string, Catalog)>, t: seq<(string, Catalog)>, name: string, p: nat)
    requires FindSavepoint(u, name) == p < |t| && t[..p + 1] == u[..p + 1]
    requires forall k | p < k < |t| :: t[k].0 != name
    ensures FindSavepoint(t, name) == p
  {
    assert t[p] == t[..p + 1][p] == u[..p + 1][p] == u[p];
  }

  /** After such a run the savepoint is where it was put, over the same older ones. */
  lemma SavedStack<Catalog, Stmt>(
    apply: Apply<Catalog, Stmt>, s: State<Catalog, Stmt>, cmds: seq<Command<Stmt>>, name: string)
    requires KeepsSavepoint(apply, Step(apply, s, Savepoint(name)), cmds, |s.savepoints|, name)
    ensures var u := RunAll(apply, Step(apply, s, Savepoint(name)), cmds);
            && FindSavepoint(u.savepoints, name) == |s.savepoints|
            && u.savepoints[..|s.savepoints| + 1] == s.savepoints + [(name, s.Working())]
  {
    var s' := Step(apply, s, Savepoint(name));
    var p := |s.savepoints|;
    assert FindSavepoint(s'.savepoints, name) == p;
    SavepointSurvives(apply, s', cmds, p, name);
    assert s'.savepoints[..p + 1] == s'.savepoints;
  }

  lemma TopOf<Catalog>(stack: seq<(string, Catalog)>, below: seq<(string, Catalog)>, top: (string, Catalog))
    requires |stack| > |below| && stack[..|below| + 1] == below + [top]
    ensures stack[|below|] == top && stack[..|below|] == below
  {
    assert stack[..|below| + 1][|below|] == top;
    assert stack[..|below| + 1][..|below|] == below;
  }

  /**
   * `ROLLBACK TO name` restores the catalog saved by the latest `SAVEPOINT name`, after any run that
   * neither declares the name again nor takes the savepoint off the stack.
   */
  lemma RollbackToRestores<Catalog, Stmt>(
    apply: Apply<Catalog, Stmt>, s: State<Catalog, Stmt>, cmds: seq<Command<Stmt>>, name: string)
    requires KeepsSavepoint(apply, Step(apply, s, Savepoint(name)), cmds, |s.savepoints|, name)
    ensures var t := Step(apply, RunAll(apply, Step(apply, s, Savepoint(name)), cmds), RollbackTo(name));
            t.Working() == s.Working() && t.savepoints == s.savepoints + [(name, s.Working())]
  {
    SavedStack(apply, s, cmds, name);
    TopOf(RunAll(apply, Step(apply, s, Savepoint(name)), cmds).savepoints, s.savepoints, (name, s.Working()));
  }

  /** `RELEASE name` then takes it away: the stack is as it was before it. */
  lemma ReleaseForgets<Catalog, Stmt>(
    apply: Apply<Catalog, Stmt>, s: State<Catalog, Stmt>, cmds: seq<Command<Stmt>>, name: string)
    requires KeepsSavepoint(apply, Step(apply, s, Savepoint(name)), cmds, |s.savepoints|, name)
    ensures var u := RunAll(apply, Step(apply, s, Savepoint(name)), cmds);
            var t := Step(apply, u, Release(name));
            && t == u.(savepoints := s.savepoints)
            && (!OnStack(s.savepoints, name) ==> Step(apply, t, RollbackTo(name)) == t)
  {
    SavedStack(apply, s, cmds, name);
    TopOf(RunAll(apply, Step(apply, s, Savepoint(name)), cmds).savepoints, s.savepoints, (name, s.Working()));
    FoundOnStack(s.savepoints, name);
  }

  // ---------------------------------------------------------------- the engine object

  class QueryEngine<Catalog, Stmt> {
    const apply: Apply<Catalog, Stmt>
    var catalog: Catalog
    var active: Option<Txn<Catalog>>
    var nextId: nat
    var savepoints: seq<(string, Catalog)>
    var wal: seq<Record<Stmt>>

    ghost function Abstract(): State<Catalog, Stmt>
      reads this
    {
      State(catalog, active, nextId, savepoints, wal)
    }

    constructor (apply: Apply<Catalog, Stmt>, c0: Catalog)
      ensures this.apply == apply && Abstract() == Fresh(c0)
    {
      this.apply := apply;
      catalog, active, nextId, savepoints, wal := c0, None, 1, [], [];
    }

    /** Dispatch on the catalog that is swapped in; the log is appended to only after success. */
    method ExecuteInner(cmd: Command<Stmt>, txnId: Option<nat>, logging: bool) returns (ok: bool)
      requires !cmd.Begin? && !cmd.Commit? && !cmd.Rollback? && active.None?
      modifies this
      ensures active == old(active) && nextId == old(nextId)
      ensures var id := if txnId.Some? then txnId.value else 0;
              var t := Step(apply, old(Abstract()), cmd);
              && catalog == t.catalog && savepoints == t.savepoints
              && wal == old(wal) + if logging && cmd.Run? && ok then [Record(id, Some(cmd.stmt), false, false)] else []
      ensures ok <==> Accepts(apply, old(Abstract()), cmd)
      ensures !ok ==> Abstract() == old(Abstract())
    {
      match cmd {
        case Savepoint(name) =>
          savepoints := savepoints + [(name, catalog)];
          return true;
        case RollbackTo(name) =>
          var pos := FindSavepoint(savepoints, name);
          if pos < 0 {
            return false;
          }
          catalog := savepoints[pos].1;
          savepoints := savepoints[..pos + 1];
          return true;
        case Release(name) =>
          var pos := FindSavepoint(savepoints, name);
          if pos < 0 {
            return false;
          }
          savepoints := savepoints[..pos];
          return true;
        case Run(stmt) =>
          match apply(stmt, catalog) {
            case None =>
              return false;
            case Some(c) =>
              catalog := c;
              if logging {
                wal := wal + [Record(if txnId.Some? then txnId.value else 0, Some(stmt), false, false)];
              }
              return true;
          }
      }
    }

    /** `execute`: transaction control, or a statement with the snapshot swapped in and out again. */
    method Execute(cmd: Command<Stmt>) returns (ok: bool)
      modifies this
      ensures Abstract() == Step(apply, old(Abstract()), cmd)
      ensures ok <==> Accepts(apply, old(Abstract()), cmd)
      ensures !ok ==> Abstract() == old(Abstract())
    {
      if cmd.Begin? {
        if active.Some? {
          return false;
        }
        var id := nextId;
        nextId := nextId + 1;
        active := Some(Txn(id, catalog));
        wal := wal + [Record(id, None, false, false)];
        return true;
      }
      if cmd.Commit? {
        if active.None? {
          return false;
        }
        var txn := active.value;
        catalog := txn.snapshot;
        active := None;
        savepoints := [];
        wal := wal + [Record(txn.id, None, true, false)];
        return true;
      }
      if cmd.Rollback? {
        if active.None? {
          return false;
        }
        var id := active.value.id;
        active := None;
        savepoints := [];
        wal := wal + [Record(id, None, false, true)];
        return true;
      }
      if active.Some? {
        var txn := active.value;
        active := None;
        var main := catalog;
        catalog := txn.snapshot;
        ok := ExecuteInner(cmd, Some(txn.id), true);
        active := Some(Txn(txn.id, catalog));
        catalog := main;
        return ok;
      }
      ok := ExecuteInner(cmd, None, true);
    }

    /** `replay_wal`: collect the committed ids, then re-execute without logging, ignoring errors. */
    method ReplayWal()
      requires active.None?
      modifies this
      ensures Abstract() == old(Abstract()).(catalog := Replay(apply, old(wal), old(catalog)))
    {
      var records := wal;
      var committed: set<nat> := {};
      var i := 0;
      while i < |records|
        invariant 0 <= i <= |records|
        invariant committed == CommittedIds(records[..i])
        invariant Abstract() == old(Abstract())
      {
        assert records[..i + 1][..i] == records[..i];
        if records[i].isCommit && records[i].txnId != 0 {
          committed := committed + {records[i].txnId};
        }
        i := i + 1;
      }
      assert records[..|records|] == records;
      i := 0;
      while i < |records|
        invariant 0 <= i <= |records|
        invariant Abstract() == old(Abstract()).(catalog := ReplayWith(apply, records[..i], committed, old(catalog)))
      {
        assert records[..i + 1][..i] == records[..i];
        var r := records[i];
        i := i + 1;
        if r.isRollback {
          continue;
        }
        if r.txnId != 0 && r.txnId !in committed {
          continue;
        }
        if r.sql.None? {
          continue;
        }
        var _ := ExecuteInner(Run(r.sql.value), Some(r.txnId), false);
      }
    }
  }
}

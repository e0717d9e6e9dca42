/** What a restart of the engine (`src/engine/mod.rs`) on an old log does to transaction ids. */
module Restarts {
  import opened Engine
  import opened OpenReplay
  import opened Options

  /** Reopening the engine replays the log; transaction ids start again at 1. */
  function Reopen<Catalog, Stmt>(
    apply: Apply<Catalog, Stmt>, c0: Catalog, s: State<Catalog, Stmt>): State<Catalog, Stmt>
  {
    State(Replay(apply, s.wal, c0), None, 1, [], s.wal)
  }

  /** `with_data_dir`: a new engine has the log attached and replays it, which logs nothing. */
  method Restart<Catalog, Stmt>(apply: Apply<Catalog, Stmt>, c0: Catalog, s: State<Catalog, Stmt>)
    returns (engine: QueryEngine<Catalog, Stmt>)
    ensures fresh(engine) && engine.apply == apply && engine.Abstract() == Reopen(apply, c0, s)
  {
    engine := new QueryEngine(apply, c0);
    engine.wal := s.wal;
    engine.ReplayWal();
  }

  /** A reopened engine has the last committed catalog, and is itself recoverable. */
  lemma ReopenRecovers<Catalog, Stmt>(apply: Apply<Catalog, Stmt>, c0: Catalog, s: State<Catalog, Stmt>)
    requires Recoverable(apply, c0, s)
    ensures Reopen(apply, c0, s).catalog == s.catalog
    ensures Recoverable(apply, c0, Reopen(apply, c0, s))
  {
  }

  /** The active transaction bears an id the log has committed already, so its work is replayed as it goes. */
  ghost predicate Exposed<Catalog, Stmt>(apply: Apply<Catalog, Stmt>, c0: Catalog, s: State<Catalog, Stmt>) {
    && s.active.Some? && s.active.value.id != 0 && s.active.value.id in CommittedIds(s.wal)
    && Replay(apply, s.wal, c0) == s.active.value.snapshot
  }

  lemma StepExposed<Catalog, Stmt>(
    apply: Apply<Catalog, Stmt>, c0: Catalog, s: State<Catalog, Stmt>, cmd: Command<Stmt>)
    requires Exposed(apply, c0, s) && KeepsWork(s, cmd) && Step(apply, s, cmd).active.Some?
    ensures Exposed(apply, c0, Step(apply, s, cmd))
  {
    var s' := Step(apply, s, cmd);
    if |s'.wal| > |s.wal| {
      ReplaySnoc(apply, s.wal, s'.wal[|s.wal|], CommittedIds(s.wal), c0);
    }
  }

  lemma {:induction false} RunExposed<Catalog, Stmt>(
    apply: Apply<Catalog, Stmt>, c0: Catalog, s: State<Catalog, Stmt>, cmds: seq<Command<Stmt>>, k: nat)
    requires Exposed(apply, c0, s) && StaysActive(apply, s, cmds) && RunKeepsWork(apply, s, cmds) && k <= |cmds|
    ensures Exposed(apply, c0, RunAll(apply, s, cmds[..k]))
  {
    if k == 0 {
      assert cmds[..0] == [];
    } else {
      RunExposed(apply, c0, s, cmds, k - 1);
      var u := RunAll(apply, s, cmds[..k - 1]);
      NextPrefix(apply, s, cmds, k - 1);
      assert RunAll(apply, s, cmds[..k]).active.Some? && KeepsWorkAt(apply, s, cmds, k - 1);
      StepExposed(apply, c0, u, cmds[k - 1]);
    }
  }

  /**
   * But ids are reused after a restart.  If an earlier session committed the id that `BEGIN` hands out,
   * whatever the new, unfinished transaction does is replayed as committed: at every point of it recovery
   * is right if and only if its snapshot is the main catalog still, and so it is after rolling it back.
   */
  lemma ReusedIdExact<Catalog, Stmt>(
    apply: Apply<Catalog, Stmt>, c0: Catalog, s: State<Catalog, Stmt>, cmds: seq<Command<Stmt>>)
    requires Recoverable(apply, c0, s) && s.active.None? && s.nextId in CommittedIds(s.wal) && s.nextId != 0
    requires StaysActive(apply, Step(apply, s, Begin), cmds) && RunKeepsWork(apply, Step(apply, s, Begin), cmds)
    ensures var t := RunAll(apply, Step(apply, s, Begin), cmds);
            && t.active.Some? && t.catalog == s.catalog && Replay(apply, t.wal, c0) == t.active.value.snapshot
            && (Replay(apply, t.wal, c0) == t.catalog <==> t.active.value.snapshot == s.catalog)
    ensures var t := RunAll(apply, Step(apply, s, Begin), cmds);
            var t' := Step(apply, t, Rollback);
            && t'.catalog == s.catalog && Replay(apply, t'.wal, c0) == t.active.value.snapshot
            && (Replay(apply, t'.wal, c0) == t'.catalog <==> t.active.value.snapshot == s.catalog)
  {
    var b := Step(apply, s, Begin);
    ReplaySnoc(apply, s.wal, Record(s.nextId, None, false, false), CommittedIds(s.wal), c0);
    assert cmds[..|cmds|] == cmds;
    RunExposed(apply, c0, b, cmds, |cmds|);
    Isolation(apply, b, cmds);
    var t := RunAll(apply, b, cmds);
    ReplaySnoc(apply, t.wal, Record(t.active.value.id, None, false, true), CommittedIds(t.wal), c0);
  }

  /**
   * If instead the id is carried by a transaction that an earlier session rolled back or left unfinished,
   * committing the new one revives the dead one: an empty transaction has the dead statements replayed.
   */
  lemma DeadIdReplayed<Catalog, Stmt>(apply: Apply<Catalog, Stmt>, c0: Catalog, s: State<Catalog, Stmt>)
    requires s.active.None? && s.nextId != 0
    ensures var s' := Step(apply, Step(apply, s, Begin), Commit);
            && s'.catalog == s.catalog
            && Replay(apply, s'.wal, c0) == ReplayWith(apply, s.wal, CommittedIds(s.wal) + {s.nextId}, c0)
  {
    var id := s.nextId;
    var begin := Record(id, None, false, false);
    var ids := CommittedIds(s.wal) + {id};
    ReplaySnoc(apply, s.wal, begin, ids, c0);
    ReplaySnoc(apply, s.wal + [begin], Record(id, None, true, false), ids, c0);
  }

  /** The log holds a statement of the id about to be handed out. */
  predicate DeadStatements<Catalog, Stmt>(s: State<Catalog, Stmt>) {
    OfId(All(s.wal), s.nextId) != []
  }

  lemma KeptStatements<Catalog, Stmt>(s: State<Catalog, Stmt>)
    requires s.nextId != 0 && s.nextId !in CommittedIds(s.wal)
    ensures var more := Only(All(s.wal), CommittedIds(s.wal) + {s.nextId} + {0});
            && |more| == |Surviving(s.wal)| + |OfId(All(s.wal), s.nextId)|
            && (!DeadStatements(s) ==> more == Surviving(s.wal))
  {
    var ids := CommittedIds(s.wal);
    OnlyMore(All(s.wal), ids + {0}, s.nextId);
    assert ids + {s.nextId} + {0} == ids + {0} + {s.nextId};
  }

  /** Whatever statements do, a transaction is recovered if the log held no statement of its id before. */
  lemma UnstatedRecovers<Catalog, Stmt>(apply: Apply<Catalog, Stmt>, c0: Catalog, s: State<Catalog, Stmt>)
    requires Recoverable(apply, c0, s) && s.active.None? && Plain(s.wal)
    requires s.nextId != 0 && s.nextId !in CommittedIds(s.wal) && !DeadStatements(s)
    ensures Recoverable(apply, c0, Step(apply, s, Begin))
    ensures Recoverable(apply, c0, Step(apply, Step(apply, s, Begin), Commit))
  {
    DeadIdReplayed(apply, c0, s);
    KeptStatements(s);
    ReplayApplies(apply, s.wal, CommittedIds(s.wal), c0);
    ReplayApplies(apply, s.wal, CommittedIds(s.wal) + {s.nextId}, c0);
    ReplaySnoc(apply, s.wal, Record(s.nextId, None, false, false), CommittedIds(s.wal), c0);
    ReplaySnoc(apply, s.wal, Record(s.nextId, None, false, false), CommittedIds(s.wal) + {s.nextId}, c0);
  }

  /** For the catalog that keeps every statement it is recovered exactly then. */
  lemma DeadIdExact<Stmt>(c0: seq<Stmt>, s: State<seq<Stmt>, Stmt>)
    requires Recoverable(Appending(), c0, s) && s.active.None? && Plain(s.wal)
    requires s.nextId != 0 && s.nextId !in CommittedIds(s.wal)
    ensures var s' := Step(Appending(), Step(Appending(), s, Begin), Commit);
            Replay(Appending(), s'.wal, c0) == s'.catalog <==> !DeadStatements(s)
  {
    var ids := CommittedIds(s.wal);
    DeadIdReplayed(Appending(), c0, s);
    KeptStatements(s);
    ReplayApplies(Appending(), s.wal, ids, c0);
    ReplayApplies(Appending(), s.wal, ids + {s.nextId}, c0);
    AppendsAll(Surviving(s.wal), c0);
    AppendsAll(Only(All(s.wal), ids + {s.nextId} + {0}), c0);
  }

  /** The engine reopened on the log of a crashed session, about to hand out the given id. */
  function ReopenAt<Catalog, Stmt>(
    apply: Apply<Catalog, Stmt>, c0: Catalog, t: State<Catalog, Stmt>, id: nat): State<Catalog, Stmt>
  {
    Reopen(apply, c0, t).(nextId := id)
  }

  /**
   * Under the id of the transaction that a crash left unfinished, the empty transaction is recovered if and
   * only if the dead one had changed nothing.
   */
  lemma UnfinishedIdExact<Catalog, Stmt>(apply: Apply<Catalog, Stmt>, c0: Catalog, t: State<Catalog, Stmt>)
    requires Recoverable(apply, c0, t) && t.active.Some?
    ensures var s := ReopenAt(apply, c0, t, t.active.value.id);
            var s' := Step(apply, Step(apply, s, Begin), Commit);
            && s'.catalog == t.catalog && Replay(apply, s'.wal, c0) == t.active.value.snapshot
            && (Replay(apply, s'.wal, c0) == s'.catalog <==> t.active.value.snapshot == t.catalog)
  {
    DeadIdReplayed(apply, c0, ReopenAt(apply, c0, t, t.active.value.id));
  }

  /** That is reachable after a crash: begin, run `x`, reopen, begin, commit. */
  lemma DeadIdHappens<Catalog, Stmt>(apply: Apply<Catalog, Stmt>, c0: Catalog, x: Stmt)
    requires apply(x, c0).Some?
    ensures var t := RunAll(apply, Fresh(c0), [Begin] + [Run(x)]);
            var s' := Step(apply, Step(apply, Reopen(apply, c0, t), Begin), Commit);
            && Recoverable(apply, c0, t) && t.active.Some? && Reopen(apply, c0, t).nextId == t.active.value.id
            && s'.catalog == c0 && Replay(apply, s'.wal, c0) == apply(x, c0).value
  {
    var cmds: seq<Command<Stmt>> := [Begin] + [Run(x)];
    var f: State<Catalog, Stmt> := Fresh(c0);
    RunSnoc(apply, f, [], Begin);
    RunSnoc(apply, f, [Begin], Run(x));
    SessionRecoverable(apply, c0, f, cmds);
    UnfinishedIdExact(apply, c0, RunAll(apply, f, cmds));
  }

  lemma OneDeadStatement<Catalog, Stmt>(apply: Apply<Catalog, Stmt>, c0: Catalog, x: Stmt)
    requires apply(x, c0).Some?
    ensures var log := [] + [Record(1, None, false, false)] + [Record(1, Some(x), false, false)]
                          + [Record(1, None, false, true)];
            CommittedIds(log) == {} && ReplayWith(apply, log, {} + {1}, c0) == apply(x, c0).value
  {
    var log: seq<Record<Stmt>> := [];
    var a, b, c := Record(1, None, false, false), Record(1, Some(x), false, false), Record(1, None, false, true);
    var ids: set<nat> := {} + {1};
    ReplaySnoc(apply, log, a, ids, c0);
    ReplaySnoc(apply, log + [a], b, ids, c0);
    ReplaySnoc(apply, log + [a] + [b], c, ids, c0);
  }

  /** And after a rollback: begin, run `x`, roll back, reopen, begin, commit. */
  lemma RolledBackIdHappens<Catalog, Stmt>(apply: Apply<Catalog, Stmt>, c0: Catalog, x: Stmt)
    requires apply(x, c0).Some?
    ensures var t := RunAll(apply, Fresh(c0), [Begin] + [Run(x)] + [Rollback]);
            var s' := Step(apply, Step(apply, Reopen(apply, c0, t), Begin), Commit);
            && Recoverable(apply, c0, t) && t.active.None? && t.catalog == c0
            && s'.catalog == c0 && Replay(apply, s'.wal, c0) == apply(x, c0).value
  {
    var f: State<Catalog, Stmt> := Fresh(c0);
    var cmds: seq<Command<Stmt>> := [Begin] + [Run(x)] + [Rollback];
    RunSnoc(apply, f, [], Begin);
    RunSnoc(apply, f, [Begin], Run(x));
    RunSnoc(apply, f, [Begin] + [Run(x)], Rollback);
    SessionRecoverable(apply, c0, f, cmds);
    OneDeadStatement(apply, c0, x);
    DeadIdReplayed(apply, c0, Reopen(apply, c0, RunAll(apply, f, cmds)));
  }

  /** The reuse is reachable: commit transaction 1, restart, begin transaction 1 again. */
  lemma ReuseHappens<Catalog, Stmt>(apply: Apply<Catalog, Stmt>, c0: Catalog)
    ensures var s := Reopen(apply, c0, RunAll(apply, Fresh(c0), [Begin] + [Commit]));
            Recoverable(apply, c0, s) && s.active.None? && s.nextId in CommittedIds(s.wal)
  {
    var f: State<Catalog, Stmt> := Fresh(c0);
    RunSnoc(apply, f, [], Begin);
    RunSnoc(apply, f, [Begin], Commit);
    var s := RunAll(apply, f, [Begin] + [Commit]);
    SessionRecoverable(apply, c0, f, [Begin] + [Commit]);
    ReopenRecovers(apply, c0, s);
    ReplaySnoc(apply, [] + [Record(1, None, false, false)], Record(1, None, true, false), {}, c0);
  }
}

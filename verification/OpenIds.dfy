/**
 * The transaction ids that an engine opened by `src/storage/recovery.rs` hands out: replaying uses up one
 * for each transaction it re-executes.
 */
module OpenIds {
  import opened Counting
  import opened Engine
  import opened OpenReplay
  import opened Options

  lemma {:induction false} LiveCount<Stmt>(log: seq<Record<Stmt>>, order: seq<nat>)
    requires Distinct(order) && 0 !in order
    ensures |Live(log, order)| == 1 + |set id | id in order && IsLive(log, id)|
  {
    if order != [] {
      var init, id := order[..|order| - 1], order[|order| - 1];
      assert order == init + [id];
      LiveCount(log, init);
      var before, now := set x | x in init && IsLive(log, x), set x | x in order && IsLive(log, x);
      assert id !in init;
      assert now == if IsLive(log, id) then before + {id} else before;
    }
  }

  /** An engine opened on the log has replayed as many transactions as were committed. */
  lemma OpenedId<Stmt>(log: seq<Record<Stmt>>, order: seq<nat>)
    requires CommittedIds(log) !! RolledBackIds(log) && Order(log, order)
    ensures |Live(log, order)| - 1 == |CommittedIds(log)|
  {
    LiveCount(log, order);
    assert (set id | id in order && IsLive(log, id)) == CommittedIds(log);
  }

  /** The first `n` transaction ids. */
  function FirstIds(n: nat): (ids: set<nat>)
    ensures |ids| == n && forall id: nat :: id in ids <==> 1 <= id <= n
  {
    if n == 0 then {} else FirstIds(n - 1) + {n}
  }

  /**
   * The ids it goes on to hand out never meet a committed one if and only if the committed transactions were
   * the first of the log.
   */
  lemma OpenMeetsCommitted<Stmt>(log: seq<Record<Stmt>>)
    ensures (forall id: nat | id >= 1 + |CommittedIds(log)| :: id !in CommittedIds(log))
            <==> CommittedIds(log) == FirstIds(|CommittedIds(log)|)
  {
    NoCommitOfZero(log);
    var ids := CommittedIds(log);
    if forall id: nat | id >= 1 + |ids| :: id !in ids {
      SameSize(ids, FirstIds(|ids|));
    }
  }

  /** A set inside another of the same size is that other. */
  lemma SameSize(a: set<nat>, b: set<nat>)
    requires a <= b && |b| <= |a|
    ensures a == b
  {
    if a != b {
      SubsetSize(a, b - {NotIn(a, b)});
    }
  }

  ghost function NotIn(a: set<nat>, b: set<nat>): (x: nat)
    requires a < b
    ensures x in b && x !in a
  {
    var x :| x in b && x !in a;
    x
  }

  /** The transaction ids that records of the log carry. */
  ghost function LogIds<Stmt>(log: seq<Record<Stmt>>): set<nat> {
    set r | r in log && r.txnId != 0 :: r.txnId
  }

  lemma LogIdsSnoc<Stmt>(log: seq<Record<Stmt>>, r: Record<Stmt>)
    ensures LogIds(log + [r]) == if r.txnId == 0 then LogIds(log) else LogIds(log) + {r.txnId}
  {
    assert r in log + [r];
    forall x | x in log ensures x in log + [r] {
    }
  }

  lemma {:induction false} CommittedInLog<Stmt>(log: seq<Record<Stmt>>)
    ensures CommittedIds(log) <= LogIds(log)
  {
    if log != [] {
      var init, r := log[..|log| - 1], log[|log| - 1];
      assert log == init + [r];
      CommittedInLog(init);
      LogIdsSnoc(init, r);
    }
  }

  /**
   * The log carries exactly the first `n` ids.  The next id is one of those or follows them: an engine
   * opened on the log may be behind.
   */
  ghost predicate Numbered<Catalog, Stmt>(s: State<Catalog, Stmt>, n: nat) {
    && 1 <= s.nextId <= n + 1 && LogIds(s.wal) == FirstIds(n)
    && (s.active.Some? ==> 1 <= s.active.value.id < s.nextId)
  }

  lemma NumberedRecord<Stmt>(log: seq<Record<Stmt>>, r: Record<Stmt>, n: nat)
    requires LogIds(log) == FirstIds(n) && r.txnId <= n + 1
    ensures LogIds(log + [r]) == FirstIds(if r.txnId == n + 1 then n + 1 else n)
  {
    LogIdsSnoc(log, r);
  }

  lemma NumberedStep<Catalog, Stmt>(apply: Apply<Catalog, Stmt>, s: State<Catalog, Stmt>, cmd: Command<Stmt>, n: nat)
    returns (m: nat)
    requires Numbered(s, n)
    ensures Numbered(Step(apply, s, cmd), m)
  {
    var s' := Step(apply, s, cmd);
    m := n;
    if |s'.wal| > |s.wal| {
      var r := s'.wal[|s.wal|];
      assert s'.wal == s.wal + [r];
      NumberedRecord(s.wal, r, n);
      m := if r.txnId == n + 1 then n + 1 else n;
    }
  }

  lemma {:induction false} SessionNumbered<Catalog, Stmt>(
    apply: Apply<Catalog, Stmt>, s: State<Catalog, Stmt>, cmds: seq<Command<Stmt>>, n: nat)
    returns (m: nat)
    requires Numbered(s, n)
    ensures Numbered(RunAll(apply, s, cmds), m)
    decreases |cmds|
  {
    m := n;
    if cmds != [] {
      m := SessionNumbered(apply, s, cmds[..|cmds| - 1], n);
      m := NumberedStep(apply, RunAll(apply, s, cmds[..|cmds| - 1]), cmds[|cmds| - 1], m);
    }
  }

  /** The transactions that `open` re-executes. */
  ghost function LiveSet<Stmt>(log: seq<Record<Stmt>>): set<nat> {
    set id | id in CommittedIds(log) && id !in RolledBackIds(log)
  }

  lemma OpenedNextId<Stmt>(log: seq<Record<Stmt>>, order: seq<nat>)
    requires Order(log, order)
    ensures |Live(log, order)| == 1 + |LiveSet(log)| && LiveSet(log) <= LogIds(log)
  {
    LiveCount(log, order);
    assert (set id | id in order && IsLive(log, id)) == LiveSet(log);
    CommittedInLog(log);
  }

  /** A new engine is numbered, and so is one opened on the log of any session, however many opens there were. */
  lemma OpenedNumbered<Catalog, Stmt>(
    apply: Apply<Catalog, Stmt>, c0: Catalog, log: seq<Record<Stmt>>, order: seq<nat>, n: nat)
    requires Order(log, order) && LogIds(log) == FirstIds(n)
    ensures Numbered(Opened(apply, c0, log, order), n) && Numbered<Catalog, Stmt>(Fresh(c0), 0)
  {
    OpenedNextId(log, order);
    SubsetSize(LiveSet(log), LogIds(log));
  }

  /**
   * No id that the opened engine goes on to hand out is carried by a record of the log if and only if every
   * transaction of the log is committed and not rolled back.
   */
  lemma OpenReuseExact<Catalog, Stmt>(
    apply: Apply<Catalog, Stmt>, c0: Catalog, log: seq<Record<Stmt>>, order: seq<nat>, n: nat)
    requires Order(log, order) && LogIds(log) == FirstIds(n)
    ensures (forall id: nat | id >= Opened(apply, c0, log, order).nextId :: id !in LogIds(log))
            <==> forall id | id in LogIds(log) :: IsLive(log, id)
  {
    OpenedNextId(log, order);
    var ids := LiveSet(log);
    SubsetSize(ids, LogIds(log));
    if forall id: nat | id >= 1 + |ids| :: id !in LogIds(log) {
      assert n > 0 ==> n in LogIds(log);
      SameSize(ids, LogIds(log));
    }
    if forall id | id in LogIds(log) :: IsLive(log, id) {
      assert ids == LogIds(log);
    }
  }

  // ---------------------------------------------------------------- a committed statement that is lost

  lemma {:induction false} NothingLive<Stmt>(log: seq<Record<Stmt>>, order: seq<nat>)
    requires forall id: nat :: !IsLive(log, id)
    ensures Live(log, order) == [0]
  {
    if order != [] {
      NothingLive(log, order[..|order| - 1]);
    }
  }

  /** The log of `Begin, Run(x), Rollback`, and of `Begin, Run(y), Commit` after it under the same id. */
  function AbortedLog<Stmt>(x: Stmt): seq<Record<Stmt>> {
    [] + [Record(1, None, false, false)] + [Record(1, Some(x), false, false)] + [Record(1, None, false, true)]
  }

  function RetriedLog<Stmt>(x: Stmt, y: Stmt): seq<Record<Stmt>> {
    AbortedLog(x) + [Record(1, None, false, false)] + [Record(1, Some(y), false, false)]
                  + [Record(1, None, true, false)]
  }

  lemma AbortedIds<Stmt>(x: Stmt)
    ensures CommittedIds(AbortedLog(x)) == {} && RolledBackIds(AbortedLog(x)) == {1}
    ensures All(AbortedLog(x)) == [] + [(1, x)]
  {
    var log: seq<Record<Stmt>> := [];
    var a, b := Record(1, None, false, false), Record(1, Some(x), false, false);
    LogSnoc(log, a);
    LogSnoc(log + [a], b);
    LogSnoc(log + [a] + [b], Record(1, None, false, true));
  }

  lemma RetriedIds<Stmt>(x: Stmt, y: Stmt)
    ensures CommittedIds(RetriedLog(x, y)) == {1} && RolledBackIds(RetriedLog(x, y)) == {1}
    ensures All(RetriedLog(x, y)) == [] + [(1, x)] + [(1, y)]
  {
    AbortedIds(x);
    var log := AbortedLog(x);
    var a, b := Record(1, None, false, false), Record(1, Some(y), false, false);
    LogSnoc(log, a);
    LogSnoc(log + [a], b);
    LogSnoc(log + [a] + [b], Record(1, None, true, false));
  }

  /** Without a live transaction or an autocommitted statement the grouped replay changes nothing. */
  lemma NothingReplayed<Catalog, Stmt>(
    apply: Apply<Catalog, Stmt>, log: seq<Record<Stmt>>, order: seq<nat>, c0: Catalog)
    requires (forall id: nat :: !IsLive(log, id)) && forall i | 0 <= i < |All(log)| :: All(log)[i].0 != 0
    ensures Live(log, order) == [0] && GroupedReplay(apply, log, order, c0) == c0
  {
    NothingLive(log, order);
    OfIdElements(All(log), 0);
    assert Grouped(All(log), [0], 0) == [] && Grouped(All(log), [0], 1) == [];
  }

  /**
   * A transaction that rolled back, an `open`, a transaction that commits under the id handed out again, and
   * another `open`: the committed statement is lost, whatever the order of the hash map.
   */
  lemma OpenLosesCommit<Catalog, Stmt>(
    apply: Apply<Catalog, Stmt>, c0: Catalog, x: Stmt, y: Stmt, order: seq<nat>, order': seq<nat>)
    requires apply(x, c0).Some? && apply(y, c0).Some?
    ensures var s := RunAll(apply, Fresh(c0), [Begin] + [Run(x)] + [Rollback]);
            var t := RunAll(apply, Opened(apply, c0, s.wal, order), [Begin] + [Run(y)] + [Commit]);
            && t.catalog == apply(y, c0).value
            && Opened(apply, c0, t.wal, order').catalog == c0
  {
    var f: State<Catalog, Stmt> := Fresh(c0);
    RunSnoc(apply, f, [], Begin);
    RunSnoc(apply, f, [Begin], Run(x));
    RunSnoc(apply, f, [Begin] + [Run(x)], Rollback);
    AbortedIds(x);
    NothingReplayed(apply, AbortedLog(x), order, c0);
    var o := Opened(apply, c0, AbortedLog(x), order);
    RunSnoc(apply, o, [], Begin);
    RunSnoc(apply, o, [Begin], Run(y));
    RunSnoc(apply, o, [Begin] + [Run(y)], Commit);
    RetriedIds(x, y);
    NothingReplayed(apply, RetriedLog(x, y), order', c0);
  }
}

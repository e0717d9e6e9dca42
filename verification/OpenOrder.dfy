/** The grouped replay of `src/storage/recovery.rs` over every order of its hash map. */
module OpenOrder {
  import opened Engine
  import opened OpenReplay

  /** Autocommitted statements come first, and only one transaction has any after them. */
  ghost predicate AlreadyGrouped<Stmt>(s: seq<(nat, Stmt)>) {
    && (forall i, j | 0 <= i < j < |s| && s[j].0 == 0 :: s[i].0 == 0)
    && (forall i, j | 0 <= i < j < |s| && s[i].0 != 0 :: s[j].0 == s[i].0)
  }

  /** The hash map happens to yield the transactions in log order. */
  ghost predicate InLogOrder<Stmt>(log: seq<Record<Stmt>>, order: seq<nat>) {
    Ranked(Surviving(log), Live(log, order))
  }

  lemma RankAt(ids: seq<nat>, p: nat)
    requires Distinct(ids) && p < |ids|
    ensures Rank(ids, ids[p]) == p
  {
    assert ids[p] in ids;
  }

  /** The ids of a set in some order. */
  lemma {:induction false} Enumerate(ids: set<nat>) returns (order: seq<nat>)
    ensures Distinct(order) && forall id: nat :: id in order <==> id in ids
  {
    if ids == {} {
      order := [];
    } else {
      var id :| id in ids;
      var rest := Enumerate(ids - {id});
      order := [id] + rest;
    }
  }

  lemma LiveSnoc<Stmt>(log: seq<Record<Stmt>>, order: seq<nat>, id: nat)
    ensures Live(log, order + [id]) == if IsLive(log, id) then Live(log, order) + [id] else Live(log, order)
  {
    assert (order + [id])[..|order|] == order;
  }

  lemma {:induction false} LivePrefix<Stmt>(log: seq<Record<Stmt>>, front: seq<nat>, back: seq<nat>)
    ensures Live(log, front) <= Live(log, front + back)
    decreases |back|
  {
    if back == [] {
      assert front + back == front;
    } else {
      var n := |back| - 1;
      assert front + back == front + back[..n] + [back[n]];
      assert (front + back)[..|front + back| - 1] == front + back[..n];
      LivePrefix(log, front, back[..n]);
    }
  }

  lemma OrderRest<Stmt>(log: seq<Record<Stmt>>, b: nat, a: nat) returns (rest: seq<nat>)
    requires IsLive(log, a) && IsLive(log, b) && a != b
    ensures Order(log, [b] + [a] + rest)
  {
    NoCommitOfZero(log);
    rest := Enumerate(CommittedIds(log) - {a, b});
    assert forall id | id in CommittedIds(log) :: id == a || id == b || id in rest;
  }

  /** An order that yields `b` before `a`. */
  lemma OrderWith<Stmt>(log: seq<Record<Stmt>>, b: nat, a: nat) returns (order: seq<nat>)
    requires IsLive(log, a) && IsLive(log, b) && a != b
    ensures Order(log, order) && Rank(Live(log, order), b) < Rank(Live(log, order), a)
  {
    var rest := OrderRest(log, b, a);
    order := [b] + [a] + rest;
    LivePrefix(log, [b] + [a], rest);
    LiveSnoc(log, [], b);
    LiveSnoc(log, [b], a);
    assert [] + [b] == [b];
    LiveIds(log, order);
    var ids := Live(log, order);
    assert ids[1] == b && ids[2] == a;
    RankAt(ids, 1);
    RankAt(ids, 2);
  }

  lemma SurvivorsLive<Stmt>(log: seq<Record<Stmt>>, order: seq<nat>, i: nat)
    requires CommittedIds(log) !! RolledBackIds(log) && Order(log, order) && i < |Surviving(log)|
    ensures Surviving(log)[i].0 == 0 || IsLive(log, Surviving(log)[i].0)
    ensures Surviving(log)[i].0 in Live(log, order)
    ensures Surviving(log)[i].0 == 0 <==> Rank(Live(log, order), Surviving(log)[i].0) == 0
  {
    OnlyIds(All(log), CommittedIds(log) + {0});
    LiveIds(log, order);
    LivePrefix(log, [], order);
    assert [] + order == order;
    RankAt(Live(log, order), 0);
  }

  lemma GroupedRanks<Stmt>(log: seq<Record<Stmt>>, order: seq<nat>)
    requires CommittedIds(log) !! RolledBackIds(log) && Order(log, order) && AlreadyGrouped(Surviving(log))
    ensures InLogOrder(log, order)
  {
    var s, ids := Surviving(log), Live(log, order);
    forall i, j | 0 <= i < j < |s| ensures Rank(ids, s[i].0) <= Rank(ids, s[j].0) {
      SurvivorsLive(log, order, i);
    }
  }

  /** Statements that are not grouped already are out of order for some iteration of the hash map. */
  lemma UngroupedOrder<Stmt>(log: seq<Record<Stmt>>) returns (order: seq<nat>)
    requires CommittedIds(log) !! RolledBackIds(log) && !AlreadyGrouped(Surviving(log))
    ensures Order(log, order) && !InLogOrder(log, order)
  {
    var s := Surviving(log);
    var i, j :| 0 <= i < j < |s| && ((s[j].0 == 0 && s[i].0 != 0) || (s[i].0 != 0 && s[j].0 != s[i].0));
    NoCommitOfZero(log);
    order := Enumerate(CommittedIds(log));
    SurvivorsLive(log, order, i);
    SurvivorsLive(log, order, j);
    if s[j].0 != 0 {
      order := OrderWith(log, s[j].0, s[i].0);
    }
    assert Rank(Live(log, order), s[j].0) < Rank(Live(log, order), s[i].0);
  }

  /**
   * Whatever order the hash map has, the replays apply the same statements in the same order: exactly when
   * in the log no autocommitted survivor follows a transactional one and at most one live transaction has
   * statements.
   */
  lemma OpenExact<Stmt>(log: seq<Record<Stmt>>)
    requires CommittedIds(log) !! RolledBackIds(log)
    ensures (forall order | Order(log, order) :: InLogOrder(log, order)) <==> AlreadyGrouped(Surviving(log))
  {
    if AlreadyGrouped(Surviving(log)) {
      forall order | Order(log, order) ensures InLogOrder(log, order) {
        GroupedRanks(log, order);
      }
    } else {
      var order := UngroupedOrder(log);
    }
  }

  /**
   * Opening an engine on any prefix of the log of any session rebuilds the catalog committed at that point,
   * in any order of the hash map, whenever the surviving statements are grouped already.
   */
  lemma OpenRecovers<Catalog, Stmt>(apply: Apply<Catalog, Stmt>, c0: Catalog, cmds: seq<Command<Stmt>>, k: nat)
    returns (j: nat)
    requires CommitsWork(apply, Fresh(c0), cmds)
    requires k <= |RunAll(apply, Fresh(c0), cmds).wal|
    requires AlreadyGrouped(Surviving(RunAll(apply, Fresh(c0), cmds).wal[..k]))
    ensures j <= |cmds| && RunAll(apply, Fresh(c0), cmds[..j]).wal == RunAll(apply, Fresh(c0), cmds).wal[..k]
    ensures forall order | Order(RunAll(apply, Fresh(c0), cmds).wal[..k], order) ::
              GroupedReplay(apply, RunAll(apply, Fresh(c0), cmds).wal[..k], order, c0)
              == RunAll(apply, Fresh(c0), cmds[..j]).catalog
  {
    j := CrashRecovery(apply, c0, cmds, k);
    SessionEnded(apply, Fresh(c0), cmds[..j]);
    var log := RunAll(apply, Fresh(c0), cmds).wal[..k];
    forall order | Order(log, order) ensures GroupedReplay(apply, log, order, c0) == Replay(apply, log, c0) {
      GroupedRanks(log, order);
      ReplaysAgree(apply, log, order, c0);
    }
  }

  // ---------------------------------------------------------------- the catalog that keeps every statement

  ghost predicate AllDifferent<Stmt>(s: seq<(nat, Stmt)>) {
    forall i, j | 0 <= i < j < |s| :: s[i].1 != s[j].1
  }

  lemma {:induction false} OfIdFrom<Stmt>(s: seq<(nat, Stmt)>, id: nat)
    ensures forall e | e in OfId(s, id) :: e in s
  {
    if s != [] {
      OfIdFrom(s[..|s| - 1], id);
      assert forall e | e in s[..|s| - 1] :: e in s;
    }
  }

  lemma {:induction false} GroupedFrom<Stmt>(s: seq<(nat, Stmt)>, ids: seq<nat>, n: nat)
    requires n <= |ids|
    ensures forall e | e in Grouped(s, ids, n) :: e in s
  {
    if n > 0 {
      GroupedFrom(s, ids, n - 1);
      OfIdFrom(s, ids[n - 1]);
    }
  }

  /** Different statements tell which transaction they are of. */
  lemma StatementsTell<Stmt>(s: seq<(nat, Stmt)>, g: seq<(nat, Stmt)>)
    requires AllDifferent(s) && (forall e | e in g :: e in s)
    ensures Statements(g) == Statements(s) <==> g == s
  {
    if Statements(g) == Statements(s) {
      forall i | 0 <= i < |s| ensures g[i] == s[i] {
        assert Statements(g)[i] == Statements(s)[i] && g[i] in g;
        var j :| 0 <= j < |s| && s[j] == g[i];
        assert s[j].1 == s[i].1;
      }
    }
  }

  /**
   * For the catalog that keeps every statement and a log of different statements: both replays rebuild the
   * same catalog for every order of the hash map if and only if the survivors are grouped already.
   */
  lemma SameCatalogExact<Stmt>(log: seq<Record<Stmt>>, c: seq<Stmt>)
    requires Plain(log) && CommittedIds(log) !! RolledBackIds(log) && AllDifferent(Surviving(log))
    ensures (forall order | Order(log, order) ::
               GroupedReplay(Appending(), log, order, c) == Replay(Appending(), log, c))
            <==> AlreadyGrouped(Surviving(log))
  {
    forall order | Order(log, order)
      ensures GroupedReplay(Appending(), log, order, c) == Replay(Appending(), log, c) <==> InLogOrder(log, order)
    {
      SameCatalogFor(log, order, c);
    }
    OpenExact(log);
    if !AlreadyGrouped(Surviving(log)) {
      var order := UngroupedOrder(log);
      assert Order(log, order) && !InLogOrder(log, order);
    }
  }

  lemma SameCatalogFor<Stmt>(log: seq<Record<Stmt>>, order: seq<nat>, c: seq<Stmt>)
    requires Plain(log) && CommittedIds(log) !! RolledBackIds(log) && AllDifferent(Surviving(log)) && Order(log, order)
    ensures GroupedReplay(Appending(), log, order, c) == Replay(Appending(), log, c) <==> InLogOrder(log, order)
  {
    var ids, s := Live(log, order), Surviving(log);
    var g := Grouped(All(log), ids, |ids|);
    ReplaysAgree(Appending(), log, order, c);
    ReplayApplies(Appending(), log, CommittedIds(log), c);
    AppendsAll(g, c);
    AppendsAll(s, c);
    GroupedSurvivors(log, order);
    StatementsTell(s, g);
    assert c + Statements(g) == c + Statements(s) <==> Statements(g) == Statements(s) by {
      SameTail(c, Statements(g), Statements(s));
    }
  }

  lemma SameTail<T>(c: seq<T>, a: seq<T>, b: seq<T>)
    ensures c + a == c + b <==> a == b
  {
    assert (c + a)[|c|..] == a && (c + b)[|c|..] == b;
  }

  lemma GroupedSurvivors<Stmt>(log: seq<Record<Stmt>>, order: seq<nat>)
    requires CommittedIds(log) !! RolledBackIds(log) && Order(log, order)
    ensures var ids := Live(log, order); forall e | e in Grouped(All(log), ids, |ids|) :: e in Surviving(log)
  {
    var ids, keep := Live(log, order), CommittedIds(log) + {0};
    LiveIds(log, order);
    forall i | 0 <= i < |ids| ensures ids[i] in keep {
      assert ids[i] in ids;
    }
    GroupedOnly(All(log), keep, ids, |ids|);
    GroupedFrom(Surviving(log), ids, |ids|);
  }
}

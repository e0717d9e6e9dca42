/**
 * The other replay, `src/storage/recovery.rs`, which `QueryEngine::open` uses: it re-executes the
 * autocommitted statements first and then each committed transaction, in the order a hash map yields them.
 */
module OpenReplay {
  import opened Engine
  import opened Options

  // ---------------------------------------------------------------- statements by transaction

  /** The logged statements with their transaction ids; 0 is autocommit. */
  function All<Stmt>(log: seq<Record<Stmt>>): seq<(nat, Stmt)> {
    if log == [] then []
    else
      var r := log[|log| - 1];
      var before := All(log[..|log| - 1]);
      if r.isCommit || r.isRollback || r.sql.None? then before else before + [(r.txnId, r.sql.value)]
  }

  /** The statements of one transaction, in order. */
  function OfId<Stmt>(s: seq<(nat, Stmt)>, id: nat): seq<(nat, Stmt)> {
    if s == [] then []
    else if s[|s| - 1].0 == id then OfId(s[..|s| - 1], id) + [s[|s| - 1]] else OfId(s[..|s| - 1], id)
  }

  /** The statements of a set of transactions, in log order. */
  function Only<Stmt>(s: seq<(nat, Stmt)>, ids: set<nat>): seq<(nat, Stmt)> {
    if s == [] then []
    else if s[|s| - 1].0 in ids then Only(s[..|s| - 1], ids) + [s[|s| - 1]] else Only(s[..|s| - 1], ids)
  }

  /** The statements of the first `n` transactions of a list, one transaction after another. */
  function Grouped<Stmt>(s: seq<(nat, Stmt)>, ids: seq<nat>, n: nat): seq<(nat, Stmt)>
    requires n <= |ids|
  {
    if n == 0 then [] else Grouped(s, ids, n - 1) + OfId(s, ids[n - 1])
  }

  /** One statement, its failure ignored. */
  function ApplyOne<Catalog, Stmt>(apply: Apply<Catalog, Stmt>, x: Stmt, c: Catalog): Catalog {
    match apply(x, c) case Some(c') => c' case None => c
  }

  function ApplyAll<Catalog, Stmt>(apply: Apply<Catalog, Stmt>, s: seq<(nat, Stmt)>, c: Catalog): Catalog
    decreases |s|
  {
    if s == [] then c else ApplyOne(apply, s[|s| - 1].1, ApplyAll(apply, s[..|s| - 1], c))
  }

  lemma ApplySnoc<Catalog, Stmt>(apply: Apply<Catalog, Stmt>, s: seq<(nat, Stmt)>, e: (nat, Stmt), c: Catalog)
    ensures ApplyAll(apply, s + [e], c) == ApplyOne(apply, e.1, ApplyAll(apply, s, c))
  {
    assert (s + [e])[..|s|] == s;
  }

  lemma {:induction false} ApplyAppend<Catalog, Stmt>(
    apply: Apply<Catalog, Stmt>, s: seq<(nat, Stmt)>, t: seq<(nat, Stmt)>, c: Catalog)
    ensures ApplyAll(apply, s + t, c) == ApplyAll(apply, t, ApplyAll(apply, s, c))
    decreases |t|
  {
    if t == [] {
      assert s + t == s;
    } else {
      var n := |t| - 1;
      assert s + t == s + t[..n] + [t[n]];
      ApplyAppend(apply, s, t[..n], c);
      ApplySnoc(apply, s + t[..n], t[n], c);
    }
  }

  lemma OfIdSnoc<Stmt>(s: seq<(nat, Stmt)>, e: (nat, Stmt), id: nat)
    ensures OfId(s + [e], id) == if e.0 == id then OfId(s, id) + [e] else OfId(s, id)
  {
    assert (s + [e])[..|s|] == s;
  }

  // ---------------------------------------------------------------- the replay loop

  /** Transactions with a rollback marker. */
  function RolledBackIds<Stmt>(log: seq<Record<Stmt>>): set<nat> {
    if log == [] then {}
    else
      var r := log[|log| - 1];
      var ids := RolledBackIds(log[..|log| - 1]);
      if r.isRollback && r.txnId != 0 then ids + {r.txnId} else ids
  }

  predicate IsLive<Stmt>(log: seq<Record<Stmt>>, id: nat) {
    id in CommittedIds(log) && id !in RolledBackIds(log)
  }

  /** Autocommit, then the transactions of the hash map that are committed and not rolled back. */
  function Live<Stmt>(log: seq<Record<Stmt>>, order: seq<nat>): seq<nat> {
    if order == [] then [0]
    else
      var id := order[|order| - 1];
      var before := Live(log, order[..|order| - 1]);
      if IsLive(log, id) then before + [id] else before
  }

  function GroupedReplay<Catalog, Stmt>(
    apply: Apply<Catalog, Stmt>, log: seq<Record<Stmt>>, order: seq<nat>, c: Catalog): Catalog
  {
    var ids := Live(log, order);
    ApplyAll(apply, Grouped(All(log), ids, |ids|), c)
  }

  /** One record of a group: its statement is executed, or it changes nothing. */
  lemma NextRecord<Catalog, Stmt>(
    apply: Apply<Catalog, Stmt>, log: seq<Record<Stmt>>, r: Record<Stmt>, id: nat, c: Catalog)
    ensures var before := ApplyAll(apply, OfId(All(log), id), c);
            ApplyAll(apply, OfId(All(log + [r]), id), c)
            == if Takes(r, id) then ApplyOne(apply, r.sql.value, before) else before
  {
    LogSnoc(log, r);
    if !r.isCommit && !r.isRollback && r.sql.Some? {
      OfIdSnoc(All(log), (r.txnId, r.sql.value), id);
      ApplySnoc(apply, OfId(All(log), id), (r.txnId, r.sql.value), c);
    }
  }

  predicate Takes<Stmt>(r: Record<Stmt>, id: nat) {
    r.txnId == id && !r.isCommit && !r.isRollback && r.sql.Some?
  }

  /** One statement, executed with its error ignored. */
  method ExecuteOne<Catalog, Stmt>(engine: QueryEngine<Catalog, Stmt>, x: Stmt)
    modifies engine
    ensures engine.active.Some? == old(engine.active.Some?) && engine.nextId == old(engine.nextId)
    ensures engine.savepoints == old(engine.savepoints)
    ensures engine.Abstract().Working() == ApplyOne(engine.apply, x, old(engine.Abstract().Working()))
    ensures engine.active.Some? ==> engine.catalog == old(engine.catalog)
  {
    var _ := engine.Execute(Run(x));
  }

  /** The statements of one transaction, re-executed on the engine's working catalog. */
  method ExecuteGroup<Catalog, Stmt>(engine: QueryEngine<Catalog, Stmt>, log: seq<Record<Stmt>>, id: nat)
    modifies engine
    ensures engine.active.Some? == old(engine.active.Some?) && engine.nextId == old(engine.nextId)
    ensures engine.savepoints == old(engine.savepoints)
    ensures engine.Abstract().Working() == ApplyAll(engine.apply, OfId(All(log), id), old(engine.Abstract().Working()))
    ensures engine.active.Some? ==> engine.catalog == old(engine.catalog)
  {
    ghost var start := engine.Abstract().Working();
    for i := 0 to |log|
      invariant engine.active.Some? == old(engine.active.Some?) && engine.nextId == old(engine.nextId)
      invariant engine.savepoints == old(engine.savepoints)
      invariant engine.active.Some? ==> engine.catalog == old(engine.catalog)
      invariant engine.Abstract().Working() == ApplyAll(engine.apply, OfId(All(log[..i]), id), start)
    {
      NextRecord(engine.apply, log[..i], log[i], id, start);
      assert log[..i + 1] == log[..i] + [log[i]];
      if Takes(log[i], id) {
        ExecuteOne(engine, log[i].sql.value);
      }
    }
    assert log[..|log|] == log;
  }

  /** `replay_wal` of the recovery module, for any order of the hash map; each live transaction uses up an id. */
  method ReplayWal<Catalog, Stmt>(engine: QueryEngine<Catalog, Stmt>, log: seq<Record<Stmt>>, order: seq<nat>)
    requires engine.active.None?
    modifies engine
    ensures engine.active.None? && engine.catalog == GroupedReplay(engine.apply, log, order, old(engine.catalog))
    ensures engine.nextId == old(engine.nextId) + |Live(log, order)| - 1
    ensures old(engine.savepoints) == [] ==> engine.savepoints == []
  {
    ghost var c0 := engine.catalog;
    ExecuteGroup(engine, log, 0);
    assert Grouped(All(log), [0], 0) == [] && Grouped(All(log), [0], 1) == [] + OfId(All(log), 0) == OfId(All(log), 0);
    assert order[..0] == [];
    for i := 0 to |order|
      invariant engine.active.None? && engine.catalog == GroupedReplay(engine.apply, log, order[..i], c0)
      invariant engine.nextId == old(engine.nextId) + |Live(log, order[..i])| - 1
      invariant old(engine.savepoints) == [] ==> engine.savepoints == []
    {
      var id := order[i];
      assert order[..i + 1] == order[..i] + [id];
      assert order[..i + 1][..i] == order[..i];
      if IsLive(log, id) {
        NextGroup(engine.apply, log, order[..i], id, c0);
        var _ := engine.Execute(Begin);
        ExecuteGroup(engine, log, id);
        var _ := engine.Execute(Commit);
      }
    }
    assert order[..|order|] == order;
  }

  /** The state of an engine opened on a log. */
  function Opened<Catalog, Stmt>(
    apply: Apply<Catalog, Stmt>, c0: Catalog, log: seq<Record<Stmt>>, order: seq<nat>): State<Catalog, Stmt>
  {
    State(GroupedReplay(apply, log, order, c0), None, |Live(log, order)|, [], log)
  }

  /** `open`: a new engine replays the log, and only then has the log attached. */
  method Open<Catalog, Stmt>(apply: Apply<Catalog, Stmt>, c0: Catalog, log: seq<Record<Stmt>>, order: seq<nat>)
    returns (engine: QueryEngine<Catalog, Stmt>)
    ensures fresh(engine) && engine.apply == apply && engine.Abstract() == Opened(apply, c0, log, order)
  {
    engine := new QueryEngine(apply, c0);
    ReplayWal(engine, log, order);
    engine.wal := log;
  }

  lemma NextGroup<Catalog, Stmt>(
    apply: Apply<Catalog, Stmt>, log: seq<Record<Stmt>>, order: seq<nat>, id: nat, c: Catalog)
    requires IsLive(log, id)
    ensures GroupedReplay(apply, log, order + [id], c)
         == ApplyAll(apply, OfId(All(log), id), GroupedReplay(apply, log, order, c))
  {
    assert (order + [id])[..|order|] == order;
    var ids := Live(log, order);
    assert Live(log, order + [id]) == ids + [id];
    GroupedPrefix(All(log), ids, ids + [id], |ids|);
    ApplyAppend(apply, Grouped(All(log), ids, |ids|), OfId(All(log), id), c);
  }

  lemma {:induction false} GroupedPrefix<Stmt>(s: seq<(nat, Stmt)>, ids: seq<nat>, ids': seq<nat>, n: nat)
    requires n <= |ids| && ids <= ids'
    ensures Grouped(s, ids, n) == Grouped(s, ids', n)
  {
    if n > 0 {
      GroupedPrefix(s, ids, ids', n - 1);
      assert ids[n - 1] == ids'[n - 1];
    }
  }

  // ---------------------------------------------------------------- when grouping changes nothing

  /** The place of a transaction in the list. */
  function Rank(ids: seq<nat>, id: nat): (p: nat)
    ensures id in ids ==> p < |ids| && ids[p] == id
  {
    if ids == [] then 0 else if ids[|ids| - 1] == id then |ids| - 1 else Rank(ids[..|ids| - 1], id)
  }

  ghost predicate Distinct(ids: seq<nat>) {
    forall i, j | 0 <= i < j < |ids| :: ids[i] != ids[j]
  }

  /** No statement precedes one of an earlier group. */
  ghost predicate Ranked<Stmt>(s: seq<(nat, Stmt)>, ids: seq<nat>) {
    forall i, j | 0 <= i < j < |s| :: Rank(ids, s[i].0) <= Rank(ids, s[j].0)
  }

  ghost predicate Covered<Stmt>(s: seq<(nat, Stmt)>, ids: seq<nat>) {
    Distinct(ids) && forall i | 0 <= i < |s| :: s[i].0 in ids
  }

  lemma {:induction false} OfIdElements<Stmt>(s: seq<(nat, Stmt)>, id: nat)
    ensures forall i | 0 <= i < |OfId(s, id)| :: OfId(s, id)[i].0 == id
    ensures (forall i | 0 <= i < |s| :: s[i].0 != id) ==> OfId(s, id) == []
  {
    if s != [] {
      OfIdElements(s[..|s| - 1], id);
      assert forall i | 0 <= i < |s| - 1 :: s[..|s| - 1][i] == s[i];
    }
  }

  lemma {:induction false} GroupedRanked<Stmt>(s: seq<(nat, Stmt)>, ids: seq<nat>, n: nat)
    requires n <= |ids| && Distinct(ids)
    ensures Ranked(Grouped(s, ids, n), ids)
    ensures forall i | 0 <= i < |Grouped(s, ids, n)| :: Rank(ids, Grouped(s, ids, n)[i].0) < n
  {
    if n > 0 {
      GroupedRanked(s, ids, n - 1);
      OfIdElements(s, ids[n - 1]);
      assert ids[n - 1] in ids;
      assert Rank(ids, ids[n - 1]) == n - 1;
    }
  }

  /** There is no statement of a group past the one at `p`. */
  ghost predicate NonePast<Stmt>(s: seq<(nat, Stmt)>, ids: seq<nat>, p: nat) {
    forall m: nat | p < m < |ids| :: OfId(s, ids[m]) == []
  }

  lemma LastIsHighest<Stmt>(s: seq<(nat, Stmt)>, e: (nat, Stmt), ids: seq<nat>)
    requires Covered(s + [e], ids) && Ranked(s + [e], ids)
    ensures e.0 in ids && NonePast(s, ids, Rank(ids, e.0))
  {
    assert (s + [e])[|s|] == e;
    forall m: nat | Rank(ids, e.0) < m < |ids| ensures OfId(s, ids[m]) == [] {
      forall i | 0 <= i < |s| ensures s[i].0 != ids[m] {
        assert (s + [e])[i] == s[i];
        assert Rank(ids, s[i].0) <= Rank(ids, e.0);
      }
      OfIdElements(s, ids[m]);
    }
  }

  function Flatten<T>(groups: seq<seq<T>>, n: nat): seq<T>
    requires n <= |groups|
  {
    if n == 0 then [] else Flatten(groups, n - 1) + groups[n - 1]
  }

  ghost function Groups<Stmt>(s: seq<(nat, Stmt)>, ids: seq<nat>): (g: seq<seq<(nat, Stmt)>>)
    ensures |g| == |ids|
  {
    seq(|ids|, m requires 0 <= m < |ids| => OfId(s, ids[m]))
  }

  lemma {:induction false} GroupedFlatten<Stmt>(s: seq<(nat, Stmt)>, ids: seq<nat>, n: nat)
    requires n <= |ids|
    ensures Grouped(s, ids, n) == Flatten(Groups(s, ids), n)
  {
    if n > 0 {
      GroupedFlatten(s, ids, n - 1);
    }
  }

  lemma {:induction false} FlattenLast<T>(g: seq<seq<T>>, p: nat, e: T, n: nat)
    requires n <= |g| && p < |g| && forall m | p < m < |g| :: g[m] == []
    ensures Flatten(g[p := g[p] + [e]], n) == if p < n then Flatten(g, n) + [e] else Flatten(g, n)
  {
    if n > 0 {
      FlattenLast(g, p, e, n - 1);
      var before := Flatten(g, n - 1);
      assert before + (g[n - 1] + [e]) == before + g[n - 1] + [e];
    }
  }

  /** A statement of the highest group so far joins the end of the grouping. */
  lemma GroupedSnoc<Stmt>(s: seq<(nat, Stmt)>, e: (nat, Stmt), ids: seq<nat>, p: nat)
    requires Distinct(ids) && p < |ids| && ids[p] == e.0 && NonePast(s, ids, p)
    ensures Grouped(s + [e], ids, |ids|) == Grouped(s, ids, |ids|) + [e]
  {
    var g, h := Groups(s, ids), Groups(s + [e], ids);
    forall m | 0 <= m < |ids| ensures h[m] == g[p := g[p] + [e]][m] {
      OfIdSnoc(s, e, ids[m]);
    }
    assert h == g[p := g[p] + [e]];
    FlattenLast(g, p, e, |ids|);
    GroupedFlatten(s, ids, |ids|);
    GroupedFlatten(s + [e], ids, |ids|);
  }

  lemma {:induction false} RankedIsGrouped<Stmt>(s: seq<(nat, Stmt)>, ids: seq<nat>)
    requires Covered(s, ids) && Ranked(s, ids)
    ensures Grouped(s, ids, |ids|) == s
  {
    if s == [] {
      GroupedEmpty<Stmt>(ids, |ids|);
    } else {
      var n := |s| - 1;
      assert s == s[..n] + [s[n]];
      assert forall i | 0 <= i < n :: s[..n][i] == s[i];
      RankedIsGrouped(s[..n], ids);
      LastIsHighest(s[..n], s[n], ids);
      GroupedSnoc(s[..n], s[n], ids, Rank(ids, s[n].0));
    }
  }

  lemma {:induction false} GroupedEmpty<Stmt>(ids: seq<nat>, n: nat)
    requires n <= |ids|
    ensures Grouped<Stmt>([], ids, n) == []
  {
    if n > 0 {
      GroupedEmpty<Stmt>(ids, n - 1);
    }
  }

  /** Grouping leaves the statements in log order exactly when no statement precedes an earlier group's. */
  lemma GroupedExact<Stmt>(s: seq<(nat, Stmt)>, ids: seq<nat>)
    requires Covered(s, ids)
    ensures Grouped(s, ids, |ids|) == s <==> Ranked(s, ids)
  {
    GroupedRanked(s, ids, |ids|);
    if Ranked(s, ids) {
      RankedIsGrouped(s, ids);
    }
  }

  // ---------------------------------------------------------------- recovery through `open`

  /** Markers carry no statement. */
  ghost predicate Plain<Stmt>(log: seq<Record<Stmt>>) {
    forall r | r in log :: r.isCommit || r.isRollback ==> r.sql.None?
  }

  lemma OnlySnoc<Stmt>(s: seq<(nat, Stmt)>, e: (nat, Stmt), ids: set<nat>)
    ensures Only(s + [e], ids) == if e.0 in ids then Only(s, ids) + [e] else Only(s, ids)
  {
    assert (s + [e])[..|s|] == s;
  }

  /** The replay in log order applies the surviving statements in log order. */
  lemma {:induction false} ReplayApplies<Catalog, Stmt>(
    apply: Apply<Catalog, Stmt>, log: seq<Record<Stmt>>, ids: set<nat>, c: Catalog)
    requires Plain(log)
    ensures ReplayWith(apply, log, ids, c) == ApplyAll(apply, Only(All(log), ids + {0}), c)
    decreases |log|
  {
    if log != [] {
      var init, r := log[..|log| - 1], log[|log| - 1];
      ReplayApplies(apply, init, ids, c);
      assert r in log;
      if !r.isCommit && !r.isRollback && r.sql.Some? {
        var e := (r.txnId, r.sql.value);
        OnlySnoc(All(init), e, ids + {0});
        if e.0 in ids + {0} {
          ApplySnoc(apply, Only(All(init), ids + {0}), e, c);
        }
      }
    }
  }

  lemma {:induction false} OfIdOnly<Stmt>(s: seq<(nat, Stmt)>, ids: set<nat>, id: nat)
    requires id in ids
    ensures OfId(Only(s, ids), id) == OfId(s, id)
  {
    if s != [] {
      var init, e := s[..|s| - 1], s[|s| - 1];
      OfIdOnly(init, ids, id);
      if e.0 in ids {
        OfIdSnoc(Only(init, ids), e, id);
      }
    }
  }

  lemma {:induction false} GroupedOnly<Stmt>(s: seq<(nat, Stmt)>, keep: set<nat>, ids: seq<nat>, n: nat)
    requires n <= |ids| && forall i | 0 <= i < |ids| :: ids[i] in keep
    ensures Grouped(Only(s, keep), ids, n) == Grouped(s, ids, n)
  {
    if n > 0 {
      GroupedOnly(s, keep, ids, n - 1);
      OfIdOnly(s, keep, ids[n - 1]);
    }
  }

  /** The keys of the hash map, each once. */
  ghost predicate Order<Stmt>(log: seq<Record<Stmt>>, order: seq<nat>) {
    Distinct(order) && 0 !in order && CommittedIds(log) <= set id | id in order
  }

  lemma {:induction false} LiveIds<Stmt>(log: seq<Record<Stmt>>, order: seq<nat>)
    requires Distinct(order) && 0 !in order
    ensures Distinct(Live(log, order))
    ensures forall id: nat :: id in Live(log, order) <==> id == 0 || (id in order && IsLive(log, id))
  {
    if order != [] {
      var init, id := order[..|order| - 1], order[|order| - 1];
      assert order == init + [id];
      LiveIds(log, init);
      assert id !in init;
    }
  }

  lemma {:induction false} OnlyIds<Stmt>(s: seq<(nat, Stmt)>, ids: set<nat>)
    ensures forall i | 0 <= i < |Only(s, ids)| :: Only(s, ids)[i].0 in ids
  {
    if s != [] {
      OnlyIds(s[..|s| - 1], ids);
    }
  }

  lemma {:induction false} NoCommitOfZero<Stmt>(log: seq<Record<Stmt>>)
    ensures 0 !in CommittedIds(log)
  {
    if log != [] {
      NoCommitOfZero(log[..|log| - 1]);
    }
  }

  /** The statements recovery should apply, in log order. */
  function Surviving<Stmt>(log: seq<Record<Stmt>>): seq<(nat, Stmt)> { Only(All(log), CommittedIds(log) + {0}) }

  /**
   * Where no committed id is also rolled back, the two replays apply the same statements, and in the same
   * order exactly when the surviving statements are already ranked; then they rebuild the same catalog.
   */
  lemma ReplaysAgree<Catalog, Stmt>(apply: Apply<Catalog, Stmt>, log: seq<Record<Stmt>>, order: seq<nat>, c: Catalog)
    requires Plain(log) && Order(log, order) && CommittedIds(log) !! RolledBackIds(log)
    ensures var ids := Live(log, order);
            && (Grouped(All(log), ids, |ids|) == Surviving(log) <==> Ranked(Surviving(log), ids))
            && (Ranked(Surviving(log), ids) ==> GroupedReplay(apply, log, order, c) == Replay(apply, log, c))
  {
    var ids, keep := Live(log, order), CommittedIds(log) + {0};
    LiveIds(log, order);
    assert forall i | 0 <= i < |ids| :: ids[i] in keep by {
      forall i | 0 <= i < |ids| ensures ids[i] in keep { assert ids[i] in ids; }
    }
    GroupedOnly(All(log), keep, ids, |ids|);
    OnlyIds(All(log), keep);
    GroupedExact(Surviving(log), ids);
    ReplayApplies(apply, log, CommittedIds(log), c);
  }

  /** The catalog that is the list of its statements. */
  function Appending<Stmt>(): Apply<seq<Stmt>, Stmt> { (x, c) => Some(c + [x]) }

  function Statements<Stmt>(s: seq<(nat, Stmt)>): (r: seq<Stmt>)
    ensures |r| == |s| && forall i | 0 <= i < |s| :: r[i] == s[i].1
  {
    seq(|s|, i requires 0 <= i < |s| => s[i].1)
  }

  lemma {:induction false} AppendsAll<Stmt>(s: seq<(nat, Stmt)>, c: seq<Stmt>)
    ensures ApplyAll(Appending(), s, c) == c + Statements(s)
    decreases |s|
  {
    if s != [] {
      var n := |s| - 1;
      AppendsAll(s[..n], c);
      assert Statements(s) == Statements(s[..n]) + [s[n].1];
    } else {
      assert c + Statements(s) == c;
    }
  }

  /** One more transaction kept adds its own statements. */
  lemma {:induction false} OnlyMore<Stmt>(s: seq<(nat, Stmt)>, ids: set<nat>, id: nat)
    requires id !in ids
    ensures |Only(s, ids + {id})| == |Only(s, ids)| + |OfId(s, id)|
    ensures OfId(s, id) == [] ==> Only(s, ids + {id}) == Only(s, ids)
  {
    if s != [] {
      OnlyMore(s[..|s| - 1], ids, id);
    }
  }

  // ---------------------------------------------------------------- sessions

  /** Transactions with a commit or a rollback marker. */
  function EndedIds<Stmt>(log: seq<Record<Stmt>>): set<nat> { CommittedIds(log) + RolledBackIds(log) }

  /** What every session log has: plain markers, ids already handed out, and no transaction ended twice. */
  ghost predicate EndedOnce<Stmt>(log: seq<Record<Stmt>>, nextId: nat) {
    && Plain(log) && CommittedIds(log) !! RolledBackIds(log)
    && forall id | id in EndedIds(log) :: id < nextId
  }

  ghost predicate Ended<Catalog, Stmt>(s: State<Catalog, Stmt>) {
    && s.nextId >= 1 && EndedOnce(s.wal, s.nextId)
    && (s.active.Some? ==> s.active.value.id < s.nextId && s.active.value.id !in EndedIds(s.wal))
  }

  lemma EndedRecord<Stmt>(log: seq<Record<Stmt>>, r: Record<Stmt>, nextId: nat)
    requires EndedOnce(log, nextId) && r.txnId < nextId
    requires r.isCommit || r.isRollback ==> r.sql.None? && r.txnId !in EndedIds(log) && !(r.isCommit && r.isRollback)
    ensures EndedOnce(log + [r], nextId)
    ensures EndedIds(log + [r]) <= if r.isCommit || r.isRollback then EndedIds(log) + {r.txnId} else EndedIds(log)
  {
    LogSnoc(log, r);
    forall id | id in EndedIds(log + [r]) ensures id < nextId {
      assert id in EndedIds(log) || id == r.txnId;
    }
  }

  lemma EndedStep<Catalog, Stmt>(apply: Apply<Catalog, Stmt>, s: State<Catalog, Stmt>, cmd: Command<Stmt>)
    requires Ended(s)
    ensures Ended(Step(apply, s, cmd))
  {
    var s' := Step(apply, s, cmd);
    if s'.wal != s.wal {
      EndedRecord(s.wal, s'.wal[|s.wal|], s'.nextId);
    }
  }

  lemma {:induction false} SessionEnded<Catalog, Stmt>(
    apply: Apply<Catalog, Stmt>, s: State<Catalog, Stmt>, cmds: seq<Command<Stmt>>)
    requires Ended(s)
    ensures Ended(RunAll(apply, s, cmds))
    decreases |cmds|
  {
    if cmds != [] {
      SessionEnded(apply, s, cmds[..|cmds| - 1]);
      EndedStep(apply, RunAll(apply, s, cmds[..|cmds| - 1]), cmds[|cmds| - 1]);
    }
  }

  /**
   * A reordering: after a committed transaction running `x` and an autocommitted `y`, opening the
   * engine applies `y` first, and is right exactly when the order of the two makes no difference.
   */
  lemma OpenReorders<Catalog, Stmt>(apply: Apply<Catalog, Stmt>, c0: Catalog, x: Stmt, y: Stmt)
    requires apply(x, c0).Some? && apply(y, apply(x, c0).value).Some?
    ensures var s := RunAll(apply, Fresh(c0), [Begin] + [Run(x)] + [Commit] + [Run(y)]);
            && Order(s.wal, [1])
            && s.catalog == ApplyOne(apply, y, ApplyOne(apply, x, c0))
            && GroupedReplay(apply, s.wal, [1], c0) == ApplyOne(apply, x, ApplyOne(apply, y, c0))
  {
    var s: State<Catalog, Stmt> := Fresh(c0);
    RunSnoc(apply, s, [], Begin);
    RunSnoc(apply, s, [Begin], Run(x));
    RunSnoc(apply, s, [Begin] + [Run(x)], Commit);
    RunSnoc(apply, s, [Begin] + [Run(x)] + [Commit], Run(y));
    GroupedPair(apply, c0, x, y);
  }

  /** The log of that run, and its replay. */
  function PairLog<Stmt>(x: Stmt, y: Stmt): seq<Record<Stmt>> {
    [] + [Record(1, None, false, false)] + [Record(1, Some(x), false, false)]
       + [Record(1, None, true, false)] + [Record(0, Some(y), false, false)]
  }

  lemma PairStatements<Stmt>(x: Stmt, y: Stmt)
    ensures All(PairLog(x, y)) == [] + [(1, x)] + [(0, y)]
    ensures CommittedIds(PairLog(x, y)) == {1} && RolledBackIds(PairLog(x, y)) == {}
  {
    var log: seq<Record<Stmt>> := [];
    var a, b, c := Record(1, None, false, false), Record(1, Some(x), false, false), Record(1, None, true, false);
    LogSnoc(log, a);
    LogSnoc(log + [a], b);
    LogSnoc(log + [a] + [b], c);
    LogSnoc(log + [a] + [b] + [c], Record(0, Some(y), false, false));
  }

  lemma GroupedPair<Catalog, Stmt>(apply: Apply<Catalog, Stmt>, c0: Catalog, x: Stmt, y: Stmt)
    ensures Order(PairLog(x, y), [1])
    ensures GroupedReplay(apply, PairLog(x, y), [1], c0) == ApplyOne(apply, x, ApplyOne(apply, y, c0))
  {
    var log := PairLog(x, y);
    PairStatements(x, y);
    assert ([] + [1])[..0] == [] && Live(log, []) == [0] && Live(log, [] + [1]) == [0] + [1];
    var two := [0] + [1];
    PairGroups(x, y);
    assert Grouped(All(log), two, 1) == Grouped(All(log), two, 0) + OfId(All(log), 0);
    assert Grouped(All(log), two, 2) == [] + [(0, y)] + [(1, x)];
    ApplySnoc(apply, [], (0, y), c0);
    ApplySnoc(apply, [] + [(0, y)], (1, x), c0);
  }

  lemma PairGroups<Stmt>(x: Stmt, y: Stmt)
    ensures OfId([] + [(1, x)] + [(0, y)], 0) == [(0, y)]
    ensures OfId([] + [(1, x)] + [(0, y)], 1) == [(1, x)]
  {
    OfIdSnoc([], (1, x), 0);
    OfIdSnoc([] + [(1, x)], (0, y), 0);
    OfIdSnoc([], (1, x), 1);
    OfIdSnoc([] + [(1, x)], (0, y), 1);
  }

  lemma LogSnoc<Stmt>(log: seq<Record<Stmt>>, r: Record<Stmt>)
    ensures All(log + [r])
         == if r.isCommit || r.isRollback || r.sql.None? then All(log) else All(log) + [(r.txnId, r.sql.value)]
    ensures CommittedIds(log + [r])
         == if r.isCommit && r.txnId != 0 then CommittedIds(log) + {r.txnId} else CommittedIds(log)
    ensures RolledBackIds(log + [r])
         == if r.isRollback && r.txnId != 0 then RolledBackIds(log) + {r.txnId} else RolledBackIds(log)
  {
    assert (log + [r])[..|log|] == log;
  }
}

/**
 * The slot arrays of `FlatHashTable` (`src/exec/flat_hash_table.rs`): Robin Hood linear probing with a
 * probe distance that saturates at 255, for an arbitrary hash function.
 */
module RobinHood {
  import opened Machine

  type Hash = u64 -> nat

  const MAX_DIST: nat := 255

  datatype Slots = Slots(keys: seq<u64>, occupied: seq<bool>, dist: seq<nat>)

  function Saturate(d: nat): nat { if d < MAX_DIST then d else MAX_DIST }

  /** The slot a key hashes to; the capacity is a power of two, so this is `hash & mask`. */
  function Home(hash: Hash, key: u64, cap: nat): (h: nat)
    requires cap > 0
    ensures h < cap
  {
    hash(key) % cap
  }

  function After(cap: nat, idx: nat): nat {
    if idx + 1 == cap then 0 else idx + 1
  }

  /** How many steps a probe that starts at `from` takes to reach `to`. */
  function Steps(cap: nat, from: nat, to: nat): (d: nat)
    requires from < cap && to < cap
    ensures d < cap
  {
    if from <= to then to - from else to + cap - from
  }

  ghost predicate Shape(t: Slots) {
    |t.keys| > 0 && |t.occupied| == |t.dist| == |t.keys|
  }

  ghost predicate HasFree(occupied: seq<bool>) {
    exists e | 0 <= e < |occupied| :: !occupied[e]
  }

  ghost function SomeFree(occupied: seq<bool>): (e: nat)
    requires HasFree(occupied)
    ensures e < |occupied| && !occupied[e]
  {
    var e :| 0 <= e < |occupied| && !occupied[e];
    e
  }

  /** The loop of `insert`: the final slots and the slot it returns. */
  function Probe(t: Slots, idx: nat, dist: nat, key: u64): (Slots, nat)
    requires Shape(t) && HasFree(t.occupied) && idx < |t.keys|
    decreases Steps(|t.keys|, idx, SomeFree(t.occupied))
  {
    var next := After(|t.keys|, idx);
    if !t.occupied[idx] then
      (Slots(t.keys[idx := key], t.occupied[idx := true], t.dist[idx := dist]), idx)
    else if t.keys[idx] == key then
      (t, idx)
    else if t.dist[idx] < dist then
      Probe(Slots(t.keys[idx := key], t.occupied, t.dist[idx := dist]), next, Saturate(t.dist[idx] + 1), t.keys[idx])
    else
      Probe(t, next, Saturate(dist + 1), key)
  }

  function Place(hash: Hash, t: Slots, key: u64): (Slots, nat)
    requires Shape(t) && HasFree(t.occupied)
  {
    Probe(t, Home(hash, key, |t.keys|), 0, key)
  }

  // ---------------------------------------------------------------- the invariant

  /** Every slot a probe for `key` passes before `idx` is taken, with a stored distance no smaller than the probe's. */
  ghost predicate PathTaken(hash: Hash, t: Slots, key: u64, idx: nat)
    requires Shape(t) && idx < |t.keys|
  {
    var home := Home(hash, key, |t.keys|);
    forall q | 0 <= q < |t.keys| && Steps(|t.keys|, home, q) < Steps(|t.keys|, home, idx) ::
      t.occupied[q] && t.dist[q] >= Saturate(Steps(|t.keys|, home, q))
  }

  /** Stored distances are the saturated true distances, and every resident key's path is taken. */
  ghost predicate Valid(hash: Hash, t: Slots) {
    && Shape(t)
    && (forall s {:trigger SlotOk(hash, t, s)} | 0 <= s < |t.keys| && t.occupied[s] :: SlotOk(hash, t, s))
    && Unique(t)
  }

  ghost predicate SlotOk(hash: Hash, t: Slots, s: nat)
    requires Shape(t) && s < |t.keys|
  {
    && t.dist[s] == Saturate(Steps(|t.keys|, Home(hash, t.keys[s], |t.keys|), s))
    && PathTaken(hash, t, t.keys[s], s)
  }

  ghost predicate Unique(t: Slots)
    requires Shape(t)
  {
    forall s, q | 0 <= s < q < |t.keys| && t.occupied[s] && t.occupied[q] :: t.keys[s] != t.keys[q]
  }

  ghost predicate At(t: Slots, key: u64, s: nat)
    requires Shape(t)
  {
    s < |t.keys| && t.occupied[s] && t.keys[s] == key
  }

  ghost predicate Resident(t: Slots, key: u64)
    requires Shape(t)
  {
    exists s: nat :: At(t, key, s)
  }

  /** The probe carries `key` to slot `idx` with the right distance, over a taken path. */
  ghost predicate Carrying(hash: Hash, t: Slots, idx: nat, dist: nat, key: u64)
    requires Shape(t)
  {
    && idx < |t.keys|
    && dist == Saturate(Steps(|t.keys|, Home(hash, key, |t.keys|), idx))
    && PathTaken(hash, t, key, idx)
  }

  /** A free slot lies ahead of the probe, so the next slot is one step further from home. */
  lemma NotRound(hash: Hash, t: Slots, idx: nat, key: u64)
    requires Shape(t) && HasFree(t.occupied) && idx < |t.keys| && t.occupied[idx] && PathTaken(hash, t, key, idx)
    ensures var home := Home(hash, key, |t.keys|);
            Steps(|t.keys|, home, After(|t.keys|, idx)) == Steps(|t.keys|, home, idx) + 1
  {
    var e := SomeFree(t.occupied);
    assert Steps(|t.keys|, Home(hash, key, |t.keys|), e) > Steps(|t.keys|, Home(hash, key, |t.keys|), idx);
  }

  /** Each step brings the probe closer to the free slot. */
  lemma Closer(t: Slots, idx: nat)
    requires Shape(t) && HasFree(t.occupied) && idx < |t.keys| && t.occupied[idx]
    ensures Steps(|t.keys|, After(|t.keys|, idx), SomeFree(t.occupied))
            == Steps(|t.keys|, idx, SomeFree(t.occupied)) - 1
  {
  }

  /** Passing an occupied slot keeps the path taken, because a free slot stops the probe going round. */
  lemma Advance(hash: Hash, t: Slots, idx: nat, dist: nat, key: u64)
    requires Shape(t) && HasFree(t.occupied) && Carrying(hash, t, idx, dist, key)
    requires t.occupied[idx] && t.dist[idx] >= dist
    ensures Carrying(hash, t, After(|t.keys|, idx), Saturate(dist + 1), key)
  {
    var cap := |t.keys|;
    var home := Home(hash, key, cap);
    var d := Steps(cap, home, idx);
    NotRound(hash, t, idx, key);
    forall q | 0 <= q < cap && Steps(cap, home, q) < d + 1
      ensures t.occupied[q] && t.dist[q] >= Saturate(Steps(cap, home, q))
    {
      assert Steps(cap, home, q) == d ==> q == idx;
    }
  }

  /** A key that is resident is reached without any displacement. */
  lemma ResidentAhead(hash: Hash, t: Slots, idx: nat, dist: nat, key: u64, s: nat)
    requires Valid(hash, t) && Carrying(hash, t, idx, dist, key) && At(t, key, s) && s != idx
    requires Steps(|t.keys|, Home(hash, key, |t.keys|), idx) <= Steps(|t.keys|, Home(hash, key, |t.keys|), s)
    ensures t.occupied[idx] && t.dist[idx] >= dist
    ensures t.keys[idx] != key
  {
    assert SlotOk(hash, t, s);
  }

  /** Taking the slot of a richer key keeps the table valid and hands that key on. */
  lemma Displace(hash: Hash, t: Slots, idx: nat, dist: nat, key: u64)
    requires Valid(hash, t) && HasFree(t.occupied) && Carrying(hash, t, idx, dist, key)
    requires t.occupied[idx] && t.dist[idx] < dist && !Resident(t, key)
    ensures var t' := Slots(t.keys[idx := key], t.occupied, t.dist[idx := dist]);
            && Valid(hash, t')
            && !Resident(t', t.keys[idx])
            && Carrying(hash, t', After(|t.keys|, idx), Saturate(t.dist[idx] + 1), t.keys[idx])
  {
    var t' := Slots(t.keys[idx := key], t.occupied, t.dist[idx := dist]);
    var cap := |t.keys|;
    var pushed := t.keys[idx];
    assert forall s | 0 <= s < cap && t.occupied[s] :: At(t, t.keys[s], s);
    forall s | 0 <= s < cap && t'.occupied[s]
      ensures SlotOk(hash, t', s)
    {
      assert s != idx ==> SlotOk(hash, t, s);
    }
    assert SlotOk(hash, t, idx);
    assert PathTaken(hash, t', pushed, idx);
    AdvanceStrict(hash, t', idx, t.dist[idx], pushed);
  }

  /** The same step for the key that has just been pushed out: the slot now stores a larger distance. */
  lemma AdvanceStrict(hash: Hash, t: Slots, idx: nat, dist: nat, key: u64)
    requires Shape(t) && HasFree(t.occupied) && idx < |t.keys| && t.occupied[idx]
    requires dist == Saturate(Steps(|t.keys|, Home(hash, key, |t.keys|), idx))
    requires PathTaken(hash, t, key, idx) && t.dist[idx] > dist
    ensures Carrying(hash, t, After(|t.keys|, idx), Saturate(dist + 1), key)
  {
    Advance(hash, t, idx, dist, key);
  }

  /** What a probe for a key that is not in the table achieves. */
  ghost predicate Added(hash: Hash, t: Slots, t': Slots, r: nat, key: u64)
    requires Shape(t) && Shape(t')
  {
    && Valid(hash, t') && |t'.keys| == |t.keys|
    && r < |t.keys| && !t.occupied[r] && t'.occupied == t.occupied[r := true]
    && (forall k: u64 :: Resident(t', k) <==> Resident(t, k) || k == key)
  }

  lemma Fill(hash: Hash, t: Slots, idx: nat, dist: nat, key: u64)
    requires Valid(hash, t) && Carrying(hash, t, idx, dist, key)
    requires !t.occupied[idx] && !Resident(t, key)
    ensures var t' := Slots(t.keys[idx := key], t.occupied[idx := true], t.dist[idx := dist]);
            Added(hash, t, t', idx, key)
  {
    var t' := Slots(t.keys[idx := key], t.occupied[idx := true], t.dist[idx := dist]);
    var cap := |t.keys|;
    forall s | 0 <= s < cap && t'.occupied[s]
      ensures SlotOk(hash, t', s)
    {
      assert s != idx ==> SlotOk(hash, t, s);
    }
    assert forall s | 0 <= s < cap && t.occupied[s] :: At(t, t.keys[s], s);
    forall k: u64 ensures Resident(t', k) <==> Resident(t, k) || k == key {
      if Resident(t, k) {
        var s: nat :| At(t, k, s);
        assert At(t', k, s);
      }
      if k == key {
        assert At(t', k, idx);
      }
      if Resident(t', k) && k != key {
        var s: nat :| At(t', k, s);
        assert At(t, k, s);
      }
    }
  }

  /** A probe under way for a key that is not in the table. */
  ghost predicate Probing(hash: Hash, t: Slots, idx: nat, dist: nat, key: u64) {
    Valid(hash, t) && HasFree(t.occupied) && Carrying(hash, t, idx, dist, key) && !Resident(t, key)
  }

  /** One turn of the loop over an occupied slot. */
  function Turn(t: Slots, idx: nat, dist: nat, key: u64): (Slots, nat, nat, u64)
    requires Shape(t) && idx < |t.keys|
  {
    if t.dist[idx] < dist then
      (Slots(t.keys[idx := key], t.occupied, t.dist[idx := dist]), After(|t.keys|, idx),
       Saturate(t.dist[idx] + 1), t.keys[idx])
    else (t, After(|t.keys|, idx), Saturate(dist + 1), key)
  }

  lemma TurnKeepsProbing(hash: Hash, t: Slots, idx: nat, dist: nat, key: u64)
    requires Probing(hash, t, idx, dist, key) && t.occupied[idx]
    ensures var (u, i, d, k) := Turn(t, idx, dist, key);
            Probing(hash, u, i, d, k) && Probe(t, idx, dist, key) == Probe(u, i, d, k)
    ensures var (u, i, d, k) := Turn(t, idx, dist, key);
            Steps(|u.keys|, i, SomeFree(u.occupied)) < Steps(|t.keys|, idx, SomeFree(t.occupied))
  {
    Closer(t, idx);
    assert At(t, t.keys[idx], idx);
    if t.dist[idx] < dist {
      Displace(hash, t, idx, dist, key);
    } else {
      Advance(hash, t, idx, dist, key);
    }
  }

  lemma TurnAdds(hash: Hash, t: Slots, idx: nat, dist: nat, key: u64, t': Slots, r: nat)
    requires Probing(hash, t, idx, dist, key) && t.occupied[idx] && Shape(t')
    requires var (u, i, d, k) := Turn(t, idx, dist, key); Added(hash, u, t', r, k)
    ensures Added(hash, t, t', r, key)
  {
    if t.dist[idx] < dist {
      var (u, _, _, _) := Turn(t, idx, dist, key);
      AddedThrough(hash, t, u, t', r, idx, key);
    }
  }

  lemma {:induction false} ProbeAdds(hash: Hash, t: Slots, idx: nat, dist: nat, key: u64) returns (t': Slots, r: nat)
    requires Probing(hash, t, idx, dist, key)
    ensures (t', r) == Probe(t, idx, dist, key)
    ensures Shape(t') && Added(hash, t, t', r, key)
    decreases Steps(|t.keys|, idx, SomeFree(t.occupied))
  {
    if t.occupied[idx] {
      var (u, i, d, k) := Turn(t, idx, dist, key);
      TurnKeepsProbing(hash, t, idx, dist, key);
      t', r := ProbeAdds(hash, u, i, d, k);
      TurnAdds(hash, t, idx, dist, key, t', r);
    } else {
      Fill(hash, t, idx, dist, key);
      t', r := Slots(t.keys[idx := key], t.occupied[idx := true], t.dist[idx := dist]), idx;
    }
  }

  /** Adding the pushed-out key after the swap adds the new key overall. */
  lemma AddedThrough(hash: Hash, t: Slots, u: Slots, t': Slots, r: nat, idx: nat, key: u64)
    requires Valid(hash, t) && Shape(u) && Shape(t') && idx < |t.keys| && t.occupied[idx]
    requires u.keys == t.keys[idx := key] && u.occupied == t.occupied
    requires Added(hash, u, t', r, t.keys[idx])
    ensures Added(hash, t, t', r, key)
  {
    SwapResidents(t, u, idx, key);
  }

  lemma SwapResidents(t: Slots, u: Slots, idx: nat, key: u64)
    requires Shape(t) && Shape(u) && idx < |t.keys| && t.occupied[idx]
    requires u.keys == t.keys[idx := key] && u.occupied == t.occupied
    requires Unique(t)
    ensures forall k: u64 :: Resident(u, k) || k == t.keys[idx] <==> Resident(t, k) || k == key
  {
    forall k: u64 ensures Resident(u, k) || k == t.keys[idx] <==> Resident(t, k) || k == key {
      if Resident(t, k) {
        var s: nat :| At(t, k, s);
        assert s != idx ==> At(u, k, s);
      }
      if Resident(u, k) {
        var s: nat :| At(u, k, s);
        assert s != idx ==> At(t, k, s);
      }
      assert At(u, key, idx) && At(t, t.keys[idx], idx);
    }
  }

  lemma {:induction false} ProbeFinds(hash: Hash, t: Slots, idx: nat, dist: nat, key: u64, s: nat)
    requires Valid(hash, t) && HasFree(t.occupied) && Carrying(hash, t, idx, dist, key) && At(t, key, s)
    requires Steps(|t.keys|, Home(hash, key, |t.keys|), idx) <= Steps(|t.keys|, Home(hash, key, |t.keys|), s)
    ensures Probe(t, idx, dist, key) == (t, s)
    decreases Steps(|t.keys|, idx, SomeFree(t.occupied))
  {
    if idx != s {
      ResidentAhead(hash, t, idx, dist, key, s);
      Closer(t, idx);
      NotRound(hash, t, idx, key);
      Advance(hash, t, idx, dist, key);
      ProbeFinds(hash, t, After(|t.keys|, idx), Saturate(dist + 1), key, s);
    }
  }

  lemma StartsCarrying(hash: Hash, t: Slots, key: u64)
    requires Shape(t)
    ensures Carrying(hash, t, Home(hash, key, |t.keys|), 0, key)
  {
  }

  /**
   * `insert` without growth, for every hash function: a key already in the table is found where it is
   * and nothing changes; a new key joins the key set, one free slot becomes taken and is the slot
   * returned, and the Robin Hood invariant is kept.
   */
  lemma PlaceCorrect(hash: Hash, t: Slots, key: u64)
    requires Valid(hash, t) && HasFree(t.occupied)
    ensures var (t', r) := Place(hash, t, key);
            && Shape(t')
            && (Resident(t, key) ==> t' == t && At(t, key, r))
            && (!Resident(t, key) ==> Added(hash, t, t', r, key))
  {
    StartsCarrying(hash, t, key);
    if Resident(t, key) {
      var s: nat :| At(t, key, s);
      ProbeFinds(hash, t, Home(hash, key, |t.keys|), 0, key, s);
    } else {
      var _, _ := ProbeAdds(hash, t, Home(hash, key, |t.keys|), 0, key);
    }
  }

  // ---------------------------------------------------------------- displacement, exactly

  /** The probe for `key` comes to rest at `s` without pushing anything out. */
  ghost predicate Settles(hash: Hash, t: Slots, key: u64, s: nat)
    requires Shape(t)
  {
    && s < |t.keys| && (!t.occupied[s] || t.keys[s] == key)
    && PathTaken(hash, t, key, s)
    && var home := Home(hash, key, |t.keys|);
       forall q | 0 <= q < |t.keys| && Steps(|t.keys|, home, q) < Steps(|t.keys|, home, s) :: t.keys[q] != key
  }

  lemma {:induction false} ProbeSettles(hash: Hash, t: Slots, idx: nat, dist: nat, key: u64, s: nat)
    requires Shape(t) && HasFree(t.occupied) && Carrying(hash, t, idx, dist, key) && Settles(hash, t, key, s)
    requires Steps(|t.keys|, Home(hash, key, |t.keys|), idx) <= Steps(|t.keys|, Home(hash, key, |t.keys|), s)
    ensures var (t', r) := Probe(t, idx, dist, key);
            r == s && t'.keys == t.keys[s := key] && t'.occupied == t.occupied[s := true]
    decreases Steps(|t.keys|, idx, SomeFree(t.occupied))
  {
    if idx == s {
      assert t.keys[s] == key ==> t.keys[s := key] == t.keys;
      assert t.occupied[s] ==> t.occupied[s := true] == t.occupied;
    } else {
      Advance(hash, t, idx, dist, key);
      ProbeSettles(hash, t, After(|t.keys|, idx), Saturate(dist + 1), key, s);
    }
  }

  /** After a displacement the slot returned never holds the key that was asked for. */
  lemma {:induction false} ProbeAfterDisplacement(t: Slots, idx: nat, dist: nat, carried: u64, key: u64, p: nat)
    requires Shape(t) && HasFree(t.occupied) && idx < |t.keys| && At(t, key, p) && carried != key
    requires Steps(|t.keys|, p, SomeFree(t.occupied)) > Steps(|t.keys|, idx, SomeFree(t.occupied))
    requires Unique(t)
    requires !Resident(t, carried)
    ensures var (t', r) := Probe(t, idx, dist, carried);
            r < |t'.keys| && t'.keys[r] != key
    decreases Steps(|t.keys|, idx, SomeFree(t.occupied))
  {
    if t.occupied[idx] {
      Closer(t, idx);
      assert At(t, t.keys[idx], idx);
      assert p != idx;
      assert t.keys[idx] != key;
      if t.dist[idx] < dist {
        var u := Slots(t.keys[idx := carried], t.occupied, t.dist[idx := dist]);
        assert forall s | 0 <= s < |t.keys| && t.occupied[s] :: At(t, t.keys[s], s);
        assert At(u, key, p);
        ProbeAfterDisplacement(u, After(|t.keys|, idx), Saturate(t.dist[idx] + 1), t.keys[idx], key, p);
      } else {
        ProbeAfterDisplacement(t, After(|t.keys|, idx), Saturate(dist + 1), carried, key, p);
      }
    }
  }

  /** A key that is not in the table settles in the first free slot it is carried to. */
  lemma FreeSettles(hash: Hash, t: Slots, idx: nat, dist: nat, key: u64)
    requires Shape(t) && Carrying(hash, t, idx, dist, key) && !Resident(t, key) && !t.occupied[idx]
    ensures Settles(hash, t, key, idx)
  {
    assert forall q: nat | q < |t.keys| && t.occupied[q] :: t.keys[q] == key ==> At(t, key, q);
  }

  /** The turn that displaces: from here on another key is carried, and the slot returned is its. */
  lemma DisplacingTurn(hash: Hash, t: Slots, idx: nat, dist: nat, key: u64)
    requires Probing(hash, t, idx, dist, key) && t.occupied[idx] && t.dist[idx] < dist
    ensures var (t', r) := Probe(t, idx, dist, key);
            r < |t'.keys| && t'.keys[r] != key
  {
    var u := Slots(t.keys[idx := key], t.occupied, t.dist[idx := dist]);
    Closer(t, idx);
    assert At(t, t.keys[idx], idx);
    Displace(hash, t, idx, dist, key);
    assert At(u, key, idx);
    ProbeAfterDisplacement(u, After(|t.keys|, idx), Saturate(t.dist[idx] + 1), t.keys[idx], key, idx);
  }

  /** With no resting place anywhere, the probe has to displace. */
  lemma {:induction false} ProbeDisplaces(hash: Hash, t: Slots, idx: nat, dist: nat, key: u64)
    requires Probing(hash, t, idx, dist, key)
    requires forall s: nat :: !Settles(hash, t, key, s)
    ensures var (t', r) := Probe(t, idx, dist, key);
            r < |t'.keys| && t'.keys[r] != key
    decreases Steps(|t.keys|, idx, SomeFree(t.occupied))
  {
    if !t.occupied[idx] {
      FreeSettles(hash, t, idx, dist, key);
      assert false;
    } else if t.dist[idx] < dist {
      DisplacingTurn(hash, t, idx, dist, key);
    } else {
      var (u, i, d, k) := Turn(t, idx, dist, key);
      TurnKeepsProbing(hash, t, idx, dist, key);
      ProbeDisplaces(hash, u, i, d, k);
    }
  }

  /**
   * The slot `insert` returns holds the inserted key if and only if the probe settles without
   * displacement, which a caller can read off the table beforehand.
   */
  lemma ReturnedSlotExact(hash: Hash, t: Slots, key: u64)
    requires Valid(hash, t) && HasFree(t.occupied)
    ensures var (t', r) := Place(hash, t, key);
            r < |t'.keys| && (t'.keys[r] == key <==> exists s: nat :: Settles(hash, t, key, s))
    ensures forall s: nat | Settles(hash, t, key, s) ::
              var (t', r) := Place(hash, t, key);
              r == s && t'.keys == t.keys[s := key] && t'.occupied == t.occupied[s := true]
  {
    var home := Home(hash, key, |t.keys|);
    StartsCarrying(hash, t, key);
    forall s: nat | Settles(hash, t, key, s)
      ensures var (t', r) := Place(hash, t, key);
              r == s && t'.keys == t.keys[s := key] && t'.occupied == t.occupied[s := true]
    {
      ProbeSettles(hash, t, home, 0, key, s);
    }
    if Resident(t, key) {
      PlaceCorrect(hash, t, key);
      var s: nat :| At(t, key, s);
      forall q | 0 <= q < |t.keys| && Steps(|t.keys|, home, q) < Steps(|t.keys|, home, s) ensures t.keys[q] != key {
        assert SlotOk(hash, t, s);
      }
      assert SlotOk(hash, t, s);
      assert Settles(hash, t, key, s);
    } else if forall s: nat :: !Settles(hash, t, key, s) {
      ProbeDisplaces(hash, t, home, 0, key);
    }
  }

  /** Stored distances are exact up to 255, where the byte saturates. */
  lemma StoredDistance(hash: Hash, t: Slots, s: nat)
    requires Valid(hash, t) && s < |t.keys| && t.occupied[s]
    ensures var d := Steps(|t.keys|, Home(hash, t.keys[s], |t.keys|), s);
            t.dist[s] == if d <= 255 then d else 255
  {
    assert SlotOk(hash, t, s);
  }
}

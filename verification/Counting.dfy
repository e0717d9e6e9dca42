/** Counting the elements of sequences and sets. */
module Counting {

  /** The number of positions of `s` whose element satisfies `p`. */
  function Count<T>(s: seq<T>, p: T -> bool): (k: nat)
    ensures k <= |s|
  {
    if s == [] then 0 else (if p(s[0]) then 1 else 0) + Count(s[1..], p)
  }

  /** The predicate that counts the true flags. */
  function IsTrue(): bool -> bool { b => b }

  lemma {:induction false} CountAppend<T>(s: seq<T>, t: seq<T>, p: T -> bool)
    ensures Count(s + t, p) == Count(s, p) + Count(t, p)
  {
    if s == [] {
      assert s + t == t;
    } else {
      assert (s + t)[1..] == s[1..] + t;
      CountAppend(s[1..], t, p);
    }
  }

  /** Two sequences that agree element by element, each under its own predicate. */
  lemma {:induction false} CountPointwise<S, T>(s: seq<S>, p: S -> bool, t: seq<T>, q: T -> bool)
    requires |s| == |t|
    requires forall i | 0 <= i < |s| :: p(s[i]) == q(t[i])
    ensures Count(s, p) == Count(t, q)
  {
    if s != [] {
      assert p(s[0]) == q(t[0]);
      forall i | 0 <= i < |s[1..]| ensures p(s[1..][i]) == q(t[1..][i]) {
        assert p(s[i + 1]) == q(t[i + 1]);
      }
      CountPointwise(s[1..], p, t[1..], q);
    }
  }

  lemma {:induction false} CountNone<T>(s: seq<T>, p: T -> bool)
    requires forall i | 0 <= i < |s| :: !p(s[i])
    ensures Count(s, p) == 0
  {
    if s != [] {
      CountNone(s[1..], p);
    }
  }

  lemma {:induction false} CountAll<T>(s: seq<T>, p: T -> bool)
    requires forall i | 0 <= i < |s| :: p(s[i])
    ensures Count(s, p) == |s|
  {
    if s != [] {
      CountAll(s[1..], p);
    }
  }

  /** A count is zero exactly when no element satisfies the predicate. */
  lemma {:induction false} CountZero<T>(s: seq<T>, p: T -> bool)
    ensures Count(s, p) == 0 <==> forall i | 0 <= i < |s| :: !p(s[i])
  {
    if s != [] {
      CountZero(s[1..], p);
      if forall i | 0 <= i < |s[1..]| :: !p(s[1..][i]) {
        forall i | 1 <= i < |s| ensures !p(s[i]) {
          assert !p(s[1..][i - 1]);
        }
      } else {
        var i :| 0 <= i < |s[1..]| && p(s[1..][i]);
        assert p(s[i + 1]);
      }
    }
  }

  /** Putting one element into a sequence. */
  lemma CountInsert<T>(front: seq<T>, x: T, back: seq<T>, p: T -> bool)
    ensures Count(front + [x] + back, p) == Count(front + back, p) + if p(x) then 1 else 0
  {
    CountAppend(front + [x], back, p);
    CountAppend(front, [x], p);
    CountAppend(front, back, p);
  }

  /** Reordering does not change a count. */
  lemma {:induction false} CountPermutation<T>(s: seq<T>, t: seq<T>, p: T -> bool)
    requires multiset(s) == multiset(t)
    ensures Count(s, p) == Count(t, p)
  {
    if s == [] {
      assert |multiset(t)| == |t|;
    } else {
      assert s[0] in multiset(t);
      var k :| 0 <= k < |t| && t[k] == s[0];
      var front, back := t[..k], t[k + 1..];
      assert t == front + [s[0]] + back;
      assert s == [s[0]] + s[1..];
      CountInsert(front, s[0], back, p);
      calc {
        multiset(front + back);
        multiset(t) - multiset{s[0]};
        multiset(s) - multiset{s[0]};
        multiset(s[1..]);
      }
      CountPermutation(s[1..], front + back, p);
    }
  }

  /** Splitting a count by a second predicate. */
  lemma {:induction false} CountSplit<T>(s: seq<T>, p: T -> bool, q: T -> bool, r: T -> bool)
    requires forall x | x in s :: p(x) <==> q(x) || r(x)
    requires forall x | x in s :: !(q(x) && r(x))
    ensures Count(s, p) == Count(s, q) + Count(s, r)
  {
    if s != [] {
      assert s[0] in s;
      CountSplit(s[1..], p, q, r);
    }
  }

  /** When the positions satisfying `p` form a prefix, the count is where that prefix ends. */
  lemma {:induction false} CountPrefix<T>(s: seq<T>, p: T -> bool)
    requires forall i, j | 0 <= i < j < |s| :: p(s[j]) ==> p(s[i])
    ensures forall i | 0 <= i < |s| :: p(s[i]) <==> i < Count(s, p)
  {
    if s != [] {
      var t := s[1..];
      forall i, j | 0 <= i < j < |t| ensures p(t[j]) ==> p(t[i]) {
        assert t[j] == s[j + 1] && t[i] == s[i + 1];
      }
      CountPrefix(t, p);
      if p(s[0]) {
        forall i | 0 <= i < |s| ensures p(s[i]) <==> i < Count(s, p) {
          assert i > 0 ==> s[i] == t[i - 1];
        }
      } else {
        var first := s[0];
        assert forall i | 0 < i < |s| :: p(s[i]) ==> p(first);
        CountNone(s, p);
      }
    }
  }

  /** A subset has no more elements. */
  lemma {:induction false} SubsetSize<T>(a: set<T>, b: set<T>)
    requires a <= b
    ensures |a| <= |b|
    decreases a
  {
    if a != {} {
      var x :| x in a;
      SubsetSize(a - {x}, b - {x});
    }
  }
}

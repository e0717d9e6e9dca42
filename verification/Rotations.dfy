/** Cyclic rotations of a text, their order, and how a pattern compares with them. */
module Rotations {
  import opened Counting
  import opened Machine

  /** The byte at position `a`; positions past the end read as 0 and are never reached. */
  function At(text: seq<byte>, a: nat): byte {
    if a < |text| then text[a] else 0
  }

  /** The start of the rotation one byte further on. */
  function Next(text: seq<byte>, a: nat): nat {
    if a + 1 == |text| then 0 else a + 1
  }

  function Prev(text: seq<byte>, a: nat): nat {
    if a == 0 then (if |text| == 0 then 0 else |text| - 1) else a - 1
  }

  /** The rotation starting at `a` begins with `w`, reading round the end of the text. */
  predicate Matches(text: seq<byte>, a: nat, w: seq<byte>)
    decreases |w|
  {
    w == [] || (At(text, a) == w[0] && Matches(text, Next(text, a), w[1..]))
  }

  /** The rotation at `a`, cut to the length of `w`, is lexicographically smaller than `w`. */
  predicate Below(text: seq<byte>, a: nat, w: seq<byte>)
    decreases |w|
  {
    w != [] &&
    (At(text, a) < w[0] || (At(text, a) == w[0] && Below(text, Next(text, a), w[1..])))
  }

  /** The rotation at `a`, cut to the length of `w`, is at most `w`. */
  predicate AtMost(text: seq<byte>, a: nat, w: seq<byte>)
    decreases |w|
  {
    w == [] ||
    (At(text, a) < w[0] || (At(text, a) == w[0] && AtMost(text, Next(text, a), w[1..])))
  }

  lemma {:induction false} AtMostSplits(text: seq<byte>, a: nat, w: seq<byte>)
    ensures AtMost(text, a, w) <==> Below(text, a, w) || Matches(text, a, w)
    ensures !(Below(text, a, w) && Matches(text, a, w))
    decreases |w|
  {
    if w != [] {
      AtMostSplits(text, Next(text, a), w[1..]);
    }
  }

  /** The first `k` bytes of the rotation at `a` are at most those of the rotation at `b`. */
  predicate LexLe(text: seq<byte>, a: nat, b: nat, k: nat)
    decreases k
  {
    k == 0 || At(text, a) < At(text, b) ||
    (At(text, a) == At(text, b) && LexLe(text, Next(text, a), Next(text, b), k - 1))
  }

  /** The order `compute_bwt` sorts by: a whole turn of the text. */
  predicate RotationLe(text: seq<byte>, a: nat, b: nat) {
    LexLe(text, a, b, |text|)
  }

  /** The position `j` bytes after `a`. */
  function Ahead(text: seq<byte>, a: nat, j: nat): (r: nat)
    requires a < |text| && j <= |text|
    ensures r < |text|
    ensures r == (a + j) % |text|
  {
    ModOnce(a + j, |text|);
    if a + j < |text| then a + j else a + j - |text|
  }

  /** One whole turn of the two rotations reads the same bytes. */
  ghost predicate SameTurn(text: seq<byte>, a: nat, b: nat)
    requires a < |text| && b < |text|
  {
    forall j | 0 <= j < |text| :: text[Ahead(text, a, j)] == text[Ahead(text, b, j)]
  }

  lemma SameTurnNext(text: seq<byte>, a: nat, b: nat)
    requires a < |text| && b < |text| && SameTurn(text, a, b)
    ensures text[a] == text[b]
    ensures SameTurn(text, Next(text, a), Next(text, b))
  {
    assert Ahead(text, a, 0) == a && Ahead(text, b, 0) == b;
    forall j | 0 <= j < |text|
      ensures text[Ahead(text, Next(text, a), j)] == text[Ahead(text, Next(text, b), j)]
    {
      var i := if j + 1 == |text| then 0 else j + 1;
      assert Ahead(text, Next(text, a), j) == Ahead(text, a, i);
      assert Ahead(text, Next(text, b), j) == Ahead(text, b, i);
      assert text[Ahead(text, a, i)] == text[Ahead(text, b, i)];
    }
  }

  lemma {:induction false} SameTurnForever(text: seq<byte>, a: nat, b: nat, m: nat)
    requires a < |text| && b < |text| && SameTurn(text, a, b)
    ensures LexLe(text, a, b, m)
    decreases m
  {
    SameTurnNext(text, a, b);
    if m != 0 {
      SameTurnForever(text, Next(text, a), Next(text, b), m - 1);
    }
  }

  /**
   * Turns ordered from position `j` on, with equal bytes before it, are ordered from there on over any
   * number of bytes.
   */
  lemma {:induction false} LexLeCases(text: seq<byte>, a: nat, b: nat, j: nat, m: nat)
    requires a < |text| && b < |text| && j <= |text|
    requires LexLe(text, Ahead(text, a, j), Ahead(text, b, j), |text| - j)
    requires forall i | 0 <= i < j :: text[Ahead(text, a, i)] == text[Ahead(text, b, i)]
    ensures LexLe(text, Ahead(text, a, j), Ahead(text, b, j), m)
    decreases |text| - j
  {
    var a', b' := Ahead(text, a, j), Ahead(text, b, j);
    if j == |text| {
      assert a' == a && b' == b;
      SameTurnForever(text, a, b, m);
    } else if text[a'] == text[b'] && m != 0 {
      assert Next(text, a') == Ahead(text, a, j + 1);
      assert Next(text, b') == Ahead(text, b, j + 1);
      LexLeCases(text, a, b, j + 1, m - 1);
    }
  }

  /** A comparison over one whole turn settles the comparison at every length. */
  lemma TurnSettlesAll(text: seq<byte>, a: nat, b: nat, m: nat)
    requires a < |text| && b < |text| && RotationLe(text, a, b)
    ensures LexLe(text, a, b, m)
  {
    LexLeCases(text, a, b, 0, m);
  }

  lemma {:induction false} LexLeTransitive(text: seq<byte>, a: nat, b: nat, c: nat, k: nat)
    requires LexLe(text, a, b, k) && LexLe(text, b, c, k)
    ensures LexLe(text, a, c, k)
    decreases k
  {
    if k != 0 && At(text, a) == At(text, b) == At(text, c) {
      LexLeTransitive(text, Next(text, a), Next(text, b), Next(text, c), k - 1);
    }
  }

  lemma {:induction false} BelowDownward(text: seq<byte>, a: nat, b: nat, w: seq<byte>)
    requires LexLe(text, a, b, |w|)
    ensures Below(text, b, w) ==> Below(text, a, w)
    ensures AtMost(text, b, w) ==> AtMost(text, a, w)
    decreases |w|
  {
    if w != [] && At(text, a) == At(text, b) {
      BelowDownward(text, Next(text, a), Next(text, b), w[1..]);
    }
  }

  /** Positions 0, 1, ..., n-1. */
  function Positions(n: nat): (s: seq<nat>)
    ensures |s| == n
    ensures forall i | 0 <= i < n :: s[i] == i
  {
    seq(n, i => i)
  }

  /** `sa` lists every rotation once, in sorted order: what the sort in `compute_bwt` yields. */
  ghost predicate SortedRotations(text: seq<byte>, sa: seq<nat>) {
    && multiset(sa) == multiset(Positions(|text|))
    && forall i, j | 0 <= i < j < |sa| :: RotationLe(text, sa[i], sa[j])
  }

  lemma SortedRotationsInRange(text: seq<byte>, sa: seq<nat>)
    requires SortedRotations(text, sa)
    ensures |sa| == |text|
    ensures forall i | 0 <= i < |sa| :: sa[i] < |text|
  {
    assert |sa| == |multiset(sa)| == |multiset(Positions(|text|))| == |text|;
    forall i | 0 <= i < |sa| ensures sa[i] < |text| {
      assert sa[i] in multiset(sa);
      assert sa[i] in Positions(|text|);
    }
  }

  function BelowWord(text: seq<byte>, w: seq<byte>): nat -> bool {
    (a: nat) => Below(text, a, w)
  }

  function AtMostWord(text: seq<byte>, w: seq<byte>): nat -> bool {
    (a: nat) => AtMost(text, a, w)
  }

  function MatchesWord(text: seq<byte>, w: seq<byte>): nat -> bool {
    (a: nat) => Matches(text, a, w)
  }

  /** How many rotations are smaller than `w`: the first row of its block. */
  function Lo(text: seq<byte>, w: seq<byte>): (k: nat)
    ensures k <= |text|
  {
    Count(Positions(|text|), BelowWord(text, w))
  }

  /** How many rotations are at most `w`: one past the last row of its block. */
  function Hi(text: seq<byte>, w: seq<byte>): (k: nat)
    ensures k <= |text|
  {
    Count(Positions(|text|), AtMostWord(text, w))
  }

  /** The number of rotations that begin with `w`: its occurrences in the cyclic text. */
  function Occurrences(text: seq<byte>, w: seq<byte>): nat {
    Count(Positions(|text|), MatchesWord(text, w))
  }

  lemma BlockSize(text: seq<byte>, w: seq<byte>)
    ensures Hi(text, w) == Lo(text, w) + Occurrences(text, w)
  {
    forall a: nat
      ensures AtMostWord(text, w)(a) <==> BelowWord(text, w)(a) || MatchesWord(text, w)(a)
      ensures !(BelowWord(text, w)(a) && MatchesWord(text, w)(a))
    {
      AtMostSplits(text, a, w);
    }
    CountSplit(Positions(|text|), AtMostWord(text, w), BelowWord(text, w), MatchesWord(text, w));
  }

  /** The rows of the sorted rotations below `w` are the first `Lo`, those at most `w` the first `Hi`. */
  lemma Boundaries(text: seq<byte>, sa: seq<nat>, w: seq<byte>)
    requires SortedRotations(text, sa)
    ensures Count(sa, BelowWord(text, w)) == Lo(text, w)
    ensures Count(sa, AtMostWord(text, w)) == Hi(text, w)
    ensures |sa| == |text|
    ensures forall i | 0 <= i < |sa| :: Below(text, sa[i], w) <==> i < Lo(text, w)
    ensures forall i | 0 <= i < |sa| :: AtMost(text, sa[i], w) <==> i < Hi(text, w)
  {
    SortedRotationsInRange(text, sa);
    CountPermutation(sa, Positions(|text|), BelowWord(text, w));
    CountPermutation(sa, Positions(|text|), AtMostWord(text, w));
    forall i, j | 0 <= i < j < |sa|
      ensures Below(text, sa[j], w) ==> Below(text, sa[i], w)
      ensures AtMost(text, sa[j], w) ==> AtMost(text, sa[i], w)
    {
      TurnSettlesAll(text, sa[i], sa[j], |w|);
      BelowDownward(text, sa[i], sa[j], w);
    }
    CountPrefix(sa, BelowWord(text, w));
    CountPrefix(sa, AtMostWord(text, w));
  }

  /** Row `i` of the sorted rotations begins with `w` exactly when `i` lies in `[Lo, Hi)`. */
  lemma BlockIsExact(text: seq<byte>, sa: seq<nat>, w: seq<byte>)
    requires SortedRotations(text, sa)
    ensures |sa| == |text|
    ensures forall i | 0 <= i < |sa| :: Matches(text, sa[i], w) <==> Lo(text, w) <= i < Hi(text, w)
  {
    Boundaries(text, sa, w);
    forall i | 0 <= i < |sa|
      ensures Matches(text, sa[i], w) <==> Lo(text, w) <= i < Hi(text, w)
    {
      AtMostSplits(text, sa[i], w);
    }
  }

  /** The last column of the sorted rotations: `BWT[i]` is the byte before rotation `sa[i]`. */
  function Bwt(text: seq<byte>, sa: seq<nat>): (b: seq<byte>)
    ensures |b| == |sa|
  {
    seq(|sa|, i requires 0 <= i < |sa| => At(text, Prev(text, sa[i])))
  }

  function Is(c: byte): byte -> bool { x => x == c }

  function Smaller(c: int): byte -> bool { x => x < c }

  /** The rank query of the index: occurrences of `c` among the first `k` bytes. */
  function Rank(b: seq<byte>, c: byte, k: nat): (r: nat)
    requires k <= |b|
    ensures r <= k
  {
    Count(b[..k], Is(c))
  }

  /** Rotations that start with `c` and whose next rotation satisfies `q`. */
  function StepWord(text: seq<byte>, c: byte, q: nat -> bool): nat -> bool {
    (a: nat) => At(text, a) == c && q(Next(text, a))
  }

  function SmallerStart(text: seq<byte>, c: byte): nat -> bool {
    (a: nat) => At(text, a) < c
  }

  /** Rotations preceded by `c` that satisfy `q`. */
  function PrecededBy(text: seq<byte>, c: byte, q: nat -> bool): nat -> bool {
    (b: nat) => At(text, Prev(text, b)) == c && q(b)
  }

  function NextPositions(text: seq<byte>): (s: seq<nat>)
    ensures |s| == |text|
    ensures forall i | 0 <= i < |text| :: s[i] == Next(text, i)
  {
    seq(|text|, i requires 0 <= i < |text| => Next(text, i))
  }

  /** Moving every rotation one byte on is a permutation of the rotations. */
  lemma NextIsPermutation(text: seq<byte>)
    ensures multiset(NextPositions(text)) == multiset(Positions(|text|))
  {
    if text != [] {
      var ps := Positions(|text|);
      assert NextPositions(text) == ps[1..] + [0];
      assert ps == [0] + ps[1..];
      assert multiset([0] + ps[1..]) == multiset([0]) + multiset(ps[1..]);
    } else {
      assert NextPositions(text) == [] == Positions(0);
    }
  }

  lemma StepCount(text: seq<byte>, c: byte, q: nat -> bool)
    ensures Count(Positions(|text|), StepWord(text, c, q)) == Count(Positions(|text|), PrecededBy(text, c, q))
  {
    NextIsPermutation(text);
    CountPermutation(NextPositions(text), Positions(|text|), PrecededBy(text, c, q));
    forall i | 0 <= i < |text|
      ensures StepWord(text, c, q)(Positions(|text|)[i]) == PrecededBy(text, c, q)(NextPositions(text)[i])
    {
      assert Prev(text, Next(text, i)) == i;
    }
    CountPointwise(Positions(|text|), StepWord(text, c, q), NextPositions(text), PrecededBy(text, c, q));
  }

  /** When the rows satisfying `q` are the first `k`, those preceded by `c` are counted by a rank query. */
  lemma RankCountsPreceded(text: seq<byte>, sa: seq<nat>, c: byte, q: nat -> bool, k: nat)
    requires SortedRotations(text, sa) && k <= |sa|
    requires forall i | 0 <= i < |sa| :: q(sa[i]) <==> i < k
    ensures Rank(Bwt(text, sa), c, k) == Count(Positions(|text|), PrecededBy(text, c, q))
  {
    var p := PrecededBy(text, c, q);
    CountPermutation(sa, Positions(|text|), p);
    assert sa == sa[..k] + sa[k..];
    CountAppend(sa[..k], sa[k..], p);
    forall i | 0 <= i < |sa[k..]| ensures !p(sa[k..][i]) {
      assert sa[k..][i] == sa[k + i];
    }
    CountNone(sa[k..], p);
    var b := Bwt(text, sa)[..k];
    forall i | 0 <= i < k ensures Is(c)(b[i]) == p(sa[..k][i]) {
      assert q(sa[i]);
    }
    CountPointwise(b, Is(c), sa[..k], p);
  }

  lemma {:induction false} SmallerCount(text: seq<byte>, c: byte)
    ensures Count(Positions(|text|), SmallerStart(text, c)) == Count(text, Smaller(c))
  {
    CountPointwise(Positions(|text|), SmallerStart(text, c), text, Smaller(c));
  }

  lemma StepTotal(text: seq<byte>, c: byte, q: nat -> bool, whole: nat -> bool)
    requires forall a: nat :: whole(a) <==> SmallerStart(text, c)(a) || StepWord(text, c, q)(a)
    ensures Count(Positions(|text|), whole)
         == Count(text, Smaller(c)) + Count(Positions(|text|), PrecededBy(text, c, q))
  {
    CountSplit(Positions(|text|), whole, SmallerStart(text, c), StepWord(text, c, q));
    SmallerCount(text, c);
    StepCount(text, c, q);
  }

  /**
   * One step of backward search: prefixing `c` to `w` moves both boundaries by the C array and a rank
   * query.  This is where sortedness of the rotations and the cyclic shift meet.
   */
  lemma BackwardStep(text: seq<byte>, sa: seq<nat>, c: byte, w: seq<byte>)
    requires SortedRotations(text, sa)
    ensures |sa| == |text|
    ensures Lo(text, [c] + w) == Count(text, Smaller(c)) + Rank(Bwt(text, sa), c, Lo(text, w))
    ensures Hi(text, [c] + w) == Count(text, Smaller(c)) + Rank(Bwt(text, sa), c, Hi(text, w))
  {
    Boundaries(text, sa, w);
    var cw := [c] + w;
    assert cw[1..] == w;
    RankCountsPreceded(text, sa, c, BelowWord(text, w), Lo(text, w));
    RankCountsPreceded(text, sa, c, AtMostWord(text, w), Hi(text, w));
    StepTotal(text, c, BelowWord(text, w), BelowWord(text, cw));
    StepTotal(text, c, AtMostWord(text, w), AtMostWord(text, cw));
  }

  /** A word occurs only where its tail occurs and its first byte is in the text. */
  lemma OccursTail(text: seq<byte>, w: seq<byte>)
    requires w != [] && Occurrences(text, w) > 0
    ensures w[0] in text
    ensures Occurrences(text, w[1..]) > 0
  {
    CountZero(Positions(|text|), MatchesWord(text, w));
    var i :| 0 <= i < |text| && MatchesWord(text, w)(Positions(|text|)[i]);
    assert Matches(text, Next(text, i), w[1..]);
    assert MatchesWord(text, w[1..])(Positions(|text|)[Next(text, i)]);
    CountZero(Positions(|text|), MatchesWord(text, w[1..]));
  }

  lemma {:induction false} OccursSuffix(text: seq<byte>, w: seq<byte>, i: nat)
    requires i <= |w| && Occurrences(text, w) > 0
    ensures Occurrences(text, w[i..]) > 0
    ensures forall k | 0 <= k < i :: w[k] in text
    decreases i
  {
    if i == 0 {
      assert w[0..] == w;
    } else {
      OccursTail(text, w);
      OccursSuffix(text, w[1..], i - 1);
      assert w[1..][i - 1..] == w[i..];
      forall k | 0 <= k < i ensures w[k] in text {
        assert k > 0 ==> w[k] == w[1..][k - 1];
      }
    }
  }
}

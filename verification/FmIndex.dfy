/** The FM-index of `src/exec/fm_index.rs`: construction, backward search, and what `count` counts. */
module FmIndex {
  import opened Counting
  import opened Machine
  import opened Rotations

  const NEWLINE: byte := '\n' as int
  /** No Rust vector is longer than `isize::MAX` bytes. */
  const MAX_VEC: int := 0x7FFF_FFFF_FFFF_FFFF

  datatype Index = Index(bwt: seq<byte>, c: map<byte, nat>, occ: map<byte, seq<nat>>, n: nat)

  /** A build with overflow checks panics on `usize` underflow; one without them wraps. */
  datatype Arithmetic = Checked | Wrapping

  datatype CountResult = Panic | Done(count: nat)

  // ---------------------------------------------------------------- construction

  /** Every row followed by a newline. */
  function Text(rows: seq<seq<byte>>): seq<byte> {
    if rows == [] then [] else Text(rows[..|rows| - 1]) + rows[|rows| - 1] + [NEWLINE]
  }

  /** The comparator of `compute_bwt`: negative, zero or positive. */
  method CompareRotations(text: seq<byte>, a: nat, b: nat) returns (order: int)
    requires a < |text| && b < |text|
    ensures order <= 0 <==> RotationLe(text, a, b)
    ensures order >= 0 <==> RotationLe(text, b, a)
  {
    var n := |text|;
    var i := 0;
    while true
      invariant 0 <= i < n
      invariant RotationLe(text, a, b) <==> LexLe(text, Ahead(text, a, i), Ahead(text, b, i), n - i)
      invariant RotationLe(text, b, a) <==> LexLe(text, Ahead(text, b, i), Ahead(text, a, i), n - i)
      decreases n - i
    {
      var ca: int := text[Ahead(text, a, i)];
      var cb: int := text[Ahead(text, b, i)];
      if ca != cb {
        return ca - cb;
      }
      assert Next(text, Ahead(text, a, i)) == Ahead(text, a, i + 1);
      assert Next(text, Ahead(text, b, i)) == Ahead(text, b, i + 1);
      i := i + 1;
      if i >= n {
        return 0;
      }
    }
  }

  /** Insert rotation `x` into a sorted list of rotations. */
  method InsertRotation(text: seq<byte>, sorted: seq<nat>, x: nat) returns (r: seq<nat>)
    requires x < |text| && forall i | 0 <= i < |sorted| :: sorted[i] < |text|
    requires forall i, j | 0 <= i < j < |sorted| :: RotationLe(text, sorted[i], sorted[j])
    ensures multiset(r) == multiset(sorted) + multiset{x}
    ensures forall i, j | 0 <= i < j < |r| :: RotationLe(text, r[i], r[j])
  {
    var k := 0;
    while k < |sorted|
      invariant 0 <= k <= |sorted|
      invariant forall i | 0 <= i < k :: RotationLe(text, sorted[i], x)
    {
      var order := CompareRotations(text, x, sorted[k]);
      if order < 0 {
        break;
      }
      k := k + 1;
    }
    forall j | k <= j < |sorted| ensures RotationLe(text, x, sorted[j]) {
      if j > k {
        LexLeTransitive(text, x, sorted[k], sorted[j], |text|);
      }
    }
    r := sorted[..k] + [x] + sorted[k..];
    assert sorted == sorted[..k] + sorted[k..];
  }

  method SortRotations(text: seq<byte>) returns (sa: seq<nat>)
    ensures SortedRotations(text, sa)
  {
    sa := [];
    var k := 0;
    while k < |text|
      invariant 0 <= k <= |text|
      invariant multiset(sa) == multiset(Positions(|text|)[..k])
      invariant forall i, j | 0 <= i < j < |sa| :: RotationLe(text, sa[i], sa[j])
    {
      forall i | 0 <= i < |sa| ensures sa[i] < |text| {
        assert sa[i] in multiset(sa);
        assert sa[i] in Positions(|text|)[..k];
      }
      sa := InsertRotation(text, sa, k);
      assert Positions(|text|)[..k + 1] == Positions(|text|)[..k] + [k];
      k := k + 1;
    }
    assert Positions(|text|)[..|text|] == Positions(|text|);
  }

  method ComputeBwt(text: seq<byte>) returns (bwt: seq<byte>, ghost sa: seq<nat>)
    ensures SortedRotations(text, sa) && bwt == Bwt(text, sa)
  {
    var order := SortRotations(text);
    sa := order;
    SortedRotationsInRange(text, order);
    bwt := [];
    var n, k := |text|, 0;
    while k < |order|
      invariant 0 <= k <= |order|
      invariant bwt == Bwt(text, order)[..k]
    {
      PrevMod(text, order[k]);
      bwt := bwt + [text[(order[k] + n - 1) % n]];
      k := k + 1;
    }
  }

  lemma PrevMod(text: seq<byte>, a: nat)
    requires a < |text|
    ensures (a + |text| - 1) % |text| == Prev(text, a)
  {
    if a > 0 {
      assert Ahead(text, a - 1, |text|) == a - 1;
    }
  }

  /** The last column is a permutation of the text: every count over it is a count over the text. */
  lemma BwtCounts(text: seq<byte>, sa: seq<nat>, p: byte -> bool)
    requires SortedRotations(text, sa)
    ensures Count(Bwt(text, sa), p) == Count(text, p)
  {
    var before := (a: nat) => p(At(text, Prev(text, a)));
    CountPointwise(Bwt(text, sa), p, sa, before);
    CountPermutation(sa, Positions(|text|), before);
    NextIsPermutation(text);
    CountPermutation(NextPositions(text), Positions(|text|), before);
    forall i | 0 <= i < |text| ensures before(NextPositions(text)[i]) == p(text[i]) {
      assert NextPositions(text)[i] == Next(text, i);
      assert Prev(text, Next(text, i)) == i && At(text, i) == text[i];
    }
    CountPointwise(NextPositions(text), before, text, p);
  }

  lemma CountPositive(s: seq<byte>, c: byte)
    ensures Count(s, Is(c)) > 0 <==> c in s
  {
    CountZero(s, Is(c));
    if c in s {
      var i :| 0 <= i < |s| && s[i] == c;
      assert Is(c)(s[i]);
    }
  }

  lemma SmallerNext(s: seq<byte>, c: byte)
    ensures Count(s, Smaller(c + 1)) == Count(s, Smaller(c)) + Count(s, Is(c))
  {
    CountSplit(s, Smaller(c + 1), Smaller(c), Is(c));
  }

  method CountBytes(bwt: seq<byte>) returns (counts: array<nat>)
    ensures fresh(counts) && counts.Length == 256
    ensures forall v: byte :: counts[v] == Count(bwt, Is(v))
  {
    counts := new nat[256](_ => 0);
    var k := 0;
    while k < |bwt|
      invariant 0 <= k <= |bwt|
      invariant forall v: byte :: counts[v] == Count(bwt[..k], Is(v))
    {
      forall v: byte ensures Count(bwt[..k + 1], Is(v)) == Count(bwt[..k], Is(v)) + (if bwt[k] == v then 1 else 0) {
        assert bwt[..k + 1] == bwt[..k] + [bwt[k]];
        CountAppend(bwt[..k], [bwt[k]], Is(v));
      }
      counts[bwt[k]] := counts[bwt[k]] + 1;
      k := k + 1;
    }
    assert bwt[..|bwt|] == bwt;
  }

  method BuildC(bwt: seq<byte>) returns (c: map<byte, nat>)
    ensures forall ch: byte :: ch in c <==> ch in bwt
    ensures forall ch | ch in c :: c[ch] == Count(bwt, Smaller(ch))
  {
    var counts := CountBytes(bwt);
    c := map[];
    var total := 0;
    var i := 0;
    CountNone(bwt, Smaller(0));
    while i < 256
      invariant 0 <= i <= 256
      invariant forall v: byte :: counts[v] == Count(bwt, Is(v))
      invariant total == Count(bwt, Smaller(i))
      invariant forall ch: byte :: ch in c <==> ch < i && ch in bwt
      invariant forall ch | ch in c :: c[ch] == Count(bwt, Smaller(ch))
    {
      var ch: byte := i;
      SmallerNext(bwt, ch);
      CountPositive(bwt, ch);
      if counts[ch] > 0 {
        c := c[ch := total];
        total := total + counts[ch];
      }
      i := i + 1;
    }
  }

  method BuildOccRow(bwt: seq<byte>, ch: byte) returns (prefix: seq<nat>)
    ensures |prefix| == |bwt| + 1
    ensures forall k | 0 <= k <= |bwt| :: prefix[k] == Rank(bwt, ch, k)
  {
    prefix := [0];
    var count := 0;
    var i := 0;
    while i < |bwt|
      invariant 0 <= i <= |bwt| && |prefix| == i + 1
      invariant count == Rank(bwt, ch, i)
      invariant forall k | 0 <= k <= i :: prefix[k] == Rank(bwt, ch, k)
    {
      assert bwt[..i + 1] == bwt[..i] + [bwt[i]];
      CountAppend(bwt[..i], [bwt[i]], Is(ch));
      if bwt[i] == ch {
        count := count + 1;
      }
      prefix := prefix + [count];
      i := i + 1;
    }
  }

  method BuildOcc(bwt: seq<byte>, c: map<byte, nat>) returns (occ: map<byte, seq<nat>>)
    ensures occ.Keys == c.Keys
    ensures forall ch | ch in occ :: |occ[ch]| == |bwt| + 1
    ensures forall ch, k | ch in occ && 0 <= k <= |bwt| :: occ[ch][k] == Rank(bwt, ch, k)
  {
    occ := map[];
    var rest := c.Keys;
    while rest != {}
      invariant rest <= c.Keys && occ.Keys == c.Keys - rest
      invariant forall ch | ch in occ :: |occ[ch]| == |bwt| + 1
      invariant forall ch, k | ch in occ && 0 <= k <= |bwt| :: occ[ch][k] == Rank(bwt, ch, k)
    {
      var ch :| ch in rest;
      var row := BuildOccRow(bwt, ch);
      occ := occ[ch := row];
      rest := rest - {ch};
    }
  }

  /** `fm` is the index of `text`, its rotations sorted as `sa`. */
  ghost predicate Represents(fm: Index, text: seq<byte>, sa: seq<nat>) {
    && fm.n == |text|
    && SortedRotations(text, sa)
    && fm.bwt == Bwt(text, sa) && |sa| == |text|
    && (forall ch: byte :: ch in fm.c <==> ch in text)
    && (forall ch | ch in fm.c :: fm.c[ch] == Count(text, Smaller(ch)))
    && fm.occ.Keys == fm.c.Keys
    && (forall ch | ch in fm.occ :: |fm.occ[ch]| == fm.n + 1)
    && (forall ch, k | ch in fm.occ && 0 <= k <= fm.n :: fm.occ[ch][k] == Rank(fm.bwt, ch, k))
  }

  method Concatenate(rows: seq<seq<byte>>) returns (text: seq<byte>)
    ensures text == Text(rows)
  {
    text := [];
    var k := 0;
    while k < |rows|
      invariant 0 <= k <= |rows|
      invariant text == Text(rows[..k])
    {
      assert rows[..k + 1][..k] == rows[..k];
      text := text + rows[k] + [NEWLINE];
      k := k + 1;
    }
    assert rows[..|rows|] == rows;
  }

  method Build(rows: seq<seq<byte>>) returns (fm: Index, ghost sa: seq<nat>)
    ensures Represents(fm, Text(rows), sa)
  {
    var text := Concatenate(rows);
    var n := |text|;
    if n == 0 {
      sa := [];
      assert Positions(0) == [];
      fm := Index([], map[], map[], 0);
      return;
    }
    var bwt, order := ComputeBwt(text);
    sa := order;
    SortedRotationsInRange(text, sa);
    var c := BuildC(bwt);
    forall ch: byte
      ensures Count(bwt, Smaller(ch)) == Count(text, Smaller(ch))
      ensures ch in bwt <==> ch in text
    {
      BwtCounts(text, sa, Smaller(ch));
      BwtCounts(text, sa, Is(ch));
      CountPositive(bwt, ch);
      CountPositive(text, ch);
    }
    var occ := BuildOcc(bwt, c);
    fm := Index(bwt, c, occ, n);
  }

  // ---------------------------------------------------------------- backward search

  /** `usize` decrement and increment as a wrapping build performs them. */
  function WrappingDec(x: nat): nat {
    if x == 0 then U64_RANGE - 1 else x - 1
  }

  function WrappingInc(x: nat): nat {
    if x == U64_RANGE - 1 then 0 else x + 1
  }

  /** The guarded table look-up of `occ_rank`. */
  function OccRank(fm: Index, ch: byte, pos: nat): nat {
    if ch in fm.occ then
      var prefix := fm.occ[ch];
      if pos < |prefix| then prefix[pos]
      else if prefix == [] then 0 else prefix[|prefix| - 1]
    else 0
  }

  /**
   * Where a checked build panics: at some pattern position the byte is in the text, the rest of the
   * pattern after it occurs, and every rotation of the text is greater than the pattern from there on.
   */
  ghost predicate Underflows(text: seq<byte>, pattern: seq<byte>) {
    exists i | 0 <= i < |pattern| :: UnderflowsAt(text, pattern, i)
  }

  ghost predicate UnderflowsAt(text: seq<byte>, pattern: seq<byte>, i: nat)
    requires i < |pattern|
  {
    && pattern[i] in text
    && Occurrences(text, pattern[i + 1..]) > 0
    && AllGreater(text, pattern[i..])
  }

  /** Every rotation of the text is greater than `w`. */
  ghost predicate AllGreater(text: seq<byte>, w: seq<byte>) {
    forall a: nat | a < |text| :: !AtMost(text, a, w)
  }

  lemma HiZero(text: seq<byte>, w: seq<byte>)
    ensures Hi(text, w) == 0 <==> AllGreater(text, w)
  {
    CountZero(Positions(|text|), AtMostWord(text, w));
    if Hi(text, w) == 0 {
      forall a: nat | a < |text| ensures !AtMost(text, a, w) {
        assert !AtMostWord(text, w)(Positions(|text|)[a]);
      }
    }
  }

  lemma EmptyWord(text: seq<byte>)
    ensures Lo(text, []) == 0 && Hi(text, []) == Occurrences(text, []) == |text|
  {
    CountNone(Positions(|text|), BelowWord(text, []));
    CountAll(Positions(|text|), AtMostWord(text, []));
    CountAll(Positions(|text|), MatchesWord(text, []));
  }

  /** If the panic is still ahead, the search has not yet lost the pattern. */
  lemma UnderflowAhead(text: seq<byte>, pattern: seq<byte>, i: nat, j: nat)
    requires i < j <= |pattern| && UnderflowsAt(text, pattern, i)
    ensures Occurrences(text, pattern[j..]) > 0
    ensures forall k | i <= k < j :: pattern[k] in text
  {
    OccursSuffix(text, pattern[i + 1..], j - i - 1);
    assert pattern[i + 1..][j - i - 1..] == pattern[j..];
    forall k | i < k < j ensures pattern[k] in text {
      assert pattern[i + 1..][k - i - 1] == pattern[k];
    }
  }

  lemma Missing(text: seq<byte>, pattern: seq<byte>, i: nat)
    requires i < |pattern|
    requires pattern[i] !in text || Occurrences(text, pattern[i..]) == 0
    ensures Occurrences(text, pattern) == 0
  {
    if Occurrences(text, pattern) > 0 {
      OccursSuffix(text, pattern, i);
      OccursTail(text, pattern[i..]);
      assert false;
    }
  }

  /**
   * Backward search.  After every step `sp` and `ep` are the exact block of sorted rotations that begin
   * with the pattern suffix read so far; `ep` is kept modulo 2^64, so an empty block at the very top is
   * `ep == usize::MAX`.  A wrapping build answers correctly for every pattern; a checked build panics
   * exactly on `Underflows` and otherwise gives the same answer.
   */
  method CountPattern(fm: Index, pattern: seq<byte>, mode: Arithmetic, ghost text: seq<byte>, ghost sa: seq<nat>)
    returns (r: CountResult)
    requires Represents(fm, text, sa) && |text| <= MAX_VEC
    ensures r.Panic? <==> mode.Checked? && Underflows(text, pattern)
    ensures r.Done? ==> r.count == if pattern == [] then 0 else Occurrences(text, pattern)
  {
    if fm.n == 0 || pattern == [] {
      return Done(0);
    }
    var sp: nat := 0;
    var ep: nat := fm.n - 1;
    var i := |pattern|;
    EmptyWord(text);
    assert pattern[|pattern|..] == [];
    while i > 0
      invariant 0 <= i <= |pattern|
      invariant sp == Lo(text, pattern[i..])
      invariant ep < U64_RANGE && WrappingInc(ep) == Hi(text, pattern[i..])
      invariant Hi(text, pattern[i..]) > 0 ==> Occurrences(text, pattern[i..]) > 0
      invariant mode.Checked? ==> Hi(text, pattern[i..]) > 0
      invariant mode.Checked? ==> forall k | i <= k < |pattern| :: !UnderflowsAt(text, pattern, k)
    {
      i := i - 1;
      ghost var w := pattern[i + 1..];
      var ch := pattern[i];
      assert pattern[i..] == [ch] + w;
      if ch !in fm.c {
        Missing(text, pattern, i);
        NoUnderflowBefore(text, pattern, i, mode);
        return Done(0);
      }
      var cVal := fm.c[ch];
      SearchStep(fm, text, sa, ch, w);
      HiZero(text, pattern[i..]);
      var occSp := OccRank(fm, ch, sp);
      var occEp1 := OccRank(fm, ch, WrappingInc(ep));
      sp := cVal + occSp;
      if cVal + occEp1 == 0 && mode.Checked? {
        assert UnderflowsAt(text, pattern, i);
        return Panic;
      }
      ep := WrappingDec(cVal + occEp1);
      if sp > ep {
        Missing(text, pattern, i);
        NoUnderflowBefore(text, pattern, i, mode);
        return Done(0);
      }
    }
    BlockSize(text, pattern);
    assert pattern[0..] == pattern;
    return Done(WrappingInc(ep - sp));
  }

  /** The table look-ups of one step compute the block boundaries of the extended suffix. */
  lemma SearchStep(fm: Index, text: seq<byte>, sa: seq<nat>, ch: byte, w: seq<byte>)
    requires Represents(fm, text, sa) && ch in fm.c
    ensures Lo(text, [ch] + w) == fm.c[ch] + OccRank(fm, ch, Lo(text, w))
    ensures Hi(text, [ch] + w) == fm.c[ch] + OccRank(fm, ch, Hi(text, w))
    ensures Hi(text, [ch] + w) == Lo(text, [ch] + w) + Occurrences(text, [ch] + w)
  {
    BackwardStep(text, sa, ch, w);
    BlockSize(text, [ch] + w);
    assert ch in fm.occ;
  }

  /** Once a suffix is lost, no earlier position can underflow. */
  lemma NoUnderflowBefore(text: seq<byte>, pattern: seq<byte>, i: nat, mode: Arithmetic)
    requires i < |pattern|
    requires pattern[i] !in text || Occurrences(text, pattern[i..]) == 0
    requires mode.Checked? ==> !UnderflowsAt(text, pattern, i)
    requires mode.Checked? ==> forall k | i < k < |pattern| :: !UnderflowsAt(text, pattern, k)
    ensures mode.Checked? ==> !Underflows(text, pattern)
  {
    if mode.Checked? && Underflows(text, pattern) {
      var k :| 0 <= k < |pattern| && UnderflowsAt(text, pattern, k);
      if k < i {
        UnderflowAhead(text, pattern, k, i);
        UnderflowAhead(text, pattern, k, i + 1);
      }
      assert false;
    }
  }
}

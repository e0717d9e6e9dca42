/** `build_like_mask` of `src/engine/dispatch.rs` against SQL LIKE (section 8.5 of ISO/IEC 9075:1992). */
module LikeMask {
  import opened Machine
  import opened StringSearch

  const PERCENT: byte := '%' as int
  const UNDERSCORE: byte := '_' as int

  /** The reference: `%` stands for any run of characters, `_` for one, anything else for itself. */
  predicate Like(pattern: Text, s: Text)
    decreases |pattern| + |s|
  {
    if pattern == [] then s == []
    else if pattern[0] == PERCENT then Like(pattern[1..], s) || (s != [] && Like(pattern, s[1..]))
    else if pattern[0] == UNDERSCORE then s != [] && Like(pattern[1..], s[1..])
    else s != [] && s[0] == pattern[0] && Like(pattern[1..], s[1..])
  }

  /** `%` alone matches everything and `_` alone any one character. */
  lemma {:induction false} Wildcards(s: Text)
    ensures Like([37], s) && (Like([95], s) <==> |s| == 1)
  {
    if s != [] {
      Wildcards(s[1..]);
    }
    assert |s| == 1 ==> s[1..] == [];
  }

  predicate Literal(p: Text) {
    forall i | 0 <= i < |p| :: p[i] != PERCENT && p[i] != UNDERSCORE
  }

  function Percents(n: nat): (p: Text)
    ensures |p| == n && forall i | 0 <= i < n :: p[i] == PERCENT
  {
    seq(n, _ => PERCENT)
  }

  // ---------------------------------------------------------------- what LIKE means for simple shapes

  /** A prefix begins with its first character and goes on with the rest. */
  lemma PrefixStep(lit: Text, s: Text)
    requires lit != [] && s != []
    ensures |lit| <= |s| && s[..|lit|] == lit <==> s[0] == lit[0] && |lit| <= |s| && s[1..|lit|] == lit[1..]
  {
    if |lit| <= |s| {
      assert s[..|lit|] == [s[0]] + s[1..|lit|];
      assert lit == [lit[0]] + lit[1..];
    }
  }

  /** A literal prefix of the pattern has to stand at the front of the text. */
  lemma {:induction false} LikeLiteral(lit: Text, rest: Text, s: Text)
    requires Literal(lit)
    ensures Like(lit + rest, s) <==> |lit| <= |s| && s[..|lit|] == lit && Like(rest, s[|lit|..])
  {
    if lit == [] {
      assert lit + rest == rest && s[0..] == s;
    } else if s != [] {
      var tail := s[1..];
      assert (lit + rest)[1..] == lit[1..] + rest;
      LikeLiteral(lit[1..], rest, tail);
      PrefixStep(lit, s);
      if |lit| <= |s| {
        assert tail[..|lit| - 1] == s[1..|lit|] && tail[|lit| - 1..] == s[|lit|..];
      }
    }
  }

  lemma {:induction false} LikePercents(n: nat, s: Text)
    ensures Like(Percents(n), s) <==> n > 0 || s == []
    decreases n + |s|
  {
    if n > 0 {
      assert Percents(n)[1..] == Percents(n - 1);
      if s == [] {
        LikePercents(n - 1, s);
      } else {
        LikePercents(n, s[1..]);
      }
    }
  }

  /** Leading percents skip any number of characters. */
  lemma {:induction false} LikeSkip(n: nat, rest: Text, s: Text)
    requires n > 0
    ensures Like(Percents(n) + rest, s) <==> exists k: nat | k <= |s| :: Like(rest, s[k..])
    decreases n + |s|
  {
    var p := Percents(n) + rest;
    assert p[1..] == Percents(n - 1) + rest;
    if n == 1 {
      assert p[1..] == rest && s[0..] == s;
    } else {
      LikeSkip(n - 1, rest, s);
    }
    if s != [] {
      LikeSkip(n, rest, s[1..]);
      forall k: nat | k <= |s[1..]| ensures s[1..][k..] == s[k + 1..] {
      }
      if k: nat :| k <= |s| && Like(rest, s[k..]) {
        assert k > 0 ==> s[1..][k - 1..] == s[k..];
        assert n > 1 || k > 0 || Like(rest, s);
      }
      if Like(p, s[1..]) {
        var k: nat :| k <= |s[1..]| && Like(rest, s[1..][k..]);
        assert Like(rest, s[k + 1..]);
      }
    }
    if Like(rest, s) {
      assert s[0..] == s;
    }
  }

  // ---------------------------------------------------------------- the patterns the mask understands

  function TrimStart(p: Text): Text {
    if p == [] || p[0] != PERCENT then p else TrimStart(p[1..])
  }

  function TrimEnd(p: Text): Text {
    if p == [] || p[|p| - 1] != PERCENT then p else TrimEnd(p[..|p| - 1])
  }

  lemma {:induction false} TrimmedStart(p: Text) returns (n: nat)
    ensures p == Percents(n) + TrimStart(p)
    ensures TrimStart(p) == [] || TrimStart(p)[0] != PERCENT
  {
    if p == [] || p[0] != PERCENT {
      n := 0;
    } else {
      n := TrimmedStart(p[1..]);
      assert Percents(n + 1) == [PERCENT] + Percents(n);
      assert p == [PERCENT] + p[1..];
      n := n + 1;
    }
  }

  lemma {:induction false} TrimmedEnd(p: Text) returns (n: nat)
    ensures p == TrimEnd(p) + Percents(n)
    ensures TrimEnd(p) == [] || TrimEnd(p)[|TrimEnd(p)| - 1] != PERCENT
  {
    if p == [] || p[|p| - 1] != PERCENT {
      n := 0;
    } else {
      n := TrimmedEnd(p[..|p| - 1]);
      assert Percents(n + 1) == Percents(n) + [PERCENT];
      assert p == p[..|p| - 1] + [PERCENT];
      n := n + 1;
    }
  }

  /** `pattern.trim_matches('%')`. */
  function Middle(pattern: Text): Text { TrimEnd(TrimStart(pattern)) }

  predicate StartsWild(p: Text) { p != [] && p[0] == PERCENT }

  predicate EndsWild(p: Text) { p != [] && p[|p| - 1] == PERCENT }

  predicate StartsWith(s: Text, p: Text) { |p| <= |s| && s[..|p|] == p }

  predicate EndsWith(s: Text, p: Text) { |p| <= |s| && s[|s| - |p|..] == p }

  /** The pattern as percents around its middle. */
  lemma Shape(pattern: Text) returns (i: nat, j: nat)
    ensures Middle(pattern) != [] ==>
              && pattern == Percents(i) + Middle(pattern) + Percents(j)
              && (i > 0 <==> StartsWild(pattern)) && (j > 0 <==> EndsWild(pattern))
    ensures Middle(pattern) == [] ==> pattern == Percents(|pattern|)
  {
    var t := TrimStart(pattern);
    i := TrimmedStart(pattern);
    j := TrimmedEnd(t);
    var m := Middle(pattern);
    if m != [] {
      assert t[0] == m[0];
      assert pattern == Percents(i) + m + Percents(j);
      assert pattern[i] == m[0] && pattern[i + |m| - 1] == m[|m| - 1];
    } else {
      assert t == Percents(j);
      assert pattern == Percents(|pattern|);
    }
  }

  /** What LIKE demands of a text, for percents around a literal. */
  ghost predicate SimpleLike(pattern: Text, s: Text) {
    var m := Middle(pattern);
    if m == [] then true
    else if StartsWild(pattern) && EndsWild(pattern) then Contains(s, m)
    else if EndsWild(pattern) then StartsWith(s, m)
    else if StartsWild(pattern) then EndsWith(s, m)
    else s == m
  }

  lemma TailMatches(m: Text, j: nat, s: Text, k: nat)
    requires Literal(m) && m != [] && k <= |s|
    ensures Like(m + Percents(j), s[k..]) <==> OccursAt(s, m, k) && (j > 0 || k + |m| == |s|)
  {
    LikeLiteral(m, Percents(j), s[k..]);
    if |m| <= |s[k..]| {
      assert s[k..][..|m|] == s[k..k + |m|];
      LikePercents(j, s[k..][|m|..]);
    }
  }

  /**
   * For every pattern of percents around a literal, the shape test is the wildcard matcher, except that
   * the empty pattern is taken to match everything: it agrees exactly on empty texts.
   */
  lemma SimpleLikeIsLike(pattern: Text, s: Text)
    requires Literal(Middle(pattern))
    ensures (SimpleLike(pattern, s) <==> Like(pattern, s)) <==> (pattern != [] || s == [])
  {
    var m := Middle(pattern);
    var i, j := Shape(pattern);
    if m == [] {
      LikePercents(|pattern|, s);
    } else {
      assert pattern == Percents(i) + (m + Percents(j));
      AroundLiteral(i, m, j, s);
    }
  }

  /** LIKE for percents on both sides of a literal, by which sides have any. */
  lemma AroundLiteral(i: nat, m: Text, j: nat, s: Text)
    requires Literal(m) && m != []
    ensures Like(Percents(i) + (m + Percents(j)), s) <==>
              if i == 0 then (if j > 0 then StartsWith(s, m) else s == m)
              else (if j > 0 then Contains(s, m) else EndsWith(s, m))
  {
    var rest := m + Percents(j);
    forall k: nat | k <= |s| ensures Like(rest, s[k..]) <==> OccursAt(s, m, k) && (j > 0 || k + |m| == |s|) {
      TailMatches(m, j, s, k);
    }
    if i == 0 {
      assert Percents(i) + rest == rest && s[0..] == s;
      AtFront(s, m, j);
    } else {
      LikeSkip(i, rest, s);
      Anywhere(s, m, j);
    }
  }

  lemma AtFront(s: Text, m: Text, j: nat)
    ensures OccursAt(s, m, 0) && (j > 0 || |m| == |s|) <==> (if j > 0 then StartsWith(s, m) else s == m)
  {
    assert |m| <= |s| ==> s[0..|m|] == s[..|m|];
    assert s[..|s|] == s;
  }

  lemma Anywhere(s: Text, m: Text, j: nat)
    ensures (exists k: nat | k <= |s| :: OccursAt(s, m, k) && (j > 0 || k + |m| == |s|))
            <==> (if j > 0 then Contains(s, m) else EndsWith(s, m))
  {
    if j > 0 && Contains(s, m) {
      var k: nat :| OccursAt(s, m, k);
      assert k <= |s|;
    }
    if j == 0 && EndsWith(s, m) {
      assert OccursAt(s, m, |s| - |m|);
    }
  }

  // ---------------------------------------------------------------- the mask

  function Strip(p: Text): Text {
    if p == [] then [] else if p[0] == PERCENT || p[0] == UNDERSCORE then Strip(p[1..]) else [p[0]] + Strip(p[1..])
  }

  /** The mask bit of one string, interior wildcards included. */
  ghost predicate MaskBit(pattern: Text, s: Text) {
    var m := Middle(pattern);
    if Literal(m) || (StartsWild(pattern) != EndsWild(pattern) && Strip(m) != []) then SimpleLike(pattern, s)
    else Contains(s, Strip(m))
  }

  /** Does this pattern go through the contains scan, which reads the kept strings only? */
  predicate ScansStrings(pattern: Text) {
    var m := Middle(pattern);
    if m == [] || Strip(m) == [] then false
    else if Literal(m) then StartsWild(pattern) && EndsWild(pattern)
    else StartsWild(pattern) == EndsWild(pattern)
  }

  /** The mask `build_like_mask` gives for a column. */
  ghost predicate Built(col: Column, pattern: Text, mask: seq<bool>)
    requires Valid(col)
  {
    && |mask| == (if ScansStrings(pattern) then |col.strings| else Len(col))
    && forall i | 0 <= i < |mask| :: mask[i] <==> MaskBit(pattern, Get(col, i))
  }

  /** Prefix, suffix and equality tests row by row; these work on remapped columns too. */
  method AnchoredMask(col: Column, middle: Text, startsWild: bool, endsWild: bool) returns (mask: seq<bool>)
    requires Valid(col) && !(startsWild && endsWild)
    ensures |mask| == Len(col)
    ensures forall i | 0 <= i < |mask| :: mask[i] <==> Anchored(Get(col, i), middle, startsWild, endsWild)
  {
    mask := [];
    for i := 0 to Len(col)
      invariant |mask| == i
      invariant forall j | 0 <= j < i :: mask[j] <==> Anchored(Get(col, j), middle, startsWild, endsWild)
    {
      mask := mask + [Anchored(Get(col, i), middle, startsWild, endsWild)];
    }
  }

  predicate Anchored(s: Text, middle: Text, startsWild: bool, endsWild: bool) {
    if endsWild then StartsWith(s, middle) else if startsWild then EndsWith(s, middle) else s == middle
  }

  method BuildLikeMask(col: Column, pattern: Text) returns (mask: seq<bool>)
    requires Valid(col)
    ensures Built(col, pattern, mask)
  {
    var startsWild, endsWild := StartsWild(pattern), EndsWild(pattern);
    var middle := Middle(pattern);
    if middle == [] {
      return seq(Len(col), _ => true);
    }
    var hasInnerWild := !Literal(middle);
    StripLiteral(middle);
    var needle := if hasInnerWild then Strip(middle) else middle;
    if needle == [] {
      mask := seq(Len(col), _ => true);
      forall i | 0 <= i < |mask| ensures MaskBit(pattern, Get(col, i)) {
        assert OccursAt(Get(col, i), [], 0);
      }
      return;
    }
    if (startsWild && endsWild) || (!startsWild && !endsWild && hasInnerWild) {
      mask := LikeContainsMask(col, needle);
    } else {
      mask := AnchoredMask(col, middle, startsWild, endsWild);
    }
  }

  lemma {:induction false} StripLiteral(p: Text)
    ensures Literal(p) ==> Strip(p) == p
  {
    if p != [] {
      StripLiteral(p[1..]);
      assert Literal(p) ==> Literal(p[1..]);
    }
  }

  ghost predicate AllEmpty(col: Column)
    requires Valid(col)
  {
    forall i | 0 <= i < Len(col) :: Get(col, i) == []
  }

  /** The mask a LIKE filter should produce. */
  ghost predicate RightMask(col: Column, pattern: Text, mask: seq<bool>)
    requires Valid(col)
  {
    |mask| == Len(col) && forall i | 0 <= i < |mask| :: mask[i] <==> Like(pattern, Get(col, i))
  }

  /**
   * For percents around a literal the mask is right exactly when the pattern is not empty or all rows
   * are, and the column kept its strings unless the pattern needs no contains scan or there are no rows.
   */
  lemma LiteralMaskExact(col: Column, pattern: Text, mask: seq<bool>)
    requires Valid(col) && Literal(Middle(pattern)) && Built(col, pattern, mask)
    ensures RightMask(col, pattern, mask)
            <==> ((ScansStrings(pattern) ==> |col.strings| == Len(col)) && (pattern == [] ==> AllEmpty(col)))
  {
    StripLiteral(Middle(pattern));
    forall i | 0 <= i < |mask|
      ensures (mask[i] <==> Like(pattern, Get(col, i))) <==> (pattern != [] || Get(col, i) == [])
    {
      SimpleLikeIsLike(pattern, Get(col, i));
    }
  }

  // ---------------------------------------------------------------- inner wildcards, exactly

  /** The shortest kind of match: percents dropped, underscores replaced by an `a`. */
  function Fill(p: Text): Text {
    if p == [] then []
    else if p[0] == PERCENT then Fill(p[1..])
    else [if p[0] == UNDERSCORE then 97 else p[0]] + Fill(p[1..])
  }

  lemma {:induction false} FillMatches(p: Text)
    ensures Like(p, Fill(p))
  {
    if p != [] {
      FillMatches(p[1..]);
      if p[0] != PERCENT {
        assert Fill(p)[1..] == Fill(p[1..]);
      }
    }
  }

  /** No match is shorter than the filling. */
  lemma {:induction false} FillShortest(p: Text, s: Text)
    ensures Like(p, s) ==> |Fill(p)| <= |s|
    decreases |p| + |s|
  {
    if p != [] {
      FillShortest(p[1..], s);
      if s != [] {
        FillShortest(p, s[1..]);
        FillShortest(p[1..], s[1..]);
      }
    }
  }

  /** The filling is as long as the pattern only without percents, and as the stripped one only without underscores. */
  lemma {:induction false} FillSizes(p: Text)
    ensures |Strip(p)| <= |Fill(p)| <= |p| && UNDERSCORE !in Fill(p)
    ensures |Fill(p)| == |p| <==> PERCENT !in p
    ensures |Strip(p)| == |Fill(p)| <==> UNDERSCORE !in p
  {
    if p != [] {
      FillSizes(p[1..]);
      assert p == [p[0]] + p[1..];
    }
  }

  lemma {:induction false} FillAppend(p: Text, q: Text)
    ensures Fill(p + q) == Fill(p) + Fill(q)
  {
    if p == [] {
      assert p + q == q;
    } else {
      assert (p + q)[1..] == p[1..] + q;
      FillAppend(p[1..], q);
    }
  }

  lemma {:induction false} StripAppend(p: Text, q: Text)
    ensures Strip(p + q) == Strip(p) + Strip(q)
  {
    if p == [] {
      assert p + q == q;
    } else {
      assert (p + q)[1..] == p[1..] + q;
      StripAppend(p[1..], q);
    }
  }

  lemma {:induction false} FillPercents(n: nat)
    ensures Fill(Percents(n)) == []
  {
    if n > 0 {
      assert Percents(n)[1..] == Percents(n - 1);
      FillPercents(n - 1);
    }
  }

  lemma FillMiddle(pattern: Text)
    requires Middle(pattern) != []
    ensures Fill(pattern) == Fill(Middle(pattern))
  {
    var m := Middle(pattern);
    var i, j := Shape(pattern);
    FillAppend(Percents(i) + m, Percents(j));
    FillAppend(Percents(i), m);
    FillPercents(i);
    FillPercents(j);
  }

  /** Every pattern matches itself, a percent standing for the percent. */
  lemma {:induction false} LikeItself(p: Text)
    ensures Like(p, p)
  {
    if p != [] {
      LikeItself(p[1..]);
      if p[0] == PERCENT {
        assert Like(p, p[1..]);
      }
    }
  }

  lemma {:induction false} TrailingPercents(p: Text, j: nat, s: Text)
    requires Like(p, s)
    ensures Like(p + Percents(j), s)
    decreases |p| + |s|
  {
    var q := p + Percents(j);
    if p == [] {
      assert q == Percents(j);
      LikePercents(j, s);
    } else {
      assert q[1..] == p[1..] + Percents(j);
      if p[0] == PERCENT && !Like(p[1..], s) {
        TrailingPercents(p, j, s[1..]);
      } else {
        TrailingPercents(p[1..], j, if p[0] == PERCENT then s else s[1..]);
      }
    }
  }

  lemma MiddleMatches(pattern: Text)
    requires Middle(pattern) != []
    ensures Like(pattern, Middle(pattern))
  {
    var m := Middle(pattern);
    var i, j := Shape(pattern);
    LikeItself(m);
    TrailingPercents(m, j, m);
    assert pattern == Percents(i) + (m + Percents(j));
    if i > 0 {
      LikeSkip(i, m + Percents(j), m);
      assert m[0..] == m;
    } else {
      assert pattern == m + Percents(j);
    }
  }

  /** The stripped form is the whole of a text that begins and ends with letters, wherever it stands in it. */
  lemma StrippedIsWhole(a: Text, w: Text, b: Text)
    requires w == Strip(a + w + b)
    requires a != [] ==> a[0] != PERCENT && a[0] != UNDERSCORE
    requires b != [] ==> b[|b| - 1] != PERCENT && b[|b| - 1] != UNDERSCORE
    ensures a == [] && b == []
  {
    StripAppend(a + w, b);
    StripAppend(a, w);
    StripStripped(a + w + b);
    if b != [] {
      StripLast(b);
    }
  }

  /** The text around an occurrence. */
  lemma CutAt(m: Text, w: Text, i: nat) returns (a: Text, b: Text)
    requires OccursAt(m, w, i)
    ensures m == a + w + b && |a| == i
    ensures (a != [] ==> a[0] == m[0]) && (b != [] ==> b[|b| - 1] == m[|m| - 1])
  {
    a, b := m[..i], m[i + |w|..];
    assert m == m[..i] + m[i..i + |w|] + m[i + |w|..];
  }

  lemma StrippedSize(m: Text, w: Text, i: nat)
    requires m != [] && UNDERSCORE !in m && m[0] != PERCENT && m[|m| - 1] != PERCENT
    requires w == Strip(m) && OccursAt(m, w, i)
    ensures |w| == |m|
  {
    assert m[0] in m && m[|m| - 1] in m;
    var a, b := CutAt(m, w, i);
    StrippedIsWhole(a, w, b);
  }

  /** A middle with inner percents does not contain its own stripped form. */
  lemma StrippedIsGone(m: Text)
    requires m != [] && UNDERSCORE !in m && m[0] != PERCENT && m[|m| - 1] != PERCENT && !Literal(m)
    ensures !Contains(m, Strip(m))
  {
    FillSizes(m);
    assert PERCENT in m;
    forall i: nat ensures !OccursAt(m, Strip(m), i) {
      if OccursAt(m, Strip(m), i) {
        StrippedSize(m, Strip(m), i);
      }
    }
  }

  lemma {:induction false} StripStripped(p: Text)
    ensures Literal(Strip(p)) && Strip(Strip(p)) == Strip(p)
  {
    if p != [] {
      StripStripped(p[1..]);
      if p[0] != PERCENT && p[0] != UNDERSCORE {
        assert Strip(p)[1..] == Strip(p[1..]);
      }
    }
  }

  lemma StripLast(p: Text)
    requires p != [] && p[|p| - 1] != PERCENT && p[|p| - 1] != UNDERSCORE
    ensures Strip(p) != []
  {
    var n := |p| - 1;
    assert p == p[..n] + [p[n]];
    StripAppend(p[..n], [p[n]]);
    assert Strip([p[n]]) == [p[n]] by { assert [p[n]][1..] == []; }
  }

  /** The middle begins and ends with no percent. */
  lemma MiddleEnds(pattern: Text)
    requires Middle(pattern) != []
    ensures Middle(pattern)[0] != PERCENT && Middle(pattern)[|Middle(pattern)| - 1] != PERCENT
  {
    var t := TrimStart(pattern);
    var _ := TrimmedStart(pattern);
    var _ := TrimmedEnd(t);
    assert t[0] == Middle(pattern)[0];
  }

  /** For every pattern with inner wildcards there is a text on which the mask errs. */
  lemma InnerWildcardErrs(pattern: Text) returns (s: Text)
    requires !Literal(Middle(pattern))
    ensures MaskBit(pattern, s) != Like(pattern, s)
  {
    var m := Middle(pattern);
    MiddleEnds(pattern);
    FillMiddle(pattern);
    FillSizes(m);
    if Strip(m) == [] {
      s := [];
      assert OccursAt(s, [], 0);
      FillShortest(pattern, s);
      assert |Fill(m)| > 0 by { assert m == [m[0]] + m[1..]; }
    } else if StartsWild(pattern) != EndsWild(pattern) {
      s := Fill(pattern);
      FillMatches(pattern);
      assert |s| == |m| ==> s != m;
    } else if UNDERSCORE in m {
      s := Strip(m);
      assert OccursAt(s, s, 0);
      FillShortest(pattern, s);
    } else {
      s := m;
      StrippedIsGone(m);
      MiddleMatches(pattern);
    }
  }

  /** The mask bit is LIKE on every text if and only if the pattern is percents around a literal, and not empty. */
  lemma LikeBitExact(pattern: Text)
    ensures (forall s: Text :: MaskBit(pattern, s) <==> Like(pattern, s)) <==> pattern != [] && Literal(Middle(pattern))
  {
    if !Literal(Middle(pattern)) {
      var s := InnerWildcardErrs(pattern);
    } else {
      forall s: Text ensures (MaskBit(pattern, s) <==> Like(pattern, s)) <==> pattern != [] || s == [] {
        SimpleLikeIsLike(pattern, s);
      }
      if pattern == [] {
        var a: Text := [97];
        assert !(MaskBit(pattern, a) <==> Like(pattern, a));
      }
    }
  }

  /** A column of one text, as `new` builds it (kept) and as `remap` leaves it (not kept). */
  function OneText(s: Text, kept: bool): Column { Column(if kept then [s] else [], [0, |s|], s) }

  lemma OneTextValid(s: Text, kept: bool)
    ensures Valid(OneText(s, kept)) && Len(OneText(s, kept)) == 1 && Get(OneText(s, kept), 0) == s
  {
    assert s[0..|s|] == s;
  }

  /** A wrong bit makes the mask of a one-row column wrong, and so does a scan of strings that were not kept. */
  lemma OneRowErrs(pattern: Text, s: Text, kept: bool) returns (col: Column, mask: seq<bool>)
    requires (kept && MaskBit(pattern, s) != Like(pattern, s)) || (!kept && ScansStrings(pattern))
    ensures col == OneText(s, kept) && Valid(col) && Built(col, pattern, mask) && !RightMask(col, pattern, mask)
  {
    col := OneText(s, kept);
    OneTextValid(s, kept);
    mask := if kept then [MaskBit(pattern, s)] else [];
  }

  /** The column kept its strings, as a freshly loaded one does. */
  predicate Kept(col: Column) { |col.strings| == Len(col) }

  /** Every mask built for a column of this kind is the LIKE mask. */
  ghost predicate AlwaysRight(pattern: Text, keptOnly: bool) {
    forall col: Column, mask: seq<bool> | Valid(col) && (keptOnly ==> Kept(col)) && Built(col, pattern, mask) ::
      RightMask(col, pattern, mask)
  }

  /**
   * The mask of every column that kept its strings is the LIKE mask if and only if the pattern is a
   * non-empty one of percents around a literal; of every column, remapped ones too, if and only if in
   * addition it needs no contains scan.
   */
  lemma LikeMaskExact(pattern: Text)
    ensures AlwaysRight(pattern, true) <==> pattern != [] && Literal(Middle(pattern))
    ensures AlwaysRight(pattern, false) <==> pattern != [] && Literal(Middle(pattern)) && !ScansStrings(pattern)
  {
    LikeBitExact(pattern);
    if pattern != [] && Literal(Middle(pattern)) {
      forall col: Column, mask: seq<bool> | Valid(col) && Built(col, pattern, mask)
        ensures RightMask(col, pattern, mask) <==> (ScansStrings(pattern) ==> Kept(col))
      {
        LiteralMaskExact(col, pattern, mask);
      }
      if ScansStrings(pattern) {
        var _, _ := OneRowErrs(pattern, [97], false);
        assert !Kept(OneText([97], false));
      }
    } else {
      var s: Text :| MaskBit(pattern, s) != Like(pattern, s);
      var _, _ := OneRowErrs(pattern, s, true);
      OneTextValid(s, true);
    }
  }

  /** Interior wildcards are out of reach: `a%b` matches "axb", but the mask looks for "ab". */
  lemma InnerWildcardMisses()
    ensures Like([97, PERCENT, 98], [97, 120, 98])
    ensures !MaskBit([97, PERCENT, 98], [97, 120, 98])
  {
    var p: Text := [97, PERCENT, 98];
    var s: Text := [97, 120, 98];
    assert p[1..] == [PERCENT, 98] && p[1..][1..] == [98] && p[1..][1..][1..] == [];
    assert s[1..] == [120, 98] && s[1..][1..] == [98] && s[1..][1..][1..] == [];
    assert Like([98], [98]);
    assert Like([PERCENT, 98], [98]);
    assert Like([PERCENT, 98], [120, 98]);
    assert TrimStart(p) == p && TrimEnd(p) == p;
    assert p[1] == PERCENT && !Literal(p);
    assert Strip(p) == [97, 98] by {
      assert Strip([98]) == [98];
      assert Strip([PERCENT, 98]) == [98];
    }
    forall i: nat ensures !OccursAt(s, [97, 98], i) {
      if i + 2 <= 3 {
        assert s[i..i + 2][0] == s[i] && s[i..i + 2][1] == s[i + 1];
      }
    }
  }
}

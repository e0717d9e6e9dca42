/** What the FM-index count means for the rows it was built from. */
module FmRows {
  import opened Counting
  import opened Machine
  import opened Rotations
  import opened FmIndex

  /** Overlapping occurrences of `w` inside one row. */
  function InRow(row: seq<byte>, w: seq<byte>): nat {
    if row == [] then 0 else (if w <= row then 1 else 0) + InRow(row[1..], w)
  }

  function InRows(rows: seq<seq<byte>>, w: seq<byte>): nat {
    if rows == [] then 0 else InRows(rows[..|rows| - 1], w) + InRow(rows[|rows| - 1], w)
  }

  /** A separator that is not in the word cuts the text into independent halves. */
  lemma {:induction false} SeparatorCuts(x: seq<byte>, y: seq<byte>, w: seq<byte>)
    requires w != [] && NEWLINE !in w
    ensures InRow(x + [NEWLINE] + y, w) == InRow(x, w) + InRow(y, w)
  {
    var s := x + [NEWLINE] + y;
    if |x| < |w| {
      assert s[|x|] == NEWLINE && w[|x|] in w;
      assert !(w <= s);
    }
    if x == [] {
      assert s[1..] == y;
    } else {
      assert s[1..] == x[1..] + [NEWLINE] + y;
      assert w <= s <==> w <= x;
      SeparatorCuts(x[1..], y, w);
    }
  }

  lemma {:induction false} InText(rows: seq<seq<byte>>, w: seq<byte>)
    requires w != [] && NEWLINE !in w
    ensures InRow(Text(rows), w) == InRows(rows, w)
  {
    if rows != [] {
      var init, row := rows[..|rows| - 1], rows[|rows| - 1];
      InText(init, w);
      var x := Text(init);
      assert Text(rows) == x + (row + [NEWLINE]);
      SeparatorCuts(row, [], w);
      assert row + [NEWLINE] + [] == row + [NEWLINE];
      if x != [] {
        var x' := x[..|x| - 1];
        assert x == x' + [NEWLINE];
        assert x == x' + [NEWLINE] + [];
        assert Text(rows) == x' + [NEWLINE] + (row + [NEWLINE]);
        SeparatorCuts(x', row + [NEWLINE], w);
        SeparatorCuts(x', [], w);
      } else {
        assert Text(rows) == row + [NEWLINE];
      }
    }
  }

  /** A match of a word without the closing byte of the text never reads round the end. */
  lemma {:induction false} MatchIsLinear(text: seq<byte>, a: nat, w: seq<byte>)
    requires a < |text| && text[|text| - 1] !in w
    ensures Matches(text, a, w) <==> w <= text[a..]
    decreases |w|
  {
    if w != [] && text[a] == w[0] {
      assert a + 1 < |text|;
      MatchIsLinear(text, a + 1, w[1..]);
      assert text[a..] == [text[a]] + text[a + 1..];
      assert w == [w[0]] + w[1..];
      if w[1..] <= text[a + 1..] {
        assert w <= text[a..];
      }
      if w <= text[a..] {
        assert w[1..] == text[a..][..|w|][1..] == text[a + 1..][..|w| - 1];
      }
    }
  }

  lemma {:induction false} LinearCount(text: seq<byte>, w: seq<byte>, a: nat)
    requires a <= |text| && (text != [] ==> text[|text| - 1] !in w)
    ensures Count(Positions(|text|)[a..], MatchesWord(text, w)) == InRow(text[a..], w)
    decreases |text| - a
  {
    if a < |text| {
      MatchIsLinear(text, a, w);
      assert Positions(|text|)[a..][1..] == Positions(|text|)[a + 1..];
      assert text[a..][1..] == text[a + 1..];
      LinearCount(text, w, a + 1);
    }
  }

  /**
   * For every list of rows and every non-empty pattern without a newline, the cyclic count is the sum
   * of the occurrences inside each row: nothing crosses a separator and nothing wraps round.
   */
  lemma RowLevelCount(rows: seq<seq<byte>>, w: seq<byte>)
    requires w != [] && NEWLINE !in w
    ensures Occurrences(Text(rows), w) == InRows(rows, w)
  {
    var text := Text(rows);
    LinearCount(text, w, 0);
    assert Positions(|text|)[0..] == Positions(|text|) && text[0..] == text;
    InText(rows, w);
  }

  /** Bytes above the separator keep a checked build from underflowing. */
  lemma NoUnderflow(rows: seq<seq<byte>>, pattern: seq<byte>)
    requires forall k | 0 <= k < |pattern| :: pattern[k] > NEWLINE
    ensures !Underflows(Text(rows), pattern)
  {
    var text := Text(rows);
    forall i | 0 <= i < |pattern| ensures !UnderflowsAt(text, pattern, i) {
      if pattern[i] in text {
        assert AtMost(text, |text| - 1, pattern[i..]);
      }
    }
  }

  /** The index built from `rows` answers `count` with the row-level total, in either kind of build. */
  method CountInRows(rows: seq<seq<byte>>, pattern: seq<byte>, mode: Arithmetic) returns (r: CountResult)
    requires |Text(rows)| <= MAX_VEC
    ensures r.Panic? <==> mode.Checked? && Underflows(Text(rows), pattern)
    ensures pattern == [] ==> r == Done(0)
    ensures pattern != [] && NEWLINE !in pattern && r.Done? ==> r == Done(InRows(rows, pattern))
    ensures mode.Wrapping? || (forall k | 0 <= k < |pattern| :: pattern[k] > NEWLINE) ==> r.Done?
  {
    var fm, sa := Build(rows);
    r := CountPattern(fm, pattern, mode, Text(rows), sa);
    if pattern != [] && NEWLINE !in pattern {
      RowLevelCount(rows, pattern);
    }
    if forall k | 0 <= k < |pattern| :: pattern[k] > NEWLINE {
      NoUnderflow(rows, pattern);
    }
  }

  /** A word that starts the text at `a` and ends inside it is a match, whatever bytes it holds. */
  lemma {:induction false} InsideMatches(text: seq<byte>, a: nat, w: seq<byte>)
    requires a + |w| < |text| && text[a..a + |w|] == w
    ensures Matches(text, a, w)
    decreases |w|
  {
    if w != [] {
      assert text[a] == w[0];
      assert text[a + 1..a + |w|] == w[1..];
      InsideMatches(text, a + 1, w[1..]);
    }
  }

  lemma {:induction false} TooShort(row: seq<byte>, w: seq<byte>)
    requires |row| < |w|
    ensures InRow(row, w) == 0
  {
    if row != [] {
      TooShort(row[1..], w);
    }
  }

  /** A pattern that holds the separator is found across the two rows it cuts, which do not contain it. */
  lemma SeparatorIsCounted(x: seq<byte>, y: seq<byte>)
    ensures var w := x + [NEWLINE] + y; Occurrences(Text([x, y]), w) > 0 == InRows([x, y], w)
  {
    var w := x + [NEWLINE] + y;
    assert [x, y][..1] == [x] && [x, y][1] == y && [x][..0] == [] && [x][0] == x;
    assert Text([x]) == x + [NEWLINE] by { assert Text([]) == []; }
    assert Text([x, y]) == Text([x]) + y + [NEWLINE] == w + [NEWLINE];
    assert InRows([x], w) == InRow(x, w) by { assert InRows([], w) == 0; }
    assert (w + [NEWLINE])[0..|w|] == w;
    InsideMatches(w + [NEWLINE], 0, w);
    assert MatchesWord(w + [NEWLINE], w)(Positions(|w| + 1)[0]);
    CountZero(Positions(|w| + 1), MatchesWord(w + [NEWLINE], w));
    TooShort(x, w);
    TooShort(y, w);
  }

  /** The count is the row-level total for every list of rows if and only if the pattern has no newline. */
  lemma RowLevelExact(w: seq<byte>)
    requires w != []
    ensures (forall rows: seq<seq<byte>> :: Occurrences(Text(rows), w) == InRows(rows, w)) <==> NEWLINE !in w
  {
    if NEWLINE !in w {
      forall rows: seq<seq<byte>> ensures Occurrences(Text(rows), w) == InRows(rows, w) {
        RowLevelCount(rows, w);
      }
    } else {
      var i :| 0 <= i < |w| && w[i] == NEWLINE;
      assert w == w[..i] + [NEWLINE] + w[i + 1..];
      SeparatorIsCounted(w[..i], w[i + 1..]);
    }
  }

  /** A checked build panics on a pattern below the separator: two tabs against the row "\ta". */
  lemma TabsPanic()
    ensures Underflows(Text([[9, 97]]), [9, 9])
  {
    assert [[9, 97]][..0] == [];
    var text: seq<byte> := [9, 97, 10];
    assert Text([[9, 97]]) == text;
    var w: seq<byte> := [9, 9];
    assert w[1..] == [9] && w[1..][1..] == [] && w[0..] == w;
    assert Matches(text, 0, w[1..]);
    assert MatchesWord(text, w[1..])(Positions(3)[0]);
    CountZero(Positions(3), MatchesWord(text, w[1..]));
    assert !AtMost(text, 0, w) && !AtMost(text, 1, w) && !AtMost(text, 2, w);
    assert UnderflowsAt(text, w, 0);
  }
}

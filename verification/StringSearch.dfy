/** `StringSearchColumn` and `memchr_search` of `src/exec/fm_index.rs`. */
module StringSearch {
  import opened Machine

  type Text = seq<byte>

  /** `needle` stands in `haystack` at position `i`. */
  predicate OccursAt(haystack: Text, needle: Text, i: nat) {
    i + |needle| <= |haystack| && haystack[i..i + |needle|] == needle
  }

  ghost predicate Contains(haystack: Text, needle: Text) {
    exists i: nat :: OccursAt(haystack, needle, i)
  }

  /** The position of the next `b` at or after `from`, or the length if there is none. */
  method FindByte(haystack: Text, b: byte, from: nat) returns (at: nat)
    requires from <= |haystack|
    ensures from <= at <= |haystack| && (at < |haystack| ==> haystack[at] == b)
    ensures forall i | from <= i < at :: haystack[i] != b
  {
    at := from;
    while at < |haystack| && haystack[at] != b
      invariant from <= at <= |haystack|
      invariant forall i | from <= i < at :: haystack[i] != b
    {
      at := at + 1;
    }
  }

  /** Skipping to the first byte of the needle never misses an occurrence. */
  method MemchrSearch(haystack: Text, needle: Text) returns (found: bool)
    ensures found <==> Contains(haystack, needle)
  {
    if needle == [] {
      assert OccursAt(haystack, needle, 0);
      return true;
    }
    if |needle| > |haystack| {
      return false;
    }
    var first := needle[0];
    var pos := 0;
    while pos + |needle| <= |haystack|
      invariant 0 <= pos <= |haystack|
      invariant forall i: nat | i < pos :: !OccursAt(haystack, needle, i)
    {
      var start := FindByte(haystack, first, pos);
      forall i: nat | pos <= i < start ensures !OccursAt(haystack, needle, i) {
        assert i + |needle| <= |haystack| ==> haystack[i..i + |needle|][0] == haystack[i];
      }
      if start == |haystack| {
        return false;
      }
      if start + |needle| <= |haystack| && haystack[start..start + |needle|] == needle {
        assert OccursAt(haystack, needle, start);
        return true;
      }
      pos := start + 1;
    }
    return false;
  }

  // ---------------------------------------------------------------- the column

  datatype Column = Column(strings: seq<Text>, offsets: seq<nat>, bytes: Text)

  /** Offsets are ordered positions in the byte buffer, the last one its end. */
  ghost predicate Framed(col: Column) {
    && |col.offsets| > 0 && col.offsets[|col.offsets| - 1] == |col.bytes|
    && (forall i, j | 0 <= i <= j < |col.offsets| :: col.offsets[i] <= col.offsets[j])
  }

  /** The strings, when kept, are the slices of the buffer. */
  ghost predicate Valid(col: Column) {
    && Framed(col)
    && (col.strings != [] ==> |col.offsets| == |col.strings| + 1)
    && (forall i | 0 <= i < |col.strings| :: col.strings[i] == col.bytes[col.offsets[i]..col.offsets[i + 1]])
  }

  function Len(col: Column): nat {
    if col.strings != [] then |col.strings| else if |col.offsets| == 0 then 0 else |col.offsets| - 1
  }

  function Get(col: Column, i: nat): Text
    requires Valid(col)
  {
    if i < |col.strings| then col.strings[i]
    else if i + 1 < |col.offsets| then col.bytes[col.offsets[i]..col.offsets[i + 1]]
    else []
  }

  /** The slice `remap` copies for index `i`; an index past the end copies nothing. */
  function Slice(col: Column, i: nat): Text
    requires Framed(col)
  {
    var start := if i < |col.offsets| then col.offsets[i] else |col.bytes|;
    var end := if i + 1 < |col.offsets| then col.offsets[i + 1] else |col.bytes|;
    col.bytes[start..end]
  }

  /** Text `i` lies in the buffer from its offset to the next one. */
  ghost predicate PackedAt(bytes: Text, offsets: seq<nat>, texts: seq<Text>, i: nat)
    requires |offsets| == |texts| && i < |texts|
  {
    var end := EndOf(bytes, offsets, i);
    offsets[i] + |texts[i]| == end <= |bytes| && bytes[offsets[i]..end] == texts[i]
  }

  ghost function EndOf(bytes: Text, offsets: seq<nat>, i: nat): nat
    requires i < |offsets|
  {
    if i + 1 < |offsets| then offsets[i + 1] else |bytes|
  }

  /** The buffer is the texts one after another, and each offset is where its text starts. */
  ghost predicate Packs(bytes: Text, offsets: seq<nat>, texts: seq<Text>) {
    && |offsets| == |texts|
    && (forall i | 0 <= i < |texts| :: PackedAt(bytes, offsets, texts, i))
    && (forall i, j | 0 <= i <= j < |offsets| :: offsets[i] <= offsets[j])
  }

  lemma PackedStays(bytes: Text, offsets: seq<nat>, texts: seq<Text>, t: Text, i: nat)
    requires |offsets| == |texts| && i < |texts| && PackedAt(bytes, offsets, texts, i)
    ensures PackedAt(bytes + t, offsets + [|bytes|], texts + [t], i)
  {
    var a, z := offsets[i], EndOf(bytes, offsets, i);
    assert EndOf(bytes + t, offsets + [|bytes|], i) == z;
    assert (bytes + t)[a..z] == bytes[a..z];
  }

  lemma PackedLast(bytes: Text, offsets: seq<nat>, texts: seq<Text>, t: Text)
    requires |offsets| == |texts|
    ensures PackedAt(bytes + t, offsets + [|bytes|], texts + [t], |texts|)
  {
    assert (bytes + t)[|bytes|..|bytes| + |t|] == t;
  }

  lemma PackOne(bytes: Text, offsets: seq<nat>, texts: seq<Text>, t: Text)
    requires Packs(bytes, offsets, texts)
    ensures Packs(bytes + t, offsets + [|bytes|], texts + [t])
  {
    forall i | 0 <= i <= |texts| ensures PackedAt(bytes + t, offsets + [|bytes|], texts + [t], i) {
      if i < |texts| {
        PackedStays(bytes, offsets, texts, t, i);
      } else {
        PackedLast(bytes, offsets, texts, t);
      }
    }
    ClosedOffsets(bytes, offsets, texts);
  }

  lemma ClosedOffsets(bytes: Text, offsets: seq<nat>, texts: seq<Text>)
    requires Packs(bytes, offsets, texts)
    ensures forall i, j | 0 <= i <= j <= |offsets| :: (offsets + [|bytes|])[i] <= (offsets + [|bytes|])[j]
  {
    forall i | 0 <= i < |offsets| ensures offsets[i] <= |bytes| {
      assert PackedAt(bytes, offsets, texts, i);
    }
  }

  /** Closing the offsets makes a column whose rows are the texts. */
  lemma PackedRows(strings: seq<Text>, bytes: Text, offsets: seq<nat>, texts: seq<Text>)
    requires Packs(bytes, offsets, texts) && (strings == [] || strings == texts)
    ensures var col := Column(strings, offsets + [|bytes|], bytes);
            Valid(col) && Len(col) == |texts| && forall i | 0 <= i < |texts| :: Get(col, i) == texts[i]
  {
    var col := Column(strings, offsets + [|bytes|], bytes);
    ClosedOffsets(bytes, offsets, texts);
    forall i | 0 <= i < |texts| ensures Slice(col, i) == texts[i] {
      assert PackedAt(bytes, offsets, texts, i);
    }
  }

  method NewColumn(strings: seq<Text>) returns (col: Column)
    ensures Valid(col) && col.strings == strings && Len(col) == |strings|
    ensures forall i | 0 <= i < |strings| :: Get(col, i) == strings[i]
  {
    var bytes: Text := [];
    var offsets: seq<nat> := [];
    for k := 0 to |strings|
      invariant Packs(bytes, offsets, strings[..k])
    {
      PackOne(bytes, offsets, strings[..k], strings[k]);
      assert strings[..k + 1] == strings[..k] + [strings[k]];
      offsets := offsets + [|bytes|];
      bytes := bytes + strings[k];
    }
    assert strings[..|strings|] == strings;
    PackedRows(strings, bytes, offsets, strings);
    col := Column(strings, offsets + [|bytes|], bytes);
  }

  lemma SliceIsGet(col: Column, i: nat)
    requires Valid(col)
    ensures Slice(col, i) == Get(col, i)
  {
  }

  /** `remap` of any indices, repeated or out of range, selects exactly those rows. */
  method Remap(col: Column, indices: seq<nat>) returns (col': Column)
    requires Valid(col)
    ensures Valid(col') && col'.strings == [] && Len(col') == |indices|
    ensures forall j | 0 <= j < |indices| :: Get(col', j) == Get(col, indices[j])
  {
    var bytes: Text := [];
    var offsets: seq<nat> := [];
    ghost var texts := [];
    for k := 0 to |indices|
      invariant Packs(bytes, offsets, texts) && |texts| == k
      invariant forall j | 0 <= j < k :: texts[j] == Get(col, indices[j])
    {
      var i := indices[k];
      var start := if i < |col.offsets| then col.offsets[i] else |col.bytes|;
      var end := if i + 1 < |col.offsets| then col.offsets[i + 1] else |col.bytes|;
      SliceIsGet(col, i);
      PackOne(bytes, offsets, texts, col.bytes[start..end]);
      texts := texts + [col.bytes[start..end]];
      offsets := offsets + [|bytes|];
      bytes := bytes + col.bytes[start..end];
    }
    PackedRows([], bytes, offsets, texts);
    col' := Column([], offsets + [|bytes|], bytes);
  }

  /** The mask covers the kept strings only: none for a remapped column. */
  method LikeContainsMask(col: Column, pattern: Text) returns (mask: seq<bool>)
    requires Valid(col)
    ensures |mask| == |col.strings|
    ensures forall i | 0 <= i < |mask| :: mask[i] <==> Contains(Get(col, i), pattern)
  {
    if pattern == [] {
      mask := seq(|col.strings|, _ => true);
      forall i | 0 <= i < |mask| ensures Contains(Get(col, i), pattern) {
        assert OccursAt(Get(col, i), pattern, 0);
      }
      return;
    }
    mask := [];
    for i := 0 to |col.strings|
      invariant |mask| == i
      invariant forall j | 0 <= j < i :: mask[j] <==> Contains(Get(col, j), pattern)
    {
      var start, end := col.offsets[i], col.offsets[i + 1];
      var found := MemchrSearch(col.bytes[start..end], pattern);
      mask := mask + [found];
    }
  }
}

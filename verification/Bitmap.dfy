/** The packed row bitmap of `src/exec/bitmap.rs` and its unrolled filter kernels. */
module BitmapKernels {
  import opened Bits
  import opened Counting
  import opened Machine

  /** Bit `i` lives in byte `i >> 3` at position `i & 7`. */
  predicate BitAt(bytes: seq<byte>, i: nat) {
    i / 8 < |bytes| && Bit(bytes[i / 8], i % 8)
  }

  /** One bit per row, and every bit past the last row clear. */
  ghost predicate Holds(bytes: seq<byte>, rows: seq<bool>) {
    && |bytes| == (|rows| + 7) / 8
    && forall i: nat {:trigger BitAt(bytes, i)} :: BitAt(bytes, i) <==> i < |rows| && rows[i]
  }

  // ---------------------------------------------------------------- bytes

  /** Eight lanes to a mask byte, lane 0 in the lowest bit. */
  function PackLanes(lanes: seq<bool>): (b: nat)
    ensures b < Pow2(|lanes|)
  {
    if lanes == [] then 0 else (if lanes[0] then 1 else 0) + 2 * PackLanes(lanes[1..])
  }

  lemma {:induction false} PackLanesBit(lanes: seq<bool>, j: nat)
    ensures Bit(PackLanes(lanes), j) <==> j < |lanes| && lanes[j]
    decreases j
  {
    if lanes == [] {
      BitOfZero(j);
    } else if j > 0 {
      assert PackLanes(lanes) / 2 == PackLanes(lanes[1..]);
      PackLanesBit(lanes[1..], j - 1);
    }
  }

  lemma Pow2Of8()
    ensures Pow2(8) == 256
  {
  }

  function OrByte(a: byte, b: byte): byte {
    Pow2Of8();
    OrBound(a, b, 8);
    Or(a, b)
  }

  function AndByte(a: byte, b: byte): byte {
    AndBound(a, b);
    And(a, b)
  }

  lemma {:induction false} AndBound(a: nat, b: nat)
    ensures And(a, b) <= a
    decreases a + b
  {
    if a != 0 && b != 0 {
      AndBound(a / 2, b / 2);
    }
  }

  function NotByte(a: byte): byte { 255 - a }

  /** Complement within `k` bits. */
  lemma {:induction false} BitNot(a: nat, k: nat, j: nat)
    requires a < Pow2(k)
    ensures Bit(Pow2(k) - 1 - a, j) <==> j < k && !Bit(a, j)
    decreases k
  {
    if k == 0 {
      BitOfZero(j);
    } else {
      assert Pow2(k) - 1 - a == 2 * (Pow2(k - 1) - 1 - a / 2) + (1 - a % 2);
      assert (Pow2(k) - 1 - a) / 2 == Pow2(k - 1) - 1 - a / 2;
      if j > 0 {
        BitNot(a / 2, k - 1, j - 1);
      }
    }
  }

  lemma NotByteBit(a: byte, j: nat)
    ensures Bit(NotByte(a), j) <==> j < 8 && !Bit(a, j)
  {
    Pow2Of8();
    BitNot(a, 8, j);
  }

  function OneBit(i: nat): byte {
    SmallPow2(i % 8);
    Pow2(i % 8)
  }

  lemma {:induction false} SmallPow2(j: nat)
    requires j < 8
    ensures Pow2(j) < 256
  {
    if j > 0 {
      assert Pow2(7) == 128;
      Pow2Ascends(j, 7);
    }
  }

  lemma {:induction false} Pow2Ascends(j: nat, k: nat)
    requires j <= k
    ensures Pow2(j) <= Pow2(k)
    decreases k - j
  {
    if j < k {
      Pow2Ascends(j, k - 1);
    }
  }

  /** Writing one byte changes its own eight bits only. */
  lemma WriteByte(bytes: seq<byte>, k: nat, b: byte, i: nat)
    requires k < |bytes|
    ensures BitAt(bytes[k := b], i) <==> if i / 8 == k then Bit(b, i % 8) else BitAt(bytes, i)
  {
  }

  // ---------------------------------------------------------------- popcount

  function Ones(b: nat): nat { if b == 0 then 0 else b % 2 + Ones(b / 2) }

  lemma {:induction false} OnesOfLanes(lanes: seq<bool>)
    ensures Ones(PackLanes(lanes)) == Count(lanes, IsTrue())
  {
    if lanes != [] {
      OnesOfLanes(lanes[1..]);
      assert PackLanes(lanes) / 2 == PackLanes(lanes[1..]);
    }
  }

  function TotalOnes(bytes: seq<byte>): nat {
    if bytes == [] then 0 else TotalOnes(bytes[..|bytes| - 1]) + Ones(bytes[|bytes| - 1])
  }

  function Lanes(bytes: seq<byte>, k: nat): (lanes: seq<bool>)
    ensures |lanes| == 8
    ensures forall j | 0 <= j < 8 :: lanes[j] == BitAt(bytes, 8 * k + j)
  {
    seq(8, j requires 0 <= j < 8 => BitAt(bytes, 8 * k + j))
  }

  /** A byte is the packing of its own lanes. */
  lemma ByteIsLanes(bytes: seq<byte>, k: nat)
    requires k < |bytes|
    ensures bytes[k] == PackLanes(Lanes(bytes, k))
  {
    var lanes := Lanes(bytes, k);
    forall j: nat ensures Bit(bytes[k], j) <==> Bit(PackLanes(lanes), j) {
      PackLanesBit(lanes, j);
      if j < 8 {
        assert (8 * k + j) / 8 == k && (8 * k + j) % 8 == j;
        assert lanes[j] == BitAt(bytes, 8 * k + j);
      } else {
        HighBit(bytes[k], j);
      }
    }
    SameBits(bytes[k], PackLanes(lanes));
  }

  lemma HighBit(b: byte, j: nat)
    requires j >= 8
    ensures !Bit(b, j)
  {
    Pow2Of8();
    BeyondTop(b, 8, j);
  }

  lemma {:induction false} BeyondTop(n: nat, k: nat, j: nat)
    requires n < Pow2(k) && j >= k
    ensures !Bit(n, j)
    decreases k
  {
    if k == 0 {
      BitOfZero(j);
    } else {
      BeyondTop(n / 2, k - 1, j - 1);
    }
  }

  /** The first `k` bytes hold as many ones as their rows hold matches. */
  lemma {:induction false} OnesUpTo(bytes: seq<byte>, padded: seq<bool>, k: nat)
    requires k <= |bytes| && |padded| == 8 * |bytes|
    requires forall i | 0 <= i < |padded| :: padded[i] == BitAt(bytes, i)
    ensures TotalOnes(bytes[..k]) == Count(padded[..8 * k], IsTrue())
    decreases k
  {
    if k > 0 {
      OnesUpTo(bytes, padded, k - 1);
      assert bytes[..k][..k - 1] == bytes[..k - 1];
      ByteIsLanes(bytes, k - 1);
      OnesOfLanes(Lanes(bytes, k - 1));
      assert padded[..8 * k] == padded[..8 * (k - 1)] + Lanes(bytes, k - 1);
      CountAppend(padded[..8 * (k - 1)], Lanes(bytes, k - 1), IsTrue());
    }
  }

  /** `count_ones` counts the matching rows. */
  lemma CountOnesIsCount(bytes: seq<byte>, rows: seq<bool>)
    requires Holds(bytes, rows)
    ensures TotalOnes(bytes) == Count(rows, IsTrue())
  {
    var padded := seq(8 * |bytes|, i requires 0 <= i < 8 * |bytes| => BitAt(bytes, i));
    OnesUpTo(bytes, padded, |bytes|);
    assert bytes[..|bytes|] == bytes && padded[..8 * |bytes|] == padded;
    var tail := padded[|rows|..];
    assert padded == rows + tail;
    CountAppend(rows, tail, IsTrue());
    CountNone(tail, IsTrue());
  }

  // ---------------------------------------------------------------- the bitmap

  class Bitmap {
    var bits: seq<byte>
    const len: nat
    ghost var rows: seq<bool>

    ghost predicate Valid()
      reads this
    {
      |rows| == len && Holds(bits, rows)
    }

    constructor (len: nat)
      ensures this.len == len && Valid() && rows == seq(len, _ => false)
    {
      this.len := len;
      bits := Zeros((len + 7) / 8);
      rows := seq(len, _ => false);
      ZerosHold(len);
    }

    method Set(i: nat)
      requires Valid() && i < len
      modifies this
      ensures Valid() && rows == old(rows)[i := true]
    {
      SetHolds(bits, rows, i);
      bits := bits[i / 8 := OrByte(bits[i / 8], OneBit(i))];
      rows := rows[i := true];
    }

    method Clear(i: nat)
      requires Valid() && i < len
      modifies this
      ensures Valid() && rows == old(rows)[i := false]
    {
      ClearHolds(bits, rows, i);
      bits := bits[i / 8 := AndByte(bits[i / 8], NotByte(OneBit(i)))];
      rows := rows[i := false];
    }

    method Get(i: nat) returns (b: bool)
      requires Valid() && i < len
      ensures b == rows[i]
    {
      assert BitAt(bits, i) <==> rows[i];
      b := Bit(bits[i / 8], i % 8);
    }

    method CountOnes() returns (n: nat)
      requires Valid()
      ensures n == Count(rows, IsTrue())
    {
      n := 0;
      for k := 0 to |bits|
        invariant n == TotalOnes(bits[..k])
      {
        assert bits[..k + 1][..k] == bits[..k];
        n := n + Ones(bits[k]);
      }
      assert bits[..|bits|] == bits;
      CountOnesIsCount(bits, rows);
    }

    /** The shorter length wins. */
    method And(other: Bitmap) returns (r: Bitmap)
      requires Valid() && other.Valid()
      ensures r.Valid() && r.len == (if len <= other.len then len else other.len)
      ensures forall i | 0 <= i < r.len :: r.rows[i] == (rows[i] && other.rows[i])
    {
      var n := if len <= other.len then len else other.len;
      r := new Bitmap(n);
      var bytes: seq<byte> := [];
      for k := 0 to |r.bits|
        invariant |bytes| == k
        invariant forall j | 0 <= j < k :: bytes[j] == AndByte(bits[j], other.bits[j])
      {
        bytes := bytes + [AndByte(bits[k], other.bits[k])];
      }
      r.bits := bytes;
      r.rows := seq(n, i requires 0 <= i < n && n <= |rows| && n <= |other.rows| reads this, other =>
                         rows[i] && other.rows[i]);
      AndHolds(bits, rows, other.bits, other.rows, bytes, r.rows);
    }

    /** Complement, with the bits past the last row cleared again. */
    method Not() returns (r: Bitmap)
      requires Valid()
      ensures r.Valid() && r.len == len && forall i | 0 <= i < len :: r.rows[i] == !rows[i]
    {
      r := new Bitmap(len);
      var bytes: seq<byte> := [];
      for k := 0 to |bits|
        invariant |bytes| == k
        invariant forall j | 0 <= j < k :: bytes[j] == NotByte(bits[j])
      {
        bytes := bytes + [NotByte(bits[k])];
      }
      ghost var inverted := bytes;
      var used := len % 8;
      if used > 0 {
        var last := |bytes| - 1;
        SmallPow2(used);
        bytes := bytes[last := AndByte(bytes[last], Pow2(used) - 1)];
      }
      r.bits := bytes;
      r.rows := seq(len, i requires 0 <= i < len reads this requires len <= |rows| => !rows[i]);
      NotHolds(bits, rows, inverted, bytes, r.rows);
    }
  }

  function Zeros(n: nat): (z: seq<byte>)
    ensures |z| == n && forall k | 0 <= k < n :: z[k] == 0
  {
    seq(n, _ => 0)
  }

  lemma ZerosHold(len: nat)
    ensures Holds(Zeros((len + 7) / 8), seq(len, _ => false))
  {
    var bytes := Zeros((len + 7) / 8);
    forall i: nat ensures !BitAt(bytes, i) {
      BitOfZero(i % 8);
    }
  }

  lemma SetHolds(bytes: seq<byte>, rows: seq<bool>, i: nat)
    requires Holds(bytes, rows) && i < |rows|
    ensures Holds(bytes[i / 8 := OrByte(bytes[i / 8], OneBit(i))], rows[i := true])
  {
    var bytes' := bytes[i / 8 := OrByte(bytes[i / 8], OneBit(i))];
    forall n: nat ensures BitAt(bytes', n) <==> n < |rows| && rows[i := true][n] {
      WriteByte(bytes, i / 8, OrByte(bytes[i / 8], OneBit(i)), n);
      BitOr(bytes[i / 8], OneBit(i), n % 8);
      BitOfPow2(i % 8, n % 8);
      assert n / 8 == i / 8 && n % 8 == i % 8 ==> n == i;
      assert BitAt(bytes, n) <==> n < |rows| && rows[n];
    }
  }

  lemma ClearHolds(bytes: seq<byte>, rows: seq<bool>, i: nat)
    requires Holds(bytes, rows) && i < |rows|
    ensures Holds(bytes[i / 8 := AndByte(bytes[i / 8], NotByte(OneBit(i)))], rows[i := false])
  {
    var bytes' := bytes[i / 8 := AndByte(bytes[i / 8], NotByte(OneBit(i)))];
    forall n: nat ensures BitAt(bytes', n) <==> n < |rows| && rows[i := false][n] {
      WriteByte(bytes, i / 8, AndByte(bytes[i / 8], NotByte(OneBit(i))), n);
      BitAnd(bytes[i / 8], NotByte(OneBit(i)), n % 8);
      NotByteBit(OneBit(i), n % 8);
      BitOfPow2(i % 8, n % 8);
      assert n / 8 == i / 8 && n % 8 == i % 8 ==> n == i;
      assert BitAt(bytes, n) <==> n < |rows| && rows[n];
    }
  }

  lemma AndHolds(a: seq<byte>, x: seq<bool>, b: seq<byte>, y: seq<bool>, c: seq<byte>, z: seq<bool>)
    requires Holds(a, x) && Holds(b, y) && |z| <= |x| && |z| <= |y| && (|z| == |x| || |z| == |y|)
    requires |c| == (|z| + 7) / 8 && forall k | 0 <= k < |c| :: c[k] == AndByte(a[k], b[k])
    requires forall i | 0 <= i < |z| :: z[i] == (x[i] && y[i])
    ensures Holds(c, z)
  {
    forall i: nat ensures BitAt(c, i) <==> i < |z| && z[i] {
      assert BitAt(a, i) <==> i < |x| && x[i];
      assert BitAt(b, i) <==> i < |y| && y[i];
      if i / 8 < |c| {
        BitAnd(a[i / 8], b[i / 8], i % 8);
      }
    }
  }

  /** Masking the last byte clears the bits past the end. */
  lemma LastByteBit(b: byte, used: nat, j: nat)
    requires Pow2(used) - 1 < 256
    ensures Bit(AndByte(b, Pow2(used) - 1), j) <==> Bit(b, j) && j < used
  {
    BitAnd(b, Pow2(used) - 1, j);
    BitNot(0, used, j);
    BitOfZero(j);
  }

  lemma NotHolds(a: seq<byte>, x: seq<bool>, inverted: seq<byte>, c: seq<byte>, z: seq<bool>)
    requires Holds(a, x) && |z| == |x| && |inverted| == |a| && |c| == |a|
    requires forall k | 0 <= k < |a| :: inverted[k] == NotByte(a[k])
    requires |x| % 8 > 0 ==>
             Pow2(|x| % 8) - 1 < 256 && c == inverted[|a| - 1 := AndByte(inverted[|a| - 1], Pow2(|x| % 8) - 1)]
    requires |x| % 8 == 0 ==> c == inverted
    requires forall i | 0 <= i < |z| :: z[i] == !x[i]
    ensures Holds(c, z)
  {
    forall i: nat ensures BitAt(c, i) <==> i < |z| && z[i] {
      assert BitAt(a, i) <==> i < |x| && x[i];
      if i / 8 < |a| {
        NotByteBit(a[i / 8], i % 8);
        if |x| % 8 > 0 && i / 8 == |a| - 1 {
          LastByteBit(inverted[|a| - 1], |x| % 8, i % 8);
        }
      }
    }
  }

  /** Negation turns matches into misses: the counts add up to the number of rows. */
  lemma {:induction false} CountNot(x: seq<bool>, z: seq<bool>)
    requires |z| == |x| && forall i | 0 <= i < |x| :: z[i] == !x[i]
    ensures Count(z, IsTrue()) == |x| - Count(x, IsTrue())
  {
    if x != [] {
      CountNot(x[1..], z[1..]);
    }
  }

  lemma NotCount(a: seq<byte>, x: seq<bool>, c: seq<byte>, z: seq<bool>)
    requires Holds(a, x) && Holds(c, z) && |z| == |x| && forall i | 0 <= i < |x| :: z[i] == !x[i]
    ensures TotalOnes(c) == |x| - TotalOnes(a)
  {
    CountOnesIsCount(a, x);
    CountOnesIsCount(c, z);
    CountNot(x, z);
  }

  /** `or` combines only the bytes both operands have, but answers for the longer length. */
  function OrBytes(a: seq<byte>, b: seq<byte>, len: nat): (c: seq<byte>)
    ensures |c| == (len + 7) / 8
  {
    seq((len + 7) / 8, k requires 0 <= k < (len + 7) / 8 => if k < |a| && k < |b| then OrByte(a[k], b[k]) else 0)
  }

  function RowAt(rows: seq<bool>, i: nat): bool { i < |rows| && rows[i] }

  /** The bitmap of `or` is the pointwise OR exactly when the longer operand has no bit past the shorter one's bytes. */
  lemma OrExact(a: seq<byte>, x: seq<bool>, b: seq<byte>, y: seq<bool>)
    requires Holds(a, x) && Holds(b, y)
    ensures var len := if |x| >= |y| then |x| else |y|;
            var z := seq(len, i requires 0 <= i < len => RowAt(x, i) || RowAt(y, i));
            Holds(OrBytes(a, b, len), z)
            <==> forall i: nat | i / 8 >= |a| || i / 8 >= |b| :: !RowAt(x, i) && !RowAt(y, i)
  {
    var len := if |x| >= |y| then |x| else |y|;
    var z := seq(len, i requires 0 <= i < len => RowAt(x, i) || RowAt(y, i));
    var c := OrBytes(a, b, len);
    forall i: nat
      ensures BitAt(c, i) <==> i / 8 < |a| && i / 8 < |b| && (RowAt(x, i) || RowAt(y, i))
      ensures i < len && z[i] <==> RowAt(x, i) || RowAt(y, i)
    {
      assert BitAt(a, i) <==> RowAt(x, i);
      assert BitAt(b, i) <==> RowAt(y, i);
      BitOfZero(i % 8);
      if i / 8 < |a| && i / 8 < |b| {
        BitOr(a[i / 8], b[i / 8], i % 8);
      }
    }
    if Holds(c, z) {
      forall i: nat | i / 8 >= |a| || i / 8 >= |b| ensures !RowAt(x, i) && !RowAt(y, i) {
        assert BitAt(c, i) <==> i < |z| && z[i];
      }
    }
  }

  /** Row 8 of a bitmap of nine rows is lost in its OR with a bitmap of one row. */
  lemma OrLosesRow()
    ensures var a: seq<byte> := [0, 1];
            BitAt(a, 8) && |OrBytes(a, [0], 9)| == 2 && !BitAt(OrBytes(a, [0], 9), 8)
  {
    BitOfZero(0);
    var a: seq<byte> := [0, 1];
    assert OrBytes(a, [0], 9)[1] == 0 && a[1] == 1;
  }

  // ---------------------------------------------------------------- the filter kernel

  /** The first `i` rows have been compared and nothing past them is set. */
  ghost predicate Compared(bytes: seq<byte>, col: seq<u64>, test: u64 -> bool, i: nat)
    requires i <= |col|
  {
    && |bytes| == (|col| + 7) / 8
    && forall p: nat {:trigger BitAt(bytes, p)} :: BitAt(bytes, p) <==> p < i && test(col[p])
  }

  /** One vector compare: eight lanes to one mask byte. */
  function CompareLanes(col: seq<u64>, test: u64 -> bool, i: nat): byte
    requires i + 8 <= |col|
  {
    Pow2Of8();
    PackLanes(seq(8, j requires 0 <= j < 8 => test(col[i + j])))
  }

  lemma BlockCompared(bytes: seq<byte>, col: seq<u64>, test: u64 -> bool, i: nat)
    requires i + 8 <= |col| && i % 8 == 0 && Compared(bytes, col, test, i)
    ensures Compared(bytes[i / 8 := CompareLanes(col, test, i)], col, test, i + 8)
  {
    var b := CompareLanes(col, test, i);
    var bytes' := bytes[i / 8 := b];
    forall p: nat ensures BitAt(bytes', p) <==> p < i + 8 && test(col[p]) {
      WriteByte(bytes, i / 8, b, p);
      assert BitAt(bytes, p) <==> p < i && test(col[p]);
      PackLanesBit(seq(8, j requires 0 <= j < 8 => test(col[i + j])), p % 8);
      assert p / 8 == i / 8 ==> p == i + p % 8;
    }
  }

  lemma RowCompared(bytes: seq<byte>, col: seq<u64>, test: u64 -> bool, i: nat)
    requires i < |col| && Compared(bytes, col, test, i)
    ensures Compared(if test(col[i]) then bytes[i / 8 := OrByte(bytes[i / 8], OneBit(i))] else bytes, col, test, i + 1)
  {
    var bytes' := if test(col[i]) then bytes[i / 8 := OrByte(bytes[i / 8], OneBit(i))] else bytes;
    forall p: nat ensures BitAt(bytes', p) <==> p < i + 1 && test(col[p]) {
      assert BitAt(bytes, p) <==> p < i && test(col[p]);
      if test(col[i]) {
        WriteByte(bytes, i / 8, OrByte(bytes[i / 8], OneBit(i)), p);
        BitOr(bytes[i / 8], OneBit(i), p % 8);
        BitOfPow2(i % 8, p % 8);
        assert p / 8 == i / 8 && p % 8 == i % 8 ==> p == i;
      }
    }
  }

  /** The four-way unrolled part: 32 rows, four independent mask bytes. */
  method Compare32(bytes: seq<byte>, col: seq<u64>, test: u64 -> bool, i: nat) returns (bytes': seq<byte>)
    requires i + 32 <= |col| && i % 8 == 0 && Compared(bytes, col, test, i)
    ensures Compared(bytes', col, test, i + 32)
  {
    var byteIdx := i / 8;
    BlockCompared(bytes, col, test, i);
    bytes' := bytes[byteIdx := CompareLanes(col, test, i)];
    BlockCompared(bytes', col, test, i + 8);
    bytes' := bytes'[byteIdx + 1 := CompareLanes(col, test, i + 8)];
    BlockCompared(bytes', col, test, i + 16);
    bytes' := bytes'[byteIdx + 2 := CompareLanes(col, test, i + 16)];
    BlockCompared(bytes', col, test, i + 24);
    bytes' := bytes'[byteIdx + 3 := CompareLanes(col, test, i + 24)];
  }

  /** The kernel loops: 32 rows, then 8, then 1 at a time. */
  method CompareColumn(col: seq<u64>, test: u64 -> bool) returns (bytes: seq<byte>)
    ensures Compared(bytes, col, test, |col|)
  {
    var n := |col|;
    bytes := Zeros((n + 7) / 8);
    ZerosHold(n);
    var i := 0;
    while i + 32 <= n
      invariant 0 <= i <= n && i % 8 == 0 && Compared(bytes, col, test, i)
    {
      bytes := Compare32(bytes, col, test, i);
      i := i + 32;
    }
    while i + 8 <= n
      invariant 0 <= i <= n && i % 8 == 0 && Compared(bytes, col, test, i)
    {
      BlockCompared(bytes, col, test, i);
      bytes := bytes[i / 8 := CompareLanes(col, test, i)];
      i := i + 8;
    }
    while i < n
      invariant 0 <= i <= n && Compared(bytes, col, test, i)
    {
      RowCompared(bytes, col, test, i);
      if test(col[i]) {
        bytes := bytes[i / 8 := OrByte(bytes[i / 8], OneBit(i))];
      }
      i := i + 1;
    }
  }

  /**
   * The unrolled filter, for any comparison and any column length: bit `i` is set exactly when row `i`
   * matches, and the bits past the last row stay clear.
   */
  method FilterKernel(col: seq<u64>, test: u64 -> bool) returns (bm: Bitmap)
    ensures bm.Valid() && bm.len == |col|
    ensures forall i | 0 <= i < |col| :: bm.rows[i] == test(col[i])
  {
    var bytes := CompareColumn(col, test);
    bm := new Bitmap(|col|);
    bm.bits := bytes;
    bm.rows := seq(|col|, p requires 0 <= p < |col| => test(col[p]));
  }

  // ---------------------------------------------------------------- folding into a mask

  /** `and_into_bool`: 64, then 8, then 1 row at a time; the mask becomes the pointwise AND. */
  method AndIntoBool(bm: Bitmap, mask: array<bool>)
    requires bm.Valid() && mask.Length == bm.len
    modifies mask
    ensures forall i | 0 <= i < mask.Length :: mask[i] == (old(mask[i]) && bm.rows[i])
  {
    var n, i := mask.Length, 0;
    while i + 64 <= n
      invariant 0 <= i <= n
      invariant forall p | 0 <= p < n :: mask[p] == (old(mask[p]) && (p < i ==> bm.rows[p]))
    {
      forall p | i <= p < i + 64 { mask[p] := mask[p] && BitAt(bm.bits, p); }
      i := i + 64;
    }
    while i + 8 <= n
      invariant 0 <= i <= n
      invariant forall p | 0 <= p < n :: mask[p] == (old(mask[p]) && (p < i ==> bm.rows[p]))
    {
      forall p | i <= p < i + 8 { mask[p] := mask[p] && BitAt(bm.bits, p); }
      i := i + 8;
    }
    while i < n
      invariant 0 <= i <= n
      invariant forall p | 0 <= p < n :: mask[p] == (old(mask[p]) && (p < i ==> bm.rows[p]))
    {
      if !BitAt(bm.bits, i) {
        mask[i] := false;
      }
      i := i + 1;
    }
  }

  /** `or_into_bool`: the same blocks; the mask becomes the pointwise OR. */
  method OrIntoBool(bm: Bitmap, mask: array<bool>)
    requires bm.Valid() && mask.Length == bm.len
    modifies mask
    ensures forall i | 0 <= i < mask.Length :: mask[i] == (old(mask[i]) || bm.rows[i])
  {
    var n, i := mask.Length, 0;
    while i + 64 <= n
      invariant 0 <= i <= n
      invariant forall p | 0 <= p < n :: mask[p] == (old(mask[p]) || (p < i && bm.rows[p]))
    {
      forall p | i <= p < i + 64 { mask[p] := mask[p] || BitAt(bm.bits, p); }
      i := i + 64;
    }
    while i + 8 <= n
      invariant 0 <= i <= n
      invariant forall p | 0 <= p < n :: mask[p] == (old(mask[p]) || (p < i && bm.rows[p]))
    {
      forall p | i <= p < i + 8 { mask[p] := mask[p] || BitAt(bm.bits, p); }
      i := i + 8;
    }
    while i < n
      invariant 0 <= i <= n
      invariant forall p | 0 <= p < n :: mask[p] == (old(mask[p]) || (p < i && bm.rows[p]))
    {
      if BitAt(bm.bits, i) {
        mask[i] := true;
      }
      i := i + 1;
    }
  }
}

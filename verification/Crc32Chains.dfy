// crc32_shift and crc32_update_arm of src/zip.c: three independent CRC chains
// recombined by linear maps over GF(2).
module Crc32Chains {
  import opened Bytes
  import opened Crc32
  import opened Crc32Columns
  import opened Crc32Tables
  import opened Crc32Update

  const SEGMENT: nat := 16384
  const SMALL_SEGMENT: nat := 1024

  // ---------------------------------------------------------------- columns

  /** columns[i] & (0u - (value & 1u)) */
  function Masked(column: bv32, value: bv32): bv32 {
    column & (0 - (value & 1))
  }

  /** v moved up by i bits. */
  function Up(v: bv32, i: nat): bv32 {
    if i == 0 then v else Double(Up(v, i - 1))
  }

  lemma DoubleLinear(a: bv32, b: bv32)
    ensures Double(Xor(a, b)) == Xor(Double(a), Double(b))
  {
  }

  lemma {:induction false} UpLinear(a: bv32, b: bv32, i: nat)
    ensures Up(Xor(a, b), i) == Xor(Up(a, i), Up(b, i))
  {
    hide Xor, Double;
    if i > 0 {
      UpLinear(a, b, i - 1);
      DoubleLinear(Up(a, i - 1), Up(b, i - 1));
    }
  }

  lemma {:induction false} UpOfBit(bit: bv32, i: nat)
    requires bit == 0 || bit == 1
    ensures Up(bit, i) == if bit == 1 then Basis(i) else 0
  {
    if i > 0 {
      UpOfBit(bit, i - 1);
    }
  }

  lemma {:induction false} UpOfEven(v: bv32, i: nat)
    ensures Up(Double(v), i) == Up(v, i + 1)
  {
    hide Double;
    if i > 0 {
      UpOfEven(v, i - 1);
    }
  }

  lemma SplitBit(v: bv32)
    ensures v == Xor(v & 1, Double(Half(v)))
    ensures v & 1 == 0 || v & 1 == 1
  {
  }

  /** The low bit of v, moved up, and the rest of v, moved up one more, make up v moved up. */
  lemma UpSplits(v: bv32, i: nat)
    ensures Up(v, i) == Xor(if v & 1 == 1 then Basis(i) else 0, Up(Half(v), i + 1))
  {
    hide Xor, Up, Basis, Half, Double;
    SplitBit(v);
    UpLinear(v & 1, Double(Half(v)), i);
    UpOfBit(v & 1, i);
    UpOfEven(Half(v), i);
  }

  lemma MaskedIs(column: bv32, value: bv32)
    ensures Masked(column, value) == if value & 1 == 1 then column else 0
  {
  }

  /** What is left of v after n halvings. */
  function Halved(v: bv32, n: nat): bv32
    decreases n
  {
    if n == 0 then v else Halved(Half(v), n - 1)
  }

  lemma {:induction false} HalvedAdd(v: bv32, m: nat, n: nat)
    ensures Halved(v, m + n) == Halved(Halved(v, m), n)
    decreases m
  {
    hide Half;
    if m > 0 {
      HalvedAdd(Half(v), m - 1, n);
    }
  }

  lemma HalvedByEight(v: bv32)
    ensures Halved(v, 8) == v >> 8
  {
  }

  lemma FourBytesDown(v: bv32, v1: bv32, v2: bv32, v3: bv32, v4: bv32)
    requires v1 == v >> 8 && v2 == v1 >> 8 && v3 == v2 >> 8 && v4 == v3 >> 8
    ensures v4 == 0
  {
  }

  lemma AllHalved(v: bv32)
    ensures Halved(v, 32) == 0
  {
    hide Halved;
    var v1 := Halved(v, 8);
    var v2 := Halved(v1, 8);
    var v3 := Halved(v2, 8);
    HalvedByEight(v);
    HalvedByEight(v1);
    HalvedByEight(v2);
    HalvedByEight(v3);
    FourBytesDown(v, v1, v2, v3, Halved(v3, 8));
    HalvedAdd(v, 8, 24);
    HalvedAdd(v1, 8, 16);
    HalvedAdd(v2, 8, 8);
  }

  lemma UpNone(v: bv32)
    ensures Up(v, 0) == v
  {
  }

  lemma {:induction false} UpOfZero(i: nat)
    ensures Up(0, i) == 0
  {
    if i > 0 {
      UpOfZero(i - 1);
    }
  }

  /** crc32_shift: applies the linear map whose columns are given; here, n zero bytes. */
  method ShiftByColumns(columns: seq<bv32>, value: bv32, ghost n: nat) returns (result: bv32)
    requires AreColumns(columns, n)
    ensures result == Shift(value, 8 * n)
  {
    hide Xor, Shift, Up, Basis, Half, Masked, Double;
    result := 0;
    ShiftOfZero(8 * n);
    if value == 0 {
      return;
    }
    var v := value;
    AllHalved(value);
    UpNone(value);
    XorZero(Shift(value, 8 * n));
    for i := 0 to 32
      invariant Halved(v, 32 - i) == 0
      invariant Xor(result, Shift(Up(v, i), 8 * n)) == Shift(value, 8 * n)
    {
      var bit := if v & 1 == 1 then Basis(i) else 0;
      MaskedIs(columns[i], v);
      UpSplits(v, i);
      ShiftLinear(bit, Up(Half(v), i + 1), 8 * n);
      XorAssociates(result, Shift(bit, 8 * n), Shift(Up(Half(v), i + 1), 8 * n));
      result := Xor(result, Masked(columns[i], v));
      v := Half(v);
    }
    assert Halved(v, 0) == v;
    UpOfZero(32);
    XorZero(result);
  }

  /** The columns for 2n bytes are the columns for n bytes, each shifted by n more. */
  lemma ColumnsCompose(columns: seq<bv32>, twice: seq<bv32>, n: nat)
    requires AreColumns(columns, n)
    requires |twice| == 32 && forall i :: 0 <= i < 32 ==> twice[i] == Shift(columns[i], 8 * n)
    ensures AreColumns(twice, 2 * n)
  {
    hide Shift, Basis;
    forall i | 0 <= i < 32
      ensures twice[i] == Shift(Basis(i), 8 * (2 * n))
    {
      ShiftAdd(Basis(i), 8 * n, 8 * n);
    }
  }

  // ---------------------------------------------------------------- three chains

  /** Three chains over consecutive segments of n bytes recombine to one. */
  lemma ThreeChains(c: bv32, s1: seq<byte>, s2: seq<byte>, s3: seq<byte>, n: nat)
    requires |s1| == n && |s2| == n && |s3| == n
    ensures Raw(c, s1 + s2 + s3)
         == Xor(Xor(Shift(Raw(c, s1), 8 * (2 * n)), Shift(Raw(0, s2), 8 * n)), Raw(0, s3))
  {
    hide Xor, Raw, Shift;
    var first, second, third := Raw(c, s1), Raw(0, s2), Raw(0, s3);
    RawConcat(c, s1 + s2, s3);
    RawConcat(c, s1, s2);
    RawFromZero(first, s2);
    RawFromZero(Raw(first, s2), s3);
    ShiftLinear(second, Shift(first, 8 * n), 8 * n);
    ShiftAdd(first, 8 * n, 8 * n);
    XorCommutes(Shift(second, 8 * n), Shift(first, 8 * (2 * n)));
    XorCommutes(third, Xor(Shift(first, 8 * (2 * n)), Shift(second, 8 * n)));
  }

  /** __crc32d: the register after the eight bytes of a little-endian word. */
  function Crc32d(c: bv32, w: bv64): bv32 {
    Raw(c, [Lane0(w), Lane1(w), Lane2(w), Lane3(w), Lane4(w), Lane5(w), Lane6(w), Lane7(w)])
  }

  /** __crc32b: the register after one byte. */
  function Crc32b(c: bv32, b: byte): bv32 {
    FeedBits(c, b, 8)
  }

  lemma WordStep(c: bv32, buf: seq<byte>, from: nat, pos: nat)
    requires from <= pos && pos + 8 <= |buf|
    ensures Crc32d(Raw(c, buf[from..pos]), LoadLe64(buf, pos)) == Raw(c, buf[from..pos + 8])
  {
    hide Raw, Word, Lane0, Lane1, Lane2, Lane3, Lane4, Lane5, Lane6, Lane7;
    LanesOfWord(buf[pos], buf[pos + 1], buf[pos + 2], buf[pos + 3],
                buf[pos + 4], buf[pos + 5], buf[pos + 6], buf[pos + 7]);
    var w := LoadLe64(buf, pos);
    assert [Lane0(w), Lane1(w), Lane2(w), Lane3(w), Lane4(w), Lane5(w), Lane6(w), Lane7(w)] == buf[pos..pos + 8];
    assert buf[from..pos + 8] == buf[from..pos] + buf[pos..pos + 8];
    RawConcat(c, buf[from..pos], buf[pos..pos + 8]);
  }

  /** One round of the interleaved loop over three segments of the given size. */
  method ChainSegments(crc: bv32, buf: seq<byte>, pos: nat, segment: nat,
                       shiftTwice: seq<bv32>, shiftOnce: seq<bv32>) returns (r: bv32)
    requires pos + 3 * segment <= |buf| && segment % 8 == 0
    requires AreColumns(shiftTwice, 2 * segment) && AreColumns(shiftOnce, segment)
    ensures r == Raw(crc, buf[pos..pos + 3 * segment])
  {
    hide Xor, Raw, Crc32d, LoadLe64, Shift;
    var first, second, third := crc, 0, 0;
    var i := 0;
    var pos2, pos3 := pos + segment, pos + 2 * segment;
    RawOfEmpty(crc, buf[pos..pos]);
    RawOfEmpty(0, buf[pos2..pos2]);
    RawOfEmpty(0, buf[pos3..pos3]);
    while i < segment
      invariant i <= segment && i % 8 == 0
      invariant first == Raw(crc, buf[pos..pos + i])
      invariant second == Raw(0, buf[pos2..pos2 + i])
      invariant third == Raw(0, buf[pos3..pos3 + i])
    {
      WordStep(crc, buf, pos, pos + i);
      WordStep(0, buf, pos2, pos2 + i);
      WordStep(0, buf, pos3, pos3 + i);
      first := Crc32d(first, LoadLe64(buf, pos + i));
      second := Crc32d(second, LoadLe64(buf, pos2 + i));
      third := Crc32d(third, LoadLe64(buf, pos3 + i));
      i := i + 8;
    }
    var s1, s2, s3 := buf[pos..pos2], buf[pos2..pos3], buf[pos3..pos3 + segment];
    ThreeChains(crc, s1, s2, s3, segment);
    assert buf[pos..pos + 3 * segment] == s1 + s2 + s3;
    first := ShiftByColumns(shiftTwice, first, 2 * segment);
    second := ShiftByColumns(shiftOnce, second, segment);
    r := Xor(Xor(first, second), third);
  }

  /** Half of the unrolled 64-byte step. */
  method FourWords(ghost start: bv32, c: bv32, buf: seq<byte>, pos: nat) returns (r: bv32)
    requires pos + 32 <= |buf| && c == Raw(start, buf[..pos])
    ensures r == Raw(start, buf[..pos + 32])
  {
    hide Raw, Crc32d, LoadLe64;
    WordStep(start, buf, 0, pos);
    WordStep(start, buf, 0, pos + 8);
    WordStep(start, buf, 0, pos + 16);
    WordStep(start, buf, 0, pos + 24);
    r := Crc32d(c, LoadLe64(buf, pos));
    r := Crc32d(r, LoadLe64(buf, pos + 8));
    r := Crc32d(r, LoadLe64(buf, pos + 16));
    r := Crc32d(r, LoadLe64(buf, pos + 24));
  }

  lemma ByteStep(c: bv32, buf: seq<byte>, pos: nat)
    requires pos < |buf|
    ensures Crc32b(Raw(c, buf[..pos]), buf[pos]) == Raw(c, buf[..pos + 1])
  {
    hide Raw, FeedBits;
    RawOneMore(c, buf, pos);
  }

  /** crc32_update_arm: three chains while they pay, then words, then bytes. */
  method UpdateArm(crc: bv32, buf: seq<byte>) returns (r: bv32)
    ensures r == Update(crc, buf)
  {
    hide Not, Raw, Crc32d, Crc32b, LoadLe64, AreColumns;
    ColumnTables();
    ghost var start := Not(crc);
    var c := Not(crc);
    var pos := 0;
    RawOfEmpty(start, buf[..0]);
    while |buf| - pos >= 3 * SEGMENT
      invariant pos <= |buf| && c == Raw(start, buf[..pos])
    {
      RawAdvances(start, buf, pos, pos + 3 * SEGMENT);
      c := ChainSegments(c, buf, pos, SEGMENT, SHIFT_32K, SHIFT_16K);
      pos := pos + 3 * SEGMENT;
    }
    while |buf| - pos >= 3 * SMALL_SEGMENT
      invariant pos <= |buf| && c == Raw(start, buf[..pos])
    {
      RawAdvances(start, buf, pos, pos + 3 * SMALL_SEGMENT);
      c := ChainSegments(c, buf, pos, SMALL_SEGMENT, SHIFT_2K, SHIFT_1K);
      pos := pos + 3 * SMALL_SEGMENT;
    }
    while |buf| - pos >= 64
      invariant pos <= |buf| && c == Raw(start, buf[..pos])
    {
      c := FourWords(start, c, buf, pos);
      c := FourWords(start, c, buf, pos + 32);
      pos := pos + 64;
    }
    while |buf| - pos >= 8
      invariant pos <= |buf| && c == Raw(start, buf[..pos])
    {
      WordStep(start, buf, 0, pos);
      c := Crc32d(c, LoadLe64(buf, pos));
      pos := pos + 8;
    }
    while pos < |buf|
      invariant pos <= |buf| && c == Raw(start, buf[..pos])
    {
      ByteStep(start, buf, pos);
      c := Crc32b(c, buf[pos]);
      pos := pos + 1;
    }
    assert buf[..pos] == buf;
    r := Not(c);
  }
}

// crc32_make_tables of src/zip.c, and what its lookups add up to: the bit-serial
// register after one byte, and after at least four bytes as a sum over all of them.
module Crc32Tables {
  import opened Bytes
  import opened Crc32
  import opened Crc32BaseTable

  // ---------------------------------------------------------------- what a table holds

  /** The contribution of byte x when j more bytes follow it in the register. */
  function Entry(j: nat, x: byte): bv32 {
    Shift(x as bv32, 8 * (j + 1))
  }

  /** table[j][x] */
  function Lookup(tables: array2<bv32>, j: nat, x: byte): bv32
    requires tables.Length0 == 16 && tables.Length1 == 256 && j < 16
    reads tables
  {
    tables[j, x as int]
  }

  function ByteOf(i: int): byte
    requires 0 <= i < 256
  {
    i as bv8
  }

  ghost predicate Ready(tables: array2<bv32>)
    reads tables
  {
    && tables.Length0 == 16 && tables.Length1 == 256
    && forall j, i :: 0 <= j < 16 && 0 <= i < 256 ==> tables[j, i] == Entry(j, ByteOf(i))
  }

  lemma ByteOfIndex(x: byte)
    ensures ByteOf(x as int) == x
  {
  }

  lemma LookupEntry(tables: array2<bv32>, j: nat, x: byte)
    requires Ready(tables) && j < 16
    ensures Lookup(tables, j, x) == Entry(j, x)
  {
  }

  // ---------------------------------------------------------------- mixing in the register

  function LowByte(c: bv32): byte {
    (c & 0xFF) as bv8
  }

  /** The byte that meets input byte b at the bottom of the register. */
  function Mix(c: bv32, b: byte): byte {
    LowByte(c) ^ b
  }

  /** The rest of the register, one byte lower. */
  function Down(c: bv32): bv32 {
    c >> 8
  }

  lemma FourDown(c: bv32)
    ensures Down(Down(Down(Down(c)))) == 0
  {
  }

  lemma SplitLowByte(c: bv32)
    ensures c == Xor(LowByte(c) as bv32, c & 0xFFFF_FF00)
    ensures (c & 0xFFFF_FF00) & 0xFF == 0
    ensures (c & 0xFFFF_FF00) >> 8 == Down(c)
  {
  }

  lemma MixIsXor(c: bv32, b: byte)
    ensures Xor(LowByte(c) as bv32, b as bv32) == Mix(c, b) as bv32
  {
  }

  lemma Regroup(x: bv32, low: bv32, high: bv32, w: bv32)
    ensures Xor(Xor(x, Xor(low, high)), w) == Xor(Xor(x, Xor(low, w)), high)
  {
    hide Xor;
    XorAssociates(x, Xor(low, high), w);
    XorAssociates(low, high, w);
    XorCommutes(high, w);
    XorAssociates(low, w, high);
    XorAssociates(x, Xor(low, w), high);
  }

  /** Of a register c, one byte of input meets the low byte; the rest just moves down. */
  lemma FeedMixes(x: bv32, c: bv32, b: byte)
    ensures FeedBits(Xor(x, c), b, 8) == Xor(FeedBits(x, Mix(c, b), 8), Down(c))
  {
    hide Xor, LowByte, Mix, Down, FeedBits, Step, Shift;
    var low, high, w := LowByte(c) as bv32, c & 0xFFFF_FF00, b as bv32;
    FeedByte(Xor(x, c), b);
    FeedByte(x, Mix(c, b));
    SplitLowByte(c);
    MixIsXor(c, b);
    Regroup(x, low, high, w);
    ShiftLinear(Xor(x, Xor(low, w)), high, 8);
    ShiftMovesDown(high);
  }

  /** crc = table[0][crc & 0xff] ^ (crc >> 8) is one more zero byte. */
  lemma NextTable(c: bv32)
    ensures Shift(c, 8) == Xor(Entry(0, LowByte(c)), Down(c))
  {
    hide Xor, LowByte, Down, Step;
    SplitLowByte(c);
    ShiftLinear(LowByte(c) as bv32, c & 0xFFFF_FF00, 8);
    ShiftMovesDown(c & 0xFFFF_FF00);
  }

  /** crc = (crc >> 8) ^ table[0][(crc ^ b) & 0xff] shifts in the byte b. */
  lemma OneByte(c: bv32, b: byte)
    ensures FeedBits(c, b, 8) == Xor(Down(c), Entry(0, Mix(c, b)))
  {
    hide Xor, Mix, Down, FeedBits, Step;
    XorZero(c);
    FeedMixes(0, c, b);
    FeedByte(0, Mix(c, b));
    XorZero(Mix(c, b) as bv32);
    XorCommutes(Entry(0, Mix(c, b)), Down(c));
  }

  // ---------------------------------------------------------------- many bytes at once

  /** Each byte of s looked up in the table for the number of bytes that follow it. */
  function Slices(s: seq<byte>, k: nat): bv32
    requires k <= |s|
  {
    if k == 0 then 0 else Xor(Slices(s, k - 1), Entry(|s| - k, s[k - 1]))
  }

  lemma RawOneMore(c: bv32, s: seq<byte>, k: nat)
    requires k < |s|
    ensures Raw(c, s[..k + 1]) == FeedBits(Raw(c, s[..k]), s[k], 8)
  {
    hide FeedBits, Raw;
    assert s[..k + 1] == s[..k] + [s[k]];
    RawConcat(c, s[..k], [s[k]]);
    RawOfOne(Raw(c, s[..k]), s[k]);
  }

  lemma {:induction false} SlicesArePrefix(s: seq<byte>, k: nat)
    requires k <= |s|
    ensures Slices(s, k) == Shift(Raw(0, s[..k]), 8 * (|s| - k))
  {
    hide Xor, FeedBits, Raw, Shift;
    if k == 0 {
      RawOfEmpty(0, s[..0]);
      ShiftOfZero(8 * |s|);
    } else {
      var before, b, left := Raw(0, s[..k - 1]), s[k - 1], |s| - k;
      SlicesArePrefix(s, k - 1);
      RawOneMore(0, s, k - 1);
      FeedByte(before, b);
      ShiftAdd(Xor(before, b as bv32), 8, 8 * left);
      ShiftLinear(before, b as bv32, 8 + 8 * left);
    }
  }

  /** The first four bytes of s, each mixed with its byte of the register. */
  function Mixed(c: bv32, s: seq<byte>): (r: seq<byte>)
    requires 4 <= |s|
    ensures |r| == |s|
  {
    [Mix(c, s[0]), Mix(Down(c), s[1]), Mix(Down(Down(c)), s[2]), Mix(Down(Down(Down(c))), s[3])] + s[4..]
  }

  /** Four bytes shifted in one after the other. */
  function FeedFour(c: bv32, b0: byte, b1: byte, b2: byte, b3: byte): bv32 {
    FeedBits(FeedBits(FeedBits(FeedBits(c, b0, 8), b1, 8), b2, 8), b3, 8)
  }

  lemma RawOfFour(c: bv32, s: seq<byte>)
    requires 4 <= |s|
    ensures Raw(c, s) == Raw(FeedFour(c, s[0], s[1], s[2], s[3]), s[4..])
  {
    hide FeedBits;
    var c1 := FeedBits(c, s[0], 8);
    var c2 := FeedBits(c1, s[1], 8);
    var c3 := FeedBits(c2, s[2], 8);
    assert s[1..][0] == s[1] && s[2..][0] == s[2] && s[3..][0] == s[3];
    assert s[1..][1..] == s[2..] && s[2..][1..] == s[3..] && s[3..][1..] == s[4..];
    assert Raw(c, s) == Raw(c1, s[1..]);
    assert Raw(c1, s[1..]) == Raw(c2, s[2..]);
    assert Raw(c2, s[2..]) == Raw(c3, s[3..]);
  }

  lemma FeedFourMixes(c: bv32, b0: byte, b1: byte, b2: byte, b3: byte)
    ensures FeedFour(c, b0, b1, b2, b3)
         == FeedFour(0, Mix(c, b0), Mix(Down(c), b1), Mix(Down(Down(c)), b2), Mix(Down(Down(Down(c))), b3))
  {
    hide Xor, Mix, Down, FeedBits, Step;
    var c1 := Down(c);
    var c2 := Down(c1);
    var c3 := Down(c2);
    var x1 := FeedBits(0, Mix(c, b0), 8);
    var x2 := FeedBits(x1, Mix(c1, b1), 8);
    var x3 := FeedBits(x2, Mix(c2, b2), 8);
    var x4 := FeedBits(x3, Mix(c3, b3), 8);
    FourDown(c);
    XorZero(c);
    XorZero(x4);
    FeedMixes(0, c, b0);
    FeedMixes(x1, c1, b1);
    FeedMixes(x2, c2, b2);
    FeedMixes(x3, c3, b3);
  }

  /** A register and four or more bytes are an empty register and the mixed bytes. */
  lemma RawMixes(c: bv32, s: seq<byte>)
    requires 4 <= |s|
    ensures Raw(c, s) == Raw(0, Mixed(c, s))
  {
    hide Mix, Down, FeedFour, Raw;
    var m := Mixed(c, s);
    RawOfFour(c, s);
    RawOfFour(0, m);
    assert m[4..] == s[4..];
    FeedFourMixes(c, s[0], s[1], s[2], s[3]);
  }

  /** The register after s is one lookup per mixed byte. */
  lemma RawIsSlices(c: bv32, s: seq<byte>)
    requires 4 <= |s|
    ensures Raw(c, s) == Slices(Mixed(c, s), |s|)
  {
    hide Xor, FeedBits, Step, Mixed, Raw;
    RawMixes(c, s);
    SlicesArePrefix(Mixed(c, s), |s|);
    assert Mixed(c, s)[..|s|] == Mixed(c, s);
    ShiftNone(Raw(0, Mixed(c, s)));
  }

  // ---------------------------------------------------------------- crc32_make_tables

  /** Row 0 is the base table. */
  ghost predicate HasBase(tables: array2<bv32>)
    reads tables
  {
    && tables.Length0 == 16 && tables.Length1 == 256
    && forall x :: 0 <= x < 256 ==> tables[0, x] == Entry(0, ByteOf(x))
  }

  lemma NextEntry(j: nat, x: byte)
    ensures Entry(j + 1, x) == Xor(Entry(0, LowByte(Entry(j, x))), Down(Entry(j, x)))
  {
    hide Xor, LowByte, Down, Step, Shift;
    NextTable(Entry(j, x));
    ShiftAdd(x as bv32, 8 * (j + 1), 8);
  }

  /** The inner loop: column i of the other rows, each one zero byte further. */
  method FillColumn(tables: array2<bv32>, i: nat)
    requires i < 256 && HasBase(tables)
    modifies tables
    ensures HasBase(tables)
    ensures forall k :: 0 <= k < 16 ==> tables[k, i] == Entry(k, ByteOf(i))
    ensures forall k, x :: 0 <= k < 16 && 0 <= x < 256 && x != i ==> tables[k, x] == old(tables[k, x])
  {
    hide Xor, Entry, ByteOf, LowByte, Down;
    var crc := tables[0, i];
    for j := 1 to 16
      invariant crc == Entry(j - 1, ByteOf(i)) && HasBase(tables)
      invariant forall k, x :: 0 <= k < 16 && 0 <= x < 256 && x != i ==> tables[k, x] == old(tables[k, x])
      invariant forall k :: 0 <= k < j ==> tables[k, i] == Entry(k, ByteOf(i))
    {
      NextEntry(j - 1, ByteOf(i));
      ByteOfIndex(LowByte(crc));
      crc := Xor(tables[0, LowByte(crc) as int], Down(crc));
      tables[j, i] := crc;
    }
  }

  lemma BaseRow(i: nat)
    requires i < 256
    ensures BaseEntry(i) == Entry(0, ByteOf(i))
  {
    hide BaseEntry, Shift;
    ByteOfSmall(i);
    BaseEntryIs(ByteOf(i));
  }

  /** Fills the sixteen tables: row 0 from the base table, then column by column. */
  method MakeTables(tables: array2<bv32>)
    requires tables.Length0 == 16 && tables.Length1 == 256
    modifies tables
    ensures Ready(tables)
  {
    hide Entry, ByteOf, BaseEntry;
    for i := 0 to 256
      invariant forall x :: 0 <= x < i ==> tables[0, x] == Entry(0, ByteOf(x))
    {
      BaseRow(i);
      tables[0, i] := BaseEntry(i);
    }
    for i := 0 to 256
      invariant HasBase(tables)
      invariant forall j, x :: 0 <= j < 16 && 0 <= x < i ==> tables[j, x] == Entry(j, ByteOf(x))
    {
      FillColumn(tables, i);
    }
  }
}

// Bytes and the little-endian readers of src/zip.c, shared by every module.
module Bytes {
  type byte = bv8

  const UINT64_MAX: nat := 0xFFFF_FFFF_FFFF_FFFF

  /** A strictly positive size, as every read length is. */
  type Pos = n: int | 0 < n witness 1

  datatype Option<+T> = None | Some(value: T) {
    function GetOr(default: T): T {
      if Some? then value else default
    }
  }

  /** The low eight bits of n. */
  function Byte(n: int): byte {
    (n % 256) as bv8
  }

  /** le16: the two bytes at offset i as an unsigned number. */
  function Le16(s: seq<byte>, i: nat): (r: nat)
    requires i + 2 <= |s|
    ensures r < 0x1_0000
  {
    (s[i] as nat) + 0x100 * (s[i + 1] as nat)
  }

  /** le32: the four bytes at offset i as an unsigned number. */
  function Le32(s: seq<byte>, i: nat): (r: nat)
    requires i + 4 <= |s|
    ensures r < 0x1_0000_0000
  {
    Le16(s, i) + 0x1_0000 * Le16(s, i + 2)
  }

  /** le64: the eight bytes at offset i as an unsigned number. */
  function Le64(s: seq<byte>, i: nat): (r: nat)
    requires i + 8 <= |s|
    ensures r < 0x1_0000_0000_0000_0000
  {
    Le32(s, i) + 0x1_0000_0000 * Le32(s, i + 4)
  }

  /** seek_set and read_exact: n bytes at pos, or nothing when they are not all there. */
  function ReadExact(file: seq<byte>, pos: nat, n: nat): (r: Option<seq<byte>>)
    ensures r.Some? ==> |r.value| == n
  {
    if pos <= |file| && n <= |file| - pos then Some(file[pos..pos + n]) else None
  }

  lemma SliceOfSlice(s: seq<byte>, o: nat, n: nat, a: nat, b: nat)
    requires o + n <= |s| && a <= b <= n
    ensures s[o..o + n][a..b] == s[o + a..o + b]
  {
    var l, r := s[o..o + n][a..b], s[o + a..o + b];
    assert |l| == |r|;
    forall i | 0 <= i < |l|
      ensures l[i] == r[i]
    {
      assert s[o..o + n][a + i] == s[o + a + i];
    }
  }

  /** A field read from a slice is the field read in place. */
  lemma LeOfSlice(s: seq<byte>, pos: nat, n: nat, i: nat)
    requires pos + n <= |s|
    ensures i + 2 <= n ==> Le16(s[pos..pos + n], i) == Le16(s, pos + i)
    ensures i + 4 <= n ==> Le32(s[pos..pos + n], i) == Le32(s, pos + i)
    ensures i + 8 <= n ==> Le64(s[pos..pos + n], i) == Le64(s, pos + i)
  {
  }

  /** A field of the middle of three strings. */
  lemma LeOfMiddle(a: seq<byte>, m: seq<byte>, b: seq<byte>, i: nat)
    ensures i + 2 <= |m| ==> Le16(a + m + b, |a| + i) == Le16(m, i)
    ensures i + 4 <= |m| ==> Le32(a + m + b, |a| + i) == Le32(m, i)
    ensures i + 8 <= |m| ==> Le64(a + m + b, |a| + i) == Le64(m, i)
  {
    hide Le16, Le32, Le64;
    assert (a + m + b)[|a|..|a| + |m|] == m;
    LeOfSlice(a + m + b, |a|, |m|, i);
  }

  /** The low k bytes of n, least significant first. */
  function LittleEndian(n: nat, k: nat): (s: seq<byte>)
    ensures |s| == k
    decreases k
  {
    if k == 0 then [] else [Byte(n)] + LittleEndian(n / 256, k - 1)
  }

  lemma NextByte(b: byte)
    requires b != 255
    ensures (b + 1) as int == b as int + 1
  {
  }

  lemma ByteAgain(b: byte)
    ensures (b as int) as bv8 == b
  {
  }

  lemma {:induction false} SomeByte(m: int) returns (b: byte)
    requires 0 <= m < 256
    ensures b as int == m
  {
    if m == 0 {
      b := 0;
    } else {
      b := SomeByte(m - 1);
      NextByte(b);
      b := b + 1;
    }
  }

  lemma ByteOfSmall(m: int)
    requires 0 <= m < 256
    ensures (m as bv8) as int == m
  {
    var b := SomeByte(m);
    ByteAgain(b);
  }

  lemma ByteValue(n: nat)
    ensures Byte(n) as nat == n % 256
  {
    ByteOfSmall(n % 256);
  }

  lemma ByteOfValue(n: nat, b: byte)
    requires n % 256 == b as nat
    ensures Byte(n) == b
  {
  }

  lemma DivideTwice(n: nat)
    ensures n / 256 / 256 == n / 0x1_0000
    ensures n % 256 + 0x100 * (n / 256 % 256) == n % 0x1_0000
  {
  }

  /** The first two of k + 2 bytes. */
  lemma FirstTwo(n: nat, k: nat)
    ensures LittleEndian(n, k + 2) == [Byte(n), Byte(n / 256)] + LittleEndian(n / 0x1_0000, k)
  {
  }

  /** Reading back the first field of what was written. */
  lemma Le16Of(n: nat, k: nat)
    ensures Le16(LittleEndian(n, k + 2), 0) == n % 0x1_0000
  {
    hide Byte, LittleEndian;
    ByteValue(n);
    ByteValue(n / 256);
    FirstTwo(n, k);
    DivideTwice(n);
  }

  lemma Le32Of(n: nat, k: nat)
    ensures Le32(LittleEndian(n, k + 4), 0) == n % 0x1_0000_0000
  {
    hide Byte, Le16, LittleEndian;
    var start := [Byte(n), Byte(n / 256)];
    var rest := LittleEndian(n / 0x1_0000, k + 2);
    Le16Of(n, k + 2);
    Le16Of(n / 0x1_0000, k);
    FirstTwo(n, k + 2);
    LeOfMiddle(start, rest, [], 0);
    assert start + rest + [] == start + rest;
    assert n % 0x1_0000 + 0x1_0000 * (n / 0x1_0000 % 0x1_0000) == n % 0x1_0000_0000;
  }

  lemma Le64Of(n: nat)
    requires n < 0x1_0000_0000_0000_0000
    ensures Le64(LittleEndian(n, 8), 0) == n
  {
    hide Byte, Le32, LittleEndian;
    var high := n / 0x1_0000_0000;
    var rest := LittleEndian(high, 4);
    Le32Of(n, 4);
    Le32Of(high, 0);
    FirstTwo(n, 6);
    FirstTwo(n / 0x1_0000, 4);
    var start := [Byte(n), Byte(n / 256), Byte(n / 0x1_0000), Byte(n / 0x1_0000 / 256)];
    assert n / 0x1_0000 / 0x1_0000 == high;
    assert LittleEndian(n, 8) == start + rest;
    LeOfMiddle(start, rest, [], 0);
    assert start + rest + [] == start + rest;
  }

  lemma HighAndLow(n: nat, a: nat, b: nat)
    requires n == a + 0x100 * b && a < 256 && b < 256
    ensures n % 256 == a && n / 256 == b && n / 256 % 256 == b
  {
  }

  lemma TwoBytes(s: seq<byte>, i: nat)
    requires i + 2 <= |s|
    ensures LittleEndian(Le16(s, i), 2) == s[i..i + 2]
  {
    hide LittleEndian, Byte;
    var n, a, b := Le16(s, i), s[i] as nat, s[i + 1] as nat;
    HighAndLow(n, a, b);
    ByteOfValue(n, s[i]);
    ByteOfValue(n / 256, s[i + 1]);
    FirstTwo(n, 0);
    assert LittleEndian(n / 0x1_0000, 0) == [];
  }

  lemma SameByteOf(m: nat, n: nat)
    requires m % 256 == n % 256
    ensures Byte(m) == Byte(n)
  {
  }

  lemma SameLowBytes(low: nat, high: nat)
    ensures Byte(low + 0x1_0000 * high) == Byte(low) && Byte((low + 0x1_0000 * high) / 256) == Byte(low / 256)
  {
    hide Byte;
    var n := low + 0x1_0000 * high;
    assert n / 256 == low / 256 + 256 * high;
    SameByteOf(n, low);
    SameByteOf(n / 256, low / 256);
  }

  lemma FourBytes(s: seq<byte>, i: nat)
    requires i + 4 <= |s|
    ensures LittleEndian(Le32(s, i), 4) == s[i..i + 4]
  {
    hide LittleEndian, Byte, Le16;
    var n, low, high := Le32(s, i), Le16(s, i), Le16(s, i + 2);
    TwoBytes(s, i);
    TwoBytes(s, i + 2);
    FirstTwo(low, 0);
    FirstTwo(n, 2);
    assert n / 0x1_0000 == high;
    SameLowBytes(low, high);
    assert s[i..i + 4] == s[i..i + 2] + s[i + 2..i + 4];
  }

  /** A field holds a number exactly if its bytes are those of the number. */
  lemma Le16Is(s: seq<byte>, i: nat, n: nat)
    requires i + 2 <= |s| && n < 0x1_0000
    ensures Le16(s, i) == n <==> s[i..i + 2] == LittleEndian(n, 2)
  {
    hide LittleEndian, Le16;
    TwoBytes(s, i);
    Le16Of(n, 0);
    LeOfSlice(s, i, 2, 0);
  }

  lemma Le32Is(s: seq<byte>, i: nat, n: nat)
    requires i + 4 <= |s| && n < 0x1_0000_0000
    ensures Le32(s, i) == n <==> s[i..i + 4] == LittleEndian(n, 4)
  {
    hide LittleEndian, Le32;
    FourBytes(s, i);
    Le32Of(n, 0);
    LeOfSlice(s, i, 4, 0);
  }

  lemma Le64Is(s: seq<byte>, i: nat, n: nat)
    requires i + 8 <= |s| && n < 0x1_0000_0000_0000_0000 && s[i..i + 8] == LittleEndian(n, 8)
    ensures Le64(s, i) == n
  {
    hide LittleEndian, Le64;
    Le64Of(n);
    LeOfSlice(s, i, 8, 0);
  }

  /** a xor b, byte by byte. */
  function XorSeq(a: seq<byte>, b: seq<byte>): (r: seq<byte>)
    requires |a| == |b|
    ensures |r| == |a|
  {
    seq(|a|, i requires 0 <= i < |a| => a[i] ^ b[i])
  }

  /** memcpy and memset into a fixed buffer */
  method Store(buf: array<byte>, at: nat, data: seq<byte>)
    requires at + |data| <= buf.Length
    modifies buf
    ensures buf[..] == old(buf[..at]) + data + old(buf[at + |data|..])
    ensures buf[..at] == old(buf[..at]) && buf[at..at + |data|] == data
  {
    ghost var was := buf[..];
    for k := 0 to |data|
      invariant buf[..at] == was[..at]
      invariant buf[at..at + k] == data[..k]
      invariant buf[at + k..] == was[at + k..]
    {
      ghost var before := buf[at..at + k];
      assert was[at + k..][1..] == was[at + k + 1..];
      buf[at + k] := data[k];
      assert buf[at..at + k + 1] == before + [data[k]];
      assert buf[at + k + 1..] == was[at + k..][1..];
    }
    assert buf[..] == buf[..at] + buf[at..at + |data|] + buf[at + |data|..];
  }
}

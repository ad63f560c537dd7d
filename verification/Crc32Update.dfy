// crc32_update of src/zip.c without CRC instructions: sixteen, eight and one
// byte at a time, all equal to the bit-serial register.
module Crc32Update {
  import opened Bytes
  import opened Crc32
  import opened Crc32Tables

  /** load_le64 on bytes already fetched. */
  function Word(b0: byte, b1: byte, b2: byte, b3: byte, b4: byte, b5: byte, b6: byte, b7: byte): bv64 {
    (b0 as bv64) | ((b1 as bv64) << 8) | ((b2 as bv64) << 16) | ((b3 as bv64) << 24)
    | ((b4 as bv64) << 32) | ((b5 as bv64) << 40) | ((b6 as bv64) << 48) | ((b7 as bv64) << 56)
  }

  function LoadLe64(s: seq<byte>, i: nat): bv64
    requires i + 8 <= |s|
  {
    Word(s[i], s[i + 1], s[i + 2], s[i + 3], s[i + 4], s[i + 5], s[i + 6], s[i + 7])
  }

  /** load_le64(buf) ^ crc */
  function MixWord(w: bv64, crc: bv32): bv64 {
    w ^ (crc as bv64)
  }

  function Lane0(w: bv64): byte { (w & 0xFF) as bv8 }
  function Lane1(w: bv64): byte { ((w >> 8) & 0xFF) as bv8 }
  function Lane2(w: bv64): byte { ((w >> 16) & 0xFF) as bv8 }
  function Lane3(w: bv64): byte { ((w >> 24) & 0xFF) as bv8 }
  function Lane4(w: bv64): byte { ((w >> 32) & 0xFF) as bv8 }
  function Lane5(w: bv64): byte { ((w >> 40) & 0xFF) as bv8 }
  function Lane6(w: bv64): byte { ((w >> 48) & 0xFF) as bv8 }
  function Lane7(w: bv64): byte { ((w >> 56) & 0xFF) as bv8 }

  /** The eight lanes of a word, looked up in tables top, top - 1, ..., top - 7. */
  function LookupWord(tables: array2<bv32>, top: nat, w: bv64): bv32
    requires tables.Length0 == 16 && tables.Length1 == 256 && 7 <= top < 16
    reads tables
  {
    Xor(Xor(Xor(Xor(Xor(Xor(Xor(
      Lookup(tables, top, Lane0(w)),
      Lookup(tables, top - 1, Lane1(w))),
      Lookup(tables, top - 2, Lane2(w))),
      Lookup(tables, top - 3, Lane3(w))),
      Lookup(tables, top - 4, Lane4(w))),
      Lookup(tables, top - 5, Lane5(w))),
      Lookup(tables, top - 6, Lane6(w))),
      Lookup(tables, top - 7, Lane7(w)))
  }

  // ---------------------------------------------------------------- lanes are bytes

  lemma LanesOfWord(b0: byte, b1: byte, b2: byte, b3: byte, b4: byte, b5: byte, b6: byte, b7: byte)
    ensures var w := Word(b0, b1, b2, b3, b4, b5, b6, b7);
            && Lane0(w) == b0 && Lane1(w) == b1 && Lane2(w) == b2 && Lane3(w) == b3
            && Lane4(w) == b4 && Lane5(w) == b5 && Lane6(w) == b6 && Lane7(w) == b7
  {
  }

  lemma Lane0Mixes(w: bv64, c: bv32)
    ensures Lane0(MixWord(w, c)) == Mix(c, Lane0(w))
  {
  }

  lemma Lane1Mixes(w: bv64, c: bv32)
    ensures Lane1(MixWord(w, c)) == Mix(Down(c), Lane1(w))
  {
  }

  lemma Lane2Mixes(w: bv64, c: bv32)
    ensures Lane2(MixWord(w, c)) == Mix(Down(Down(c)), Lane2(w))
  {
  }

  lemma Lane3Mixes(w: bv64, c: bv32)
    ensures Lane3(MixWord(w, c)) == Mix(Down(Down(Down(c))), Lane3(w))
  {
  }

  lemma HighLanesStay(w: bv64, c: bv32)
    ensures Lane4(MixWord(w, c)) == Lane4(w)
    ensures Lane5(MixWord(w, c)) == Lane5(w)
    ensures Lane6(MixWord(w, c)) == Lane6(w)
    ensures Lane7(MixWord(w, c)) == Lane7(w)
  {
  }

  /** The lanes of the first word are the mixed bytes; those of a later word are the bytes. */
  lemma LanesOfBuffer(c: bv32, s: seq<byte>)
    requires 8 <= |s|
    ensures var w, m := MixWord(LoadLe64(s, 0), c), Mixed(c, s);
            && Lane0(w) == m[0] && Lane1(w) == m[1] && Lane2(w) == m[2] && Lane3(w) == m[3]
            && Lane4(w) == m[4] && Lane5(w) == m[5] && Lane6(w) == m[6] && Lane7(w) == m[7]
  {
    hide MixWord, Word, Mix, Down, Lane0, Lane1, Lane2, Lane3, Lane4, Lane5, Lane6, Lane7;
    var w := LoadLe64(s, 0);
    LanesOfWord(s[0], s[1], s[2], s[3], s[4], s[5], s[6], s[7]);
    Lane0Mixes(w, c);
    Lane1Mixes(w, c);
    Lane2Mixes(w, c);
    Lane3Mixes(w, c);
    HighLanesStay(w, c);
  }

  // ---------------------------------------------------------------- eight and sixteen bytes

  /** Eight consecutive terms of the sum of slices. */
  lemma EightSlices(s: seq<byte>, k: nat)
    requires k + 8 <= |s|
    ensures Slices(s, k + 8) ==
      Xor(Xor(Xor(Xor(Xor(Xor(Xor(Xor(Slices(s, k),
        Entry(|s| - k - 1, s[k])), Entry(|s| - k - 2, s[k + 1])), Entry(|s| - k - 3, s[k + 2])),
        Entry(|s| - k - 4, s[k + 3])), Entry(|s| - k - 5, s[k + 4])), Entry(|s| - k - 6, s[k + 5])),
        Entry(|s| - k - 7, s[k + 6])), Entry(|s| - k - 8, s[k + 7]))
  {
    hide Xor, Entry;
    assert Slices(s, k + 2) == Xor(Xor(Slices(s, k), Entry(|s| - k - 1, s[k])), Entry(|s| - k - 2, s[k + 1]));
    assert Slices(s, k + 4) == Xor(Xor(Slices(s, k + 2), Entry(|s| - k - 3, s[k + 2])), Entry(|s| - k - 4, s[k + 3]));
    assert Slices(s, k + 6) == Xor(Xor(Slices(s, k + 4), Entry(|s| - k - 5, s[k + 4])), Entry(|s| - k - 6, s[k + 5]));
    assert Slices(s, k + 8) == Xor(Xor(Slices(s, k + 6), Entry(|s| - k - 7, s[k + 6])), Entry(|s| - k - 8, s[k + 7]));
  }

  /** A sum of eight terms on top of a start is the start plus the sum of the eight. */
  lemma SumFromStart(x: bv32, a: bv32, b: bv32, c: bv32, d: bv32, e: bv32, f: bv32, g: bv32, h: bv32)
    ensures Xor(Xor(Xor(Xor(Xor(Xor(Xor(Xor(x, a), b), c), d), e), f), g), h)
         == Xor(x, Xor(Xor(Xor(Xor(Xor(Xor(Xor(a, b), c), d), e), f), g), h))
  {
    hide Xor;
    XorAssociates(x, a, b);
    XorAssociates(x, Xor(a, b), c);
    XorAssociates(x, Xor(Xor(a, b), c), d);
    XorAssociates(x, Xor(Xor(Xor(a, b), c), d), e);
    XorAssociates(x, Xor(Xor(Xor(Xor(a, b), c), d), e), f);
    XorAssociates(x, Xor(Xor(Xor(Xor(Xor(a, b), c), d), e), f), g);
    XorAssociates(x, Xor(Xor(Xor(Xor(Xor(Xor(a, b), c), d), e), f), g), h);
  }

  /** One word expression adds the next eight slices. */
  lemma WordAddsSlices(tables: array2<bv32>, s: seq<byte>, k: nat, w: bv64)
    requires Ready(tables) && k + 8 <= |s| && |s| - k <= 16
    requires Lane0(w) == s[k] && Lane1(w) == s[k + 1] && Lane2(w) == s[k + 2] && Lane3(w) == s[k + 3]
    requires Lane4(w) == s[k + 4] && Lane5(w) == s[k + 5] && Lane6(w) == s[k + 6] && Lane7(w) == s[k + 7]
    ensures Slices(s, k + 8) == Xor(Slices(s, k), LookupWord(tables, |s| - k - 1, w))
  {
    hide Xor, Entry, Lookup, Lane0, Lane1, Lane2, Lane3, Lane4, Lane5, Lane6, Lane7;
    var n := |s| - k;
    EightSlices(s, k);
    SumFromStart(Slices(s, k), Entry(n - 1, s[k]), Entry(n - 2, s[k + 1]), Entry(n - 3, s[k + 2]),
      Entry(n - 4, s[k + 3]), Entry(n - 5, s[k + 4]), Entry(n - 6, s[k + 5]), Entry(n - 7, s[k + 6]),
      Entry(n - 8, s[k + 7]));
    LookupEntry(tables, n - 1, s[k]);
    LookupEntry(tables, n - 2, s[k + 1]);
    LookupEntry(tables, n - 3, s[k + 2]);
    LookupEntry(tables, n - 4, s[k + 3]);
    LookupEntry(tables, n - 5, s[k + 4]);
    LookupEntry(tables, n - 6, s[k + 5]);
    LookupEntry(tables, n - 7, s[k + 6]);
    LookupEntry(tables, n - 8, s[k + 7]);
  }

  lemma SizesOf(tables: array2<bv32>)
    requires Ready(tables)
    ensures tables.Length0 == 16 && tables.Length1 == 256
  {
  }

  /** The eight-byte expression is the register after eight bytes. */
  lemma EightBytes(tables: array2<bv32>, c: bv32, s: seq<byte>)
    requires Ready(tables) && |s| == 8
    ensures LookupWord(tables, 7, MixWord(LoadLe64(s, 0), c)) == Raw(c, s)
  {
    hide Xor, LookupWord, MixWord, LoadLe64, Mixed, Ready, Lane0, Lane1, Lane2, Lane3, Lane4, Lane5, Lane6, Lane7;
    var w := MixWord(LoadLe64(s, 0), c);
    SizesOf(tables);
    LanesOfBuffer(c, s);
    WordAddsSlices(tables, Mixed(c, s), 0, w);
    XorZero(LookupWord(tables, 7, w));
    RawIsSlices(c, s);
  }

  /** The sixteen-byte expression is the register after sixteen bytes. */
  lemma SixteenBytes(tables: array2<bv32>, c: bv32, s: seq<byte>)
    requires Ready(tables) && |s| == 16
    ensures Xor(LookupWord(tables, 15, MixWord(LoadLe64(s, 0), c)), LookupWord(tables, 7, LoadLe64(s, 8)))
         == Raw(c, s)
  {
    hide Xor, LookupWord, MixWord, Mix, Down, Word, Ready, Lane0, Lane1, Lane2, Lane3, Lane4, Lane5, Lane6, Lane7;
    var w0, w1, m := MixWord(LoadLe64(s, 0), c), LoadLe64(s, 8), Mixed(c, s);
    SizesOf(tables);
    LanesOfBuffer(c, s);
    LanesOfWord(s[8], s[9], s[10], s[11], s[12], s[13], s[14], s[15]);
    WordAddsSlices(tables, m, 0, w0);
    WordAddsSlices(tables, m, 8, w1);
    XorZero(LookupWord(tables, 15, w0));
    RawIsSlices(c, s);
  }

  // ---------------------------------------------------------------- crc32_update

  lemma RawAdvances(c: bv32, s: seq<byte>, from: nat, to: nat)
    requires from <= to <= |s|
    ensures Raw(c, s[..to]) == Raw(Raw(c, s[..from]), s[from..to])
  {
    hide Raw;
    assert s[..to] == s[..from] + s[from..to];
    RawConcat(c, s[..from], s[from..to]);
  }

  lemma LoadInside(s: seq<byte>, pos: nat, n: nat, i: nat)
    requires pos + n <= |s| && i + 8 <= n
    ensures LoadLe64(s, pos + i) == LoadLe64(s[pos..pos + n], i)
  {
  }

  /** crc32_update: continues a CRC-32 over buf by table lookups. */
  method UpdateTables(tables: array2<bv32>, crc: bv32, buf: seq<byte>) returns (r: bv32)
    requires Ready(tables)
    ensures r == Update(crc, buf)
  {
    hide Not, Xor, Raw, LookupWord, MixWord, LoadLe64, Mix, Down, Entry, Ready, Lookup;
    var c := Not(crc);
    var pos := 0;
    RawOfEmpty(c, buf[..0]);
    while |buf| - pos >= 16
      invariant pos <= |buf|
      invariant c == Raw(Not(crc), buf[..pos])
    {
      var word0 := MixWord(LoadLe64(buf, pos), c);
      var word1 := LoadLe64(buf, pos + 8);
      LoadInside(buf, pos, 16, 0);
      LoadInside(buf, pos, 16, 8);
      SixteenBytes(tables, c, buf[pos..pos + 16]);
      RawAdvances(Not(crc), buf, pos, pos + 16);
      SizesOf(tables);
      c := Xor(LookupWord(tables, 15, word0), LookupWord(tables, 7, word1));
      pos := pos + 16;
    }
    while |buf| - pos >= 8
      invariant pos <= |buf|
      invariant c == Raw(Not(crc), buf[..pos])
    {
      var word := MixWord(LoadLe64(buf, pos), c);
      LoadInside(buf, pos, 8, 0);
      EightBytes(tables, c, buf[pos..pos + 8]);
      RawAdvances(Not(crc), buf, pos, pos + 8);
      SizesOf(tables);
      c := LookupWord(tables, 7, word);
      pos := pos + 8;
    }
    while pos < |buf|
      invariant pos <= |buf|
      invariant c == Raw(Not(crc), buf[..pos])
    {
      OneByte(c, buf[pos]);
      RawOneMore(Not(crc), buf, pos);
      LookupEntry(tables, 0, Mix(c, buf[pos]));
      SizesOf(tables);
      c := Xor(Down(c), Lookup(tables, 0, Mix(c, buf[pos])));
      pos := pos + 1;
    }
    assert buf[..pos] == buf;
    r := Not(c);
  }
}

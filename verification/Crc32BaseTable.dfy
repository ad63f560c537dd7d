// The base table of the CRC engine, as src/zip.c and src/crypto/dec.c list it, and
// the proof that entry x is the register after the byte x.
module Crc32BaseTable {
  import opened Bytes
  import opened Crc32

  const ROW0: seq<bv32> := [
    0x00000000, 0x77073096, 0xEE0E612C, 0x990951BA, 0x076DC419, 0x706AF48F, 0xE963A535, 0x9E6495A3,
    0x0EDB8832, 0x79DCB8A4, 0xE0D5E91E, 0x97D2D988, 0x09B64C2B, 0x7EB17CBD, 0xE7B82D07, 0x90BF1D91]
  const ROW1: seq<bv32> := [
    0x1DB71064, 0x6AB020F2, 0xF3B97148, 0x84BE41DE, 0x1ADAD47D, 0x6DDDE4EB, 0xF4D4B551, 0x83D385C7,
    0x136C9856, 0x646BA8C0, 0xFD62F97A, 0x8A65C9EC, 0x14015C4F, 0x63066CD9, 0xFA0F3D63, 0x8D080DF5]
  const ROW2: seq<bv32> := [
    0x3B6E20C8, 0x4C69105E, 0xD56041E4, 0xA2677172, 0x3C03E4D1, 0x4B04D447, 0xD20D85FD, 0xA50AB56B,
    0x35B5A8FA, 0x42B2986C, 0xDBBBC9D6, 0xACBCF940, 0x32D86CE3, 0x45DF5C75, 0xDCD60DCF, 0xABD13D59]
  const ROW3: seq<bv32> := [
    0x26D930AC, 0x51DE003A, 0xC8D75180, 0xBFD06116, 0x21B4F4B5, 0x56B3C423, 0xCFBA9599, 0xB8BDA50F,
    0x2802B89E, 0x5F058808, 0xC60CD9B2, 0xB10BE924, 0x2F6F7C87, 0x58684C11, 0xC1611DAB, 0xB6662D3D]
  const ROW4: seq<bv32> := [
    0x76DC4190, 0x01DB7106, 0x98D220BC, 0xEFD5102A, 0x71B18589, 0x06B6B51F, 0x9FBFE4A5, 0xE8B8D433,
    0x7807C9A2, 0x0F00F934, 0x9609A88E, 0xE10E9818, 0x7F6A0DBB, 0x086D3D2D, 0x91646C97, 0xE6635C01]
  const ROW5: seq<bv32> := [
    0x6B6B51F4, 0x1C6C6162, 0x856530D8, 0xF262004E, 0x6C0695ED, 0x1B01A57B, 0x8208F4C1, 0xF50FC457,
    0x65B0D9C6, 0x12B7E950, 0x8BBEB8EA, 0xFCB9887C, 0x62DD1DDF, 0x15DA2D49, 0x8CD37CF3, 0xFBD44C65]
  const ROW6: seq<bv32> := [
    0x4DB26158, 0x3AB551CE, 0xA3BC0074, 0xD4BB30E2, 0x4ADFA541, 0x3DD895D7, 0xA4D1C46D, 0xD3D6F4FB,
    0x4369E96A, 0x346ED9FC, 0xAD678846, 0xDA60B8D0, 0x44042D73, 0x33031DE5, 0xAA0A4C5F, 0xDD0D7CC9]
  const ROW7: seq<bv32> := [
    0x5005713C, 0x270241AA, 0xBE0B1010, 0xC90C2086, 0x5768B525, 0x206F85B3, 0xB966D409, 0xCE61E49F,
    0x5EDEF90E, 0x29D9C998, 0xB0D09822, 0xC7D7A8B4, 0x59B33D17, 0x2EB40D81, 0xB7BD5C3B, 0xC0BA6CAD]
  const ROW8: seq<bv32> := [
    0xEDB88320, 0x9ABFB3B6, 0x03B6E20C, 0x74B1D29A, 0xEAD54739, 0x9DD277AF, 0x04DB2615, 0x73DC1683,
    0xE3630B12, 0x94643B84, 0x0D6D6A3E, 0x7A6A5AA8, 0xE40ECF0B, 0x9309FF9D, 0x0A00AE27, 0x7D079EB1]
  const ROW9: seq<bv32> := [
    0xF00F9344, 0x8708A3D2, 0x1E01F268, 0x6906C2FE, 0xF762575D, 0x806567CB, 0x196C3671, 0x6E6B06E7,
    0xFED41B76, 0x89D32BE0, 0x10DA7A5A, 0x67DD4ACC, 0xF9B9DF6F, 0x8EBEEFF9, 0x17B7BE43, 0x60B08ED5]
  const ROW10: seq<bv32> := [
    0xD6D6A3E8, 0xA1D1937E, 0x38D8C2C4, 0x4FDFF252, 0xD1BB67F1, 0xA6BC5767, 0x3FB506DD, 0x48B2364B,
    0xD80D2BDA, 0xAF0A1B4C, 0x36034AF6, 0x41047A60, 0xDF60EFC3, 0xA867DF55, 0x316E8EEF, 0x4669BE79]
  const ROW11: seq<bv32> := [
    0xCB61B38C, 0xBC66831A, 0x256FD2A0, 0x5268E236, 0xCC0C7795, 0xBB0B4703, 0x220216B9, 0x5505262F,
    0xC5BA3BBE, 0xB2BD0B28, 0x2BB45A92, 0x5CB36A04, 0xC2D7FFA7, 0xB5D0CF31, 0x2CD99E8B, 0x5BDEAE1D]
  const ROW12: seq<bv32> := [
    0x9B64C2B0, 0xEC63F226, 0x756AA39C, 0x026D930A, 0x9C0906A9, 0xEB0E363F, 0x72076785, 0x05005713,
    0x95BF4A82, 0xE2B87A14, 0x7BB12BAE, 0x0CB61B38, 0x92D28E9B, 0xE5D5BE0D, 0x7CDCEFB7, 0x0BDBDF21]
  const ROW13: seq<bv32> := [
    0x86D3D2D4, 0xF1D4E242, 0x68DDB3F8, 0x1FDA836E, 0x81BE16CD, 0xF6B9265B, 0x6FB077E1, 0x18B74777,
    0x88085AE6, 0xFF0F6A70, 0x66063BCA, 0x11010B5C, 0x8F659EFF, 0xF862AE69, 0x616BFFD3, 0x166CCF45]
  const ROW14: seq<bv32> := [
    0xA00AE278, 0xD70DD2EE, 0x4E048354, 0x3903B3C2, 0xA7672661, 0xD06016F7, 0x4969474D, 0x3E6E77DB,
    0xAED16A4A, 0xD9D65ADC, 0x40DF0B66, 0x37D83BF0, 0xA9BCAE53, 0xDEBB9EC5, 0x47B2CF7F, 0x30B5FFE9]
  const ROW15: seq<bv32> := [
    0xBDBDF21C, 0xCABAC28A, 0x53B39330, 0x24B4A3A6, 0xBAD03605, 0xCDD70693, 0x54DE5729, 0x23D967BF,
    0xB3667A2E, 0xC4614AB8, 0x5D681B02, 0x2A6F2B94, 0xB40BBE37, 0xC30C8EA1, 0x5A05DF1B, 0x2D02EF8D]

  const ENTRY_ONE: bv32 := 0x77073096

  function Row(r: nat): (row: seq<bv32>)
    requires r < 16
    ensures |row| == 16
  {
    if r == 0 then ROW0
    else if r == 1 then ROW1
    else if r == 2 then ROW2
    else if r == 3 then ROW3
    else if r == 4 then ROW4
    else if r == 5 then ROW5
    else if r == 6 then ROW6
    else if r == 7 then ROW7
    else if r == 8 then ROW8
    else if r == 9 then ROW9
    else if r == 10 then ROW10
    else if r == 11 then ROW11
    else if r == 12 then ROW12
    else if r == 13 then ROW13
    else if r == 14 then ROW14
    else ROW15
  }

  /** crc32_base_table, sixteen entries a row. */
  function BaseEntry(i: nat): bv32
    requires i < 256
  {
    Row(i / 16)[i % 16]
  }

  /** Each entry of row a is one shift after the entry of twice its index, in rows b and c. */
  predicate Halves(a: seq<bv32>, b: seq<bv32>, c: seq<bv32>)
    requires |a| == 16 && |b| == 16 && |c| == 16
  {
    && a[0] == Step(b[0]) && a[1] == Step(b[2]) && a[2] == Step(b[4]) && a[3] == Step(b[6])
    && a[4] == Step(b[8]) && a[5] == Step(b[10]) && a[6] == Step(b[12]) && a[7] == Step(b[14])
    && a[8] == Step(c[0]) && a[9] == Step(c[2]) && a[10] == Step(c[4]) && a[11] == Step(c[6])
    && a[12] == Step(c[8]) && a[13] == Step(c[10]) && a[14] == Step(c[12]) && a[15] == Step(c[14])
  }

  /** Each odd entry is the even one before it plus entry 1 of the table. */
  predicate Follows(a: seq<bv32>)
    requires |a| == 16
  {
    && a[1] == Xor(a[0], ENTRY_ONE) && a[3] == Xor(a[2], ENTRY_ONE) && a[5] == Xor(a[4], ENTRY_ONE) && a[7] == Xor(a[6], ENTRY_ONE)
    && a[9] == Xor(a[8], ENTRY_ONE) && a[11] == Xor(a[10], ENTRY_ONE) && a[13] == Xor(a[12], ENTRY_ONE) && a[15] == Xor(a[14], ENTRY_ONE)
  }

  lemma Row0Halves()
    ensures Halves(ROW0, ROW0, ROW1)
  {
  }

  lemma Row1Halves()
    ensures Halves(ROW1, ROW2, ROW3)
  {
  }

  lemma Row2Halves()
    ensures Halves(ROW2, ROW4, ROW5)
  {
  }

  lemma Row3Halves()
    ensures Halves(ROW3, ROW6, ROW7)
  {
  }

  lemma Row4Halves()
    ensures Halves(ROW4, ROW8, ROW9)
  {
  }

  lemma Row5Halves()
    ensures Halves(ROW5, ROW10, ROW11)
  {
  }

  lemma Row6Halves()
    ensures Halves(ROW6, ROW12, ROW13)
  {
  }

  lemma Row7Halves()
    ensures Halves(ROW7, ROW14, ROW15)
  {
  }

  lemma RowsHalve(r: nat)
    requires r < 8
    ensures Halves(Row(r), Row(2 * r), Row(2 * r + 1))
  {
    hide Halves;
    if r == 0 {
      Row0Halves();
    } else if r == 1 {
      Row1Halves();
    } else if r == 2 {
      Row2Halves();
    } else if r == 3 {
      Row3Halves();
    } else if r == 4 {
      Row4Halves();
    } else if r == 5 {
      Row5Halves();
    } else if r == 6 {
      Row6Halves();
    } else {
      Row7Halves();
    }
  }

  lemma Rows0Follow()
    ensures Follows(ROW0)
    ensures Follows(ROW1)
    ensures Follows(ROW2)
    ensures Follows(ROW3)
  {
  }

  lemma Rows4Follow()
    ensures Follows(ROW4)
    ensures Follows(ROW5)
    ensures Follows(ROW6)
    ensures Follows(ROW7)
  {
  }

  lemma Rows8Follow()
    ensures Follows(ROW8)
    ensures Follows(ROW9)
    ensures Follows(ROW10)
    ensures Follows(ROW11)
  {
  }

  lemma Rows12Follow()
    ensures Follows(ROW12)
    ensures Follows(ROW13)
    ensures Follows(ROW14)
    ensures Follows(ROW15)
  {
  }

  lemma RowsFollow(r: nat)
    requires r < 16
    ensures Follows(Row(r))
  {
    hide Follows;
    if r < 4 {
      Rows0Follow();
    } else if r < 8 {
      Rows4Follow();
    } else if r < 12 {
      Rows8Follow();
    } else {
      Rows12Follow();
    }
  }

  lemma HalvesAt(a: seq<bv32>, b: seq<bv32>, c: seq<bv32>, k: nat)
    requires |a| == 16 && |b| == 16 && |c| == 16 && k < 16 && Halves(a, b, c)
    ensures a[k] == Step(if k < 8 then b[2 * k] else c[2 * k - 16])
  {
    hide Step;
  }

  lemma FollowsAt(a: seq<bv32>, k: nat)
    requires |a| == 16 && k < 8 && Follows(a)
    ensures a[2 * k + 1] == Xor(a[2 * k], ENTRY_ONE)
  {
    hide Xor;
  }

  lemma HalfEntry(i: nat)
    requires i < 128
    ensures BaseEntry(i) == Step(BaseEntry(2 * i))
  {
    hide Step, Row, Halves;
    RowsHalve(i / 16);
    HalvesAt(Row(i / 16), Row(2 * (i / 16)), Row(2 * (i / 16) + 1), i % 16);
  }

  lemma OddEntry(i: nat)
    requires i < 128
    ensures BaseEntry(2 * i + 1) == Xor(BaseEntry(2 * i), ENTRY_ONE)
  {
    hide Xor, Row, Follows;
    RowsFollow(i / 8);
    FollowsAt(Row(i / 8), i % 8);
  }

  lemma FirstEntries()
    ensures BaseEntry(0) == 0 && BaseEntry(1) == ENTRY_ONE
    ensures Shift(1, 8) == ENTRY_ONE
  {
  }

  lemma HalfIndex(x: byte)
    ensures (x >> 1) as nat == x as nat / 2
    ensures x & 1 == 1 <==> x as nat % 2 == 1
  {
  }

  lemma EvenIndex(x: byte)
    requires x & 1 == 1
    ensures (x ^ 1) as nat == x as nat - 1
    ensures x as bv32 == Xor((x ^ 1) as bv32, 1)
  {
  }

  lemma StepOfEven(x: byte)
    requires x & 1 == 0
    ensures Step(x as bv32) == (x >> 1) as bv32
  {
  }

  lemma LowBitOfByte(x: byte)
    ensures x & 1 == 0 || x & 1 == 1
  {
  }

  /** Every entry of the base table is the register after that byte. */
  lemma {:induction false} BaseEntryIs(x: byte)
    ensures BaseEntry(x as nat) == Shift(x as bv32, 8)
    decreases x as nat
  {
    hide BaseEntry, Shift, Step, Xor;
    FirstEntries();
    HalfIndex(x);
    if x == 0 {
      ShiftOfZero(8);
    } else if x & 1 == 1 {
      EvenIndex(x);
      var y := x ^ 1;
      BaseEntryIs(y);
      OddEntry(x as nat / 2);
      ShiftLinear(y as bv32, 1, 8);
    } else {
      LowBitOfByte(x);
      var y := x >> 1;
      BaseEntryIs(y);
      HalfEntry(x as nat / 2);
      StepOfEven(x);
      ShiftOfStep(x as bv32, 8);
      StepInjective(BaseEntry(x as nat), Shift(x as bv32, 8));
    }
  }
}

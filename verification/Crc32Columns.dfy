// The column tables of src/zip.c, which move a register past 1, 2, 16 and 32 KiB
// of zero bytes, and the proof that they do.
module Crc32Columns {
  import opened Crc32

  const TOP: bv32 := 0x80000000

  const SHIFT_1K_0: seq<bv32> := [
    0xF891F16F, 0x2A52E49F, 0x54A5C93E, 0xA94B927C, 0x89E622B9, 0xC8BD4333, 0x4A0B8027, 0x9417004E]
  const SHIFT_1K_1: seq<bv32> := [
    0xF35F06DD, 0x3DCF0BFB, 0x7B9E17F6, 0xF73C2FEC, 0x35095999, 0x6A12B332, 0xD4256664, 0x733BCA89]
  const SHIFT_1K_2: seq<bv32> := [
    0xE6779512, 0x179E2C65, 0x2F3C58CA, 0x5E78B194, 0xBCF16328, 0xA293C011, 0x9E568663, 0xE7DC0A87]
  const SHIFT_1K_3: seq<bv32> := [
    0x14C9134F, 0x2992269E, 0x53244D3C, 0xA6489A78, 0x97E032B1, 0xF4B16323, 0x3213C007, 0x6427800E]
  const SHIFT_1K: seq<bv32> := SHIFT_1K_0 + SHIFT_1K_1 + SHIFT_1K_2 + SHIFT_1K_3
  const SHIFT_2K_0: seq<bv32> := [
    0x88B6BA63, 0xCA1C7287, 0x4F49E34F, 0x9E93C69E, 0xE6568B7D, 0x17DC10BB, 0x2FB82176, 0x5F7042EC]
  const SHIFT_2K_1: seq<bv32> := [
    0xBEE085D8, 0xA6B00DF1, 0x96111DA3, 0xF7533D07, 0x35D77C4F, 0x6BAEF89E, 0xD75DF13C, 0x75CAE439]
  const SHIFT_2K_2: seq<bv32> := [
    0xEB95C872, 0x0C5A96A5, 0x18B52D4A, 0x316A5A94, 0x62D4B528, 0xC5A96A50, 0x5023D2E1, 0xA047A5C2]
  const SHIFT_2K_3: seq<bv32> := [
    0x9BFE4DC5, 0xEC8D9DCB, 0x026A3DD7, 0x04D47BAE, 0x09A8F75C, 0x1351EEB8, 0x26A3DD70, 0x4D47BAE0]
  const SHIFT_2K: seq<bv32> := SHIFT_2K_0 + SHIFT_2K_1 + SHIFT_2K_2 + SHIFT_2K_3
  const SHIFT_16K_0: seq<bv32> := [
    0x9D9129BF, 0xE053553F, 0x1BD7AC3F, 0x37AF587E, 0x6F5EB0FC, 0xDEBD61F8, 0x660BC5B1, 0xCC178B62]
  const SHIFT_16K_1: seq<bv32> := [
    0x435E1085, 0x86BC210A, 0xD6094455, 0x77638EEB, 0xEEC71DD6, 0x06FF3DED, 0x0DFE7BDA, 0x1BFCF7B4]
  const SHIFT_16K_2: seq<bv32> := [
    0x37F9EF68, 0x6FF3DED0, 0xDFE7BDA0, 0x64BE7D01, 0xC97CFA02, 0x4988F245, 0x9311E48A, 0xFD52CF55]
  const SHIFT_16K_3: seq<bv32> := [
    0x21D498EB, 0x43A931D6, 0x875263AC, 0xD5D5C119, 0x70DA8473, 0xE1B508E6, 0x181B178D, 0x30362F1A]
  const SHIFT_16K: seq<bv32> := SHIFT_16K_0 + SHIFT_16K_1 + SHIFT_16K_2 + SHIFT_16K_3
  const SHIFT_32K_0: seq<bv32> := [
    0x2EE43A2C, 0x5DC87458, 0xBB90E8B0, 0xAC50D721, 0x83D0A803, 0xDCD05647, 0x62D1AACF, 0xC5A3559E]
  const SHIFT_32K_1: seq<bv32> := [
    0x5037AD7D, 0xA06F5AFA, 0x9BAFB3B5, 0xEC2E612B, 0x032DC417, 0x065B882E, 0x0CB7105C, 0x196E20B8]
  const SHIFT_32K_2: seq<bv32> := [
    0x32DC4170, 0x65B882E0, 0xCB7105C0, 0x4D930DC1, 0x9B261B82, 0xED3D3145, 0x010B64CB, 0x0216C996]
  const SHIFT_32K_3: seq<bv32> := [
    0x042D932C, 0x085B2658, 0x10B64CB0, 0x216C9960, 0x42D932C0, 0x85B26580, 0xD015CD41, 0x7B5A9CC3]
  const SHIFT_32K: seq<bv32> := SHIFT_32K_0 + SHIFT_32K_1 + SHIFT_32K_2 + SHIFT_32K_3

  /** Within a row of eight, each column is one shift after the next. */
  predicate IsChain(a: seq<bv32>)
    requires |a| == 8
  {
    && a[0] == Step(a[1]) && a[1] == Step(a[2]) && a[2] == Step(a[3]) && a[3] == Step(a[4])
    && a[4] == Step(a[5]) && a[5] == Step(a[6]) && a[6] == Step(a[7])
  }

  /** Four rows of which each continues the one before. */
  predicate AreChained(a: seq<bv32>, b: seq<bv32>, c: seq<bv32>, d: seq<bv32>) {
    && |a| == |b| == |c| == |d| == 8
    && IsChain(a) && IsChain(b) && IsChain(c) && IsChain(d)
    && a[7] == Step(b[0]) && b[7] == Step(c[0]) && c[7] == Step(d[0])
  }

  lemma Chain1KRow0()
    ensures IsChain(SHIFT_1K_0) && SHIFT_1K_0[7] == Step(SHIFT_1K_1[0])
  {
  }

  lemma Chain1KRow1()
    ensures IsChain(SHIFT_1K_1) && SHIFT_1K_1[7] == Step(SHIFT_1K_2[0])
  {
  }

  lemma Chain1KRow2()
    ensures IsChain(SHIFT_1K_2) && SHIFT_1K_2[7] == Step(SHIFT_1K_3[0])
  {
  }

  lemma Chain1KRow3()
    ensures IsChain(SHIFT_1K_3)
  {
  }

  lemma Chain1K()
    ensures AreChained(SHIFT_1K_0, SHIFT_1K_1, SHIFT_1K_2, SHIFT_1K_3) && SHIFT_1K_3[7] == 0x6427800E
  {
    hide IsChain, Step;
    Chain1KRow0(); Chain1KRow1(); Chain1KRow2(); Chain1KRow3();
  }

  lemma Chain2KRow0()
    ensures IsChain(SHIFT_2K_0) && SHIFT_2K_0[7] == Step(SHIFT_2K_1[0])
  {
  }

  lemma Chain2KRow1()
    ensures IsChain(SHIFT_2K_1) && SHIFT_2K_1[7] == Step(SHIFT_2K_2[0])
  {
  }

  lemma Chain2KRow2()
    ensures IsChain(SHIFT_2K_2) && SHIFT_2K_2[7] == Step(SHIFT_2K_3[0])
  {
  }

  lemma Chain2KRow3()
    ensures IsChain(SHIFT_2K_3)
  {
  }

  lemma Chain2K()
    ensures AreChained(SHIFT_2K_0, SHIFT_2K_1, SHIFT_2K_2, SHIFT_2K_3) && SHIFT_2K_3[7] == 0x4D47BAE0
  {
    hide IsChain, Step;
    Chain2KRow0(); Chain2KRow1(); Chain2KRow2(); Chain2KRow3();
  }

  lemma Chain16KRow0()
    ensures IsChain(SHIFT_16K_0) && SHIFT_16K_0[7] == Step(SHIFT_16K_1[0])
  {
  }

  lemma Chain16KRow1()
    ensures IsChain(SHIFT_16K_1) && SHIFT_16K_1[7] == Step(SHIFT_16K_2[0])
  {
  }

  lemma Chain16KRow2()
    ensures IsChain(SHIFT_16K_2) && SHIFT_16K_2[7] == Step(SHIFT_16K_3[0])
  {
  }

  lemma Chain16KRow3()
    ensures IsChain(SHIFT_16K_3)
  {
  }

  lemma Chain16K()
    ensures AreChained(SHIFT_16K_0, SHIFT_16K_1, SHIFT_16K_2, SHIFT_16K_3) && SHIFT_16K_3[7] == 0x30362F1A
  {
    hide IsChain, Step;
    Chain16KRow0(); Chain16KRow1(); Chain16KRow2(); Chain16KRow3();
  }

  lemma Chain32KRow0()
    ensures IsChain(SHIFT_32K_0) && SHIFT_32K_0[7] == Step(SHIFT_32K_1[0])
  {
  }

  lemma Chain32KRow1()
    ensures IsChain(SHIFT_32K_1) && SHIFT_32K_1[7] == Step(SHIFT_32K_2[0])
  {
  }

  lemma Chain32KRow2()
    ensures IsChain(SHIFT_32K_2) && SHIFT_32K_2[7] == Step(SHIFT_32K_3[0])
  {
  }

  lemma Chain32KRow3()
    ensures IsChain(SHIFT_32K_3)
  {
  }

  lemma Chain32K()
    ensures AreChained(SHIFT_32K_0, SHIFT_32K_1, SHIFT_32K_2, SHIFT_32K_3) && SHIFT_32K_3[7] == 0x7B5A9CC3
  {
    hide IsChain, Step;
    Chain32KRow0(); Chain32KRow1(); Chain32KRow2(); Chain32KRow3();
  }

  function Double(v: bv32): bv32 {
    v << 1
  }

  /** v moved up by four bits. */
  function Double4(v: bv32): bv32 {
    Double(Double(Double(Double(v))))
  }

  /** The top bit of b stands for a; `rest` is the image of the other bits moved up by one. */
  function Horner(b: bv32, a: bv32, rest: bv32): bv32 {
    Xor(if b & TOP == TOP then a else 0, Step(rest))
  }

  /** Four bits. */
  function Horner4(b: bv32, a: bv32, rest: bv32): bv32 {
    Horner(b, a, Horner(Double(b), a, Horner(Double(Double(b)), a, Horner(Double(Double(Double(b))), a, rest))))
  }

  /** Sixteen bits. */
  function Horner16(b: bv32, a: bv32, rest: bv32): bv32 {
    Horner4(b, a, Horner4(Double4(b), a, Horner4(Double4(Double4(b)), a, Horner4(Double4(Double4(Double4(b))), a, rest))))
  }

  function Double16(v: bv32): bv32 {
    Double4(Double4(Double4(Double4(v))))
  }

  /** The image of b under the shift that takes the top bit to a. */
  function Image(b: bv32, a: bv32): bv32 {
    Horner16(b, a, Horner16(Double16(b), a, 0))
  }

  lemma HalfOfDouble(b: bv32)
    ensures Double(b) >> 1 == b & 0x7FFFFFFF
    ensures Double(b) & 1 == 0
  {
  }

  lemma TopBit(b: bv32)
    ensures b & TOP == TOP || b & TOP == 0
  {
  }

  lemma ClearTop(b: bv32)
    ensures b == Xor(if b & TOP == TOP then TOP else 0, Double(b) >> 1)
    ensures Double(b) & 1 == 0
  {
    hide Double;
    HalfOfDouble(b);
    TopBit(b);
    assert Xor(b & TOP, b & 0x7FFFFFFF) == b;
  }

  lemma HornerStep(b: bv32, m: nat)
    ensures Shift(b, m) == Horner(b, Shift(TOP, m), Shift(Double(b), m))
  {
    hide Shift, Step, Xor, Double;
    ClearTop(b);
    var t := if b & TOP == TOP then TOP else 0;
    StepEven(Double(b));
    ShiftLinear(t, Double(b) >> 1, m);
    ShiftOfStep(Double(b), m);
    ShiftOfZero(m);
  }

  lemma Horner4Step(b: bv32, m: nat)
    ensures Shift(b, m) == Horner4(b, Shift(TOP, m), Shift(Double4(b), m))
  {
    hide Shift, Horner, Double;
    HornerStep(b, m);
    HornerStep(Double(b), m);
    HornerStep(Double(Double(b)), m);
    HornerStep(Double(Double(Double(b))), m);
  }

  lemma Horner16Step(b: bv32, m: nat)
    ensures Shift(b, m) == Horner16(b, Shift(TOP, m), Shift(Double16(b), m))
  {
    hide Shift, Horner4, Double4;
    Horner4Step(b, m);
    Horner4Step(Double4(b), m);
    Horner4Step(Double4(Double4(b)), m);
    Horner4Step(Double4(Double4(Double4(b))), m);
  }

  lemma AllMovedOut(v: bv32)
    ensures Double16(Double16(v)) == 0
  {
  }

  lemma ShiftIsImage(b: bv32, m: nat)
    ensures Shift(b, m) == Image(b, Shift(TOP, m))
  {
    hide Shift, Horner16, Double16;
    AllMovedOut(b);
    Horner16Step(b, m);
    Horner16Step(Double16(b), m);
    ShiftOfZero(m);
  }

  /** Twice as many shifts: the image of the top bit is applied to itself. */
  lemma Squared(m: nat, a: bv32)
    requires Shift(TOP, m) == a
    ensures Shift(TOP, 2 * m) == Image(a, a)
  {
    hide Shift, Image;
    ShiftAdd(TOP, m, m);
    ShiftIsImage(a, m);
  }

  // The image of the top bit under 32 shifts, squared again and again: 64, 128, ..., 262144 shifts.
  // Each square is evaluated four bits at a time, from the low end of the register.

  lemma Square2()
    ensures Image(0xEDB88320, 0xEDB88320) == 0xB1E6B092
  {
    assert Double4(0xEDB88320) == 0xDB883200;
    assert Double4(0xDB883200) == 0xB8832000;
    assert Double4(0xB8832000) == 0x88320000;
    assert Double4(0x88320000) == 0x83200000;
    assert Double4(0x83200000) == 0x32000000;
    assert Double4(0x32000000) == 0x20000000;
    assert Double4(0x20000000) == 0;
    assert Horner4(0, 0xEDB88320, 0) == 0;
    assert Horner4(0x20000000, 0xEDB88320, 0) == 0x3B6E20C8;
    assert Horner4(0x32000000, 0xEDB88320, 0x3B6E20C8) == 0xC8D75180;
    assert Horner4(0x83200000, 0xEDB88320, 0xC8D75180) == 0xE135F638;
    assert Horner4(0x88320000, 0xEDB88320, 0xE135F638) == 0x0E135F63;
    assert Horner4(0xB8832000, 0xEDB88320, 0x0E135F63) == 0xED59B6D6;
    assert Horner4(0xDB883200, 0xEDB88320, 0xED59B6D6) == 0xC5B428E1;
    assert Horner4(0xEDB88320, 0xEDB88320, 0xC5B428E1) == 0xB1E6B092;
  }

  lemma Square3()
    ensures Image(0xB1E6B092, 0xB1E6B092) == 0xA06A2517
  {
    assert Double4(0xB1E6B092) == 0x1E6B0920;
    assert Double4(0x1E6B0920) == 0xE6B09200;
    assert Double4(0xE6B09200) == 0x6B092000;
    assert Double4(0x6B092000) == 0xB0920000;
    assert Double4(0xB0920000) == 0x09200000;
    assert Double4(0x09200000) == 0x92000000;
    assert Double4(0x92000000) == 0x20000000;
    assert Horner4(0x20000000, 0xB1E6B092, 0) == 0xC1C12F04;
    assert Horner4(0x92000000, 0xB1E6B092, 0xC1C12F04) == 0xABC67470;
    assert Horner4(0x09200000, 0xB1E6B092, 0xABC67470) == 0x0ABC6747;
    assert Horner4(0xB0920000, 0xB1E6B092, 0x0ABC6747) == 0x4069BF5C;
    assert Horner4(0x6B092000, 0xB1E6B092, 0x4069BF5C) == 0x06502E08;
    assert Horner4(0xE6B09200, 0xB1E6B092, 0x06502E08) == 0xC509461F;
    assert Horner4(0x1E6B0920, 0xB1E6B092, 0xC509461F) == 0xD10DF1FF;
    assert Horner4(0xB1E6B092, 0xB1E6B092, 0xD10DF1FF) == 0xA06A2517;
  }

  lemma Square4()
    ensures Image(0xA06A2517, 0xA06A2517) == 0xED627DAE
  {
    assert Double4(0xA06A2517) == 0x06A25170;
    assert Double4(0x06A25170) == 0x6A251700;
    assert Double4(0x6A251700) == 0xA2517000;
    assert Double4(0xA2517000) == 0x25170000;
    assert Double4(0x25170000) == 0x51700000;
    assert Double4(0x51700000) == 0x17000000;
    assert Double4(0x17000000) == 0x70000000;
    assert Horner4(0x70000000, 0xA06A2517, 0) == 0xBAF47C84;
    assert Horner4(0x17000000, 0xA06A2517, 0xBAF47C84) == 0xC974A082;
    assert Horner4(0x51700000, 0xA06A2517, 0xC974A082) == 0x3E735DB1;
    assert Horner4(0x25170000, 0xA06A2517, 0x3E735DB1) == 0xAD2E6E4A;
    assert Horner4(0xA2517000, 0xA06A2517, 0xAD2E6E4A) == 0xCF102BEE;
    assert Horner4(0x6A251700, 0xA06A2517, 0xCF102BEE) == 0xA2083A98;
    assert Horner4(0x06A25170, 0xA06A2517, 0xA2083A98) == 0xE7980089;
    assert Horner4(0xA06A2517, 0xA06A2517, 0xE7980089) == 0xED627DAE;
  }

  lemma Square5()
    ensures Image(0xED627DAE, 0xED627DAE) == 0x88D14467
  {
    assert Double4(0xED627DAE) == 0xD627DAE0;
    assert Double4(0xD627DAE0) == 0x627DAE00;
    assert Double4(0x627DAE00) == 0x27DAE000;
    assert Double4(0x27DAE000) == 0x7DAE0000;
    assert Double4(0x7DAE0000) == 0xDAE00000;
    assert Double4(0xDAE00000) == 0xAE000000;
    assert Double4(0xAE000000) == 0xE0000000;
    assert Horner4(0xE0000000, 0xED627DAE, 0) == 0x4D335F32;
    assert Horner4(0xAE000000, 0xED627DAE, 0x4D335F32) == 0x043F74DE;
    assert Horner4(0xDAE00000, 0xED627DAE, 0x043F74DE) == 0xBD52DB49;
    assert Horner4(0x7DAE0000, 0xED627DAE, 0xBD52DB49) == 0xDD431169;
    assert Horner4(0x27DAE000, 0xED627DAE, 0xDD431169) == 0x2B3BBE19;
    assert Horner4(0x627DAE00, 0xED627DAE, 0x2B3BBE19) == 0x52ED0A39;
    assert Horner4(0xD627DAE0, 0xED627DAE, 0x52ED0A39) == 0xE83A8D9B;
    assert Horner4(0xED627DAE, 0xED627DAE, 0xE83A8D9B) == 0x88D14467;
  }

  lemma Square6()
    ensures Image(0x88D14467, 0x88D14467) == 0xD7BBFE6A
  {
    assert Double4(0x88D14467) == 0x8D144670;
    assert Double4(0x8D144670) == 0xD1446700;
    assert Double4(0xD1446700) == 0x14467000;
    assert Double4(0x14467000) == 0x44670000;
    assert Double4(0x44670000) == 0x46700000;
    assert Double4(0x46700000) == 0x67000000;
    assert Double4(0x67000000) == 0x70000000;
    assert Horner4(0x70000000, 0x88D14467, 0) == 0xA190784E;
    assert Horner4(0x67000000, 0x88D14467, 0xA190784E) == 0xBA935746;
    assert Horner4(0x46700000, 0x88D14467, 0xBA935746) == 0xEFCB753F;
    assert Horner4(0x44670000, 0x88D14467, 0xEFCB753F) == 0x1A91645C;
    assert Horner4(0x14467000, 0x88D14467, 0x1A91645C) == 0x2BDD1E01;
    assert Horner4(0xD1446700, 0x88D14467, 0x2BDD1E01) == 0x8F1B6E04;
    assert Horner4(0x8D144670, 0x88D14467, 0x8F1B6E04) == 0xF6FCB317;
    assert Horner4(0x88D14467, 0x88D14467, 0xF6FCB317) == 0xD7BBFE6A;
  }

  lemma Square7()
    ensures Image(0xD7BBFE6A, 0xD7BBFE6A) == 0xEC447F11
  {
    assert Double4(0xD7BBFE6A) == 0x7BBFE6A0;
    assert Double4(0x7BBFE6A0) == 0xBBFE6A00;
    assert Double4(0xBBFE6A00) == 0xBFE6A000;
    assert Double4(0xBFE6A000) == 0xFE6A0000;
    assert Double4(0xFE6A0000) == 0xE6A00000;
    assert Double4(0xE6A00000) == 0x6A000000;
    assert Double4(0x6A000000) == 0xA0000000;
    assert Horner4(0xA0000000, 0xD7BBFE6A, 0) == 0x0FED82D0;
    assert Horner4(0x6A000000, 0xD7BBFE6A, 0x0FED82D0) == 0xB3755BA2;
    assert Horner4(0xE6A00000, 0xD7BBFE6A, 0xB3755BA2) == 0x54690897;
    assert Horner4(0xFE6A0000, 0xD7BBFE6A, 0x54690897) == 0x5D58A20D;
    assert Horner4(0xBFE6A000, 0xD7BBFE6A, 0x5D58A20D) == 0xE0C0E479;
    assert Horner4(0xBBFE6A00, 0xD7BBFE6A, 0xE0C0E479) == 0x9DC5218E;
    assert Horner4(0x7BBFE6A0, 0xD7BBFE6A, 0x9DC5218E) == 0x76760DB2;
    assert Horner4(0xD7BBFE6A, 0xD7BBFE6A, 0x76760DB2) == 0xEC447F11;
  }

  lemma Square8()
    ensures Image(0xEC447F11, 0xEC447F11) == 0x8E7EA170
  {
    assert Double4(0xEC447F11) == 0xC447F110;
    assert Double4(0xC447F110) == 0x447F1100;
    assert Double4(0x447F1100) == 0x47F11000;
    assert Double4(0x47F11000) == 0x7F110000;
    assert Double4(0x7F110000) == 0xF1100000;
    assert Double4(0xF1100000) == 0x11000000;
    assert Double4(0x11000000) == 0x10000000;
    assert Horner4(0x10000000, 0xEC447F11, 0) == 0x26E6AF2A;
    assert Horner4(0x11000000, 0xEC447F11, 0x26E6AF2A) == 0xF25E6630;
    assert Horner4(0xF1100000, 0xEC447F11, 0xF25E6630) == 0x13D0D4A4;
    assert Horner4(0x7F110000, 0xEC447F11, 0x13D0D4A4) == 0x8750010C;
    assert Horner4(0x47F11000, 0xEC447F11, 0x8750010C) == 0x088B7E08;
    assert Horner4(0x447F1100, 0xEC447F11, 0x088B7E08) == 0x76AA8868;
    assert Horner4(0xC447F110, 0xEC447F11, 0x76AA8868) == 0x9D0CE81F;
    assert Horner4(0xEC447F11, 0xEC447F11, 0x9D0CE81F) == 0x8E7EA170;
  }

  lemma Square9()
    ensures Image(0x8E7EA170, 0x8E7EA170) == 0x6427800E
  {
    assert Double4(0x8E7EA170) == 0xE7EA1700;
    assert Double4(0xE7EA1700) == 0x7EA17000;
    assert Double4(0x7EA17000) == 0xEA170000;
    assert Double4(0xEA170000) == 0xA1700000;
    assert Double4(0xA1700000) == 0x17000000;
    assert Double4(0x17000000) == 0x70000000;
    assert Double4(0x70000000) == 0;
    assert Horner4(0, 0x8E7EA170, 0) == 0;
    assert Horner4(0x70000000, 0x8E7EA170, 0) == 0x756F2CCA;
    assert Horner4(0x17000000, 0x8E7EA170, 0x756F2CCA) == 0xC04F850A;
    assert Horner4(0xA1700000, 0x8E7EA170, 0xC04F850A) == 0x77335294;
    assert Horner4(0xEA170000, 0x8E7EA170, 0x77335294) == 0x9B712D2D;
    assert Horner4(0x7EA17000, 0x8E7EA170, 0x9B712D2D) == 0xFA0BECCC;
    assert Horner4(0xE7EA1700, 0x8E7EA170, 0xFA0BECCC) == 0x7E1A25E8;
    assert Horner4(0x8E7EA170, 0x8E7EA170, 0x7E1A25E8) == 0x6427800E;
  }

  lemma Square10()
    ensures Image(0x6427800E, 0x6427800E) == 0x4D47BAE0
  {
    assert Double4(0x6427800E) == 0x427800E0;
    assert Double4(0x427800E0) == 0x27800E00;
    assert Double4(0x27800E00) == 0x7800E000;
    assert Double4(0x7800E000) == 0x800E0000;
    assert Double4(0x800E0000) == 0x00E00000;
    assert Double4(0x00E00000) == 0x0E000000;
    assert Double4(0x0E000000) == 0xE0000000;
    assert Horner4(0xE0000000, 0x6427800E, 0) == 0xA285232A;
    assert Horner4(0x0E000000, 0x6427800E, 0xA285232A) == 0xDCFEF1DA;
    assert Horner4(0x00E00000, 0x6427800E, 0xDCFEF1DA) == 0xDB194CF5;
    assert Horner4(0x800E0000, 0x6427800E, 0xDB194CF5) == 0x02FD4535;
    assert Horner4(0x7800E000, 0x6427800E, 0x02FD4535) == 0x3A061432;
    assert Horner4(0x27800E00, 0x6427800E, 0x3A061432) == 0xCC7F22A8;
    assert Horner4(0x427800E0, 0x6427800E, 0xCC7F22A8) == 0xD36CB10D;
    assert Horner4(0x6427800E, 0x6427800E, 0xD36CB10D) == 0x4D47BAE0;
  }

  lemma Square11()
    ensures Image(0x4D47BAE0, 0x4D47BAE0) == 0x09FE548F
  {
    assert Double4(0x4D47BAE0) == 0xD47BAE00;
    assert Double4(0xD47BAE00) == 0x47BAE000;
    assert Double4(0x47BAE000) == 0x7BAE0000;
    assert Double4(0x7BAE0000) == 0xBAE00000;
    assert Double4(0xBAE00000) == 0xAE000000;
    assert Double4(0xAE000000) == 0xE0000000;
    assert Double4(0xE0000000) == 0;
    assert Horner4(0, 0x4D47BAE0, 0) == 0;
    assert Horner4(0xE0000000, 0x4D47BAE0, 0) == 0x78B58928;
    assert Horner4(0xAE000000, 0x4D47BAE0, 0x78B58928) == 0xB4258FEA;
    assert Horner4(0xBAE00000, 0x4D47BAE0, 0xB4258FEA) == 0x8A2A5812;
    assert Horner4(0x7BAE0000, 0x4D47BAE0, 0x8A2A5812) == 0x0F9641DD;
    assert Horner4(0x47BAE000, 0x4D47BAE0, 0x0F9641DD) == 0xA0896BB9;
    assert Horner4(0xD47BAE00, 0x4D47BAE0, 0xA0896BB9) == 0x984B9533;
    assert Horner4(0x4D47BAE0, 0x4D47BAE0, 0x984B9533) == 0x09FE548F;
  }

  lemma Square12()
    ensures Image(0x09FE548F, 0x09FE548F) == 0x83852D0F
  {
    assert Double4(0x09FE548F) == 0x9FE548F0;
    assert Double4(0x9FE548F0) == 0xFE548F00;
    assert Double4(0xFE548F00) == 0xE548F000;
    assert Double4(0xE548F000) == 0x548F0000;
    assert Double4(0x548F0000) == 0x48F00000;
    assert Double4(0x48F00000) == 0x8F000000;
    assert Double4(0x8F000000) == 0xF0000000;
    assert Horner4(0xF0000000, 0x09FE548F, 0) == 0xD8978292;
    assert Horner4(0x8F000000, 0x09FE548F, 0xD8978292) == 0x3F190C6E;
    assert Horner4(0x48F00000, 0x09FE548F, 0x3F190C6E) == 0x4ABCDBD9;
    assert Horner4(0x548F0000, 0x09FE548F, 0x4ABCDBD9) == 0xBCD6DF77;
    assert Horner4(0xE548F000, 0x09FE548F, 0xBCD6DF77) == 0x226AB6B0;
    assert Horner4(0xFE548F00, 0x09FE548F, 0x226AB6B0) == 0xDAB129F9;
    assert Horner4(0x9FE548F0, 0x09FE548F, 0xDAB129F9) == 0x556FFDBD;
    assert Horner4(0x09FE548F, 0x09FE548F, 0x556FFDBD) == 0x83852D0F;
  }

  lemma Square13()
    ensures Image(0x83852D0F, 0x83852D0F) == 0x30362F1A
  {
    assert Double4(0x83852D0F) == 0x3852D0F0;
    assert Double4(0x3852D0F0) == 0x852D0F00;
    assert Double4(0x852D0F00) == 0x52D0F000;
    assert Double4(0x52D0F000) == 0x2D0F0000;
    assert Double4(0x2D0F0000) == 0xD0F00000;
    assert Double4(0xD0F00000) == 0x0F000000;
    assert Double4(0x0F000000) == 0xF0000000;
    assert Horner4(0xF0000000, 0x83852D0F, 0) == 0x2400F682;
    assert Horner4(0x0F000000, 0x83852D0F, 0x2400F682) == 0x392E2FA0;
    assert Horner4(0xD0F00000, 0x83852D0F, 0x392E2FA0) == 0x9C179D8B;
    assert Horner4(0x2D0F0000, 0x83852D0F, 0x9C179D8B) == 0x792543A7;
    assert Horner4(0x52D0F000, 0x83852D0F, 0x792543A7) == 0x4B977778;
    assert Horner4(0x852D0F00, 0x83852D0F, 0x4B977778) == 0x6A84D958;
    assert Horner4(0x3852D0F0, 0x83852D0F, 0x6A84D958) == 0xE0EF009F;
    assert Horner4(0x83852D0F, 0x83852D0F, 0xE0EF009F) == 0x30362F1A;
  }

  lemma Square14()
    ensures Image(0x30362F1A, 0x30362F1A) == 0x7B5A9CC3
  {
    assert Double4(0x30362F1A) == 0x0362F1A0;
    assert Double4(0x0362F1A0) == 0x362F1A00;
    assert Double4(0x362F1A00) == 0x62F1A000;
    assert Double4(0x62F1A000) == 0x2F1A0000;
    assert Double4(0x2F1A0000) == 0xF1A00000;
    assert Double4(0xF1A00000) == 0x1A000000;
    assert Double4(0x1A000000) == 0xA0000000;
    assert Horner4(0xA0000000, 0x30362F1A, 0) == 0xD18327FC;
    assert Horner4(0x1A000000, 0x30362F1A, 0xD18327FC) == 0xE6A674BC;
    assert Horner4(0xF1A00000, 0x30362F1A, 0xE6A674BC) == 0x2C4C11F9;
    assert Horner4(0x2F1A0000, 0x30362F1A, 0x2C4C11F9) == 0x137E5ABD;
    assert Horner4(0x62F1A000, 0x30362F1A, 0x137E5ABD) == 0x7E4A2814;
    assert Horner4(0x362F1A00, 0x30362F1A, 0x7E4A2814) == 0xE0576F84;
    assert Horner4(0x0362F1A0, 0x30362F1A, 0xE0576F84) == 0x78D93768;
    assert Horner4(0x30362F1A, 0x30362F1A, 0x78D93768) == 0x7B5A9CC3;
  }

  lemma TopAfterBytes()
    ensures Shift(TOP, 8) == 0x0080_0000 && Shift(0x0080_0000, 8) == 0x8000
    ensures Shift(0x8000, 8) == 0x80 && Shift(0x80, 8) == POLYNOMIAL
  {
  }

  /** Up to 31 shifts the top bit only moves down; the next one makes it the polynomial. */
  lemma TopAfterFourBytes()
    ensures Shift(TOP, 32) == POLYNOMIAL
  {
    hide Step;
    TopAfterBytes();
    ShiftAdd(TOP, 8, 8);
    ShiftAdd(TOP, 16, 8);
    ShiftAdd(TOP, 24, 8);
  }

  /** The image of the top bit under 1024, 2048, 16384 and 32768 zero bytes. */
  lemma TopColumns()
    ensures Shift(TOP, 8 * 1024) == 0x6427800E
    ensures Shift(TOP, 8 * 2048) == 0x4D47BAE0
    ensures Shift(TOP, 8 * 16384) == 0x30362F1A
    ensures Shift(TOP, 8 * 32768) == 0x7B5A9CC3
  {
    hide Shift, Image;
    TopAfterFourBytes();
    Square2(); Squared(32, 0xEDB88320);
    Square3(); Squared(64, 0xB1E6B092);
    Square4(); Squared(128, 0xA06A2517);
    Square5(); Squared(256, 0xED627DAE);
    Square6(); Squared(512, 0x88D14467);
    Square7(); Squared(1024, 0xD7BBFE6A);
    Square8(); Squared(2048, 0xEC447F11);
    Square9(); Squared(4096, 0x8E7EA170);
    Square10(); Squared(8192, 0x6427800E);
    Square11(); Squared(16384, 0x4D47BAE0);
    Square12(); Squared(32768, 0x09FE548F);
    Square13(); Squared(65536, 0x83852D0F);
    Square14(); Squared(131072, 0x30362F1A);
  }

  /** The register whose only set bit is bit i. */
  function Basis(i: nat): bv32 {
    if i == 0 then 1 else Double(Basis(i - 1))
  }

  /** Column i is the image of bit i under n zero bytes. */
  ghost predicate AreColumns(columns: seq<bv32>, n: nat) {
    |columns| == 32 && forall i :: 0 <= i < 32 ==> columns[i] == Shift(Basis(i), 8 * n)
  }

  lemma ChainAt(a: seq<bv32>, k: nat)
    requires |a| == 8 && IsChain(a) && k < 7
    ensures a[k] == Step(a[k + 1])
  {
  }

  lemma RowOfColumn(a: seq<bv32>, b: seq<bv32>, c: seq<bv32>, d: seq<bv32>, i: nat)
    requires |a| == |b| == |c| == |d| == 8 && i < 32
    ensures (a + b + c + d)[i] == if i < 8 then a[i] else if i < 16 then b[i - 8] else if i < 24 then c[i - 16] else d[i - 24]
  {
  }

  lemma ColumnAt(a: seq<bv32>, b: seq<bv32>, c: seq<bv32>, d: seq<bv32>, i: nat)
    requires AreChained(a, b, c, d) && i < 31
    ensures (a + b + c + d)[i] == Step((a + b + c + d)[i + 1])
  {
    hide Step, IsChain;
    RowOfColumn(a, b, c, d, i);
    RowOfColumn(a, b, c, d, i + 1);
    if i < 7 {
      ChainAt(a, i);
    } else if 8 <= i < 15 {
      ChainAt(b, i - 8);
    } else if 16 <= i < 23 {
      ChainAt(c, i - 16);
    } else if 24 <= i {
      ChainAt(d, i - 24);
    }
  }

  lemma Basis0To15()
    ensures Basis(1) == 0x2 && Basis(2) == 0x4 && Basis(3) == 0x8 && Basis(4) == 0x10 && Basis(5) == 0x20
    ensures Basis(6) == 0x40 && Basis(7) == 0x80 && Basis(8) == 0x100 && Basis(9) == 0x200 && Basis(10) == 0x400
    ensures Basis(11) == 0x800 && Basis(12) == 0x1000 && Basis(13) == 0x2000 && Basis(14) == 0x4000 && Basis(15) == 0x8000
  {
  }

  lemma Basis16To31()
    ensures Basis(16) == 0x1_0000 && Basis(17) == 0x2_0000 && Basis(18) == 0x4_0000 && Basis(19) == 0x8_0000
    ensures Basis(20) == 0x10_0000 && Basis(21) == 0x20_0000 && Basis(22) == 0x40_0000 && Basis(23) == 0x80_0000
    ensures Basis(24) == 0x100_0000 && Basis(25) == 0x200_0000 && Basis(26) == 0x400_0000 && Basis(27) == 0x800_0000
    ensures Basis(28) == 0x1000_0000 && Basis(29) == 0x2000_0000 && Basis(30) == 0x4000_0000 && Basis(31) == TOP
  {
    Basis0To15();
  }

  lemma FirstBasis()
    ensures Basis(0) == 1
  {
  }

  lemma BasisBelowTop(i: nat)
    requires i < 31
    ensures Basis(i) & TOP == 0
  {
    hide Basis;
    Basis0To15();
    Basis16To31();
    assert Basis(0) == 1 by {
      FirstBasis();
    }
  }

  lemma StepOfDouble(v: bv32)
    requires v & TOP == 0
    ensures Step(Double(v)) == v
  {
  }

  lemma StepOfBasis(i: nat)
    requires i < 31
    ensures Step(Basis(i + 1)) == Basis(i)
  {
    hide Step, Double;
    BasisBelowTop(i);
    StepOfDouble(Basis(i));
  }

  /** A chain whose last column is right has every column right. */
  lemma {:induction false} ChainIsColumns(a: seq<bv32>, b: seq<bv32>, c: seq<bv32>, d: seq<bv32>, n: nat, i: nat)
    requires AreChained(a, b, c, d) && d[7] == Shift(TOP, 8 * n) && i < 32
    ensures (a + b + c + d)[i] == Shift(Basis(i), 8 * n)
    decreases 31 - i
  {
    hide Shift, Step, Basis, IsChain;
    if i == 31 {
      Basis16To31();
    } else {
      ChainIsColumns(a, b, c, d, n, i + 1);
      ColumnAt(a, b, c, d, i);
      StepOfBasis(i);
      ShiftOfStep(Basis(i + 1), 8 * n);
    }
  }

  lemma AllColumns(a: seq<bv32>, b: seq<bv32>, c: seq<bv32>, d: seq<bv32>, n: nat)
    requires AreChained(a, b, c, d) && d[7] == Shift(TOP, 8 * n)
    ensures AreColumns(a + b + c + d, n)
  {
    hide Shift, Basis, IsChain;
    forall i | 0 <= i < 32
      ensures (a + b + c + d)[i] == Shift(Basis(i), 8 * n)
    {
      ChainIsColumns(a, b, c, d, n, i);
    }
  }

  /** The four listed column tables are the maps for 1, 2, 16 and 32 KiB of zero bytes. */
  lemma ColumnTables()
    ensures AreColumns(SHIFT_1K, 1024) && AreColumns(SHIFT_2K, 2048)
    ensures AreColumns(SHIFT_16K, 16384) && AreColumns(SHIFT_32K, 32768)
  {
    hide IsChain, AreChained, AreColumns;
    TopColumns();
    Chain1K(); Chain2K(); Chain16K(); Chain32K();
    AllColumns(SHIFT_1K_0, SHIFT_1K_1, SHIFT_1K_2, SHIFT_1K_3, 1024);
    AllColumns(SHIFT_2K_0, SHIFT_2K_1, SHIFT_2K_2, SHIFT_2K_3, 2048);
    AllColumns(SHIFT_16K_0, SHIFT_16K_1, SHIFT_16K_2, SHIFT_16K_3, 16384);
    AllColumns(SHIFT_32K_0, SHIFT_32K_1, SHIFT_32K_2, SHIFT_32K_3, 32768);
  }
}

// Where an unsigned descriptor may begin relative to a signed one: never so that the
// record behind it starts inside the signed descriptor.
module DescriptorOverlap {
  import opened Bytes
  import opened Crc32
  import opened Crc32Tables
  import opened Signatures
  import opened StoreDescriptors
  import opened StoreScanner

  // ---------------------------------------------------------------- digits

  /** The byte at i as a number. */
  function Digit(s: seq<byte>, i: nat): (d: nat)
    requires i < |s|
    ensures d < 0x100
  {
    s[i] as nat
  }

  function Number(d0: nat, d1: nat, d2: nat, d3: nat): nat {
    d0 + 0x100 * d1 + 0x1_0000 * d2 + 0x100_0000 * d3
  }

  lemma Le32Digits(s: seq<byte>, i: nat)
    requires i + 4 <= |s|
    ensures Le32(s, i) == Number(Digit(s, i), Digit(s, i + 1), Digit(s, i + 2), Digit(s, i + 3))
  {
  }

  /** The digits of a record signature. */
  predicate SignatureDigits(d0: nat, d1: nat, d2: nat, d3: nat) {
    && d0 == 0x50 && d1 == 0x4B
    && ((d2 == 3 && d3 == 4) || (d2 == 1 && d3 == 2) || (d2 == 5 && d3 == 6) || (d2 == 6 && d3 == 6) || (d2 == 6 && d3 == 7))
  }

  lemma SignatureNumbers()
    ensures Number(0x50, 0x4B, 3, 4) == SIGN_LOCAL_FILE && Number(0x50, 0x4B, 1, 2) == SIGN_CENTRAL_DIR
    ensures Number(0x50, 0x4B, 5, 6) == SIGN_END_CENTRAL && Number(0x50, 0x4B, 6, 6) == SIGN_ZIP64_END
    ensures Number(0x50, 0x4B, 6, 7) == SIGN_ZIP64_LOCATOR
  {
  }

  lemma SplitDigit(d: nat, q: nat, e: nat, r: nat)
    requires d < 0x100 && e < 0x100 && d + 0x100 * q == e + 0x100 * r
    ensures d == e && q == r
  {
  }

  /** Equal numbers have equal digits. */
  lemma SameNumber(a0: nat, a1: nat, a2: nat, a3: nat, b0: nat, b1: nat, b2: nat, b3: nat)
    requires a0 < 0x100 && a1 < 0x100 && a2 < 0x100 && a3 < 0x100
    requires b0 < 0x100 && b1 < 0x100 && b2 < 0x100 && b3 < 0x100
    requires Number(a0, a1, a2, a3) == Number(b0, b1, b2, b3)
    ensures a0 == b0 && a1 == b1 && a2 == b2 && a3 == b3
  {
    SplitDigit(a0, a1 + 0x100 * (a2 + 0x100 * a3), b0, b1 + 0x100 * (b2 + 0x100 * b3));
    SplitDigit(a1, a2 + 0x100 * a3, b1, b2 + 0x100 * b3);
    SplitDigit(a2, a3, b2, b3);
  }

  lemma DigitsAre(d0: nat, d1: nat, d2: nat, d3: nat, e0: nat, e1: nat, e2: nat, e3: nat)
    requires d0 < 0x100 && d1 < 0x100 && d2 < 0x100 && d3 < 0x100
    requires e0 < 0x100 && e1 < 0x100 && e2 < 0x100 && e3 < 0x100
    ensures Number(d0, d1, d2, d3) == Number(e0, e1, e2, e3) <==> d0 == e0 && d1 == e1 && d2 == e2 && d3 == e3
  {
    hide Number;
    if Number(d0, d1, d2, d3) == Number(e0, e1, e2, e3) {
      SameNumber(d0, d1, d2, d3, e0, e1, e2, e3);
    }
  }

  lemma DigitsOfSignature(d0: nat, d1: nat, d2: nat, d3: nat)
    requires d0 < 0x100 && d1 < 0x100 && d2 < 0x100 && d3 < 0x100
    ensures IsRecordSignature(Number(d0, d1, d2, d3)) <==> SignatureDigits(d0, d1, d2, d3)
  {
    hide Number;
    SignatureNumbers();
    DigitsAre(d0, d1, d2, d3, 0x50, 0x4B, 3, 4);
    DigitsAre(d0, d1, d2, d3, 0x50, 0x4B, 1, 2);
    DigitsAre(d0, d1, d2, d3, 0x50, 0x4B, 5, 6);
    DigitsAre(d0, d1, d2, d3, 0x50, 0x4B, 6, 6);
    DigitsAre(d0, d1, d2, d3, 0x50, 0x4B, 6, 7);
  }

  lemma DigitsOfDescriptor(d0: nat, d1: nat, d2: nat, d3: nat)
    requires d0 < 0x100 && d1 < 0x100 && d2 < 0x100 && d3 < 0x100
    requires Number(d0, d1, d2, d3) == SIGN_DATA_DESC
    ensures d0 == 0x50 && d1 == 0x4B && d2 == 7 && d3 == 8
  {
  }

  // ---------------------------------------------------------------- what overlapping descriptors would hold

  /** The digits of a signed descriptor at g. */
  lemma SignedDigits(s: seq<byte>, g: nat)
    requires SignedAt(s, g)
    ensures g + 20 <= |s|
    ensures Digit(s, g) == 0x50 && Digit(s, g + 1) == 0x4B && Digit(s, g + 2) == 7 && Digit(s, g + 3) == 8
    ensures Number(Digit(s, g + 8), Digit(s, g + 9), Digit(s, g + 10), Digit(s, g + 11)) == g
    ensures Number(Digit(s, g + 12), Digit(s, g + 13), Digit(s, g + 14), Digit(s, g + 15)) == g
    ensures SignatureDigits(Digit(s, g + 16), Digit(s, g + 17), Digit(s, g + 18), Digit(s, g + 19))
    ensures CrcField(s, g + 4) == Crc(s[..g])
  {
    hide Le32, Digit, Number, CrcField, IsRecordSignature, SignatureDigits;
    Le32Digits(s, g);
    Le32Digits(s, g + 8);
    Le32Digits(s, g + 12);
    Le32Digits(s, g + 16);
    DigitsOfDescriptor(Digit(s, g), Digit(s, g + 1), Digit(s, g + 2), Digit(s, g + 3));
    DigitsOfSignature(Digit(s, g + 16), Digit(s, g + 17), Digit(s, g + 18), Digit(s, g + 19));
  }

  /** The digits of an unsigned descriptor whose record starts at h. */
  lemma UnsignedDigits(s: seq<byte>, h: nat)
    requires 12 <= h && UnsignedAt(s, h - 12)
    ensures h + 4 <= |s|
    ensures Number(Digit(s, h - 8), Digit(s, h - 7), Digit(s, h - 6), Digit(s, h - 5)) == h - 12
    ensures Number(Digit(s, h - 4), Digit(s, h - 3), Digit(s, h - 2), Digit(s, h - 1)) == h - 12
    ensures SignatureDigits(Digit(s, h), Digit(s, h + 1), Digit(s, h + 2), Digit(s, h + 3))
    ensures CrcField(s, h - 12) == Crc(s[..h - 12])
  {
    hide Le32, Digit, Number, CrcField, IsRecordSignature, SignatureDigits;
    Le32Digits(s, h - 8);
    Le32Digits(s, h - 4);
    Le32Digits(s, h);
    DigitsOfSignature(Digit(s, h), Digit(s, h + 1), Digit(s, h + 2), Digit(s, h + 3));
  }

  /** The two sizes of an unsigned descriptor have the same digits. */
  lemma SizesAgree(s: seq<byte>, h: nat)
    requires 12 <= h && UnsignedAt(s, h - 12)
    ensures h + 4 <= |s|
    ensures Digit(s, h - 8) == Digit(s, h - 4) && Digit(s, h - 7) == Digit(s, h - 3)
    ensures Digit(s, h - 6) == Digit(s, h - 2) && Digit(s, h - 5) == Digit(s, h - 1)
  {
    hide Digit, Number, UnsignedAt, SignatureDigits;
    UnsignedDigits(s, h);
    SameNumber(Digit(s, h - 8), Digit(s, h - 7), Digit(s, h - 6), Digit(s, h - 5),
               Digit(s, h - 4), Digit(s, h - 3), Digit(s, h - 2), Digit(s, h - 1));
  }

  /** The record's signature falls on bytes of the descriptor's signature or of the next record's. */
  lemma SignatureClashes(s: seq<byte>, g: nat, h: nat)
    requires SignedAt(s, g) && 12 <= h && (g < h < g + 4 || g + 12 < h < g + 16)
    ensures !UnsignedAt(s, h - 12)
  {
    hide SignedAt, UnsignedAt, Digit, Number;
    SignedDigits(s, g);
    if UnsignedAt(s, h - 12) {
      UnsignedDigits(s, h);
    }
  }

  /** The digits of a signed descriptor and its size, whose two copies agree. */
  lemma Inside(s: seq<byte>, g: nat)
    requires SignedAt(s, g)
    ensures g + 20 <= |s|
    ensures Digit(s, g) == 0x50 && Digit(s, g + 1) == 0x4B && Digit(s, g + 2) == 7 && Digit(s, g + 3) == 8
    ensures Number(Digit(s, g + 8), Digit(s, g + 9), Digit(s, g + 10), Digit(s, g + 11)) == g
    ensures Digit(s, g + 12) == Digit(s, g + 8) && Digit(s, g + 13) == Digit(s, g + 9)
    ensures Digit(s, g + 14) == Digit(s, g + 10) && Digit(s, g + 15) == Digit(s, g + 11)
  {
    hide Digit, Number, SignedAt, SignatureDigits;
    SignedDigits(s, g);
    SameNumber(Digit(s, g + 8), Digit(s, g + 9), Digit(s, g + 10), Digit(s, g + 11),
               Digit(s, g + 12), Digit(s, g + 13), Digit(s, g + 14), Digit(s, g + 15));
  }

  lemma Constants()
    ensures Number(0x4B, 7, 8, 0x50) + 7 == Number(0x52, 7, 8, 0x50)
    ensures Number(7, 8, 0x50, 0x4B) + 6 == Number(0x0D, 8, 0x50, 0x4B)
    ensures Number(8, 0x50, 0x4B, 7) + 5 == Number(0x0D, 0x50, 0x4B, 7)
    ensures Number(0x50, 0x4B, 7, 8) + 4 == Number(0x54, 0x4B, 7, 8)
  {
  }

  lemma AddToLowest(d0: nat, n: nat, d1: nat, d2: nat, d3: nat)
    ensures Number(d0 + n, d1, d2, d3) == Number(d0, d1, d2, d3) + n
  {
  }

  // A record 5 to 12 bytes into a signed descriptor: the sizes before it fall on the descriptor's own
  // bytes, which fixes the descriptor's size, and its digits are those of no signature.

  lemma Clash5(s: seq<byte>, g: nat)
    requires SignedAt(s, g) && 7 <= g
    ensures !UnsignedAt(s, g - 7)
  {
    hide SignedAt, UnsignedAt, Digit, Number;
    Inside(s, g);
    if UnsignedAt(s, g - 7) {
      UnsignedDigits(s, g + 5);
      SizesAgree(s, g + 5);
      Constants();
      SameNumber(Digit(s, g + 8), Digit(s, g + 9), Digit(s, g + 10), Digit(s, g + 11), 0x52, 7, 8, 0x50);
    }
  }

  lemma Clash6(s: seq<byte>, g: nat)
    requires SignedAt(s, g) && 6 <= g
    ensures !UnsignedAt(s, g - 6)
  {
    hide SignedAt, UnsignedAt, Digit, Number;
    Inside(s, g);
    if UnsignedAt(s, g - 6) {
      UnsignedDigits(s, g + 6);
      SizesAgree(s, g + 6);
      Constants();
      SameNumber(Digit(s, g + 8), Digit(s, g + 9), Digit(s, g + 10), Digit(s, g + 11), 0x0D, 8, 0x50, 0x4B);
    }
  }

  lemma Clash7(s: seq<byte>, g: nat)
    requires SignedAt(s, g) && 5 <= g
    ensures !UnsignedAt(s, g - 5)
  {
    hide SignedAt, UnsignedAt, Digit, Number;
    Inside(s, g);
    if UnsignedAt(s, g - 5) {
      UnsignedDigits(s, g + 7);
      SizesAgree(s, g + 7);
      Constants();
      SameNumber(Digit(s, g + 8), Digit(s, g + 9), Digit(s, g + 10), Digit(s, g + 11), 0x0D, 0x50, 0x4B, 7);
    }
  }

  lemma Clash8(s: seq<byte>, g: nat)
    requires SignedAt(s, g) && 4 <= g
    ensures !UnsignedAt(s, g - 4)
  {
    hide SignedAt, UnsignedAt, Digit, Number;
    Inside(s, g);
    if UnsignedAt(s, g - 4) {
      UnsignedDigits(s, g + 8);
      SizesAgree(s, g + 8);
      Constants();
      SameNumber(Digit(s, g + 8), Digit(s, g + 9), Digit(s, g + 10), Digit(s, g + 11), 0x54, 0x4B, 7, 8);
    }
  }

  lemma Clash9(s: seq<byte>, g: nat)
    requires SignedAt(s, g) && 3 <= g
    ensures !UnsignedAt(s, g - 3)
  {
    hide SignedAt, UnsignedAt, Digit, Number;
    Inside(s, g);
    if UnsignedAt(s, g - 3) {
      UnsignedDigits(s, g + 9);
      SizesAgree(s, g + 9);
      Constants();
      AddToLowest(0x4B, 3, 7, 8, Digit(s, g + 8));
      SameNumber(Digit(s, g + 8), Digit(s, g + 9), Digit(s, g + 10), Digit(s, g + 11), 0x4E, 7, 8, Digit(s, g + 8));
    }
  }

  lemma Clash10(s: seq<byte>, g: nat)
    requires SignedAt(s, g) && 2 <= g
    ensures !UnsignedAt(s, g - 2)
  {
    hide SignedAt, UnsignedAt, Digit, Number;
    Inside(s, g);
    if UnsignedAt(s, g - 2) {
      UnsignedDigits(s, g + 10);
      SizesAgree(s, g + 10);
      Constants();
      AddToLowest(7, 2, 8, Digit(s, g + 8), Digit(s, g + 9));
      SameNumber(Digit(s, g + 8), Digit(s, g + 9), Digit(s, g + 10), Digit(s, g + 11), 9, 8, Digit(s, g + 8), Digit(s, g + 9));
    }
  }

  lemma Clash11(s: seq<byte>, g: nat)
    requires SignedAt(s, g) && 1 <= g
    ensures !UnsignedAt(s, g - 1)
  {
    hide SignedAt, UnsignedAt, Digit, Number;
    Inside(s, g);
    if UnsignedAt(s, g - 1) {
      UnsignedDigits(s, g + 11);
      SizesAgree(s, g + 11);
      Constants();
      AddToLowest(8, 1, Digit(s, g + 8), Digit(s, g + 9), Digit(s, g + 10));
      SameNumber(Digit(s, g + 8), Digit(s, g + 9), Digit(s, g + 10), Digit(s, g + 11), 9, Digit(s, g + 8), Digit(s, g + 9), Digit(s, g + 10));
    }
  }

  lemma SameWord(a0: byte, a1: byte, a2: byte, a3: byte, b0: byte, b1: byte, b2: byte, b3: byte)
    requires WordOf(a0, a1, a2, a3) == WordOf(b0, b1, b2, b3)
    ensures a0 == b0 && a1 == b1 && a2 == b2 && a3 == b3
  {
  }

  lemma SameCrcField(s: seq<byte>, i: nat, j: nat)
    requires i + 4 <= |s| && j + 4 <= |s| && CrcField(s, i) == CrcField(s, j)
    ensures Digit(s, i) == Digit(s, j) && Digit(s, i + 1) == Digit(s, j + 1)
    ensures Digit(s, i + 2) == Digit(s, j + 2) && Digit(s, i + 3) == Digit(s, j + 3)
  {
    hide WordOf;
    SameWord(s[i], s[i + 1], s[i + 2], s[i + 3], s[j], s[j + 1], s[j + 2], s[j + 3]);
  }

  lemma Clash12(s: seq<byte>, g: nat)
    requires SignedAt(s, g)
    ensures !UnsignedAt(s, g)
  {
    hide SignedAt, UnsignedAt, Digit, Number;
    Inside(s, g);
    if UnsignedAt(s, g) {
      UnsignedDigits(s, g + 12);
      SizesAgree(s, g + 12);
      Constants();
      SignedDigits(s, g);
      SameCrcField(s, g, g + 4);
    }
  }

  // ---------------------------------------------------------------- a record four bytes into a descriptor

  /** A register and the word of its own complement meet in 0xFF everywhere. */
  lemma MixesToOnes(c: bv32, t0: byte, t1: byte, t2: byte, t3: byte)
    requires WordOf(t0, t1, t2, t3) == Not(c)
    ensures Mix(c, t0) == 0xFF && Mix(Down(c), t1) == 0xFF
    ensures Mix(Down(Down(c)), t2) == 0xFF && Mix(Down(Down(Down(c))), t3) == 0xFF
  {
  }

  lemma FeedOnes()
    ensures FeedBits(0, 0xFF, 8) == 0x2D02EF8D
    ensures FeedBits(0x2D02EF8D, 0xFF, 8) == 0xBE2612FF
    ensures FeedBits(0xBE2612FF, 0xFF, 8) == 0x00BE2612
    ensures FeedBits(0x00BE2612, 0xFF, 8) == 0xDEBB20E3
    ensures FeedBits(0xDEBB20E3, 0x50, 8) == 0x52B65916
    ensures FeedBits(0x52B65916, 0x4B, 8) == 0x15889B10
    ensures FeedBits(0x15889B10, 0x07, 8) == 0x83C60D5C
    ensures FeedBits(0x83C60D5C, 0x08, 8) == 0x6C8553E0
  {
  }

  lemma NotOfResidue()
    ensures Not(0x6C8553E0) == 0x937AAC1F
  {
  }

  /** A string, its CRC and the descriptor signature have the same CRC for every string. */
  lemma CrcAfterOwnCrc(x: seq<byte>, t: seq<byte>)
    requires |t| == 4 && CrcField(t, 0) == Crc(x)
    ensures Crc(x + t + [0x50, 0x4B, 7, 8]) == 0x937AAC1F
  {
    hide Raw, FeedBits, Mix, Down, WordOf, Not;
    var c := Raw(Not(0), x);
    var d: seq<byte> := [0x50, 0x4B, 7, 8];
    NotNot(c);
    MixesToOnes(c, t[0], t[1], t[2], t[3]);
    FeedFourMixes(c, t[0], t[1], t[2], t[3]);
    FeedOnes();
    RawConcat(Not(0), x, t);
    RawConcat(Not(0), x + t, d);
    RawOfFour(c, t);
    RawOfFour(0xDEBB20E3, d);
    RawOfEmpty(0xDEBB20E3, t[4..]);
    RawOfEmpty(0x6C8553E0, d[4..]);
    NotOfResidue();
  }

  lemma FirstOfWord(b0: byte, b1: byte, b2: byte, b3: byte)
    requires WordOf(b0, b1, b2, b3) == 0x937AAC1F
    ensures b0 == 0x1F
  {
  }

  lemma FromDigits(d: seq<byte>)
    requires |d| == 4
    requires Digit(d, 0) == 0x50 && Digit(d, 1) == 0x4B && Digit(d, 2) == 7 && Digit(d, 3) == 8
    ensures d == [0x50, 0x4B, 7, 8]
  {
  }

  /** The size before such a record is the descriptor's signature, so the bytes before the descriptor end in
      their own CRC and that signature, and the CRC of all of them is no record signature. */
  lemma Clash4(s: seq<byte>, g: nat)
    requires SignedAt(s, g) && 8 <= g
    ensures !UnsignedAt(s, g - 8)
  {
    hide SignedAt, UnsignedAt, Number, Crc, WordOf;
    SignedDigits(s, g);
    if UnsignedAt(s, g - 8) {
      UnsignedDigits(s, g + 4);
      SizesAgree(s, g + 4);
      var x, t, d := s[..g - 8], s[g - 8..g - 4], s[g - 4..g];
      assert CrcField(t, 0) == CrcField(s, g - 8);
      FromDigits(d);
      assert d == [0x50, 0x4B, 7, 8];
      assert s[..g] == x + t + d;
      CrcAfterOwnCrc(x, t);
      FirstOfWord(s[g + 4], s[g + 5], s[g + 6], s[g + 7]);
    }
  }

  // ---------------------------------------------------------------- the result

  /** No unsigned descriptor's record starts inside a signed descriptor. */
  lemma NoOverlap(s: seq<byte>, g: nat, h: nat)
    requires SignedAt(s, g) && g < h < g + 16 && 12 <= h
    ensures !UnsignedAt(s, h - 12)
  {
    hide SignedAt, UnsignedAt;
    if h < g + 4 || g + 12 < h {
      SignatureClashes(s, g, h);
    } else if h == g + 4 {
      Clash4(s, g);
    } else if h == g + 5 {
      Clash5(s, g);
    } else if h == g + 6 {
      Clash6(s, g);
    } else if h == g + 7 {
      Clash7(s, g);
    } else if h == g + 8 {
      Clash8(s, g);
    } else if h == g + 9 {
      Clash9(s, g);
    } else if h == g + 10 {
      Clash10(s, g);
    } else if h == g + 11 {
      Clash11(s, g);
    } else {
      Clash12(s, g);
    }
  }
}

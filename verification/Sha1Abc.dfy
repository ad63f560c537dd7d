// The SHA-1 digest of "abc" (section 7.3 of RFC 3174), round by round.
module Sha1Abc {
  import opened Bytes
  import opened Sha1

  const ABC: seq<byte> := [0x61, 0x62, 0x63]

  /** The one block of the padded message. */
  function Block(): (s: seq<byte>)
    ensures |s| == BLOCK_SIZE
  {
    [0x61, 0x62, 0x63, 0x80] + Zeroes(52) + [0, 0, 0, 0, 0, 0, 0, 24]
  }

  function Word(t: nat): bv32 {
    Schedule(Block(), t)
  }

  function After(t: nat): Chain {
    Rounds(INITIAL, Block(), t)
  }

  // ---------------------------------------------------------------- one step

  lemma NextWord(t: nat, w3: bv32, w8: bv32, w14: bv32, w16: bv32, w: bv32)
    requires t >= 16 && Word(t - 3) == w3 && Word(t - 8) == w8 && Word(t - 14) == w14 && Word(t - 16) == w16
    requires w == ((w3 ^ w8 ^ w14 ^ w16) << 1) | ((w3 ^ w8 ^ w14 ^ w16) >> 31)
    ensures Word(t) == w
  {
    hide Block;
  }

  lemma NextRound(t: nat, a: bv32, b: bv32, c: bv32, d: bv32, e: bv32, w: bv32)
    requires After(t) == Chain(a, b, c, d, e) && Word(t) == w
    ensures After(t + 1) == Chain(Mixed(t, a, b, c, d, e, w), a, RotateLeft30(b), c, d)
  {
    hide Schedule, Block, Mixed, RotateLeft30;
  }

  lemma RotateIs(x: bv32)
    ensures RotateLeft5(x) == (x << 5) | (x >> 27) && RotateLeft30(x) == (x << 30) | (x >> 2)
  {
  }

  lemma Choose(t: nat, a: bv32, b: bv32, c: bv32, d: bv32, e: bv32, w: bv32, next: bv32)
    requires 0 <= t < 20 && After(t) == Chain(a, b, c, d, e) && Word(t) == w
    requires next == Sum((a << 5) | (a >> 27), (b & c) | (!b & d), e, 0x5A827999, w)
    ensures After(t + 1) == Chain(next, a, (b << 30) | (b >> 2), c, d)
  {
    hide Word, After, Sum, RotateLeft5, RotateLeft30;
    NextRound(t, a, b, c, d, e, w);
    RotateIs(a);
    RotateIs(b);
  }

  lemma Parity(t: nat, a: bv32, b: bv32, c: bv32, d: bv32, e: bv32, w: bv32, next: bv32)
    requires 20 <= t < 40 && After(t) == Chain(a, b, c, d, e) && Word(t) == w
    requires next == Sum((a << 5) | (a >> 27), b ^ c ^ d, e, 0x6ED9EBA1, w)
    ensures After(t + 1) == Chain(next, a, (b << 30) | (b >> 2), c, d)
  {
    hide Word, After, Sum, RotateLeft5, RotateLeft30;
    NextRound(t, a, b, c, d, e, w);
    RotateIs(a);
    RotateIs(b);
  }

  lemma Majority(t: nat, a: bv32, b: bv32, c: bv32, d: bv32, e: bv32, w: bv32, next: bv32)
    requires 40 <= t < 60 && After(t) == Chain(a, b, c, d, e) && Word(t) == w
    requires next == Sum((a << 5) | (a >> 27), (b & c) | (b & d) | (c & d), e, 0x8F1BBCDC, w)
    ensures After(t + 1) == Chain(next, a, (b << 30) | (b >> 2), c, d)
  {
    hide Word, After, Sum, RotateLeft5, RotateLeft30;
    NextRound(t, a, b, c, d, e, w);
    RotateIs(a);
    RotateIs(b);
  }

  lemma LastParity(t: nat, a: bv32, b: bv32, c: bv32, d: bv32, e: bv32, w: bv32, next: bv32)
    requires 60 <= t < 80 && After(t) == Chain(a, b, c, d, e) && Word(t) == w
    requires next == Sum((a << 5) | (a >> 27), b ^ c ^ d, e, 0xCA62C1D6, w)
    ensures After(t + 1) == Chain(next, a, (b << 30) | (b >> 2), c, d)
  {
    hide Word, After, Sum, RotateLeft5, RotateLeft30;
    NextRound(t, a, b, c, d, e, w);
    RotateIs(a);
    RotateIs(b);
  }

  // ---------------------------------------------------------------- the message schedule

  lemma Words0To15()
    ensures Word(0) == 0x61626380
    ensures Word(1) == 0x00000000
    ensures Word(2) == 0x00000000
    ensures Word(3) == 0x00000000
    ensures Word(4) == 0x00000000
    ensures Word(5) == 0x00000000
    ensures Word(6) == 0x00000000
    ensures Word(7) == 0x00000000
    ensures Word(8) == 0x00000000
    ensures Word(9) == 0x00000000
    ensures Word(10) == 0x00000000
    ensures Word(11) == 0x00000000
    ensures Word(12) == 0x00000000
    ensures Word(13) == 0x00000000
    ensures Word(14) == 0x00000000
    ensures Word(15) == 0x00000018
  {
  }

  lemma Words16To31()
    ensures Word(16) == 0xC2C4C700 && Word(17) == 0x00000000 && Word(18) == 0x00000030 && Word(19) == 0x85898E01
    ensures Word(20) == 0x00000000 && Word(21) == 0x00000060 && Word(22) == 0x0B131C03 && Word(23) == 0x00000030
    ensures Word(24) == 0x85898EC1 && Word(25) == 0x16263806 && Word(26) == 0x00000000 && Word(27) == 0x00000180
    ensures Word(28) == 0x2C4C700C && Word(29) == 0x000000F0 && Word(30) == 0x93AFB507 && Word(31) == 0x5898E048
  {
    hide Word;
    Words0To15();
    NextWord(16, 0x00000000, 0x00000000, 0x00000000, 0x61626380, 0xC2C4C700);
    NextWord(17, 0x00000000, 0x00000000, 0x00000000, 0x00000000, 0x00000000);
    NextWord(18, 0x00000018, 0x00000000, 0x00000000, 0x00000000, 0x00000030);
    NextWord(19, 0xC2C4C700, 0x00000000, 0x00000000, 0x00000000, 0x85898E01);
    NextWord(20, 0x00000000, 0x00000000, 0x00000000, 0x00000000, 0x00000000);
    NextWord(21, 0x00000030, 0x00000000, 0x00000000, 0x00000000, 0x00000060);
    NextWord(22, 0x85898E01, 0x00000000, 0x00000000, 0x00000000, 0x0B131C03);
    NextWord(23, 0x00000000, 0x00000018, 0x00000000, 0x00000000, 0x00000030);
    NextWord(24, 0x00000060, 0xC2C4C700, 0x00000000, 0x00000000, 0x85898EC1);
    NextWord(25, 0x0B131C03, 0x00000000, 0x00000000, 0x00000000, 0x16263806);
    NextWord(26, 0x00000030, 0x00000030, 0x00000000, 0x00000000, 0x00000000);
    NextWord(27, 0x85898EC1, 0x85898E01, 0x00000000, 0x00000000, 0x00000180);
    NextWord(28, 0x16263806, 0x00000000, 0x00000000, 0x00000000, 0x2C4C700C);
    NextWord(29, 0x00000000, 0x00000060, 0x00000018, 0x00000000, 0x000000F0);
    NextWord(30, 0x00000180, 0x0B131C03, 0xC2C4C700, 0x00000000, 0x93AFB507);
    NextWord(31, 0x2C4C700C, 0x00000030, 0x00000000, 0x00000018, 0x5898E048);
  }

  lemma Words32To47()
    ensures Word(32) == 0x8E9A9202 && Word(33) == 0x00000600 && Word(34) == 0xB131C0F0 && Word(35) == 0x16263BC6
    ensures Word(36) == 0x4EBED41E && Word(37) == 0x626380A1 && Word(38) == 0x16263806 && Word(39) == 0x000018C0
    ensures Word(40) == 0xD2E138C4 && Word(41) == 0x00000F00 && Word(42) == 0x3AFB5079 && Word(43) == 0x898E04E5
    ensures Word(44) == 0xE2BA3C2B && Word(45) == 0x000060C0 && Word(46) == 0x053A37CD && Word(47) == 0x74458547
  {
    hide Word;
    Words16To31();
    NextWord(32, 0x000000F0, 0x85898EC1, 0x00000030, 0xC2C4C700, 0x8E9A9202);
    NextWord(33, 0x93AFB507, 0x16263806, 0x85898E01, 0x00000000, 0x00000600);
    NextWord(34, 0x5898E048, 0x00000000, 0x00000000, 0x00000030, 0xB131C0F0);
    NextWord(35, 0x8E9A9202, 0x00000180, 0x00000060, 0x85898E01, 0x16263BC6);
    NextWord(36, 0x00000600, 0x2C4C700C, 0x0B131C03, 0x00000000, 0x4EBED41E);
    NextWord(37, 0xB131C0F0, 0x000000F0, 0x00000030, 0x00000060, 0x626380A1);
    NextWord(38, 0x16263BC6, 0x93AFB507, 0x85898EC1, 0x0B131C03, 0x16263806);
    NextWord(39, 0x4EBED41E, 0x5898E048, 0x16263806, 0x00000030, 0x000018C0);
    NextWord(40, 0x626380A1, 0x8E9A9202, 0x00000000, 0x85898EC1, 0xD2E138C4);
    NextWord(41, 0x16263806, 0x00000600, 0x00000180, 0x16263806, 0x00000F00);
    NextWord(42, 0x000018C0, 0xB131C0F0, 0x2C4C700C, 0x00000000, 0x3AFB5079);
    NextWord(43, 0xD2E138C4, 0x16263BC6, 0x000000F0, 0x00000180, 0x898E04E5);
    NextWord(44, 0x00000F00, 0x4EBED41E, 0x93AFB507, 0x2C4C700C, 0xE2BA3C2B);
    NextWord(45, 0x3AFB5079, 0x626380A1, 0x5898E048, 0x000000F0, 0x000060C0);
    NextWord(46, 0x898E04E5, 0x16263806, 0x8E9A9202, 0x93AFB507, 0x053A37CD);
    NextWord(47, 0xE2BA3C2B, 0x000018C0, 0x00000600, 0x5898E048, 0x74458547);
  }

  lemma Words48To63()
    ensures Word(48) == 0xDA9415ED && Word(49) == 0x26380A16 && Word(50) == 0x626383A1 && Word(51) == 0x4EBF54DE
    ensures Word(52) == 0x3835B44B && Word(53) == 0x0000F600 && Word(54) == 0x1E84C7A3 && Word(55) == 0x98E04D98
    ensures Word(56) == 0x651D16A0 && Word(57) == 0x62658CA1 && Word(58) == 0x458544D6 && Word(59) == 0x44584CB7
    ensures Word(60) == 0x7BA06619 && Word(61) == 0x6380AEA2 && Word(62) == 0x0AE55269 && Word(63) == 0x627B49A1
  {
    hide Word;
    Words32To47();
    NextWord(48, 0x000060C0, 0xD2E138C4, 0xB131C0F0, 0x8E9A9202, 0xDA9415ED);
    NextWord(49, 0x053A37CD, 0x00000F00, 0x16263BC6, 0x00000600, 0x26380A16);
    NextWord(50, 0x74458547, 0x3AFB5079, 0x4EBED41E, 0xB131C0F0, 0x626383A1);
    NextWord(51, 0xDA9415ED, 0x898E04E5, 0x626380A1, 0x16263BC6, 0x4EBF54DE);
    NextWord(52, 0x26380A16, 0xE2BA3C2B, 0x16263806, 0x4EBED41E, 0x3835B44B);
    NextWord(53, 0x626383A1, 0x000060C0, 0x000018C0, 0x626380A1, 0x0000F600);
    NextWord(54, 0x4EBF54DE, 0x053A37CD, 0xD2E138C4, 0x16263806, 0x1E84C7A3);
    NextWord(55, 0x3835B44B, 0x74458547, 0x00000F00, 0x000018C0, 0x98E04D98);
    NextWord(56, 0x0000F600, 0xDA9415ED, 0x3AFB5079, 0xD2E138C4, 0x651D16A0);
    NextWord(57, 0x1E84C7A3, 0x26380A16, 0x898E04E5, 0x00000F00, 0x62658CA1);
    NextWord(58, 0x98E04D98, 0x626383A1, 0xE2BA3C2B, 0x3AFB5079, 0x458544D6);
    NextWord(59, 0x651D16A0, 0x4EBF54DE, 0x000060C0, 0x898E04E5, 0x44584CB7);
    NextWord(60, 0x62658CA1, 0x3835B44B, 0x053A37CD, 0xE2BA3C2B, 0x7BA06619);
    NextWord(61, 0x458544D6, 0x0000F600, 0x74458547, 0x000060C0, 0x6380AEA2);
    NextWord(62, 0x44584CB7, 0x1E84C7A3, 0xDA9415ED, 0x053A37CD, 0x0AE55269);
    NextWord(63, 0x7BA06619, 0x98E04D98, 0x26380A16, 0x74458547, 0x627B49A1);
  }

  lemma Words64To79()
    ensures Word(64) == 0x7CD45C9D && Word(65) == 0x000F0000 && Word(66) == 0xFB50753A && Word(67) == 0xEC6765E8
    ensures Word(68) == 0xBA3C2BE2 && Word(69) == 0x0060C000 && Word(70) == 0x3A37CD05 && Word(71) == 0x458546F4
    ensures Word(72) == 0xB8599DD6 && Word(73) == 0x380A1A26 && Word(74) == 0x01E02203 && Word(75) == 0xE7CC3456
    ensures Word(76) == 0xE6E60B69 && Word(77) == 0x00F60A00 && Word(78) == 0x5795EF4F && Word(79) == 0x822E0879
  {
    hide Word;
    Words48To63();
    NextWord(64, 0x6380AEA2, 0x651D16A0, 0x626383A1, 0xDA9415ED, 0x7CD45C9D);
    NextWord(65, 0x0AE55269, 0x62658CA1, 0x4EBF54DE, 0x26380A16, 0x000F0000);
    NextWord(66, 0x627B49A1, 0x458544D6, 0x3835B44B, 0x626383A1, 0xFB50753A);
    NextWord(67, 0x7CD45C9D, 0x44584CB7, 0x0000F600, 0x4EBF54DE, 0xEC6765E8);
    NextWord(68, 0x000F0000, 0x7BA06619, 0x1E84C7A3, 0x3835B44B, 0xBA3C2BE2);
    NextWord(69, 0xFB50753A, 0x6380AEA2, 0x98E04D98, 0x0000F600, 0x0060C000);
    NextWord(70, 0xEC6765E8, 0x0AE55269, 0x651D16A0, 0x1E84C7A3, 0x3A37CD05);
    NextWord(71, 0xBA3C2BE2, 0x627B49A1, 0x62658CA1, 0x98E04D98, 0x458546F4);
    NextWord(72, 0x0060C000, 0x7CD45C9D, 0x458544D6, 0x651D16A0, 0xB8599DD6);
    NextWord(73, 0x3A37CD05, 0x000F0000, 0x44584CB7, 0x62658CA1, 0x380A1A26);
    NextWord(74, 0x458546F4, 0xFB50753A, 0x7BA06619, 0x458544D6, 0x01E02203);
    NextWord(75, 0xB8599DD6, 0xEC6765E8, 0x6380AEA2, 0x44584CB7, 0xE7CC3456);
    NextWord(76, 0x380A1A26, 0xBA3C2BE2, 0x0AE55269, 0x7BA06619, 0xE6E60B69);
    NextWord(77, 0x01E02203, 0x0060C000, 0x627B49A1, 0x6380AEA2, 0x00F60A00);
    NextWord(78, 0xE7CC3456, 0x3A37CD05, 0x7CD45C9D, 0x0AE55269, 0x5795EF4F);
    NextWord(79, 0xE6E60B69, 0x458546F4, 0x000F0000, 0x627B49A1, 0x822E0879);
  }

  // ---------------------------------------------------------------- the rounds

  lemma NoRounds()
    ensures After(0) == Chain(0x67452301, 0xEFCDAB89, 0x98BADCFE, 0x10325476, 0xC3D2E1F0)
  {
  }

  lemma Rounds0To9()
    ensures After(10) == Chain(0x8351F929, 0x4B6AE328, 0x27A301F5, 0x664F8C30, 0x0FF1F290)
  {
    hide Word, After;
    NoRounds();
    Words0To15();
    Choose(0, 0x67452301, 0xEFCDAB89, 0x98BADCFE, 0x10325476, 0xC3D2E1F0, 0x61626380, 0x0116FC33);
    Choose(1, 0x0116FC33, 0x67452301, 0x7BF36AE2, 0x98BADCFE, 0x10325476, 0x00000000, 0x8990536D);
    Choose(2, 0x8990536D, 0x0116FC33, 0x59D148C0, 0x7BF36AE2, 0x98BADCFE, 0x00000000, 0xA1390F08);
    Choose(3, 0xA1390F08, 0x8990536D, 0xC045BF0C, 0x59D148C0, 0x7BF36AE2, 0x00000000, 0xCDD8E11B);
    Choose(4, 0xCDD8E11B, 0xA1390F08, 0x626414DB, 0xC045BF0C, 0x59D148C0, 0x00000000, 0xCFD499DE);
    Choose(5, 0xCFD499DE, 0xCDD8E11B, 0x284E43C2, 0x626414DB, 0xC045BF0C, 0x00000000, 0x3FC7CA40);
    Choose(6, 0x3FC7CA40, 0xCFD499DE, 0xF3763846, 0x284E43C2, 0x626414DB, 0x00000000, 0x993E30C1);
    Choose(7, 0x993E30C1, 0x3FC7CA40, 0xB3F52677, 0xF3763846, 0x284E43C2, 0x00000000, 0x9E8C07D4);
    Choose(8, 0x9E8C07D4, 0x993E30C1, 0x0FF1F290, 0xB3F52677, 0xF3763846, 0x00000000, 0x4B6AE328);
    Choose(9, 0x4B6AE328, 0x9E8C07D4, 0x664F8C30, 0x0FF1F290, 0xB3F52677, 0x00000000, 0x8351F929);
  }

  lemma Rounds10To19()
    ensures After(20) == Chain(0xFD9E1D7D, 0xDC64901D, 0x20AA99CA, 0xD3A49608, 0xC82F758B)
  {
    hide Word, After;
    Rounds0To9();
    Words0To15();
    Words16To31();
    Choose(10, 0x8351F929, 0x4B6AE328, 0x27A301F5, 0x664F8C30, 0x0FF1F290, 0x00000000, 0xFBDA9E89);
    Choose(11, 0xFBDA9E89, 0x8351F929, 0x12DAB8CA, 0x27A301F5, 0x664F8C30, 0x00000000, 0x63188FE4);
    Choose(12, 0x63188FE4, 0xFBDA9E89, 0x60D47E4A, 0x12DAB8CA, 0x27A301F5, 0x00000000, 0x4607B664);
    Choose(13, 0x4607B664, 0x63188FE4, 0x7EF6A7A2, 0x60D47E4A, 0x12DAB8CA, 0x00000000, 0x9128F695);
    Choose(14, 0x9128F695, 0x4607B664, 0x18C623F9, 0x7EF6A7A2, 0x60D47E4A, 0x00000000, 0x196BEE77);
    Choose(15, 0x196BEE77, 0x9128F695, 0x1181ED99, 0x18C623F9, 0x7EF6A7A2, 0x00000018, 0x20BDD62F);
    Choose(16, 0x20BDD62F, 0x196BEE77, 0x644A3DA5, 0x1181ED99, 0x18C623F9, 0xC2C4C700, 0x4E925823);
    Choose(17, 0x4E925823, 0x20BDD62F, 0xC65AFB9D, 0x644A3DA5, 0x1181ED99, 0x00000000, 0x82AA6728);
    Choose(18, 0x82AA6728, 0x4E925823, 0xC82F758B, 0xC65AFB9D, 0x644A3DA5, 0x00000030, 0xDC64901D);
    Choose(19, 0xDC64901D, 0x82AA6728, 0xD3A49608, 0xC82F758B, 0xC65AFB9D, 0x85898E01, 0xFD9E1D7D);
  }

  lemma Rounds20To29()
    ensures After(30) == Chain(0xC5FBAF5D, 0x8370B52E, 0xD2AA1365, 0x6F8D7EF5, 0x12104EE9)
  {
    hide Word, After;
    Rounds10To19();
    Words16To31();
    Parity(20, 0xFD9E1D7D, 0xDC64901D, 0x20AA99CA, 0xD3A49608, 0xC82F758B, 0x00000000, 0x1A37B0CA);
    Parity(21, 0x1A37B0CA, 0xFD9E1D7D, 0x77192407, 0x20AA99CA, 0xD3A49608, 0x00000060, 0x33A23BFC);
    Parity(22, 0x33A23BFC, 0x1A37B0CA, 0x7F67875F, 0x77192407, 0x20AA99CA, 0x0B131C03, 0x21283486);
    Parity(23, 0x21283486, 0x33A23BFC, 0x868DEC32, 0x7F67875F, 0x77192407, 0x00000030, 0xD541F12D);
    Parity(24, 0xD541F12D, 0x21283486, 0x0CE88EFF, 0x868DEC32, 0x7F67875F, 0x85898EC1, 0xC7567DC6);
    Parity(25, 0xC7567DC6, 0xD541F12D, 0x884A0D21, 0x0CE88EFF, 0x868DEC32, 0x16263806, 0x48413BA4);
    Parity(26, 0x48413BA4, 0xC7567DC6, 0x75507C4B, 0x884A0D21, 0x0CE88EFF, 0x00000000, 0xBE35FBD5);
    Parity(27, 0xBE35FBD5, 0x48413BA4, 0xB1D59F71, 0x75507C4B, 0x884A0D21, 0x00000180, 0x4AA84D97);
    Parity(28, 0x4AA84D97, 0xBE35FBD5, 0x12104EE9, 0xB1D59F71, 0x75507C4B, 0x2C4C700C, 0x8370B52E);
    Parity(29, 0x8370B52E, 0x4AA84D97, 0x6F8D7EF5, 0x12104EE9, 0xB1D59F71, 0x000000F0, 0xC5FBAF5D);
  }

  lemma Rounds30To39()
    ensures After(40) == Chain(0x32DE1CBA, 0x4C986405, 0xF718E5CF, 0x03D447F6, 0xF72EEC32)
  {
    hide Word, After;
    Rounds20To29();
    Words16To31();
    Words32To47();
    Parity(30, 0xC5FBAF5D, 0x8370B52E, 0xD2AA1365, 0x6F8D7EF5, 0x12104EE9, 0x93AFB507, 0x1267B407);
    Parity(31, 0x1267B407, 0xC5FBAF5D, 0xA0DC2D4B, 0xD2AA1365, 0x6F8D7EF5, 0x5898E048, 0x3B845D33);
    Parity(32, 0x3B845D33, 0x1267B407, 0x717EEBD7, 0xA0DC2D4B, 0xD2AA1365, 0x8E9A9202, 0x046FAA0A);
    Parity(33, 0x046FAA0A, 0x3B845D33, 0xC499ED01, 0x717EEBD7, 0xA0DC2D4B, 0x00000600, 0x2C0EBC11);
    Parity(34, 0x2C0EBC11, 0x046FAA0A, 0xCEE1174C, 0xC499ED01, 0x717EEBD7, 0xB131C0F0, 0x21796AD4);
    Parity(35, 0x21796AD4, 0x2C0EBC11, 0x811BEA82, 0xCEE1174C, 0xC499ED01, 0x16263BC6, 0xDCBBB0CB);
    Parity(36, 0xDCBBB0CB, 0x21796AD4, 0x4B03AF04, 0x811BEA82, 0xCEE1174C, 0x4EBED41E, 0x0F511FD8);
    Parity(37, 0x0F511FD8, 0xDCBBB0CB, 0x085E5AB5, 0x4B03AF04, 0x811BEA82, 0x626380A1, 0xDC63973F);
    Parity(38, 0xDC63973F, 0x0F511FD8, 0xF72EEC32, 0x085E5AB5, 0x4B03AF04, 0x16263806, 0x4C986405);
    Parity(39, 0x4C986405, 0xDC63973F, 0x03D447F6, 0xF72EEC32, 0x085E5AB5, 0x000018C0, 0x32DE1CBA);
  }

  lemma Rounds40To49()
    ensures After(50) == Chain(0x120731C5, 0xBAF39337, 0xAFAB40B2, 0x2806E11B, 0x8714787C)
  {
    hide Word, After;
    Rounds30To39();
    Words32To47();
    Words48To63();
    Majority(40, 0x32DE1CBA, 0x4C986405, 0xF718E5CF, 0x03D447F6, 0xF72EEC32, 0xD2E138C4, 0xFC87DEDF);
    Majority(41, 0xFC87DEDF, 0x32DE1CBA, 0x53261901, 0xF718E5CF, 0x03D447F6, 0x00000F00, 0x970A0D5C);
    Majority(42, 0x970A0D5C, 0xFC87DEDF, 0x8CB7872E, 0x53261901, 0xF718E5CF, 0x3AFB5079, 0x7F193DC5);
    Majority(43, 0x7F193DC5, 0x970A0D5C, 0xFF21F7B7, 0x8CB7872E, 0x53261901, 0x898E04E5, 0xEE1B1AAF);
    Majority(44, 0xEE1B1AAF, 0x7F193DC5, 0x25C28357, 0xFF21F7B7, 0x8CB7872E, 0xE2BA3C2B, 0x40F28E09);
    Majority(45, 0x40F28E09, 0xEE1B1AAF, 0x5FC64F71, 0x25C28357, 0xFF21F7B7, 0x000060C0, 0x1C51E1F2);
    Majority(46, 0x1C51E1F2, 0x40F28E09, 0xFB86C6AB, 0x5FC64F71, 0x25C28357, 0x053A37CD, 0xA01B846C);
    Majority(47, 0xA01B846C, 0x1C51E1F2, 0x503CA382, 0xFB86C6AB, 0x5FC64F71, 0x74458547, 0xBEAD02CA);
    Majority(48, 0xBEAD02CA, 0xA01B846C, 0x8714787C, 0x503CA382, 0xFB86C6AB, 0xDA9415ED, 0xBAF39337);
    Majority(49, 0xBAF39337, 0xBEAD02CA, 0x2806E11B, 0x8714787C, 0x503CA382, 0x26380A16, 0x120731C5);
  }

  lemma Rounds50To59()
    ensures After(60) == Chain(0x3F52DE5A, 0x09D785FD, 0x3498BFD4, 0xF211824F, 0xD79915AB)
  {
    hide Word, After;
    Rounds40To49();
    Words48To63();
    Majority(50, 0x120731C5, 0xBAF39337, 0xAFAB40B2, 0x2806E11B, 0x8714787C, 0x626383A1, 0x641DB2CE);
    Majority(51, 0x641DB2CE, 0x120731C5, 0xEEBCE4CD, 0xAFAB40B2, 0x2806E11B, 0x4EBF54DE, 0x3847AD66);
    Majority(52, 0x3847AD66, 0x641DB2CE, 0x4481CC71, 0xEEBCE4CD, 0xAFAB40B2, 0x3835B44B, 0xE490436D);
    Majority(53, 0xE490436D, 0x3847AD66, 0x99076CB3, 0x4481CC71, 0xEEBCE4CD, 0x0000F600, 0x27E9F1D8);
    Majority(54, 0x27E9F1D8, 0xE490436D, 0x8E11EB59, 0x99076CB3, 0x4481CC71, 0x1E84C7A3, 0x7B71F76D);
    Majority(55, 0x7B71F76D, 0x27E9F1D8, 0x792410DB, 0x8E11EB59, 0x99076CB3, 0x98E04D98, 0x5E6456AF);
    Majority(56, 0x5E6456AF, 0x7B71F76D, 0x09FA7C76, 0x792410DB, 0x8E11EB59, 0x651D16A0, 0xC846093F);
    Majority(57, 0xC846093F, 0x5E6456AF, 0x5EDC7DDB, 0x09FA7C76, 0x792410DB, 0x62658CA1, 0xD262FF50);
    Majority(58, 0xD262FF50, 0xC846093F, 0xD79915AB, 0x5EDC7DDB, 0x09FA7C76, 0x458544D6, 0x09D785FD);
    Majority(59, 0x09D785FD, 0xD262FF50, 0xF211824F, 0xD79915AB, 0x5EDC7DDB, 0x44584CB7, 0x3F52DE5A);
  }

  lemma Rounds60To69()
    ensures After(70) == Chain(0x3F2588C2, 0x497093C0, 0xDE37534A, 0x030F7CAD, 0x4405957E)
  {
    hide Word, After;
    Rounds50To59();
    Words48To63();
    Words64To79();
    LastParity(60, 0x3F52DE5A, 0x09D785FD, 0x3498BFD4, 0xF211824F, 0xD79915AB, 0x7BA06619, 0xD756C147);
    LastParity(61, 0xD756C147, 0x3F52DE5A, 0x4275E17F, 0x3498BFD4, 0xF211824F, 0x6380AEA2, 0x548C9CB2);
    LastParity(62, 0x548C9CB2, 0xD756C147, 0x8FD4B796, 0x4275E17F, 0x3498BFD4, 0x0AE55269, 0xB66C020B);
    LastParity(63, 0xB66C020B, 0x548C9CB2, 0xF5D5B051, 0x8FD4B796, 0x4275E17F, 0x627B49A1, 0x6B61C9E1);
    LastParity(64, 0x6B61C9E1, 0xB66C020B, 0x9523272C, 0xF5D5B051, 0x8FD4B796, 0x7CD45C9D, 0x19DFA7AC);
    LastParity(65, 0x19DFA7AC, 0x6B61C9E1, 0xED9B0082, 0x9523272C, 0xF5D5B051, 0x000F0000, 0x101655F9);
    LastParity(66, 0x101655F9, 0x19DFA7AC, 0x5AD87278, 0xED9B0082, 0x9523272C, 0xFB50753A, 0x0C3DF2B4);
    LastParity(67, 0x0C3DF2B4, 0x101655F9, 0x0677E9EB, 0x5AD87278, 0xED9B0082, 0xEC6765E8, 0x78DD4D2B);
    LastParity(68, 0x78DD4D2B, 0x0C3DF2B4, 0x4405957E, 0x0677E9EB, 0x5AD87278, 0xBA3C2BE2, 0x497093C0);
    LastParity(69, 0x497093C0, 0x78DD4D2B, 0x030F7CAD, 0x4405957E, 0x0677E9EB, 0x0060C000, 0x3F2588C2);
  }

  lemma Rounds70To79()
    ensures After(80) == Chain(0x42541B35, 0x5738D5E1, 0x21834873, 0x681E6DF6, 0xD8FDF6AD)
  {
    hide Word, After;
    Rounds60To69();
    Words64To79();
    LastParity(70, 0x3F2588C2, 0x497093C0, 0xDE37534A, 0x030F7CAD, 0x4405957E, 0x3A37CD05, 0xC199F8C7);
    LastParity(71, 0xC199F8C7, 0x3F2588C2, 0x125C24F0, 0xDE37534A, 0x030F7CAD, 0x458546F4, 0x39859DE7);
    LastParity(72, 0x39859DE7, 0xC199F8C7, 0x8FC96230, 0x125C24F0, 0xDE37534A, 0xB8599DD6, 0xEDB42DE4);
    LastParity(73, 0xEDB42DE4, 0x39859DE7, 0xF0667E31, 0x8FC96230, 0x125C24F0, 0x380A1A26, 0x11793F6F);
    LastParity(74, 0x11793F6F, 0xEDB42DE4, 0xCE616779, 0xF0667E31, 0x8FC96230, 0x01E02203, 0x5EE76897);
    LastParity(75, 0x5EE76897, 0x11793F6F, 0x3B6D0B79, 0xCE616779, 0xF0667E31, 0xE7CC3456, 0x63F7DAB7);
    LastParity(76, 0x63F7DAB7, 0x5EE76897, 0xC45E4FDB, 0x3B6D0B79, 0xCE616779, 0xE6E60B69, 0xA079B7D9);
    LastParity(77, 0xA079B7D9, 0x63F7DAB7, 0xD7B9DA25, 0xC45E4FDB, 0x3B6D0B79, 0x00F60A00, 0x860D21CC);
    LastParity(78, 0x860D21CC, 0xA079B7D9, 0xD8FDF6AD, 0xD7B9DA25, 0xC45E4FDB, 0x5795EF4F, 0x5738D5E1);
    LastParity(79, 0x5738D5E1, 0x860D21CC, 0x681E6DF6, 0xD8FDF6AD, 0xD7B9DA25, 0x822E0879, 0x42541B35);
  }

  // ---------------------------------------------------------------- the digest

  lemma ByteLiterals()
    ensures Byte(0) == 0 && Byte(24) == 24
  {
  }

  lemma LengthOfAbc()
    ensures Be64(24) == [0, 0, 0, 0, 0, 0, 0, 24]
  {
    hide Byte;
    ByteLiterals();
  }

  lemma PaddedAbc()
    ensures Pad(ABC) == Block()
  {
    hide Be64, Zeroes;
    LengthOfAbc();
    assert ABC + [0x80] == [0x61, 0x62, 0x63, 0x80];
    assert ZeroCount(3) == 52;
  }

  lemma CompressedAbc()
    ensures Compress(INITIAL, Block()) == Chain(0xA9993E36, 0x4706816A, 0xBA3E2571, 0x7850C26C, 0x9CD0D89D)
  {
    hide Rounds, Block;
    Rounds70To79();
  }

  lemma OutputAbc()
    ensures Output(Chain(0xA9993E36, 0x4706816A, 0xBA3E2571, 0x7850C26C, 0x9CD0D89D))
         == [0xA9, 0x99, 0x3E, 0x36, 0x47, 0x06, 0x81, 0x6A, 0xBA, 0x3E,
             0x25, 0x71, 0x78, 0x50, 0xC2, 0x6C, 0x9C, 0xD0, 0xD8, 0x9D]
  {
  }

  lemma DigestOfAbc()
    ensures Digest(ABC) == [0xA9, 0x99, 0x3E, 0x36, 0x47, 0x06, 0x81, 0x6A, 0xBA, 0x3E,
                            0x25, 0x71, 0x78, 0x50, 0xC2, 0x6C, 0x9C, 0xD0, 0xD8, 0x9D]
  {
    hide Rounds, Compress, Pad, Output;
    PaddedAbc();
    FoldOne(INITIAL, Block());
    CompressedAbc();
    OutputAbc();
  }
}

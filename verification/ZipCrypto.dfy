// The traditional ZIP cipher of src/crypto/dec.c against section 6.1 of APPNOTE.TXT.
module ZipCrypto {
  import opened Bytes
  import Crc32
  import Crc32BaseTable
  import Crc32Tables

  const HEADER_SIZE: nat := 12

  datatype Keys = Keys(k0: bv32, k1: bv32, k2: bv32)

  // ---------------------------------------------------------------- specification

  /** crc32(old_crc, char) of section 6.1.5: the register after one byte. */
  function CrcByte(crc: bv32, b: byte): bv32 {
    Crc32.FeedBits(crc, b, 8)
  }

  function Mask(a: byte, b: byte): byte {
    a ^ b
  }

  /** The linear congruential step of the middle key. */
  function MiddleKey(k1: bv32, k0: bv32): bv32 {
    (k1 + (k0 & 0xFF)) * 134775813 + 1
  }

  function TopByte(k: bv32): byte {
    ((k >> 24) & 0xFF) as bv8
  }

  /** update_keys of section 6.1.5. */
  function UpdateKeys(k: Keys, b: byte): Keys {
    var k0 := CrcByte(k.k0, b);
    var k1 := MiddleKey(k.k1, k0);
    Keys(k0, k1, CrcByte(k.k2, TopByte(k1)))
  }

  /** decrypt_byte of section 6.1.6, on a 16-bit temporary. */
  function LowByte(k2: bv32): byte {
    var temp := (k2 & 0xFFFF) | 2;
    (((temp * (temp ^ 1)) >> 8) & 0xFF) as bv8
  }

  /** The product of zipcrypto_byte: the same from all 32 bits of the key. */
  function WideByte(k2: bv32): byte {
    var temp := k2 | 2;
    (((temp * (temp ^ 1)) >> 8) & 0xFF) as bv8
  }

  function StreamByte(k: Keys): byte {
    LowByte(k.k2)
  }

  /** zipcrypto_byte */
  function WideStreamByte(k: Keys): byte {
    WideByte(k.k2)
  }

  /** The high halves of the factors do not show in the low half of a product. */
  lemma LowProduct(x: bv32)
    ensures ((((x | 2) * ((x | 2) ^ 1)) >> 8) & 0xFF) as bv8
         == (((((x & 0xFFFF) | 2) * (((x & 0xFFFF) | 2) ^ 1)) >> 8) & 0xFF) as bv8
  {
  }

  lemma WideByteAgrees(k2: bv32)
    ensures WideByte(k2) == LowByte(k2)
  {
    LowProduct(k2);
  }

  lemma WideStreamByteAgrees(k: Keys)
    ensures WideStreamByte(k) == StreamByte(k)
  {
    hide WideByte, LowByte;
    WideByteAgrees(k.k2);
  }

  /** The keys after the plaintext p. */
  function KeysAfter(k: Keys, p: seq<byte>): Keys
    decreases |p|
  {
    if p == [] then k else KeysAfter(UpdateKeys(k, p[0]), p[1..])
  }

  function InitialKeys(password: seq<byte>): Keys {
    KeysAfter(Keys(0x12345678, 0x23456789, 0x34567890), password)
  }

  function Encrypt(k: Keys, p: seq<byte>): (c: seq<byte>)
    ensures |c| == |p|
    decreases |p|
  {
    if p == [] then [] else [Mask(p[0], StreamByte(k))] + Encrypt(UpdateKeys(k, p[0]), p[1..])
  }

  function Decrypt(k: Keys, c: seq<byte>): (p: seq<byte>)
    ensures |p| == |c|
    decreases |c|
  {
    if c == [] then []
    else
      var plain := Mask(c[0], StreamByte(k));
      [plain] + Decrypt(UpdateKeys(k, plain), c[1..])
  }

  // ---------------------------------------------------------------- laws

  lemma XorTwice(a: byte, b: byte)
    ensures Mask(Mask(a, b), b) == a
  {
  }

  /** Decryption undoes encryption under the same keys. */
  lemma {:induction false} DecryptEncrypt(k: Keys, p: seq<byte>)
    ensures Decrypt(k, Encrypt(k, p)) == p
    decreases |p|
  {
    hide UpdateKeys, StreamByte, Mask;
    if p != [] {
      XorTwice(p[0], StreamByte(k));
      DecryptEncrypt(UpdateKeys(k, p[0]), p[1..]);
    }
  }

  /** Encryption undoes decryption: no two ciphertexts have the same plaintext. */
  lemma {:induction false} EncryptDecrypt(k: Keys, c: seq<byte>)
    ensures Encrypt(k, Decrypt(k, c)) == c
    decreases |c|
  {
    hide UpdateKeys, StreamByte, Mask;
    if c != [] {
      var plain := Mask(c[0], StreamByte(k));
      XorTwice(c[0], StreamByte(k));
      EncryptDecrypt(UpdateKeys(k, plain), c[1..]);
    }
  }

  lemma {:induction false} KeysAfterConcat(k: Keys, a: seq<byte>, b: seq<byte>)
    ensures KeysAfter(k, a + b) == KeysAfter(KeysAfter(k, a), b)
    decreases |a|
  {
    hide UpdateKeys;
    if a == [] {
      assert a + b == b;
    } else {
      assert (a + b)[1..] == a[1..] + b;
      KeysAfterConcat(UpdateKeys(k, a[0]), a[1..], b);
    }
  }

  /** How a ciphertext is cut into calls does not matter, if the keys are carried along. */
  lemma {:induction false} DecryptConcat(k: Keys, a: seq<byte>, b: seq<byte>)
    ensures Decrypt(k, a + b) == Decrypt(k, a) + Decrypt(KeysAfter(k, Decrypt(k, a)), b)
    decreases |a|
  {
    hide UpdateKeys, StreamByte, Mask;
    if a == [] {
      assert a + b == b;
    } else {
      var plain := Mask(a[0], StreamByte(k));
      assert (a + b)[1..] == a[1..] + b;
      DecryptConcat(UpdateKeys(k, plain), a[1..], b);
      assert Decrypt(k, a)[1..] == Decrypt(UpdateKeys(k, plain), a[1..]);
    }
  }

  // ---------------------------------------------------------------- zipcrypto_t

  /** zipcrypto_crc32, by table lookup. */
  function Crc32Byte(crc: bv32, b: byte): bv32 {
    Crc32.Xor(Crc32Tables.Down(crc), Crc32BaseTable.BaseEntry(Crc32Tables.Mix(crc, b) as nat))
  }

  lemma TableIsCrc(crc: bv32, b: byte)
    ensures Crc32Byte(crc, b) == CrcByte(crc, b)
  {
    hide Crc32.Xor, Crc32.Shift, Crc32.FeedBits, Crc32Tables.Down, Crc32Tables.Mix, Crc32BaseTable.BaseEntry;
    Crc32Tables.OneByte(crc, b);
    Crc32BaseTable.BaseEntryIs(Crc32Tables.Mix(crc, b));
  }

  lemma NothingDecrypted(k: Keys, c: seq<byte>)
    ensures Decrypt(k, c[..0]) == [] && KeysAfter(k, []) == k
  {
  }

  lemma KeysAfterOne(k: Keys, p: seq<byte>, i: nat)
    requires i < |p|
    ensures KeysAfter(k, p[..i + 1]) == UpdateKeys(KeysAfter(k, p[..i]), p[i])
  {
    hide UpdateKeys;
    assert p[..i + 1] == p[..i] + [p[i]];
    KeysAfterConcat(k, p[..i], [p[i]]);
    assert [p[i]][1..] == [];
  }

  /** One more byte of ciphertext: one more byte of plaintext, and the keys after it. */
  lemma DecryptOne(k: Keys, c: seq<byte>, i: nat)
    requires i < |c|
    ensures var plain := Mask(c[i], StreamByte(KeysAfter(k, Decrypt(k, c[..i]))));
            && Decrypt(k, c[..i + 1]) == Decrypt(k, c[..i]) + [plain]
            && KeysAfter(k, Decrypt(k, c[..i + 1])) == UpdateKeys(KeysAfter(k, Decrypt(k, c[..i])), plain)
  {
    hide UpdateKeys, StreamByte, Mask;
    var before := Decrypt(k, c[..i]);
    assert c[..i + 1] == c[..i] + [c[i]];
    DecryptConcat(k, c[..i], [c[i]]);
    var plain := Mask(c[i], StreamByte(KeysAfter(k, before)));
    assert Decrypt(KeysAfter(k, before), [c[i]]) == [plain] + [] by {
      assert [c[i]][1..] == [];
    }
    KeysAfterConcat(k, before, [plain]);
    assert [plain][1..] == [];
  }

  class State {
    var k0: bv32
    var k1: bv32
    var k2: bv32

    function Value(): Keys
      reads this
    {
      Keys(k0, k1, k2)
    }

    /** zipcrypto_update */
    method Update(b: byte)
      modifies this
      ensures Value() == UpdateKeys(old(Value()), b)
    {
      hide Crc32Byte, CrcByte, MiddleKey, TopByte;
      TableIsCrc(k0, b);
      k0 := Crc32Byte(k0, b);
      k1 := MiddleKey(k1, k0);
      TableIsCrc(k2, TopByte(k1));
      k2 := Crc32Byte(k2, TopByte(k1));
    }

    /** zipcrypto_init */
    constructor (password: seq<byte>)
      ensures Value() == InitialKeys(password)
    {
      k0, k1, k2 := 0x12345678, 0x23456789, 0x34567890;
      new;
      hide UpdateKeys;
      assert password[..0] == [];
      for i := 0 to |password|
        invariant Value() == KeysAfter(Keys(0x12345678, 0x23456789, 0x34567890), password[..i])
      {
        KeysAfterOne(Keys(0x12345678, 0x23456789, 0x34567890), password, i);
        Update(password[i]);
      }
      assert password[..|password|] == password;
    }

    /** zipcrypto_decrypt, in place. */
    method DecryptInPlace(buf: array<byte>, len: nat)
      requires len <= buf.Length
      modifies this, buf
      ensures buf[..] == Decrypt(old(Value()), old(buf[..len])) + old(buf[len..])
      ensures Value() == KeysAfter(old(Value()), Decrypt(old(Value()), old(buf[..len])))
    {
      hide UpdateKeys, StreamByte, WideStreamByte, Mask, Decrypt, KeysAfter;
      ghost var was, k := buf[..], Value();
      NothingDecrypted(k, was);
      for i := 0 to len
        invariant buf[..i] == Decrypt(k, was[..i]) && buf[i..] == was[i..]
        invariant Value() == KeysAfter(k, Decrypt(k, was[..i]))
      {
        assert buf[i] == was[i..][0];
        WideStreamByteAgrees(Value());
        var plain := Mask(buf[i], WideStreamByte(Value()));
        DecryptOne(k, was, i);
        Update(plain);
        buf[i] := plain;
        assert buf[i + 1..] == was[i..][1..];
        assert buf[..i + 1] == buf[..i] + [plain];
      }
      assert buf[..] == buf[..len] + buf[len..];
    }

    /** zipcrypto_open: the twelve header bytes, the last of which is checked. */
    method Open(header: array<byte>, verify: byte) returns (ok: bool)
      requires header.Length == 12
      modifies this, header
      ensures ok <==> Decrypt(old(Value()), old(header[..]))[11] == verify
      ensures Value() == KeysAfter(old(Value()), Decrypt(old(Value()), old(header[..])))
    {
      hide Decrypt, KeysAfter;
      assert header[..HEADER_SIZE] == header[..];
      DecryptInPlace(header, HEADER_SIZE);
      ok := header[HEADER_SIZE - 1] == verify;
    }
  }

  // ---------------------------------------------------------------- a known ciphertext

  /** One byte shifted into a register, by its table entry. */
  lemma ByteByTable(c: bv32, b: byte, x: byte, entry: bv32, next: bv32)
    requires Crc32Tables.Mix(c, b) == x && Crc32BaseTable.BaseEntry(x as nat) == entry
    requires next == Crc32.Xor(Crc32Tables.Down(c), entry)
    ensures CrcByte(c, b) == next
  {
    hide CrcByte, Crc32.Xor, Crc32Tables.Down, Crc32Tables.Mix, Crc32BaseTable.BaseEntry;
    TableIsCrc(c, b);
  }

  lemma KeyStep(k: Keys, b: byte, next: Keys)
    requires CrcByte(k.k0, b) == next.k0 && MiddleKey(k.k1, next.k0) == next.k1
    requires CrcByte(k.k2, TopByte(next.k1)) == next.k2
    ensures UpdateKeys(k, b) == next
  {
    hide CrcByte, MiddleKey, TopByte;
  }

  lemma TableEntries()
    ensures Crc32BaseTable.BaseEntry(0x02) == 0xEE0E612C && Crc32BaseTable.BaseEntry(0x42) == 0x98D220BC
    ensures Crc32BaseTable.BaseEntry(0x13) == 0x84BE41DE && Crc32BaseTable.BaseEntry(0xF7) == 0x23D967BF
  {
  }

  lemma KnownMiddleKeys()
    ensures MiddleKey(0x23456789, 0xEE1C557A) == 0xD2149410 && TopByte(0xD2149410) == 0xD2
    ensures MiddleKey(0xD2149410, 0x84505D8B) == 0x33DED308 && TopByte(0x33DED308) == 0x33
  {
  }

  lemma KnownStreamBytes()
    ensures LowByte(0x98E676C4) == 0x97 && LowByte(0x234181C9) == 0xB5
    ensures Mask(0x69, 0x97) == 0xFE && Mask(0x70, 0xB5) == 0xC5
  {
  }

  /** The keys after the password "z", and after one more byte. */
  lemma KnownKeys()
    ensures InitialKeys([0x7A]) == Keys(0xEE1C557A, 0xD2149410, 0x98E676C4)
    ensures UpdateKeys(Keys(0xEE1C557A, 0xD2149410, 0x98E676C4), 0x69) == Keys(0x84505D8B, 0x33DED308, 0x234181C9)
  {
    hide CrcByte, MiddleKey, TopByte, Crc32BaseTable.BaseEntry, UpdateKeys;
    TableEntries();
    KnownMiddleKeys();
    ByteByTable(0x12345678, 0x7A, 0x02, 0xEE0E612C, 0xEE1C557A);
    ByteByTable(0x34567890, 0xD2, 0x42, 0x98D220BC, 0x98E676C4);
    KeyStep(Keys(0x12345678, 0x23456789, 0x34567890), 0x7A, Keys(0xEE1C557A, 0xD2149410, 0x98E676C4));
    ByteByTable(0xEE1C557A, 0x69, 0x13, 0x84BE41DE, 0x84505D8B);
    ByteByTable(0x98E676C4, 0x33, 0xF7, 0x23D967BF, 0x234181C9);
    KeyStep(Keys(0xEE1C557A, 0xD2149410, 0x98E676C4), 0x69, Keys(0x84505D8B, 0x33DED308, 0x234181C9));
    var z: seq<byte> := [0x7A];
    assert z[1..] == [];
  }

  /** Under the password "z" the two bytes "ip" are stored as FE C5. */
  lemma KnownCiphertext()
    ensures Encrypt(InitialKeys([0x7A]), [0x69, 0x70]) == [0xFE, 0xC5]
    ensures Decrypt(InitialKeys([0x7A]), [0xFE, 0xC5]) == [0x69, 0x70]
  {
    hide InitialKeys, UpdateKeys, LowByte, Mask;
    KnownKeys();
    KnownStreamBytes();
    var p: seq<byte> := [0x69, 0x70];
    assert p[1..] == [0x70] && p[1..][1..] == [];
    DecryptEncrypt(InitialKeys([0x7A]), p);
  }
}

// The buffered SHA-1 of src/crypto/sha1.c against sections 5.1.1 and 6.1.2 of FIPS 180-4.
module Sha1 {
  import opened Bytes

  const BLOCK_SIZE: nat := 64
  const DIGEST_SIZE: nat := 20

  /** The five chaining words. */
  datatype Chain = Chain(h0: bv32, h1: bv32, h2: bv32, h3: bv32, h4: bv32)

  const INITIAL: Chain := Chain(0x67452301, 0xEFCDAB89, 0x98BADCFE, 0x10325476, 0xC3D2E1F0)

  // ---------------------------------------------------------------- the compression function

  function RotateLeft1(x: bv32): bv32 { (x << 1) | (x >> 31) }
  function RotateLeft5(x: bv32): bv32 { (x << 5) | (x >> 27) }
  function RotateLeft30(x: bv32): bv32 { (x << 30) | (x >> 2) }

  function LoadBe32(s: seq<byte>, i: nat): bv32
    requires i + 4 <= |s|
  {
    ((s[i] as bv32) << 24) | ((s[i + 1] as bv32) << 16) | ((s[i + 2] as bv32) << 8) | (s[i + 3] as bv32)
  }

  /** Word t of the message schedule of a block. */
  function Schedule(block: seq<byte>, t: nat): bv32
    requires |block| == BLOCK_SIZE
  {
    if t < 16 then LoadBe32(block, 4 * t)
    else RotateLeft1(Schedule(block, t - 3) ^ Schedule(block, t - 8) ^ Schedule(block, t - 14) ^ Schedule(block, t - 16))
  }

  function RoundFunction(t: nat, b: bv32, c: bv32, d: bv32): bv32 {
    if t < 20 then (b & c) | (!b & d)
    else if t < 40 then b ^ c ^ d
    else if t < 60 then (b & c) | (b & d) | (c & d)
    else b ^ c ^ d
  }

  function RoundConstant(t: nat): bv32 {
    if t < 20 then 0x5A827999 else if t < 40 then 0x6ED9EBA1 else if t < 60 then 0x8F1BBCDC else 0xCA62C1D6
  }

  function Sum(a: bv32, b: bv32, c: bv32, d: bv32, e: bv32): bv32 {
    a + b + c + d + e
  }

  /** The new first word of round t. */
  function Mixed(t: nat, a: bv32, b: bv32, c: bv32, d: bv32, e: bv32, w: bv32): bv32 {
    Sum(RotateLeft5(a), RoundFunction(t, b, c, d), e, RoundConstant(t), w)
  }

  /** The working words after the first t rounds. */
  function Rounds(start: Chain, block: seq<byte>, t: nat): Chain
    requires |block| == BLOCK_SIZE
  {
    if t == 0 then start
    else
      var w := Rounds(start, block, t - 1);
      Chain(Mixed(t - 1, w.h0, w.h1, w.h2, w.h3, w.h4, Schedule(block, t - 1)), w.h0, RotateLeft30(w.h1), w.h2, w.h3)
  }

  /** sha1_compress: one block into the chaining words. */
  function Compress(h: Chain, block: seq<byte>): Chain
    requires |block| == BLOCK_SIZE
  {
    var w := Rounds(h, block, 80);
    Chain(h.h0 + w.h0, h.h1 + w.h1, h.h2 + w.h2, h.h3 + w.h3, h.h4 + w.h4)
  }

  // ---------------------------------------------------------------- specification

  /** The chaining words after all whole blocks of s. */
  function Fold(h: Chain, s: seq<byte>): Chain
    decreases |s|
  {
    if |s| < BLOCK_SIZE then h else Fold(Compress(h, s[..BLOCK_SIZE]), s[BLOCK_SIZE..])
  }

  function Zeroes(n: nat): (s: seq<byte>)
    ensures |s| == n
  {
    seq(n, i => 0)
  }

  /** store_be64 of n, taken modulo 2^64. */
  function Be64(n: nat): (s: seq<byte>)
    ensures |s| == 8
  {
    [Byte(n / 0x100_0000_0000_0000), Byte(n / 0x1_0000_0000_0000), Byte(n / 0x100_0000_0000), Byte(n / 0x1_0000_0000),
     Byte(n / 0x100_0000), Byte(n / 0x1_0000), Byte(n / 0x100), Byte(n)]
  }

  /** store_be32 */
  function Be32(x: bv32): (s: seq<byte>)
    ensures |s| == 4
  {
    [((x >> 24) & 0xFF) as bv8, ((x >> 16) & 0xFF) as bv8, ((x >> 8) & 0xFF) as bv8, (x & 0xFF) as bv8]
  }

  /** How many zero bytes the padding of a message of the given length holds. */
  function ZeroCount(length: nat): (k: nat)
    ensures (length + 1 + k + 8) % BLOCK_SIZE == 0 && k < BLOCK_SIZE
  {
    (119 - length % BLOCK_SIZE) % BLOCK_SIZE
  }

  /** The message with its padding: one bit, zeros, and the length in bits. */
  function Pad(msg: seq<byte>): (r: seq<byte>)
    ensures |r| % BLOCK_SIZE == 0
  {
    msg + [0x80] + Zeroes(ZeroCount(|msg|)) + Be64(8 * |msg|)
  }

  function Output(h: Chain): (d: seq<byte>)
    ensures |d| == DIGEST_SIZE
  {
    Be32(h.h0) + Be32(h.h1) + Be32(h.h2) + Be32(h.h3) + Be32(h.h4)
  }

  /** The SHA-1 digest of a message. */
  function Digest(msg: seq<byte>): (d: seq<byte>)
    ensures |d| == DIGEST_SIZE
  {
    Output(Fold(INITIAL, Pad(msg)))
  }

  // ---------------------------------------------------------------- folding

  lemma {:induction false} FoldConcat(h: Chain, a: seq<byte>, b: seq<byte>)
    requires |a| % BLOCK_SIZE == 0
    ensures Fold(h, a + b) == Fold(Fold(h, a), b)
    decreases |a|
  {
    hide Compress;
    if a == [] {
      assert a + b == b;
    } else {
      assert (a + b)[..BLOCK_SIZE] == a[..BLOCK_SIZE];
      assert (a + b)[BLOCK_SIZE..] == a[BLOCK_SIZE..] + b;
      FoldConcat(Compress(h, a[..BLOCK_SIZE]), a[BLOCK_SIZE..], b);
    }
  }

  lemma FoldOne(h: Chain, block: seq<byte>)
    requires |block| == BLOCK_SIZE
    ensures Fold(h, block) == Compress(h, block)
  {
    hide Compress;
    assert block[..BLOCK_SIZE] == block && block[BLOCK_SIZE..] == [];
  }

  /** Bytes short of a block do not change the chaining words. */
  lemma FoldRemainder(h: Chain, a: seq<byte>, b: seq<byte>)
    requires |a| % BLOCK_SIZE == 0 && |b| < BLOCK_SIZE
    ensures Fold(h, a + b) == Fold(h, a)
  {
    hide Compress;
    FoldConcat(h, a, b);
  }

  lemma ByteWraps(n: nat, q: nat, m: nat)
    requires m % 256 == 0
    ensures Byte(n + m * q) == Byte(n)
  {
    var k := m / 256;
    assert m * q == 256 * (k * q);
    assert (n + 256 * (k * q)) % 256 == n % 256;
  }

  /** The length field wraps like the 64-bit counter behind it. */
  lemma Be64Wraps(n: nat, q: nat)
    ensures Be64(n + 0x1_0000_0000_0000_0000 * q) == Be64(n)
  {
    hide Byte;
    ByteWraps(n / 0x100_0000_0000_0000, q, 0x100);
    ByteWraps(n / 0x1_0000_0000_0000, q, 0x1_0000);
    ByteWraps(n / 0x100_0000_0000, q, 0x100_0000);
    ByteWraps(n / 0x1_0000_0000, q, 0x1_0000_0000);
    ByteWraps(n / 0x100_0000, q, 0x100_0000_0000);
    ByteWraps(n / 0x1_0000, q, 0x1_0000_0000_0000);
    ByteWraps(n / 0x100, q, 0x100_0000_0000_0000);
    ByteWraps(n, q, 0x1_0000_0000_0000_0000);
  }

  // ---------------------------------------------------------------- numbers, most significant byte first

  /** The number that bytes stand for, most significant first. */
  function Value(s: seq<byte>): nat
    decreases |s|
  {
    if s == [] then 0 else 0x100 * Value(s[..|s| - 1]) + s[|s| - 1] as nat
  }

  /** The last two bytes are the low sixteen bits of n. */
  lemma PairValue(s: seq<byte>, n: nat)
    requires |s| >= 2 && s[|s| - 2] == Byte(n / 0x100) && s[|s| - 1] == Byte(n)
    ensures Value(s) == 0x1_0000 * Value(s[..|s| - 2]) + n % 0x1_0000
  {
    hide Byte;
    ByteValue(n);
    ByteValue(n / 0x100);
    DivideTwice(n);
    assert s[..|s| - 1][..|s| - 2] == s[..|s| - 2];
  }

  lemma Quotients(n: nat)
    ensures n / 0x1_0000 / 0x100 == n / 0x100_0000 && n / 0x1_0000_0000 / 0x100 == n / 0x100_0000_0000
    ensures n / 0x1_0000_0000_0000 / 0x100 == n / 0x100_0000_0000_0000
  {
  }

  lemma Remainder32(n: nat, a: nat, x: nat)
    requires n == 0x1_0000_0000 * a + x && x < 0x1_0000_0000
    ensures n % 0x1_0000_0000 == x
  {
  }

  lemma Remainder64(n: nat, a: nat, x: nat)
    requires n == 0x1_0000_0000_0000_0000 * a + x && x < 0x1_0000_0000_0000_0000
    ensures n % 0x1_0000_0000_0000_0000 == x
  {
  }

  lemma HighWord(n: nat)
    ensures n / 0x1_0000_0000 / 0x1_0000 == n / 0x1_0000_0000_0000
  {
  }

  lemma LowWords(n: nat)
    ensures 0x1_0000 * (n / 0x1_0000 % 0x1_0000) + n % 0x1_0000 == n % 0x1_0000_0000
    ensures 0x1_0000_0000 * (n / 0x1_0000_0000 % 0x1_0000_0000) + n % 0x1_0000_0000 == n % 0x1_0000_0000_0000_0000
    ensures n / 0x1_0000_0000 / 0x1_0000 == n / 0x1_0000_0000_0000
  {
    HighWord(n);
    var q, p := n / 0x1_0000, n / 0x1_0000_0000;
    Remainder32(n, q / 0x1_0000, 0x1_0000 * (q % 0x1_0000) + n % 0x1_0000);
    Remainder64(n, p / 0x1_0000_0000, 0x1_0000_0000 * (p % 0x1_0000_0000) + n % 0x1_0000_0000);
  }

  lemma NoValue()
    ensures Value([]) == 0
  {
  }

  /** store_be64 stores the number, modulo 2^64. */
  lemma Be64Value(n: nat)
    ensures Value(Be64(n)) == n % 0x1_0000_0000_0000_0000
  {
    hide Byte, Value;
    var s := Be64(n);
    Quotients(n);
    LowWords(n);
    LowWords(n / 0x1_0000_0000);
    PairValue(s, n);
    PairValue(s[..6], n / 0x1_0000);
    PairValue(s[..4], n / 0x1_0000_0000);
    PairValue(s[..2], n / 0x1_0000_0000_0000);
    assert s[..6][..4] == s[..4] && s[..4][..2] == s[..2] && s[..2][..0] == [];
    NoValue();
  }

  lemma FourValue(s: seq<byte>)
    requires |s| == 4
    ensures Value(s) == 0x100_0000 * (s[0] as nat) + 0x1_0000 * (s[1] as nat) + 0x100 * (s[2] as nat) + s[3] as nat
  {
    assert s[..3][..2] == s[..2] && s[..2][..1] == s[..1] && s[..1][..0] == [];
    assert Value(s[..1]) == s[0] as nat;
    assert Value(s[..2]) == 0x100 * Value(s[..1]) + s[1] as nat;
    assert Value(s[..3]) == 0x100 * Value(s[..2]) + s[2] as nat;
  }

  function Nat(x: bv32): nat { x as nat }
  function Byte3(x: bv32): bv32 { x >> 24 }
  function Byte2(x: bv32): bv32 { (x >> 16) & 0xFF }
  function Byte1(x: bv32): bv32 { (x >> 8) & 0xFF }
  function Byte0(x: bv32): bv32 { x & 0xFF }
  function Low24(x: bv32): bv32 { x & 0xFF_FFFF }
  function Low16(x: bv32): bv32 { x & 0xFFFF }

  lemma TopByte(x: bv32)
    ensures Nat(x) == 0x100_0000 * Nat(Byte3(x)) + Nat(Low24(x))
  {
  }

  lemma ThirdByte(x: bv32)
    ensures Nat(Low24(x)) == 0x1_0000 * Nat(Byte2(x)) + Nat(Low16(x))
  {
  }

  lemma SecondByte(x: bv32)
    ensures Nat(Low16(x)) == 0x100 * Nat(Byte1(x)) + Nat(Byte0(x))
  {
  }

  lemma Narrow(x: bv32)
    requires x < 0x100
    ensures (x as bv8) as nat == Nat(x)
  {
  }

  lemma BytesAreSmall(x: bv32)
    ensures Byte3(x) < 0x100 && Byte2(x) < 0x100 && Byte1(x) < 0x100 && Byte0(x) < 0x100
  {
  }

  lemma Be32Is(x: bv32)
    requires Byte3(x) < 0x100 && Byte2(x) < 0x100 && Byte1(x) < 0x100 && Byte0(x) < 0x100
    ensures Be32(x) == [Byte3(x) as bv8, Byte2(x) as bv8, Byte1(x) as bv8, Byte0(x) as bv8]
  {
  }

  lemma BytesStored(x: bv32)
    ensures var s := Be32(x);
            && s[0] as nat == Nat(Byte3(x)) && s[1] as nat == Nat(Byte2(x))
            && s[2] as nat == Nat(Byte1(x)) && s[3] as nat == Nat(Byte0(x))
  {
    hide Be32, Nat, Byte3, Byte2, Byte1, Byte0;
    BytesAreSmall(x);
    Be32Is(x);
    Narrow(Byte3(x));
    Narrow(Byte2(x));
    Narrow(Byte1(x));
    Narrow(Byte0(x));
  }

  lemma NatIs(x: bv32)
    ensures Nat(x) == x as nat
  {
  }

  /** store_be32 stores the word. */
  lemma Be32Value(x: bv32)
    ensures Value(Be32(x)) == x as nat
  {
    hide Value, Be32, Nat, Byte3, Byte2, Byte1, Byte0, Low24, Low16;
    FourValue(Be32(x));
    BytesStored(x);
    TopByte(x);
    ThirdByte(x);
    SecondByte(x);
    NatIs(x);
  }
}

// The WinZip AES stream of src/crypto/aes_wg.c: AES in counter mode with a
// little-endian counter, authenticated by HMAC-SHA-1 over the ciphertext.
module AesCtr {
  import opened Bytes
  import Sha1
  import Sha1State
  import Hmac

  const BLOCK: nat := 16
  const AUTH_SIZE: nat := 10

  type Block = s: seq<byte> | |s| == BLOCK witness seq(BLOCK, i => 0)

  // ---------------------------------------------------------------- specification

  /** The counter block number n: a 64-bit little-endian counter and eight zero bytes. */
  function CounterBlock(n: nat): Block {
    LittleEndian(n, 8) + Sha1.Zeroes(8)
  }

  /** Byte k of the key stream: byte k mod 16 of the encryption of counter block k / 16 + 1. */
  function KeyStream(encrypt: Block -> Block, k: nat): byte {
    encrypt(CounterBlock(k / BLOCK + 1))[k % BLOCK]
  }

  /** Sixteen bytes with the low bytes of the counter in front. */
  function CounterBytes(b0: byte, b1: byte): Block {
    [b0, b1] + Sha1.Zeroes(14)
  }

  lemma ByteLiterals()
    ensures Byte(0) == 0 && Byte(1) == 1 && Byte(2) == 2 && Byte(256) == 0
  {
  }

  lemma SmallCounters()
    ensures CounterBlock(1) == CounterBytes(1, 0) && CounterBlock(2) == CounterBytes(2, 0)
    ensures CounterBlock(256) == CounterBytes(0, 1)
  {
    hide Byte;
    ByteLiterals();
    assert LittleEndian(0, 6) == [0, 0, 0, 0, 0, 0];
    assert LittleEndian(0, 7) == [Byte(0)] + LittleEndian(0, 6);
    assert LittleEndian(1, 7) == [Byte(1)] + LittleEndian(0, 6);
  }

  /** The counter is one for the first block, two for the second, and carries into its second byte. */
  lemma FirstKeyBytes(encrypt: Block -> Block, k: nat)
    requires k < 16
    ensures KeyStream(encrypt, k) == encrypt(CounterBytes(1, 0))[k]
    ensures KeyStream(encrypt, 16 + k) == encrypt(CounterBytes(2, 0))[k]
    ensures KeyStream(encrypt, 16 * 255 + k) == encrypt(CounterBytes(0, 1))[k]
  {
    hide CounterBlock, CounterBytes;
    SmallCounters();
  }

  /** s, starting at byte `from` of the stream, added to the key stream. */
  function XorStream(encrypt: Block -> Block, s: seq<byte>, from: nat): (r: seq<byte>)
    ensures |r| == |s|
  {
    seq(|s|, i requires 0 <= i < |s| => s[i] ^ KeyStream(encrypt, from + i))
  }

  /** How a ciphertext is cut into calls does not matter. */
  lemma XorStreamConcat(encrypt: Block -> Block, a: seq<byte>, b: seq<byte>, from: nat)
    ensures XorStream(encrypt, a + b, from) == XorStream(encrypt, a, from) + XorStream(encrypt, b, from + |a|)
  {
  }

  // ---------------------------------------------------------------- the counter

  function Next(b: byte): byte {
    b + 1
  }

  lemma NextValue(b: byte)
    ensures Next(b) as int == (b as int + 1) % 256
  {
  }

  lemma SameByte(a: byte, b: byte)
    requires a as int == b as int
    ensures a == b
  {
  }

  lemma ByteZero(n: nat)
    ensures Byte(n) == 0 <==> n % 256 == 0
  {
  }

  lemma ModSuccessor(n: nat)
    ensures (n % 256 + 1) % 256 == (n + 1) % 256
    ensures (n + 1) % 256 == 0 <==> n % 256 == 255
    ensures (n + 1) / 256 == if n % 256 == 255 then n / 256 + 1 else n / 256
  {
  }

  lemma ByteSuccessor(n: nat)
    ensures Next(Byte(n)) == Byte(n + 1)
    ensures Byte(n + 1) == 0 <==> n % 256 == 255
  {
    hide Byte, Next;
    ModSuccessor(n);
    ByteValue(n);
    ByteValue(n + 1);
    NextValue(Byte(n));
    SameByte(Next(Byte(n)), Byte(n + 1));
    ByteZero(n + 1);
  }

  /** Adding one with carry, byte by byte. */
  function Increment(s: seq<byte>): (r: seq<byte>)
    ensures |r| == |s|
    decreases |s|
  {
    if s == [] then []
    else if Next(s[0]) != 0 then [Next(s[0])] + s[1..]
    else [0] + Increment(s[1..])
  }

  /** Adding one with carry to the bytes of n gives the bytes of n + 1. */
  lemma {:induction false} IncrementCounts(n: nat, k: nat)
    ensures Increment(LittleEndian(n, k)) == LittleEndian(n + 1, k)
    decreases k
  {
    hide Byte, Next;
    if k > 0 {
      ByteSuccessor(n);
      IncrementCounts(n / 256, k - 1);
      assert LittleEndian(n, k)[1..] == LittleEndian(n / 256, k - 1);
      ModSuccessor(n);
    }
  }

  lemma IncrementFirst(was: seq<byte>, i: nat)
    requires i < 8 <= |was|
    ensures Increment(was[i..8])
         == [Next(was[i])] + if Next(was[i]) != 0 then was[i + 1..8] else Increment(was[i + 1..8])
  {
    hide Next;
    assert was[i..8][1..] == was[i + 1..8];
  }

  lemma NothingToIncrement(was: seq<byte>)
    requires 8 <= |was|
    ensures Increment(was[8..8]) == []
  {
  }

  lemma CarryStops(nonce: array<byte>, was: seq<byte>, i: nat)
    requires nonce.Length == BLOCK == |was| && i < 8
    requires nonce[i + 1..] == was[i + 1..]
    ensures nonce[..8] == nonce[..i + 1] + was[i + 1..8] && nonce[8..] == was[8..]
  {
  }

  /** The carry loop of aes_wg_next_stream on the first eight bytes of the nonce. */
  method BumpCounter(nonce: array<byte>)
    requires nonce.Length == BLOCK
    modifies nonce
    ensures nonce[..8] == Increment(old(nonce[..8]))
    ensures nonce[8..] == old(nonce[8..])
  {
    hide Next, Increment;
    ghost var was := nonce[..];
    assert was[0..8] == was[..8] && nonce[..0] == [];
    var i := 0;
    while i < 8
      invariant i <= 8 && nonce[i..] == was[i..]
      invariant Increment(was[..8]) == nonce[..i] + Increment(was[i..8])
    {
      ghost var done := nonce[..i];
      IncrementFirst(was, i);
      assert was[i..][0] == nonce[i];
      nonce[i] := Next(nonce[i]);
      assert nonce[..i + 1] == done + [Next(was[i])];
      assert nonce[i + 1..] == was[i..][1..] == was[i + 1..];
      if nonce[i] != 0 {
        CarryStops(nonce, was, i);
        assert Increment(was[..8]) == done + ([Next(was[i])] + was[i + 1..8]);
        return;
      }
      assert Increment(was[..8]) == done + ([Next(was[i])] + Increment(was[i + 1..8]));
      i := i + 1;
    }
    NothingToIncrement(was);
  }

  // ---------------------------------------------------------------- positions and stretches

  /** stream_pos after k bytes: a used-up block counts as position 16. */
  function PositionAfter(k: nat): nat {
    if k % BLOCK == 0 then BLOCK else k % BLOCK
  }

  /** How many key stream blocks the first k bytes have taken. */
  function BlocksUsed(k: nat): nat {
    (k + BLOCK - 1) / BLOCK
  }

  lemma FourPositions(k: nat)
    requires k % BLOCK == 0
    ensures PositionAfter(k + 4 * BLOCK) == BLOCK && BlocksUsed(k + 4 * BLOCK) == k / BLOCK + 4
    ensures (k + 16) % BLOCK == 0 && (k + 16) / BLOCK == k / BLOCK + 1
    ensures (k + 32) % BLOCK == 0 && (k + 32) / BLOCK == k / BLOCK + 2
    ensures (k + 48) % BLOCK == 0 && (k + 48) / BLOCK == k / BLOCK + 3
  {
  }

  /** A stretch of buf replaced by its sum with the key stream. */
  ghost predicate Stretch(encrypt: Block -> Block, before: seq<byte>, after: seq<byte>, from: nat, n: nat, k: nat) {
    && from + n <= |before|
    && after == before[..from] + XorStream(encrypt, before[from..from + n], k) + before[from + n..]
  }

  /** Two adjacent stretches are one. */
  lemma TwoStretches(encrypt: Block -> Block, a: seq<byte>, b: seq<byte>, c: seq<byte>, from: nat, m: nat, n: nat, k: nat)
    requires Stretch(encrypt, a, b, from, m, k) && Stretch(encrypt, b, c, from + m, n, k + m)
    ensures Stretch(encrypt, a, c, from, m + n, k)
  {
    hide XorStream;
    assert |b| == |a|;
    assert b[from + m..from + m + n] == a[from + m..from + m + n];
    assert a[from..from + m + n] == a[from..from + m] + a[from + m..from + m + n];
    XorStreamConcat(encrypt, a[from..from + m], a[from + m..from + m + n], k);
    assert b[..from + m] == a[..from] + XorStream(encrypt, a[from..from + m], k);
    assert b[from + m + n..] == a[from + m + n..];
  }

  lemma EmptyStretch(encrypt: Block -> Block, s: seq<byte>, k: nat)
    ensures Stretch(encrypt, s, s, 0, 0, k)
  {
  }

  lemma WholeStretch(encrypt: Block -> Block, before: seq<byte>, after: seq<byte>, n: nat, k: nat)
    requires Stretch(encrypt, before, after, 0, n, k)
    ensures n <= |before| && after == XorStream(encrypt, before[..n], k) + before[n..]
  {
  }

  lemma FourStretches(encrypt: Block -> Block, a: seq<byte>, b: seq<byte>, c: seq<byte>, d: seq<byte>, e: seq<byte>, from: nat, k: nat)
    requires Stretch(encrypt, a, b, from, 16, k) && Stretch(encrypt, b, c, from + 16, 16, k + 16)
    requires Stretch(encrypt, c, d, from + 32, 16, k + 32) && Stretch(encrypt, d, e, from + 48, 16, k + 48)
    ensures Stretch(encrypt, a, e, from, 64, k)
  {
    hide Stretch;
    TwoStretches(encrypt, a, b, c, from, 16, 16, k);
    TwoStretches(encrypt, a, c, d, from, 32, 16, k);
    TwoStretches(encrypt, a, d, e, from, 48, 16, k);
  }

  // ---------------------------------------------------------------- the counter in a vector register

  /** A vector register seen as two unsigned 64-bit lanes. */
  datatype Lanes = Lanes(low: nat, high: nat)

  /** vld1q_u8 and its view as lanes. */
  function LoadLanes(block: Block): Lanes {
    Lanes(Le64(block, 0), Le64(block, 8))
  }

  const LANE: nat := 0x1_0000_0000_0000_0000

  /** vaddq_u64: each lane on its own, modulo 2^64. */
  function AddLanes(a: Lanes, b: Lanes): Lanes {
    Lanes((a.low + b.low) % LANE, (a.high + b.high) % LANE)
  }

  /** The lanes as bytes again. */
  function StoreLanes(v: Lanes): Block {
    LittleEndian(v.low, 8) + LittleEndian(v.high, 8)
  }

  function Power256(k: nat): nat {
    if k == 0 then 1 else 256 * Power256(k - 1)
  }

  lemma CarryOut(n: nat, x: nat)
    ensures (n + 256 * x) % 256 == n % 256 && (n + 256 * x) / 256 == n / 256 + x
  {
  }

  lemma TakeOut(p: nat, q: nat)
    ensures 256 * p * q == 256 * (p * q)
  {
  }

  /** Only the value modulo 256^k shows in k bytes. */
  lemma {:induction false} LowBytes(n: nat, q: nat, k: nat)
    ensures LittleEndian(n + Power256(k) * q, k) == LittleEndian(n, k)
    decreases k
  {
    if k > 0 {
      var x := Power256(k - 1) * q;
      TakeOut(Power256(k - 1), q);
      assert n + Power256(k) * q == n + 256 * x;
      CarryOut(n, x);
      LowBytes(n / 256, q, k - 1);
    }
  }

  lemma LaneIsPower()
    ensures Power256(8) == LANE
  {
    assert Power256(4) == 0x1_0000_0000;
  }

  lemma Remainder(n: nat, m: nat)
    requires m > 0
    ensures n == n % m + m * (n / m)
  {
  }

  lemma LowLane(n: nat)
    ensures LittleEndian(n % LANE, 8) == LittleEndian(n, 8)
  {
    hide LittleEndian, Power256;
    LaneIsPower();
    Remainder(n, LANE);
    LowBytes(n % LANE, n / LANE, 8);
  }

  lemma ZeroLane()
    ensures LittleEndian(0, 8) == Sha1.Zeroes(8)
  {
    assert LittleEndian(0, 4) == [0, 0, 0, 0];
  }

  /** A counter block as lanes, and back. */
  lemma LanesOfCounter(n: nat)
    ensures LoadLanes(CounterBlock(n)) == Lanes(n % LANE, 0)
    ensures StoreLanes(Lanes(n % LANE, 0)) == CounterBlock(n)
  {
    hide LittleEndian, Le64;
    LowLane(n);
    ZeroLane();
    Le64Of(n % LANE);
    Le64Of(0);
    LeOfMiddle([], LittleEndian(n, 8), Sha1.Zeroes(8), 0);
    LeOfMiddle(LittleEndian(n, 8), Sha1.Zeroes(8), [], 0);
    assert CounterBlock(n) == [] + LittleEndian(n, 8) + Sha1.Zeroes(8) == LittleEndian(n, 8) + Sha1.Zeroes(8) + [];
  }

  /** The lane addition and the carry loop count alike, also where the lane wraps around. */
  lemma AddLanesCounts(n: nat)
    ensures AddLanes(Lanes(n % LANE, 0), Lanes(1, 0)) == Lanes((n + 1) % LANE, 0)
    ensures StoreLanes(AddLanes(LoadLanes(CounterBlock(n)), Lanes(1, 0))) == Increment(CounterBlock(n)[..8]) + CounterBlock(n)[8..]
  {
    hide LittleEndian, Le64, Increment;
    LanesOfCounter(n);
    LanesOfCounter(n + 1);
    IncrementCounts(n, 8);
    assert CounterBlock(n)[..8] == LittleEndian(n, 8) && CounterBlock(n)[8..] == Sha1.Zeroes(8);
  }

  /** Four additions in the register give the next four counter blocks. */
  lemma FourCounters(n: nat)
    ensures var step := Lanes(1, 0);
            var v1 := AddLanes(LoadLanes(CounterBlock(n)), step);
            var v2 := AddLanes(v1, step);
            var v3 := AddLanes(v2, step);
            && StoreLanes(v1) == CounterBlock(n + 1) && StoreLanes(v2) == CounterBlock(n + 2)
            && StoreLanes(v3) == CounterBlock(n + 3) && StoreLanes(AddLanes(v3, step)) == CounterBlock(n + 4)
  {
    hide LoadLanes, AddLanes, StoreLanes, CounterBlock;
    LanesOfCounter(n);
    LanesOfCounter(n + 1);
    LanesOfCounter(n + 2);
    LanesOfCounter(n + 3);
    LanesOfCounter(n + 4);
    AddLanesCounts(n);
    AddLanesCounts(n + 1);
    AddLanesCounts(n + 2);
    AddLanesCounts(n + 3);
  }

  // ---------------------------------------------------------------- bytes and blocks in place

  lemma WithinBlock(k: nat, i: nat)
    requires k % BLOCK + i < BLOCK
    ensures (k + i) / BLOCK == k / BLOCK && (k + i) % BLOCK == k % BLOCK + i
  {
  }

  /** Bytes of one stream block are consecutive bytes of the key stream. */
  lemma TakenBytes(encrypt: Block -> Block, k: nat, block: seq<byte>, part: seq<byte>)
    requires |block| == BLOCK && block == encrypt(CounterBlock(k / BLOCK + 1)) && k % BLOCK + |part| <= BLOCK
    ensures XorSeq(part, block[k % BLOCK..k % BLOCK + |part|]) == XorStream(encrypt, part, k)
  {
    hide CounterBlock;
    var mask := block[k % BLOCK..k % BLOCK + |part|];
    forall i | 0 <= i < |part|
      ensures mask[i] == KeyStream(encrypt, k + i)
    {
      WithinBlock(k, i);
    }
  }

  /** A whole block of the buffer against one encrypted counter. */
  lemma WholeBlock(encrypt: Block -> Block, k: nat, part: seq<byte>)
    requires k % BLOCK == 0 && |part| == BLOCK
    ensures XorSeq(part, encrypt(CounterBlock(k / BLOCK + 1))) == XorStream(encrypt, part, k)
  {
    hide CounterBlock, XorStream;
    var block: Block := encrypt(CounterBlock(k / BLOCK + 1));
    TakenBytes(encrypt, k, block, part);
    assert block[0..BLOCK] == block;
  }

  /** buf[from + i] ^= mask[i] */
  method XorInto(buf: array<byte>, from: nat, mask: seq<byte>)
    requires from + |mask| <= buf.Length
    modifies buf
    ensures buf[..] == old(buf[..from]) + XorSeq(old(buf[from..from + |mask|]), mask) + old(buf[from + |mask|..])
  {
    ghost var was := buf[..];
    for i := 0 to |mask|
      invariant forall k :: 0 <= k < i ==> buf[from + k] == was[from + k] ^ mask[k]
      invariant forall k :: 0 <= k < buf.Length && !(from <= k < from + i) ==> buf[k] == was[k]
    {
      buf[from + i] := buf[from + i] ^ mask[i];
    }
    assert buf[..from] == was[..from] && buf[from + |mask|..] == was[from + |mask|..];
    assert buf[from..from + |mask|] == XorSeq(was[from..from + |mask|], mask);
    assert buf[..] == buf[..from] + buf[from..from + |mask|] + buf[from + |mask|..];
  }

  lemma TakenPosition(k: nat, n: nat)
    requires 1 <= n && k % BLOCK + n <= BLOCK
    ensures PositionAfter(k + n) == k % BLOCK + n && BlocksUsed(k + n) == k / BLOCK + 1
  {
  }

  lemma DiffIsZero(diff: byte, a: byte, b: byte)
    ensures diff | (a ^ b) == 0 <==> diff == 0 && a == b
  {
  }

  /** ct_equal: no early exit. */
  method ConstantTimeEqual(a: seq<byte>, b: seq<byte>) returns (equal: bool)
    requires |a| == |b|
    ensures equal <==> a == b
  {
    var diff: byte := 0;
    for i := 0 to |a|
      invariant diff == 0 <==> a[..i] == b[..i]
    {
      DiffIsZero(diff, a[i], b[i]);
      assert a[..i + 1] == a[..i] + [a[i]] && b[..i + 1] == b[..i] + [b[i]];
      diff := diff | (a[i] ^ b[i]);
    }
    assert a[..|a|] == a && b[..|b|] == b;
    equal := diff == 0;
  }

  lemma ZeroCounter()
    ensures CounterBlock(0) == seq(BLOCK, i => 0)
  {
  }

  /** memset(nonce, 0) */
  method NewCounter() returns (nonce: array<byte>)
    ensures fresh(nonce) && nonce[..] == CounterBlock(0)
  {
    nonce := new byte[BLOCK](_ => 0);
    ZeroCounter();
    assert nonce[..] == seq(BLOCK, i => 0);
  }

  /** The increment of aes_wg_next_stream. */
  method CountBlock(nonce: array<byte>, ghost n: nat)
    requires nonce.Length == BLOCK && nonce[..] == CounterBlock(n)
    modifies nonce
    ensures nonce[..] == CounterBlock(n + 1)
  {
    hide Byte, Increment, LittleEndian;
    assert nonce[..8] == CounterBlock(n)[..8] == LittleEndian(n, 8);
    assert nonce[8..] == CounterBlock(n)[8..] == Sha1.Zeroes(8);
    BumpCounter(nonce);
    IncrementCounts(n, 8);
    assert nonce[..] == nonce[..8] + nonce[8..];
  }

  /** aes_encrypt_block */
  method EncryptBlock(encrypt: Block -> Block, block: array<byte>, out: array<byte>)
    requires block.Length == BLOCK && out.Length == BLOCK && block != out
    modifies out
    ensures out[..] == encrypt(block[..])
  {
    var e: Block := encrypt(block[..]);
    for i := 0 to BLOCK
      invariant out[..i] == e[..i] && block[..] == old(block[..])
    {
      out[i] := e[i];
    }
    assert out[..] == out[..BLOCK];
    assert e[..BLOCK] == e;
  }

  lemma NextPosition(k: nat)
    ensures PositionAfter(k) == BLOCK ==> BlocksUsed(k) == k / BLOCK && k % BLOCK == 0
    ensures PositionAfter(k) < BLOCK ==> BlocksUsed(k) == k / BLOCK + 1 && PositionAfter(k) == k % BLOCK
  {
  }

  // ---------------------------------------------------------------- aes_wg_t

  class State {
    const encrypt: Block -> Block
    const nonce: array<byte>
    const stream: array<byte>
    var streamPos: nat
    const hmac: Hmac.State
    /** How many bytes have been decrypted. */
    ghost var consumed: nat

    /** Counter, key stream block and position after `consumed` bytes. */
    ghost predicate AtPosition()
      reads this, nonce, stream
    {
      && nonce.Length == BLOCK && stream.Length == BLOCK && nonce != stream
      && streamPos == PositionAfter(consumed)
      && nonce[..] == CounterBlock(BlocksUsed(consumed))
      && (consumed > 0 ==> stream[..] == encrypt(CounterBlock(BlocksUsed(consumed))))
    }

    ghost predicate Separate()
      reads this, hmac
    {
      && {nonce, stream} !! {hmac.inner.buf, hmac.outer.buf}
    }

    ghost predicate Valid()
      reads this, nonce, stream, hmac, hmac.inner, hmac.outer, hmac.inner.buf, hmac.outer.buf
    {
      AtPosition() && Separate() && hmac.Valid()
    }

    /** The end of aes_wg_open: counter zero, and no key stream yet. */
    constructor (encrypt: Block -> Block, macKey: seq<byte>)
      ensures Valid() && this.encrypt == encrypt && consumed == 0
      ensures hmac.key == macKey && hmac.text == []
      ensures fresh(nonce) && fresh(stream) && fresh(hmac)
      ensures fresh(hmac.inner) && fresh(hmac.outer) && fresh(hmac.inner.buf) && fresh(hmac.outer.buf)
    {
      hide CounterBlock, Sha1.Fold, Hmac.Ipad, Hmac.Opad, Sha1State.State.Valid;
      this.encrypt := encrypt;
      var counter := NewCounter();
      nonce := counter;
      stream := new byte[BLOCK](_ => 0);
      streamPos := BLOCK;
      consumed := 0;
      var mac := new Hmac.State(macKey);
      hmac := mac;
    }

    /** aes_wg_next_stream: the next counter block and its encryption. */
    method NextStream()
      requires AtPosition() && streamPos == BLOCK
      modifies this`streamPos, nonce, stream
      ensures nonce[..] == CounterBlock(BlocksUsed(consumed) + 1)
      ensures stream[..] == encrypt(CounterBlock(BlocksUsed(consumed) + 1)) && streamPos == 0
    {
      hide CounterBlock;
      CountBlock(nonce, BlocksUsed(consumed));
      EncryptBlock(encrypt, nonce, stream);
      streamPos := 0;
    }

    /** The stream block for the next byte is at hand. */
    ghost predicate Loaded()
      reads this, nonce, stream
    {
      && nonce.Length == BLOCK && stream.Length == BLOCK && nonce != stream
      && streamPos == consumed % BLOCK
      && nonce[..] == CounterBlock(consumed / BLOCK + 1)
      && stream[..] == encrypt(CounterBlock(consumed / BLOCK + 1))
    }

    /** The step of aes_wg_decrypt that gets the next stream block if the last one is used up. */
    method Load()
      requires AtPosition()
      modifies this`streamPos, nonce, stream
      ensures Loaded()
    {
      hide CounterBlock;
      NextPosition(consumed);
      if streamPos == BLOCK {
        NextStream();
      }
    }

    /** Adds n bytes of the loaded stream block to the buffer. */
    method TakeBytes(buf: array<byte>, from: nat, n: nat)
      requires Loaded() && 1 <= n && streamPos + n <= BLOCK && from + n <= buf.Length
      requires buf != nonce && buf != stream
      modifies this`streamPos, this`consumed, buf
      ensures AtPosition() && consumed == old(consumed) + n
      ensures buf[..] == old(buf[..from]) + XorStream(encrypt, old(buf[from..from + n]), old(consumed)) + old(buf[from + n..])
    {
      hide CounterBlock, KeyStream;
      ghost var part := buf[from..from + n];
      XorInto(buf, from, stream[streamPos..streamPos + n]);
      TakenBytes(encrypt, consumed, stream[..], part);
      TakenPosition(consumed, n);
      streamPos := streamPos + n;
      consumed := consumed + n;
    }

    /** One of the four blocks of aes_wg_decrypt4. */
    method XorBlock(buf: array<byte>, from: nat, s: Block, ghost k: nat)
      requires from + BLOCK <= buf.Length && k % BLOCK == 0 && s == encrypt(CounterBlock(k / BLOCK + 1))
      modifies buf
      ensures buf[..] == old(buf[..from]) + XorStream(encrypt, old(buf[from..from + BLOCK]), k) + old(buf[from + BLOCK..])
    {
      hide CounterBlock, XorStream;
      WholeBlock(encrypt, k, buf[from..from + BLOCK]);
      XorInto(buf, from, s);
    }

    method XorFour(buf: array<byte>, from: nat, ghost k: nat, s0: Block, s1: Block, s2: Block, s3: Block)
      requires from + 4 * BLOCK <= buf.Length && k % BLOCK == 0
      requires s0 == encrypt(CounterBlock(k / BLOCK + 1)) && s1 == encrypt(CounterBlock(k / BLOCK + 2))
      requires s2 == encrypt(CounterBlock(k / BLOCK + 3)) && s3 == encrypt(CounterBlock(k / BLOCK + 4))
      modifies buf
      ensures buf[..] == old(buf[..from]) + XorStream(encrypt, old(buf[from..from + 4 * BLOCK]), k)
                         + old(buf[from + 4 * BLOCK..])
    {
      hide CounterBlock, XorStream;
      ghost var was := buf[..];
      FourPositions(k);
      XorBlock(buf, from, s0, k);
      ghost var b1 := buf[..];
      XorBlock(buf, from + 16, s1, k + 16);
      ghost var b2 := buf[..];
      XorBlock(buf, from + 32, s2, k + 32);
      ghost var b3 := buf[..];
      XorBlock(buf, from + 48, s3, k + 48);
      FourStretches(encrypt, was, b1, b2, b3, buf[..], from, k);
    }

    /** aes_wg_decrypt4: four counters in a row, leaving the state that four single blocks leave. */
    method Decrypt4(buf: array<byte>, from: nat)
      requires AtPosition() && streamPos == BLOCK && from + 4 * BLOCK <= buf.Length
      requires buf != nonce && buf != stream
      modifies this`consumed, nonce, stream, buf
      ensures AtPosition() && streamPos == BLOCK && consumed == old(consumed) + 4 * BLOCK
      ensures buf[..] == old(buf[..from]) + XorStream(encrypt, old(buf[from..from + 4 * BLOCK]), old(consumed))
                         + old(buf[from + 4 * BLOCK..])
    {
      hide CounterBlock, XorStream, LoadLanes, AddLanes, StoreLanes;
      ghost var k, n, was := consumed, BlocksUsed(consumed), buf[..];
      NextPosition(k);
      FourCounters(n);
      var counter, step := LoadLanes(nonce[..]), Lanes(1, 0);
      counter := AddLanes(counter, step);
      var c1 := StoreLanes(counter);
      counter := AddLanes(counter, step);
      var c2 := StoreLanes(counter);
      counter := AddLanes(counter, step);
      var c3 := StoreLanes(counter);
      counter := AddLanes(counter, step);
      var c4 := StoreLanes(counter);
      Store(nonce, 0, c4);
      Store(stream, 0, encrypt(c4));
      FourPositions(k);
      XorFour(buf, from, k, encrypt(c1), encrypt(c2), encrypt(c3), encrypt(c4));
      consumed := consumed + 4 * BLOCK;
    }

    lemma LoadedPosition()
      requires Loaded()
      ensures streamPos < BLOCK
    {
    }

    /** One turn of aes_wg_decrypt: the rest of the current block or a whole one, or, where the vector
        code is available (wide), four blocks at once. */
    method DecryptSome(buf: array<byte>, pos: nat, len: nat, wide: bool) returns (n: nat)
      requires AtPosition() && pos < len <= buf.Length && buf != nonce && buf != stream
      modifies this`streamPos, this`consumed, nonce, stream, buf
      ensures 1 <= n <= len - pos && AtPosition() && consumed == old(consumed) + n
      ensures Stretch(encrypt, old(buf[..]), buf[..], pos, n, old(consumed))
    {
      hide CounterBlock, XorStream, AtPosition, Loaded;
      if wide && streamPos == BLOCK && len - pos >= 4 * BLOCK {
        Decrypt4(buf, pos);
        return 4 * BLOCK;
      }
      Load();
      LoadedPosition();
      n := if BLOCK - streamPos > len - pos then len - pos else BLOCK - streamPos;
      TakeBytes(buf, pos, n);
    }

    /** aes_wg_decrypt without the authentication: byte by byte for less than a block. */
    method DecryptStream(buf: array<byte>, len: nat, wide: bool)
      requires AtPosition() && len <= buf.Length && buf != nonce && buf != stream
      modifies this`streamPos, this`consumed, nonce, stream, buf
      ensures AtPosition() && consumed == old(consumed) + len
      ensures Stretch(encrypt, old(buf[..]), buf[..], 0, len, old(consumed))
    {
      hide CounterBlock, XorStream, AtPosition, Stretch;
      ghost var was, start := buf[..], consumed;
      var pos := 0;
      EmptyStretch(encrypt, was, start);
      while pos < len
        invariant pos <= len && AtPosition() && consumed == start + pos
        invariant Stretch(encrypt, was, buf[..], 0, pos, start)
      {
        ghost var before := buf[..];
        var n := DecryptSome(buf, pos, if len < BLOCK then pos + 1 else len, wide);
        TwoStretches(encrypt, was, before, buf[..], 0, pos, n, start);
        pos := pos + n;
      }
    }

    /** aes_wg_decrypt: authenticates the ciphertext in buf[..len] and decrypts it in place. */
    method Decrypt(buf: array<byte>, len: nat, wide: bool)
      requires Valid() && len <= buf.Length
      requires buf !in {nonce, stream, hmac.inner.buf, hmac.outer.buf}
      modifies this`streamPos, this`consumed, nonce, stream, buf, hmac, hmac.inner, hmac.inner.buf
      ensures Valid() && consumed == old(consumed) + len
      ensures hmac.key == old(hmac.key) && hmac.text == old(hmac.text) + old(buf[..len])
      ensures buf[..] == XorStream(encrypt, old(buf[..len]), old(consumed)) + old(buf[len..])
    {
      hide CounterBlock, XorStream, AtPosition, Sha1.Fold, Hmac.Ipad, Hmac.Opad, Stretch;
      ghost var was := buf[..];
      if len == 0 {
        EmptyStretch(encrypt, was, consumed);
        WholeStretch(encrypt, was, buf[..], 0, consumed);
        return;
      }
      hmac.Update(buf[..len]);
      DecryptStream(buf, len, wide);
      WholeStretch(encrypt, was, buf[..], len, old(consumed));
    }

    /** aes_wg_auth: compares the first ten bytes of the MAC. The state is used up. */
    method Authenticate(auth: seq<byte>) returns (ok: bool)
      requires Valid() && |auth| == 10
      modifies hmac.inner, hmac.outer, hmac.inner.buf, hmac.outer.buf
      ensures ok <==> Hmac.Mac(hmac.key, hmac.text)[..10] == auth
    {
      hide CounterBlock, Sha1.Fold, Hmac.Ipad, Hmac.Opad, Hmac.Mac, AtPosition;
      var digest := hmac.Final();
      ok := ConstantTimeEqual(digest[..AUTH_SIZE], auth);
    }
  }
}

// pbkdf2_hmac_sha1 of src/crypto/sha1.c, whose inner iterations reuse one padded
// block, against section 5.2 of RFC 8018 over the HMAC of RFC 2104.
module Pbkdf2 {
  import opened Bytes
  import opened Sha1
  import Sha1State
  import Hmac

  // ---------------------------------------------------------------- specification

  /** The four octets of a block number, most significant first. */
  function Counter(i: nat): (r: seq<byte>)
    ensures |r| == 4
  {
    [Byte(i / 0x100_0000), Byte(i / 0x1_0000), Byte(i / 0x100), Byte(i)]
  }

  lemma CounterValue(i: nat)
    ensures Value(Counter(i)) == i % 0x1_0000_0000
  {
    hide Byte, Value;
    var s := Counter(i);
    Quotients(i);
    LowWords(i);
    PairValue(s, i);
    PairValue(s[..2], i / 0x1_0000);
    NoValue();
  }

  /** U_1 = PRF(P, S || INT(i)), U_j = PRF(P, U_{j-1}). */
  function U(password: seq<byte>, salt: seq<byte>, i: nat, j: nat): (u: seq<byte>)
    requires 1 <= j
    ensures |u| == DIGEST_SIZE
  {
    if j == 1 then Hmac.Mac(password, salt + Counter(i)) else Hmac.Mac(password, U(password, salt, i, j - 1))
  }

  /** F(P, S, c, i) = U_1 xor ... xor U_c. */
  function F(password: seq<byte>, salt: seq<byte>, c: nat, i: nat): (t: seq<byte>)
    requires 1 <= c
    ensures |t| == DIGEST_SIZE
  {
    if c == 1 then U(password, salt, i, 1)
    else XorSeq(F(password, salt, c - 1, i), U(password, salt, i, c))
  }

  /** T_1 || T_2 || ... || T_n */
  function Blocks(password: seq<byte>, salt: seq<byte>, c: nat, n: nat): (r: seq<byte>)
    requires 1 <= c
    ensures |r| == DIGEST_SIZE * n
  {
    if n == 0 then [] else Blocks(password, salt, c, n - 1) + F(password, salt, c, n)
  }

  /** The number of blocks that hold length bytes. */
  function BlocksFor(length: nat): nat {
    (length + DIGEST_SIZE - 1) / DIGEST_SIZE
  }

  /** The derived key: the first length bytes of the blocks. */
  function Key(password: seq<byte>, salt: seq<byte>, c: nat, length: nat): (k: seq<byte>)
    requires 1 <= c
    ensures |k| == length
  {
    Blocks(password, salt, c, BlocksFor(length))[..length]
  }

  lemma ByteLiterals()
    ensures Byte(0) == 0 && Byte(1) == 1 && Byte(2) == 2
  {
  }

  lemma SmallCounters()
    ensures Counter(1) == [0, 0, 0, 1] && Counter(2) == [0, 0, 0, 2]
  {
    hide Byte;
    ByteLiterals();
  }

  lemma BlocksOneAndTwo(password: seq<byte>, salt: seq<byte>, c: nat)
    requires 1 <= c
    ensures Blocks(password, salt, c, 1) == F(password, salt, c, 1)
    ensures Blocks(password, salt, c, 2) == F(password, salt, c, 1) + F(password, salt, c, 2)
  {
    hide F;
    assert Blocks(password, salt, c, 0) == [];
  }

  /** The first keys written out: one iteration, two iterations, and the start of a second block. */
  lemma FirstKeys(password: seq<byte>, salt: seq<byte>)
    ensures var u1 := Hmac.Mac(password, salt + [0, 0, 0, 1]);
            && Key(password, salt, 1, 20) == u1
            && Key(password, salt, 2, 20) == XorSeq(u1, Hmac.Mac(password, u1))
            && Key(password, salt, 1, 30) == u1 + Hmac.Mac(password, salt + [0, 0, 0, 2])[..10]
  {
    hide Hmac.Mac, Counter;
    SmallCounters();
    BlocksOneAndTwo(password, salt, 1);
    BlocksOneAndTwo(password, salt, 2);
    assert BlocksFor(20) == 1 && BlocksFor(30) == 2;
    assert F(password, salt, 2, 1) == XorSeq(F(password, salt, 1, 1), U(password, salt, 1, 2));
    assert U(password, salt, 1, 2) == Hmac.Mac(password, U(password, salt, 1, 1));
  }

  // ---------------------------------------------------------------- the reused block

  /** What follows a digest in the second block of an HMAC hash: its padding and the length of both. */
  function BlockTail(): (r: seq<byte>)
    ensures |r| == BLOCK_SIZE - DIGEST_SIZE
  {
    [0x80] + Zeroes(35) + Be64((BLOCK_SIZE + DIGEST_SIZE) * 8)
  }

  /** A key pad and a digest, padded, are two blocks: the pad, and the digest with the fixed tail. */
  lemma PaddedDigest(pad: seq<byte>, digest: seq<byte>)
    requires |pad| == BLOCK_SIZE && |digest| == DIGEST_SIZE
    ensures Pad(pad + digest) == pad + (digest + BlockTail())
  {
    hide Be64;
    assert ZeroCount(BLOCK_SIZE + DIGEST_SIZE) == 35;
  }

  /** Hashing a digest behind a key pad takes one compression from the state after the pad. */
  lemma DigestAfterPad(pad: seq<byte>, digest: seq<byte>)
    requires |pad| == BLOCK_SIZE && |digest| == DIGEST_SIZE
    ensures Digest(pad + digest) == Output(Compress(Fold(INITIAL, pad), digest + BlockTail()))
  {
    hide Compress, Fold, BlockTail, Pad, Output;
    PaddedDigest(pad, digest);
    FoldConcat(INITIAL, pad, digest + BlockTail());
    FoldOne(Fold(INITIAL, pad), digest + BlockTail());
  }

  /** A seed's two chains have taken in one pad each. */
  lemma SeedChains(seed: Hmac.State)
    requires seed.Valid() && seed.text == []
    ensures seed.inner.h == Fold(INITIAL, Hmac.Ipad(seed.key)) && |Hmac.Ipad(seed.key)| == BLOCK_SIZE
    ensures seed.outer.h == Fold(INITIAL, Hmac.Opad(seed.key)) && |Hmac.Opad(seed.key)| == BLOCK_SIZE
  {
    hide Fold, Hmac.Ipad, Hmac.Opad;
    assert Hmac.Ipad(seed.key) + [] == Hmac.Ipad(seed.key);
  }

  /** hmac_sha1_digest20: replaces the digest at the start of the block by its MAC under the seed's key. */
  method Digest20(seed: Hmac.State, block: array<byte>, ghost digest: seq<byte>)
    requires seed.Valid() && seed.text == []
    requires block.Length == BLOCK_SIZE && block != seed.inner.buf && block != seed.outer.buf
    requires |digest| == DIGEST_SIZE && block[..] == digest + BlockTail()
    modifies block
    ensures block[..] == Hmac.Mac(seed.key, digest) + BlockTail()
  {
    hide Compress, Fold, BlockTail, Output, Digest, Hmac.Ipad, Hmac.Opad, Hmac.State.Valid;
    ghost var ipad, opad := Hmac.Ipad(seed.key), Hmac.Opad(seed.key);
    SeedChains(seed);
    DigestAfterPad(ipad, digest);
    var h := Compress(seed.inner.h, block[..]);
    var middle := Output(h);
    Store(block, 0, middle);
    assert block[..] == middle + BlockTail();
    DigestAfterPad(opad, middle);
    h := Compress(seed.outer.h, block[..]);
    Store(block, 0, Output(h));
    assert block[..] == Output(h) + BlockTail();
  }

  // ---------------------------------------------------------------- pbkdf2_hmac_sha1

  /** A full HMAC of the salt and the block number, on a copy of the seed. */
  method FirstDigest(seed: Hmac.State, salt: seq<byte>, block: nat) returns (digest: seq<byte>)
    requires seed.Valid() && seed.text == []
    ensures digest == U(seed.key, salt, block, 1)
  {
    hide Fold, Hmac.Mac, Hmac.Ipad, Hmac.Opad, Counter, Sha1State.State.Valid;
    var hmac := new Hmac.State.Copy(seed);
    hmac.Update(salt);
    hmac.Update(Counter(block));
    assert [] + salt + Counter(block) == salt + Counter(block);
    digest := hmac.Final();
  }

  /** The loop over iterations for one output block: U_2, U_3, ... in place, and their sum in t. */
  method OneBlock(seed: Hmac.State, u: array<byte>, iterations: nat, ghost salt: seq<byte>, ghost block: nat)
    returns (t: seq<byte>)
    requires seed.Valid() && seed.text == [] && iterations >= 1
    requires u.Length == BLOCK_SIZE && u != seed.inner.buf && u != seed.outer.buf
    requires u[..DIGEST_SIZE] == U(seed.key, salt, block, 1)
    requires iterations > 1 ==> u[DIGEST_SIZE..] == BlockTail()
    modifies u
    ensures t == F(seed.key, salt, iterations, block)
    ensures iterations > 1 ==> u[DIGEST_SIZE..] == BlockTail()
  {
    hide Fold, Hmac.Mac, Hmac.Ipad, Hmac.Opad, BlockTail, XorSeq;
    t := u[..DIGEST_SIZE];
    var iter := 1;
    while iter < iterations
      invariant 1 <= iter <= iterations
      invariant u[..DIGEST_SIZE] == U(seed.key, salt, block, iter) && t == F(seed.key, salt, iter, block)
      invariant iterations > 1 ==> u[DIGEST_SIZE..] == BlockTail()
    {
      ghost var digest := u[..DIGEST_SIZE];
      assert u[..] == digest + BlockTail();
      Digest20(seed, u, digest);
      assert u[..DIGEST_SIZE] == Hmac.Mac(seed.key, digest);
      t := XorSeq(t, u[..DIGEST_SIZE]);
      iter := iter + 1;
    }
  }

  /** The constant end of the block that all iterations after the first reuse. */
  method PrepareTail(u: array<byte>)
    requires u.Length == BLOCK_SIZE
    modifies u
    ensures u[DIGEST_SIZE..] == BlockTail()
  {
    hide Be64;
    Store(u, DIGEST_SIZE, Zeroes(BLOCK_SIZE - DIGEST_SIZE));
    ghost var cleared := u[..];
    assert cleared[DIGEST_SIZE + 1..] == Zeroes(BLOCK_SIZE - DIGEST_SIZE)[1..] == Zeroes(43);
    Store(u, DIGEST_SIZE, [0x80]);
    ghost var marked := u[..];
    assert marked[DIGEST_SIZE..] == [0x80] + Zeroes(43);
    assert marked[DIGEST_SIZE..BLOCK_SIZE - 8] == [0x80] + Zeroes(35);
    Store(u, BLOCK_SIZE - 8, Be64((BLOCK_SIZE + DIGEST_SIZE) * 8));
    assert u[DIGEST_SIZE..] == marked[DIGEST_SIZE..BLOCK_SIZE - 8] + Be64((BLOCK_SIZE + DIGEST_SIZE) * 8);
  }

  lemma NextBlock(password: seq<byte>, salt: seq<byte>, c: nat, k: nat, n: nat)
    requires 1 <= c && n <= DIGEST_SIZE
    ensures Blocks(password, salt, c, k + 1)[..DIGEST_SIZE * k + n]
         == Blocks(password, salt, c, k) + F(password, salt, c, k + 1)[..n]
  {
    hide F;
  }

  /** One turn of the outer loop: block number `block` of the derived key. */
  method ComputeBlock(seed: Hmac.State, u: array<byte>, salt: seq<byte>, iterations: nat, block: nat)
    returns (t: seq<byte>)
    requires seed.Valid() && seed.text == [] && iterations >= 1
    requires u.Length == BLOCK_SIZE && u != seed.inner.buf && u != seed.outer.buf
    requires iterations > 1 ==> u[DIGEST_SIZE..] == BlockTail()
    modifies u
    ensures t == F(seed.key, salt, iterations, block)
    ensures iterations > 1 ==> u[DIGEST_SIZE..] == BlockTail()
  {
    hide Fold, U, F, BlockTail, Hmac.Ipad, Hmac.Opad;
    var digest := FirstDigest(seed, salt, block);
    ghost var tail := u[DIGEST_SIZE..];
    Store(u, 0, digest);
    assert u[..DIGEST_SIZE] == digest && u[DIGEST_SIZE..] == tail;
    t := OneBlock(seed, u, iterations, salt, block);
  }

  /** How far the output is filled after some blocks. */
  function Filled(blocks: nat, length: nat): nat {
    if DIGEST_SIZE * blocks <= length then DIGEST_SIZE * blocks else length
  }

  lemma AllFilled(blocks: nat, length: nat)
    requires Filled(blocks, length) == length && blocks > 0 && DIGEST_SIZE * (blocks - 1) < length
    ensures BlocksFor(length) == blocks
  {
  }

  /** One turn's bytes, placed in the output. */
  method PlaceBlock(out: array<byte>, done: nat, t: seq<byte>, ghost password: seq<byte>, ghost salt: seq<byte>,
                    ghost c: nat, ghost k: nat)
    returns (next: nat)
    requires done < out.Length && done == DIGEST_SIZE * k && c >= 1
    requires out[..done] == Blocks(password, salt, c, k) && t == F(password, salt, c, k + 1)
    modifies out
    ensures next == Filled(k + 1, out.Length) && next <= out.Length
    ensures next <= DIGEST_SIZE * (k + 1) && out[..next] == Blocks(password, salt, c, k + 1)[..next]
  {
    hide F, Blocks;
    var n := if out.Length - done > DIGEST_SIZE then DIGEST_SIZE else out.Length - done;
    Store(out, done, t[..n]);
    NextBlock(password, salt, c, k, n);
    next := done + n;
    assert out[..next] == Blocks(password, salt, c, k) + t[..n];
  }

  lemma NoBlocks(password: seq<byte>, salt: seq<byte>, c: nat)
    requires 1 <= c
    ensures Blocks(password, salt, c, 0) == []
  {
  }

  lemma WholeBlocks(password: seq<byte>, salt: seq<byte>, c: nat, k: nat, done: nat)
    requires 1 <= c && done == DIGEST_SIZE * k
    ensures Blocks(password, salt, c, k)[..done] == Blocks(password, salt, c, k)
  {
  }

  /** The outer loop, once the seed and the reused block are set up. */
  method FillOutput(seed: Hmac.State, u: array<byte>, salt: seq<byte>, iterations: nat, out: array<byte>)
    requires seed.Valid() && seed.text == [] && iterations >= 1
    requires u.Length == BLOCK_SIZE && u != seed.inner.buf && u != seed.outer.buf
    requires out != u && out != seed.inner.buf && out != seed.outer.buf
    requires iterations > 1 ==> u[DIGEST_SIZE..] == BlockTail()
    modifies u, out
    ensures out[..] == Key(seed.key, salt, iterations, out.Length)
  {
    hide F, Blocks, BlockTail, Fold, Hmac.Ipad, Hmac.Opad;
    var done, block := 0, 1;
    NoBlocks(seed.key, salt, iterations);
    while done < out.Length
      invariant 1 <= block && done == Filled(block - 1, out.Length) && done <= out.Length
      invariant block > 1 ==> DIGEST_SIZE * (block - 2) < out.Length
      invariant done <= DIGEST_SIZE * (block - 1) && out[..done] == Blocks(seed.key, salt, iterations, block - 1)[..done]
      invariant seed.Valid() && seed.text == []
      invariant iterations > 1 ==> u[DIGEST_SIZE..] == BlockTail()
    {
      var t := ComputeBlock(seed, u, salt, iterations, block);
      WholeBlocks(seed.key, salt, iterations, block - 1, done);
      done := PlaceBlock(out, done, t, seed.key, salt, iterations, block - 1);
      block := block + 1;
    }
    if out.Length > 0 {
      AllFilled(block - 1, out.Length);
    }
    assert out[..done] == out[..];
  }

  lemma EmptyKey(password: seq<byte>, salt: seq<byte>, c: nat)
    requires 1 <= c
    ensures Key(password, salt, c, 0) == []
  {
  }

  /** pbkdf2_hmac_sha1: fills out with the derived key, for at least one iteration. */
  method Derive(password: seq<byte>, salt: seq<byte>, iterations: nat, out: array<byte>) returns (ok: bool)
    modifies out
    ensures ok <==> iterations > 0
    ensures ok ==> out[..] == Key(password, salt, iterations, out.Length)
    ensures !ok ==> out[..] == old(out[..])
  {
    hide Fold, Hmac.Ipad, Hmac.Opad, BlockTail, Key;
    if iterations == 0 {
      return false;
    }
    ok := true;
    if out.Length == 0 {
      EmptyKey(password, salt, iterations);
      assert out[..] == [];
      return;
    }
    var seed := new Hmac.State(password);
    var u := new byte[BLOCK_SIZE];
    if iterations > 1 {
      PrepareTail(u);
    }
    FillOutput(seed, u, salt, iterations, out);
  }
}

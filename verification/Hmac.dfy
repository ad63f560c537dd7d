// HMAC-SHA-1 (section 2 of RFC 2104) as src/crypto/sha1.c computes it.
module Hmac {
  import opened Bytes
  import opened Sha1
  import opened Sha1State

  // ---------------------------------------------------------------- specification

  /** The key as one block: hashed if too long, then filled up with zeros. */
  function KeyBlock(key: seq<byte>): (r: seq<byte>)
    ensures |r| == BLOCK_SIZE
  {
    if |key| > BLOCK_SIZE then Digest(key) + Zeroes(BLOCK_SIZE - DIGEST_SIZE)
    else key + Zeroes(BLOCK_SIZE - |key|)
  }

  function XorWith(s: seq<byte>, b: byte): (r: seq<byte>)
    ensures |r| == |s|
  {
    seq(|s|, i requires 0 <= i < |s| => s[i] ^ b)
  }

  function Ipad(key: seq<byte>): (r: seq<byte>)
    ensures |r| == BLOCK_SIZE
  {
    XorWith(KeyBlock(key), 0x36)
  }

  function Opad(key: seq<byte>): (r: seq<byte>)
    ensures |r| == BLOCK_SIZE
  {
    XorWith(KeyBlock(key), 0x5C)
  }

  /** A longer key counts as its digest. */
  lemma LongKey(key: seq<byte>)
    requires |key| > 64
    ensures Ipad(key) == Ipad(Digest(key)) && Opad(key) == Opad(Digest(key))
  {
    hide Digest;
  }

  function Mac(key: seq<byte>, text: seq<byte>): (d: seq<byte>)
    ensures |d| == DIGEST_SIZE
  {
    Digest(Opad(key) + Digest(Ipad(key) + text))
  }

  /** The key filled up with zeros, under one byte. */
  function Padded(key: seq<byte>, b: byte): seq<byte>
    requires |key| <= 64
  {
    seq(64, i requires 0 <= i < 64 => if i < |key| then key[i] ^ b else b)
  }

  lemma ZeroXor(b: byte)
    ensures 0 ^ b == b
  {
  }

  /** H((K xor opad) || H((K xor ipad) || text)), for a key that fits a block; a longer key counts as its digest. */
  lemma MacIs(key: seq<byte>, text: seq<byte>)
    ensures |key| <= 64 ==> Mac(key, text) == Digest(Padded(key, 0x5C) + Digest(Padded(key, 0x36) + text))
    ensures |key| > 64 ==> Mac(key, text) == Mac(Digest(key), text)
  {
    hide Digest;
    if |key| <= 64 {
      ZeroXor(0x36);
      ZeroXor(0x5C);
      assert Ipad(key) == Padded(key, 0x36) && Opad(key) == Padded(key, 0x5C);
    } else {
      LongKey(key);
    }
  }

  // ---------------------------------------------------------------- hmac_sha1_t

  /** sha1_init and one sha1_update */
  method Absorbed(data: seq<byte>) returns (s: Sha1State.State)
    ensures fresh(s) && fresh(s.buf) && s.Valid() && s.msg == data
  {
    hide Fold;
    s := new Sha1State.State();
    s.Update(data);
    assert [] + data == data;
  }

  lemma XorBytes(a: byte, b: byte)
    ensures a ^ b == b ^ a
  {
  }

  /** memset(pad, b), then pad[i] ^= key[i]. */
  method PadArray(key: seq<byte>, b: byte) returns (pad: seq<byte>)
    requires |key| <= BLOCK_SIZE
    ensures pad == XorWith(key + Zeroes(BLOCK_SIZE - |key|), b)
  {
    var a := new byte[BLOCK_SIZE](_ => b);
    for i := 0 to |key|
      invariant forall k :: 0 <= k < i ==> a[k] == key[k] ^ b
      invariant forall k :: i <= k < BLOCK_SIZE ==> a[k] == b
    {
      a[i] := a[i] ^ key[i];
      XorBytes(b, key[i]);
    }
    pad := a[..];
    ZeroXor(b);
  }

  lemma PadsOf(key: seq<byte>, k: seq<byte>)
    requires k == if |key| > BLOCK_SIZE then Digest(key) else key
    ensures |k| <= BLOCK_SIZE
    ensures Ipad(key) == XorWith(k + Zeroes(BLOCK_SIZE - |k|), 0x36)
    ensures Opad(key) == XorWith(k + Zeroes(BLOCK_SIZE - |k|), 0x5C)
  {
    hide Digest;
  }

  /** The two pads of hmac_sha1_init. */
  method MakePads(key: seq<byte>) returns (ipad: seq<byte>, opad: seq<byte>)
    ensures ipad == Ipad(key) && opad == Opad(key)
  {
    hide Fold, Digest, Ipad, Opad;
    var k := key;
    if |key| > BLOCK_SIZE {
      var tmp := Absorbed(key);
      k := tmp.Final();
    }
    PadsOf(key, k);
    ipad := PadArray(k, 0x36);
    opad := PadArray(k, 0x5C);
  }

  class State {
    const inner: Sha1State.State
    const outer: Sha1State.State
    ghost var key: seq<byte>
    /** All bytes authenticated so far. */
    ghost var text: seq<byte>

    ghost predicate Separate()
      reads this
    {
      inner != outer && inner.buf != outer.buf
    }

    ghost predicate Valid()
      reads this, inner, outer, inner.buf, outer.buf
    {
      && Separate() && inner.Valid() && outer.Valid()
      && inner.msg == Ipad(key) + text
      && outer.msg == Opad(key)
    }

    /** hmac_sha1_init */
    constructor (key: seq<byte>)
      ensures Valid() && this.key == key && text == []
      ensures fresh(inner) && fresh(outer) && fresh(inner.buf) && fresh(outer.buf)
    {
      hide Fold, Ipad, Opad;
      var ipad, opad := MakePads(key);
      var i := Absorbed(ipad);
      var o := Absorbed(opad);
      inner, outer := i, o;
      this.key, text := key, [];
      assert Ipad(key) + [] == Ipad(key);
    }

    /** A copy of the whole structure. */
    constructor Copy(other: State)
      requires other.Valid()
      ensures Valid() && key == other.key && text == other.text
      ensures fresh(inner) && fresh(outer) && fresh(inner.buf) && fresh(outer.buf)
    {
      hide Fold, Ipad, Opad;
      var i := new Sha1State.State.Copy(other.inner);
      var o := new Sha1State.State.Copy(other.outer);
      inner, outer := i, o;
      key, text := other.key, other.text;
    }

    /** Assignment of the whole structure. */
    method CopyFrom(other: State)
      requires other.Valid() && Separate()
      requires inner.buf.Length == BLOCK_SIZE && outer.buf.Length == BLOCK_SIZE
      requires {this, inner, outer, inner.buf, outer.buf} !! {other, other.inner, other.outer, other.inner.buf, other.outer.buf}
      modifies this, inner, outer, inner.buf, outer.buf
      ensures Valid() && key == other.key && text == other.text
    {
      hide Fold, Ipad, Opad;
      inner.CopyFrom(other.inner);
      outer.CopyFrom(other.outer);
      key, text := other.key, other.text;
    }

    /** hmac_sha1_update */
    method Update(data: seq<byte>)
      requires Valid()
      modifies this, inner, inner.buf
      ensures Valid() && key == old(key) && text == old(text) + data
    {
      hide Fold, Ipad, Opad;
      assert Ipad(key) + (text + data) == Ipad(key) + text + data;
      inner.Update(data);
      text := text + data;
    }

    /** hmac_sha1_final: the MAC of all bytes authenticated. The state is used up. */
    method Final() returns (out: seq<byte>)
      requires Valid()
      modifies inner, outer, inner.buf, outer.buf
      ensures out == Mac(key, text)
    {
      hide Digest;
      var digest := inner.Final();
      outer.Update(digest);
      out := outer.Final();
    }
  }
}

// The authenticated part of extract_deflate_data_descriptor in src/zip.c: a Deflate
// stream of unknown size may end inside a chunk that was already authenticated.
module DeflateAuth {
  import opened Bytes
  import AesCtr
  import Hmac
  import Sha1
  import Sha1State

  /** What the inflater says about the plaintext it has been given so far. */
  datatype Inflate = More | Ended(consumed: nat) | Corrupt

  datatype Result =
    | Checked(consumed: nat, authentic: bool)
    | InflateError
    | SizeError
    | Incomplete

  /** The plaintext is a Deflate stream of e bytes and whatever follows it. */
  ghost predicate EndsAt(inflate: seq<byte> -> Inflate, encrypt: AesCtr.Block -> AesCtr.Block, data: seq<byte>, e: nat) {
    && 0 < e <= |data|
    && forall s: nat :: 0 < s <= |data| ==>
         inflate(AesCtr.XorStream(encrypt, data[..s], 0)) == if s < e then More else Ended(e)
  }

  /** Saves the HMAC, then authenticates and decrypts one chunk of ciphertext. */
  method FeedChunk(aes: AesCtr.State, inbuf: seq<byte>, wide: bool) returns (saved: Hmac.State, plain: seq<byte>)
    requires aes.Valid()
    modifies aes`streamPos, aes`consumed, aes.nonce, aes.stream, aes.hmac, aes.hmac.inner, aes.hmac.inner.buf
    ensures aes.Valid() && aes.consumed == old(aes.consumed) + |inbuf|
    ensures aes.hmac.key == old(aes.hmac.key) && aes.hmac.text == old(aes.hmac.text) + inbuf
    ensures saved.Valid() && saved.key == old(aes.hmac.key) && saved.text == old(aes.hmac.text)
    ensures fresh({saved, saved.inner, saved.outer, saved.inner.buf, saved.outer.buf})
    ensures plain == AesCtr.XorStream(aes.encrypt, inbuf, old(aes.consumed))
  {
    hide AesCtr.XorStream, Hmac.Ipad, Hmac.Opad, Sha1.Fold, AesCtr.CounterBlock, AesCtr.State.AtPosition, Sha1State.State.Valid;
    saved := new Hmac.State.Copy(aes.hmac);
    var plainbuf := new byte[|inbuf|](i requires 0 <= i < |inbuf| => inbuf[i]);
    assert plainbuf[..] == inbuf && plainbuf[..|inbuf|] == inbuf && plainbuf[|inbuf|..] == [];
    aes.Decrypt(plainbuf, |inbuf|, wide);
    plain := plainbuf[..];
  }

  /** Restores the saved HMAC and authenticates only the bytes that were used. */
  method RollBack(hmac: Hmac.State, saved: Hmac.State, used: seq<byte>)
    requires hmac.Valid() && saved.Valid()
    requires {hmac, hmac.inner, hmac.outer, hmac.inner.buf, hmac.outer.buf}
          !! {saved, saved.inner, saved.outer, saved.inner.buf, saved.outer.buf}
    modifies hmac, hmac.inner, hmac.outer, hmac.inner.buf, hmac.outer.buf
    ensures hmac.Valid() && hmac.key == saved.key && hmac.text == saved.text + used
  {
    hide Hmac.Ipad, Hmac.Opad, Sha1.Fold;
    hmac.CopyFrom(saved);
    if |used| > 0 {
      hmac.Update(used);
    } else {
      assert saved.text + used == saved.text;
    }
  }

  lemma PlainNothing(encrypt: AesCtr.Block -> AesCtr.Block, data: seq<byte>)
    ensures AesCtr.XorStream(encrypt, data[..0], 0) == []
  {
  }

  lemma PlainGrows(encrypt: AesCtr.Block -> AesCtr.Block, data: seq<byte>, from: nat, to: nat)
    requires from <= to <= |data|
    ensures data[..to] == data[..from] + data[from..to]
    ensures AesCtr.XorStream(encrypt, data[..to], 0)
         == AesCtr.XorStream(encrypt, data[..from], 0) + AesCtr.XorStream(encrypt, data[from..to], from)
  {
    hide AesCtr.XorStream;
    assert data[..to] == data[..from] + data[from..to];
    AesCtr.XorStreamConcat(encrypt, data[..from], data[from..to], 0);
  }

  lemma PrefixGrows(data: seq<byte>, from: nat, mid: nat, to: nat)
    requires from <= mid <= to <= |data|
    ensures data[..mid] == data[..from] + data[from..to][..mid - from]
  {
  }

  /** After the chunk that ends at s the inflater reports an end that does not lie in that chunk. */
  ghost predicate OutOfRange(inflate: seq<byte> -> Inflate, encrypt: AesCtr.Block -> AesCtr.Block, data: seq<byte>,
                             chunk: Pos, before: nat, s: nat) {
    && before < s <= |data| && s == (if before + chunk < |data| then before + chunk else |data|)
    && var r := inflate(AesCtr.XorStream(encrypt, data[..s], 0));
       r.Ended? && !(before <= r.consumed <= s)
  }

  /** Takes back what was authenticated of the last chunk beyond the end of the stream, if that lies in it. */
  method TakeBack(aes: AesCtr.State, saved: Hmac.State, data: seq<byte>, before: nat, supplied: nat, consumed: nat)
    returns (inRange: bool)
    requires aes.Valid() && before <= supplied <= |data| && aes.hmac.text == data[..supplied]
    requires saved.Valid() && saved.key == aes.hmac.key && saved.text == data[..before]
    requires {aes.hmac, aes.hmac.inner, aes.hmac.outer, aes.hmac.inner.buf, aes.hmac.outer.buf}
          !! {saved, saved.inner, saved.outer, saved.inner.buf, saved.outer.buf}
    modifies aes.hmac, aes.hmac.inner, aes.hmac.outer, aes.hmac.inner.buf, aes.hmac.outer.buf
    ensures aes.Valid() && aes.hmac.key == old(aes.hmac.key)
    ensures inRange <==> before <= consumed <= supplied
    ensures inRange ==> aes.hmac.text == data[..consumed]
  {
    hide Hmac.Ipad, Hmac.Opad, Sha1.Fold, AesCtr.CounterBlock, AesCtr.State.AtPosition, Sha1State.State.Valid;
    inRange := before <= consumed <= supplied;
    if inRange && consumed < supplied {
      PrefixGrows(data, before, consumed, supplied);
      RollBack(aes.hmac, saved, data[before..supplied][..consumed - before]);
    }
  }

  /** What the inflater says of a chunk in terms of where the stream ends. */
  lemma ChunkSays(inflate: seq<byte> -> Inflate, encrypt: AesCtr.Block -> AesCtr.Block, data: seq<byte>, supplied: nat)
    requires 0 < supplied <= |data|
    ensures var r := inflate(AesCtr.XorStream(encrypt, data[..supplied], 0));
            forall e: nat :: EndsAt(inflate, encrypt, data, e) ==> e <= |data| && r == if supplied < e then More else Ended(e)
  {
  }

  lemma EndsBehindNothing(inflate: seq<byte> -> Inflate, encrypt: AesCtr.Block -> AesCtr.Block, data: seq<byte>)
    ensures forall e: nat :: EndsAt(inflate, encrypt, data, e) ==> 0 < e <= |data|
  {
  }

  /** The chunk loop: decrypts, authenticates and inflates chunk by chunk until the stream ends, and then
      takes back what was authenticated beyond its end. What the inflater says of the plaintext so far
      is arbitrary. */
  method FeedChunks(aes: AesCtr.State, data: seq<byte>, chunk: Pos, wide: bool, inflate: seq<byte> -> Inflate)
    returns (r: Inflate, inRange: bool)
    requires aes.Valid() && aes.consumed == 0 && aes.hmac.text == []
    modifies aes`streamPos, aes`consumed, aes.nonce, aes.stream
    modifies aes.hmac, aes.hmac.inner, aes.hmac.outer, aes.hmac.inner.buf, aes.hmac.outer.buf
    ensures aes.Valid() && aes.hmac.key == old(aes.hmac.key)
    ensures r.Ended? && inRange ==>
      && r.consumed <= |data| && aes.hmac.text == data[..r.consumed]
      && exists s: nat :: r.consumed <= s <= |data| && inflate(AesCtr.XorStream(aes.encrypt, data[..s], 0)) == r
    ensures r.More? && data != [] ==> inflate(AesCtr.XorStream(aes.encrypt, data, 0)) == More
    ensures r.Corrupt? ==> exists s: nat :: s <= |data| && inflate(AesCtr.XorStream(aes.encrypt, data[..s], 0)) == Corrupt
    ensures r.Ended? && !inRange ==> exists b: nat, s: nat :: OutOfRange(inflate, aes.encrypt, data, chunk, b, s)
    ensures forall e: nat :: EndsAt(inflate, aes.encrypt, data, e) ==> r == Ended(e) && inRange
  {
    hide AesCtr.XorStream, Hmac.Ipad, Hmac.Opad, Sha1.Fold, AesCtr.CounterBlock, AesCtr.State.AtPosition, Sha1State.State.Valid;
    hide EndsAt;
    EndsBehindNothing(inflate, aes.encrypt, data);
    r, inRange := More, true;
    var supplied := 0;
    var plain: seq<byte> := [];
    PlainNothing(aes.encrypt, data);
    while supplied < |data|
      invariant supplied <= |data| && aes.Valid() && aes.consumed == supplied && r.More?
      invariant supplied > 0 ==> inflate(plain) == More
      invariant aes.hmac.text == data[..supplied] && aes.hmac.key == old(aes.hmac.key)
      invariant plain == AesCtr.XorStream(aes.encrypt, data[..supplied], 0)
      invariant forall e: nat :: EndsAt(inflate, aes.encrypt, data, e) ==> supplied < e
    {
      var n := if |data| - supplied > chunk then chunk else |data| - supplied;
      var before := supplied;
      var inbuf := data[supplied..supplied + n];
      supplied := supplied + n;
      var chunkHmac, more := FeedChunk(aes, inbuf, wide);
      PlainGrows(aes.encrypt, data, before, supplied);
      plain := plain + more;
      r := inflate(plain);
      ChunkSays(inflate, aes.encrypt, data, supplied);
      if r.Ended? {
        inRange := TakeBack(aes, chunkHmac, data, before, supplied, r.consumed);
        assert !inRange ==> OutOfRange(inflate, aes.encrypt, data, chunk, before, supplied);
        return;
      }
      if r.Corrupt? {
        assert inflate(AesCtr.XorStream(aes.encrypt, data[..supplied], 0)) == Corrupt;
        return;
      }
    }
    assert data[..supplied] == data;
  }

  /** What is fed of the bytes behind the encryption header: all but the ten that authenticate the rest when the
      payload is as long as it can be. */
  function Fed(data: seq<byte>): (r: seq<byte>)
    requires AesCtr.AUTH_SIZE <= |data|
    ensures r <= data && |r| + AesCtr.AUTH_SIZE == |data|
  {
    data[..|data| - AesCtr.AUTH_SIZE]
  }

  /** The bytes from the payload's start to the end of the file: the chunk loop over all but the last ten, and the
      check of the ten bytes that follow the consumed payload. */
  method CheckDeflate(aes: AesCtr.State, data: seq<byte>, chunk: Pos, wide: bool, inflate: seq<byte> -> Inflate)
    returns (r: Result)
    requires aes.Valid() && aes.consumed == 0 && aes.hmac.text == []
    modifies aes`streamPos, aes`consumed, aes.nonce, aes.stream
    modifies aes.hmac, aes.hmac.inner, aes.hmac.outer, aes.hmac.inner.buf, aes.hmac.outer.buf
    ensures |data| < 10 ==> r == SizeError
    ensures r.Checked? ==>
      && r.consumed + 10 <= |data|
      && r.authentic == (Hmac.Mac(old(aes.hmac.key), data[..r.consumed])[..10] == data[r.consumed..r.consumed + 10])
      && exists s: nat :: r.consumed <= s <= |data| - 10
           && inflate(AesCtr.XorStream(aes.encrypt, Fed(data)[..s], 0)) == Ended(r.consumed)
    ensures r.InflateError? ==>
      |data| >= 10 && exists s: nat :: s <= |data| - 10 && inflate(AesCtr.XorStream(aes.encrypt, Fed(data)[..s], 0)) == Corrupt
    ensures r.Incomplete? ==>
      |data| >= 10 && (|data| > 10 ==> inflate(AesCtr.XorStream(aes.encrypt, Fed(data), 0)) == More)
    ensures r.SizeError? && |data| >= 10 ==> exists b: nat, s: nat :: OutOfRange(inflate, aes.encrypt, Fed(data), chunk, b, s)
    ensures forall e: nat :: 10 <= |data| && EndsAt(inflate, aes.encrypt, Fed(data), e) ==>
      r.Checked? && r.consumed == e
  {
    hide AesCtr.XorStream, Hmac.Ipad, Hmac.Opad, Sha1.Fold, Hmac.Mac, AesCtr.CounterBlock, Fed;
    if |data| < AesCtr.AUTH_SIZE {
      return SizeError;
    }
    var status, inRange := FeedChunks(aes, Fed(data), chunk, wide, inflate);
    if status.Corrupt? {
      return InflateError;
    }
    if status.More? {
      return Incomplete;
    }
    if !inRange {
      return SizeError;
    }
    assert Fed(data)[..status.consumed] == data[..status.consumed];
    var ok := aes.Authenticate(data[status.consumed..status.consumed + AesCtr.AUTH_SIZE]);
    r := Checked(status.consumed, ok);
  }
}

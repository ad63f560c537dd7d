// sha1_t of src/crypto/sha1.c: the buffered, updatable digest state.
module Sha1State {
  import opened Bytes
  import opened Sha1

  const WRAP: nat := 0x1_0000_0000_0000_0000

  lemma WholeAndPending(length: nat)
    ensures length % BLOCK_SIZE <= length && (length - length % BLOCK_SIZE) % BLOCK_SIZE == 0
  {
  }

  lemma PendingOf(whole: nat, pending: nat)
    requires whole % BLOCK_SIZE == 0 && pending < BLOCK_SIZE
    ensures (whole + pending) % BLOCK_SIZE == pending
  {
  }

  /** A message is its whole blocks, which alone are folded, and its pending bytes. */
  lemma SplitMessage(msg: seq<byte>, pending: seq<byte>) returns (start: seq<byte>)
    requires |pending| == |msg| % BLOCK_SIZE && pending == msg[|msg| - |pending|..]
    ensures |start| % BLOCK_SIZE == 0 && msg == start + pending && start == msg[..|msg| - |pending|]
    ensures Fold(INITIAL, start) == Fold(INITIAL, msg)
  {
    hide Compress, Fold;
    WholeAndPending(|msg|);
    start := msg[..|msg| - |pending|];
    FoldRemainder(INITIAL, start, pending);
  }

  lemma JoinMessage(start: seq<byte>, pending: seq<byte>, all: seq<byte>)
    requires |start| % BLOCK_SIZE == 0 && |pending| < BLOCK_SIZE && all == start + pending
    ensures |pending| == |all| % BLOCK_SIZE && pending == all[|all| - |pending|..]
    ensures Fold(INITIAL, start) == Fold(INITIAL, all)
  {
    hide Compress, Fold;
    PendingOf(|start|, |pending|);
    FoldRemainder(INITIAL, start, pending);
  }

  lemma LengthAdds(a: nat, b: nat)
    ensures (a % WRAP + b) % WRAP == (a + b) % WRAP
  {
  }

  /** The last bytes of a message with their padding: the length closes their block, or one more. */
  ghost function Closed(start: seq<byte>, open: seq<byte>, bits: nat): seq<byte>
    requires |open| <= BLOCK_SIZE
  {
    if |open| > 56 then start + (open + Zeroes(BLOCK_SIZE - |open|)) + (Zeroes(56) + Be64(bits))
    else start + (open + Zeroes(56 - |open|) + Be64(bits))
  }

  lemma LengthParts(length: nat)
    ensures 8 * length == 8 * (length % WRAP) + WRAP * (8 * (length / WRAP))
  {
  }

  lemma LengthField(length: nat)
    ensures Be64(8 * length) == Be64(length % WRAP * 8)
  {
    hide Be64;
    Be64Wraps(8 * (length % WRAP), 8 * (length / WRAP));
    LengthParts(length);
  }

  lemma ZeroCountIs(length: nat)
    ensures var n := length % BLOCK_SIZE + 1;
            ZeroCount(length) == if n > 56 then BLOCK_SIZE - n + 56 else 56 - n
  {
  }

  lemma ZeroesAdd(m: nat, n: nat)
    ensures Zeroes(m + n) == Zeroes(m) + Zeroes(n)
  {
  }

  /** The padded message in terms of its pending bytes. */
  lemma PadIs(msg: seq<byte>, pending: seq<byte>, len: nat)
    requires |pending| == |msg| % BLOCK_SIZE && pending == msg[|msg| - |pending|..] && len == |msg| % WRAP
    ensures Pad(msg) == Closed(msg[..|msg| - |pending|], pending + [0x80], len * 8)
  {
    hide Be64, Zeroes, ZeroCount;
    LengthField(|msg|);
    ZeroCountIs(|msg|);
    assert msg == msg[..|msg| - |pending|] + pending;
    var n := |pending| + 1;
    if n > 56 {
      ZeroesAdd(BLOCK_SIZE - n, 56);
    }
  }

  class State {
    var h: Chain
    var len: nat
    const buf: array<byte>
    var bufLen: nat
    /** All bytes taken in so far. */
    ghost var msg: seq<byte>

    /** The chain is the fold of the whole blocks of m, and the buffer holds the bytes behind them. */
    ghost predicate Holds(m: seq<byte>)
      reads this`h, this`bufLen, buf
    {
      && buf.Length == BLOCK_SIZE
      && bufLen == |m| % BLOCK_SIZE
      && h == Fold(INITIAL, m)
      && buf[..bufLen] == m[|m| - bufLen..]
    }

    /** The state is the fold of the whole blocks, the pending bytes and the total length. */
    ghost predicate Valid()
      reads this, buf
    {
      len == |msg| % WRAP && Holds(msg)
    }

    /** sha1_init */
    constructor ()
      ensures Valid() && msg == [] && fresh(buf)
    {
      h := INITIAL;
      len := 0;
      buf := new byte[BLOCK_SIZE];
      bufLen := 0;
      msg := [];
    }

    /** A copy of the whole structure. */
    constructor Copy(other: State)
      requires other.Valid()
      ensures Valid() && msg == other.msg && fresh(buf)
    {
      h, len, bufLen := other.h, other.len, other.bufLen;
      buf := new byte[BLOCK_SIZE](i requires 0 <= i < BLOCK_SIZE && other.buf.Length == BLOCK_SIZE reads other, other.buf => other.buf[i]);
      msg := other.msg;
      new;
      assert buf[..] == other.buf[..];
      assert buf[..bufLen] == buf[..][..bufLen] == other.buf[..bufLen];
    }

    /** Assignment of the whole structure. */
    method CopyFrom(other: State)
      requires other.Valid() && buf.Length == BLOCK_SIZE && buf != other.buf && this != other
      modifies this, buf
      ensures Valid() && msg == other.msg
    {
      Store(buf, 0, other.buf[..]);
      h, len, bufLen := other.h, other.len, other.bufLen;
      msg := other.msg;
      assert buf[..] == other.buf[..];
      assert buf[..bufLen] == other.buf[..][..bufLen];
    }

    /** The buffer is full: one block goes into the chain. */
    method Drain(ghost whole: seq<byte>)
      requires buf.Length == BLOCK_SIZE && bufLen == BLOCK_SIZE
      requires |whole| % BLOCK_SIZE == 0 && h == Fold(INITIAL, whole)
      modifies this`h, this`bufLen
      ensures bufLen == 0 && h == Fold(INITIAL, whole + buf[..])
    {
      hide Compress, Fold;
      FoldConcat(INITIAL, whole, buf[..]);
      FoldOne(h, buf[..]);
      h := Compress(h, buf[..]);
      bufLen := 0;
    }

    /** Whole blocks are folded; the buffer and the rest of the input are still to come. */
    ghost predicate Between(start: seq<byte>, rest: seq<byte>, all: seq<byte>)
      reads this, buf
    {
      && buf.Length == BLOCK_SIZE && bufLen < BLOCK_SIZE && (bufLen == 0 || rest == [])
      && |start| % BLOCK_SIZE == 0 && h == Fold(INITIAL, start)
      && all == start + buf[..bufLen] + rest
    }

    /** The part of sha1_update that completes a started block. */
    method FillBuffer(data: seq<byte>, ghost start: seq<byte>) returns (rest: seq<byte>, ghost folded: seq<byte>)
      requires buf.Length == BLOCK_SIZE && bufLen < BLOCK_SIZE
      requires |start| % BLOCK_SIZE == 0 && h == Fold(INITIAL, start)
      modifies this`h, this`bufLen, buf
      ensures Between(folded, rest, start + old(buf[..bufLen]) + data)
    {
      hide Compress, Fold;
      ghost var pending := buf[..bufLen];
      rest, folded := data, start;
      if bufLen > 0 {
        var n := if BLOCK_SIZE - bufLen > |data| then |data| else BLOCK_SIZE - bufLen;
        Store(buf, bufLen, data[..n]);
        bufLen := bufLen + n;
        rest := data[n..];
        assert buf[..bufLen] == pending + data[..n];
        assert data == data[..n] + data[n..];
        if bufLen == BLOCK_SIZE {
          assert buf[..bufLen] == buf[..];
          Drain(start);
          folded := start + buf[..];
        }
      }
    }

    /** The loop of sha1_update over whole blocks of the input. */
    method FoldBlocks(data: seq<byte>, ghost before: seq<byte>, ghost all: seq<byte>)
      returns (rest: seq<byte>, ghost start: seq<byte>)
      requires Between(before, data, all)
      modifies this`h
      ensures Between(start, rest, all) && |rest| < BLOCK_SIZE
    {
      hide Compress, Fold;
      rest, start := data, before;
      while |rest| >= BLOCK_SIZE
        invariant Between(start, rest, all)
      {
        FoldConcat(INITIAL, start, rest[..BLOCK_SIZE]);
        FoldOne(h, rest[..BLOCK_SIZE]);
        assert rest == rest[..BLOCK_SIZE] + rest[BLOCK_SIZE..];
        h := Compress(h, rest[..BLOCK_SIZE]);
        start := start + rest[..BLOCK_SIZE];
        rest := rest[BLOCK_SIZE..];
      }
    }

    /** The end of sha1_update: what is left of the input becomes the pending bytes. */
    method KeepRest(rest: seq<byte>, ghost start: seq<byte>, ghost all: seq<byte>)
      requires Between(start, rest, all) && |rest| < BLOCK_SIZE
      modifies this`bufLen, buf
      ensures Holds(all)
    {
      hide Compress, Fold;
      ghost var pending := if |rest| > 0 then rest else buf[..bufLen];
      assert all == start + pending;
      if |rest| > 0 {
        Store(buf, 0, rest);
        bufLen := |rest|;
      }
      assert buf[..bufLen] == pending;
      JoinMessage(start, pending, all);
    }

    /** The 64-bit count of all bytes taken in. */
    method CountBytes(n: nat)
      requires len == |msg| % WRAP
      modifies this`len
      ensures len == (|msg| + n) % WRAP
    {
      LengthAdds(|msg|, n);
      len := (len + n) % WRAP;
    }

    /** The bytes go into the chain and the buffer. */
    method TakeIn(data: seq<byte>, ghost before: seq<byte>)
      requires Holds(before)
      modifies this`h, this`bufLen, buf
      ensures Holds(before + data)
    {
      hide Compress, Fold, Between;
      ghost var all := before + data;
      ghost var start := SplitMessage(before, buf[..bufLen]);
      var rest;
      rest, start := FillBuffer(data, start);
      rest, start := FoldBlocks(rest, start, all);
      KeepRest(rest, start, all);
    }

    /** sha1_update */
    method Update(data: seq<byte>)
      requires Valid()
      modifies this, buf
      ensures Valid() && msg == old(msg) + data
    {
      hide Holds;
      CountBytes(|data|);
      TakeIn(data, msg);
      msg := msg + data;
    }

    /** No room for the length: zeros fill the block, and another one follows. */
    method CloseFull(ghost start: seq<byte>, ghost open: seq<byte>)
      requires buf.Length == BLOCK_SIZE && 56 < bufLen <= BLOCK_SIZE && buf[..bufLen] == open
      requires |start| % BLOCK_SIZE == 0 && h == Fold(INITIAL, start)
      modifies this`h, this`bufLen, buf
      ensures bufLen == 0 && h == Fold(INITIAL, start + (open + Zeroes(BLOCK_SIZE - |open|)))
    {
      hide Compress, Fold, Zeroes;
      Store(buf, bufLen, Zeroes(BLOCK_SIZE - bufLen));
      assert buf[..] == open + Zeroes(BLOCK_SIZE - |open|);
      bufLen := BLOCK_SIZE;
      Drain(start);
    }

    /** The last block: zeros up to the length field, and the length. */
    method CloseLast(bits: nat, ghost start: seq<byte>, ghost open: seq<byte>)
      requires buf.Length == BLOCK_SIZE && bufLen <= 56 && buf[..bufLen] == open
      requires |start| % BLOCK_SIZE == 0 && h == Fold(INITIAL, start)
      modifies this`h, this`bufLen, buf
      ensures h == Fold(INITIAL, start + (open + Zeroes(56 - |open|) + Be64(bits)))
    {
      hide Compress, Fold, Zeroes, Be64;
      ghost var zeros := Zeroes(56 - |open|);
      Store(buf, bufLen, Zeroes(56 - bufLen));
      assert buf[..56] == open + zeros;
      Store(buf, 56, Be64(bits));
      assert buf[..] == open + zeros + Be64(bits);
      bufLen := BLOCK_SIZE;
      Drain(start);
    }

    /** The rest of sha1_final: the buffer is closed by one block or by two. */
    method CloseBuffer(bits: nat, ghost start: seq<byte>, ghost open: seq<byte>)
      requires buf.Length == BLOCK_SIZE && bufLen <= BLOCK_SIZE && buf[..bufLen] == open
      requires |start| % BLOCK_SIZE == 0 && h == Fold(INITIAL, start)
      modifies this`h, this`bufLen, buf
      ensures h == Fold(INITIAL, Closed(start, open, bits))
    {
      hide Compress, Fold, Be64, Zeroes;
      if bufLen > 56 {
        CloseFull(start, open);
        CloseLast(bits, start + (open + Zeroes(BLOCK_SIZE - |open|)), []);
        assert [] + Zeroes(56) == Zeroes(56);
      } else {
        CloseLast(bits, start, open);
      }
    }

    /** The bit that sha1_final adds first. */
    method AddBit(ghost pending: seq<byte>)
      requires buf.Length == BLOCK_SIZE && bufLen < BLOCK_SIZE && buf[..bufLen] == pending
      modifies this`bufLen, buf
      ensures bufLen == |pending| + 1 && buf[..bufLen] == pending + [0x80]
    {
      Store(buf, bufLen, [0x80]);
      bufLen := bufLen + 1;
    }

    /** sha1_final: the digest of all bytes taken in. The state is used up. */
    method Final() returns (out: seq<byte>)
      requires Valid()
      modifies this, buf
      ensures out == Digest(msg) && msg == old(msg)
    {
      hide Compress, Fold, Pad, Output, Closed;
      var bits := len * 8;
      ghost var pending := buf[..bufLen];
      ghost var start := SplitMessage(msg, pending);
      PadIs(msg, pending, len);
      AddBit(pending);
      CloseBuffer(bits, start, pending + [0x80]);
      out := Output(h);
    }
  }
}

// The CRC-32 of section 4.4.7 of APPNOTE.TXT as a bit-serial register, and the
// algebra over GF(2) on which the fast forms in src/zip.c rest.
module Crc32 {
  import opened Bytes

  const POLYNOMIAL: bv32 := 0xEDB88320

  /** Addition in GF(2)^32. Proofs about whole registers hide its bits and use the laws below. */
  function Xor(a: bv32, b: bv32): bv32 {
    a ^ b
  }

  /** The complement of a register. */
  function Not(a: bv32): bv32 {
    !a
  }

  // ---------------------------------------------------------------- specification

  /** One shift of the reflected register, with no input bit. */
  function Step(c: bv32): bv32 {
    if c & 1 == 1 then (c >> 1) ^ POLYNOMIAL else c >> 1
  }

  /** The low n bits of b, least significant first, shifted into the register one by one. */
  function FeedBits(c: bv32, b: byte, n: nat): bv32
    decreases n
  {
    if n == 0 then c else FeedBits(Step(Xor(c, (b & 1) as bv32)), b >> 1, n - 1)
  }

  /** The register after the bits of all bytes of s. */
  function Raw(c: bv32, s: seq<byte>): bv32
    decreases |s|
  {
    if |s| == 0 then c else Raw(FeedBits(c, s[0], 8), s[1..])
  }

  /** The CRC-32 continued over s: the register is kept complemented between calls. */
  function Update(crc: bv32, s: seq<byte>): bv32 {
    Not(Raw(Not(crc), s))
  }

  /** The CRC-32 of a whole byte string. */
  function Crc(s: seq<byte>): bv32 {
    Update(0, s)
  }

  // ---------------------------------------------------------------- laws of Xor

  lemma XorAssociates(a: bv32, b: bv32, c: bv32)
    ensures Xor(a, Xor(b, c)) == Xor(Xor(a, b), c)
  {
    assert Xor(a, b ^ c) == Xor(a ^ b, c);
  }

  lemma XorCommutes(a: bv32, b: bv32)
    ensures Xor(a, b) == Xor(b, a)
  {
  }

  lemma XorCancels(a: bv32, b: bv32)
    ensures Xor(Xor(a, b), b) == a
    ensures Xor(a, Xor(a, b)) == b
  {
  }

  lemma XorZero(a: bv32)
    ensures Xor(a, a) == 0
    ensures Xor(a, 0) == a
    ensures Xor(0, a) == a
  {
  }

  /** (a + b) + (c + d) == (a + c) + (b + d) */
  lemma XorSwaps(a: bv32, b: bv32, c: bv32, d: bv32)
    ensures Xor(Xor(a, b), Xor(c, d)) == Xor(Xor(a, c), Xor(b, d))
  {
    assert Xor(a ^ b, c ^ d) == Xor(a ^ c, b ^ d);
  }

  // ---------------------------------------------------------------- the register shift

  predicate Odd(c: bv32) {
    c & 1 == 1
  }

  function Half(c: bv32): bv32 {
    c >> 1
  }

  lemma StepByParity(c: bv32)
    ensures Step(c) == if Odd(c) then Xor(Half(c), POLYNOMIAL) else Half(c)
  {
  }

  lemma HalfLinear(a: bv32, b: bv32)
    ensures Half(Xor(a, b)) == Xor(Half(a), Half(b))
  {
  }

  /** A sum is odd when exactly one of its terms is. */
  lemma OddXor(a: bv32, b: bv32)
    ensures Odd(Xor(a, b)) <==> (Odd(a) != Odd(b))
  {
  }

  /** The register shift is linear over GF(2). */
  lemma StepLinear(a: bv32, b: bv32)
    ensures Step(Xor(a, b)) == Xor(Step(a), Step(b))
  {
    hide Xor, Step, Half, Odd;
    StepByParity(a);
    StepByParity(b);
    StepByParity(Xor(a, b));
    HalfLinear(a, b);
    OddXor(a, b);
    var x, y := Half(a), Half(b);
    XorSwaps(x, POLYNOMIAL, y, POLYNOMIAL);
    XorZero(POLYNOMIAL);
    XorZero(Xor(x, y));
    XorAssociates(x, y, POLYNOMIAL);
    XorAssociates(x, POLYNOMIAL, y);
    XorCommutes(y, POLYNOMIAL);
  }

  /** No two registers shift to the same register. */
  lemma StepInjective(a: bv32, b: bv32)
    requires Step(a) == Step(b)
    ensures a == b
  {
  }

  lemma StepEven(c: bv32)
    requires c & 1 == 0
    ensures Step(c) == c >> 1
  {
  }

  /** The register after n shifts. */
  function Shift(c: bv32, n: nat): bv32 {
    if n == 0 then c else Step(Shift(c, n - 1))
  }

  lemma {:induction false} ShiftLinear(a: bv32, b: bv32, n: nat)
    ensures Shift(Xor(a, b), n) == Xor(Shift(a, n), Shift(b, n))
  {
    hide Xor, Step;
    if n > 0 {
      ShiftLinear(a, b, n - 1);
      StepLinear(Shift(a, n - 1), Shift(b, n - 1));
    }
  }

  lemma {:induction false} ShiftAdd(c: bv32, m: nat, n: nat)
    ensures Shift(Shift(c, m), n) == Shift(c, m + n)
  {
    hide Xor, Step;
    if n > 0 {
      ShiftAdd(c, m, n - 1);
    }
  }

  lemma {:induction false} ShiftInjective(a: bv32, b: bv32, n: nat)
    requires Shift(a, n) == Shift(b, n)
    ensures a == b
  {
    hide Xor, Step;
    if n > 0 {
      StepInjective(Shift(a, n - 1), Shift(b, n - 1));
      ShiftInjective(a, b, n - 1);
    }
  }

  lemma {:induction false} ShiftOfZero(n: nat)
    ensures Shift(0, n) == 0
  {
    if n > 0 {
      ShiftOfZero(n - 1);
    }
  }

  /** An even register moves down; the remaining n shifts follow. */
  lemma ShiftEven(c: bv32, n: nat)
    requires c & 1 == 0
    ensures Shift(c, n + 1) == Shift(Half(c), n)
  {
  }

  /** Step and Shift commute. */
  lemma ShiftOfStep(c: bv32, n: nat)
    ensures Shift(Step(c), n) == Step(Shift(c, n))
  {
  }

  lemma ShiftNone(c: bv32)
    ensures Shift(c, 0) == c
  {
  }

  lemma HalvesAreShifts(c: bv32)
    ensures Half(c) == c >> 1 && Half(c >> 1) == c >> 2 && Half(c >> 2) == c >> 3 && Half(c >> 3) == c >> 4
    ensures Half(c >> 4) == c >> 5 && Half(c >> 5) == c >> 6 && Half(c >> 6) == c >> 7 && Half(c >> 7) == c >> 8
  {
  }

  lemma LowByteBits(c: bv32)
    requires c & 0xFF == 0
    ensures c & 1 == 0 && (c >> 1) & 1 == 0 && (c >> 2) & 1 == 0 && (c >> 3) & 1 == 0
    ensures (c >> 4) & 1 == 0 && (c >> 5) & 1 == 0 && (c >> 6) & 1 == 0 && (c >> 7) & 1 == 0
  {
  }

  lemma EightHalves(c: bv32)
    requires c & 0xFF == 0
    ensures c & 1 == 0 && Half(c) & 1 == 0
    ensures Half(Half(c)) & 1 == 0 && Half(Half(Half(c))) & 1 == 0
    ensures Half(Half(Half(Half(c)))) & 1 == 0 && Half(Half(Half(Half(Half(c))))) & 1 == 0
    ensures Half(Half(Half(Half(Half(Half(c)))))) & 1 == 0
    ensures Half(Half(Half(Half(Half(Half(Half(c))))))) & 1 == 0
    ensures Half(Half(Half(Half(Half(Half(Half(Half(c)))))))) == c >> 8
  {
    hide Half;
    HalvesAreShifts(c);
    LowByteBits(c);
  }

  /** A register whose low byte is clear only moves down in eight shifts. */
  lemma ShiftMovesDown(c: bv32)
    requires c & 0xFF == 0
    ensures Shift(c, 8) == c >> 8
  {
    hide Step, Half;
    var c1 := Half(c);
    var c2 := Half(c1);
    var c3 := Half(c2);
    var c4 := Half(c3);
    var c5 := Half(c4);
    var c6 := Half(c5);
    var c7 := Half(c6);
    EightHalves(c);
    ShiftEven(c, 7); ShiftEven(c1, 6); ShiftEven(c2, 5); ShiftEven(c3, 4);
    ShiftEven(c4, 3); ShiftEven(c5, 2); ShiftEven(c6, 1); ShiftEven(c7, 0);
  }

  // ---------------------------------------------------------------- bytes

  lemma SplitLowBit(b: byte)
    ensures b as bv32 == Xor((b & 1) as bv32, ((b >> 1) as bv32) << 1)
    ensures (((b >> 1) as bv32) << 1) & 1 == 0
  {
  }

  /** Input bits still to come can be mixed in ahead of time, one position higher. */
  lemma LaterBits(c: bv32, b: byte)
    ensures Step(Xor(c, b as bv32)) == Xor(Step(Xor(c, (b & 1) as bv32)), (b >> 1) as bv32)
  {
    var bit, rest := (b & 1) as bv32, (b >> 1) as bv32;
    SplitLowBit(b);
    XorAssociates(c, bit, rest << 1);
    StepLinear(Xor(c, bit), rest << 1);
    StepEven(rest << 1);
    assert (rest << 1) >> 1 == rest;
  }

  /** What is left of b after n bits have gone. */
  function DropBits(b: byte, n: nat): byte
    decreases n
  {
    if n == 0 then b else DropBits(b >> 1, n - 1)
  }

  lemma {:induction false} FeedBitsIsShift(c: bv32, b: byte, n: nat)
    ensures FeedBits(c, b, n) == Xor(Shift(Xor(c, b as bv32), n), DropBits(b, n) as bv32)
    decreases n
  {
    hide Xor, Step;
    if n == 0 {
      XorCancels(c, b as bv32);
    } else {
      var next := Step(Xor(c, (b & 1) as bv32));
      FeedBitsIsShift(next, b >> 1, n - 1);
      LaterBits(c, b);
      ShiftAdd(Xor(c, b as bv32), 1, n - 1);
      assert Shift(Xor(c, b as bv32), 1) == Step(Shift(Xor(c, b as bv32), 0));
    }
  }

  lemma DropAllBits(b: byte)
    ensures DropBits(b, 8) == 0
  {
  }

  /** Shifting in the eight bits of b is mixing b into the register and then shifting eight times. */
  lemma FeedByte(c: bv32, b: byte)
    ensures FeedBits(c, b, 8) == Shift(Xor(c, b as bv32), 8)
  {
    hide Xor, Step;
    FeedBitsIsShift(c, b, 8);
    DropAllBits(b);
    XorZero(Shift(Xor(c, b as bv32), 8));
  }

  // ---------------------------------------------------------------- byte strings

  /** A CRC continued over b after a is the CRC over a + b. */
  lemma {:induction false} RawConcat(c: bv32, a: seq<byte>, b: seq<byte>)
    ensures Raw(c, a + b) == Raw(Raw(c, a), b)
    decreases |a|
  {
    hide Xor, Step, FeedBits;
    if |a| == 0 {
      assert a + b == b;
    } else {
      assert (a + b)[1..] == a[1..] + b;
      RawConcat(FeedBits(c, a[0], 8), a[1..], b);
    }
  }

  lemma NotNot(a: bv32)
    ensures Not(Not(a)) == a
  {
  }

  /** update(update(c, a), b) == update(c, a ++ b), for every split. */
  lemma UpdateConcat(crc: bv32, a: seq<byte>, b: seq<byte>)
    ensures Update(Update(crc, a), b) == Update(crc, a + b)
  {
    hide Not, Raw;
    RawConcat(Not(crc), a, b);
    NotNot(Raw(Not(crc), a));
  }

  /** A difference d in the starting register travels through s as through |s| zero bytes. */
  lemma {:induction false} RawLinear(c: bv32, d: bv32, s: seq<byte>)
    ensures Raw(Xor(c, d), s) == Xor(Raw(c, s), Shift(d, 8 * |s|))
    decreases |s|
  {
    hide Xor, Step, FeedBits;
    if |s| > 0 {
      var b := s[0] as bv32;
      FeedByte(Xor(c, d), s[0]);
      FeedByte(c, s[0]);
      XorSwaps(c, d, b, 0);
      XorZero(b);
      XorZero(d);
      ShiftLinear(Xor(c, b), d, 8);
      RawLinear(FeedBits(c, s[0], 8), Shift(d, 8), s[1..]);
      ShiftAdd(d, 8, 8 * |s[1..]|);
    }
  }

  /** The state after s is the state of s alone plus the starting register shifted through |s| bytes. */
  lemma RawFromZero(c: bv32, s: seq<byte>)
    ensures Raw(c, s) == Xor(Raw(0, s), Shift(c, 8 * |s|))
  {
    hide Xor, Step, FeedBits;
    XorZero(c);
    RawLinear(0, c, s);
  }

  /** Two different starting CRCs never meet over the same bytes. */
  lemma UpdateInjective(c: bv32, d: bv32, s: seq<byte>)
    requires Update(c, s) == Update(d, s)
    ensures c == d
  {
    hide Not, Xor, Step, FeedBits, Raw;
    RawFromZero(Not(c), s);
    RawFromZero(Not(d), s);
    XorCancels(Raw(0, s), Shift(Not(c), 8 * |s|));
    XorCancels(Raw(0, s), Shift(Not(d), 8 * |s|));
    NotNot(Raw(Not(c), s));
    NotNot(Raw(Not(d), s));
    ShiftInjective(Not(c), Not(d), 8 * |s|);
    NotNot(c);
    NotNot(d);
  }

  lemma RawOfEmpty(c: bv32, s: seq<byte>)
    requires s == []
    ensures Raw(c, s) == c
  {
  }

  lemma RawOfOne(c: bv32, b: byte)
    ensures Raw(c, [b]) == FeedBits(c, b, 8)
  {
  }

  lemma CrcOfEmpty()
    ensures Crc([]) == 0
  {
  }
}

// skip_data_descriptor of src/zip.c: reads past a data descriptor whose four
// forms, signed or not and 32-bit or 64-bit, nothing in the file tells apart for
// certain (section 4.3.9 of APPNOTE.TXT).
module DataDescriptor {
  import opened Bytes
  import opened Signatures

  /** The CRC and the sizes that a descriptor holds. */
  datatype Values = Values(crc: nat, compressed: nat, uncompressed: nat)

  datatype Skip = Skipped(pos: nat, crc: nat) | FileError | CrcError | SizeError

  // ---------------------------------------------------------------- specification

  /** The size of the CRC and both sizes. */
  function Width(zip64: bool): (n: nat)
    ensures n >= 12
  {
    if zip64 then 20 else 12
  }

  function ValuesAt(file: seq<byte>, o: nat, zip64: bool): Values
    requires o + Width(zip64) <= |file|
  {
    if zip64 then Values(Le32(file, o), Le64(file, o + 4), Le64(file, o + 12))
    else Values(Le32(file, o), Le32(file, o + 4), Le32(file, o + 8))
  }

  /** What is read agrees with what the entry says; the CRC counts only if it is to be checked. */
  predicate Agree(read: Values, entry: Values, checkCrc: bool) {
    && (checkCrc ==> read.crc == entry.crc)
    && read.compressed == entry.compressed && read.uncompressed == entry.uncompressed
  }

  /** The size of the descriptor at pos, if the signature there is one. */
  function Length(file: seq<byte>, pos: nat, zip64: bool): nat
    requires pos + 4 <= |file|
  {
    Width(zip64) + if Le32(file, pos) == SIGN_DATA_DESC then 4 else 0
  }

  /** The outcome for the descriptor at pos: the signed reading goes first where there is a signature,
      and both readings are tried only once the signed one is wholly in the file. */
  function Outcome(file: seq<byte>, pos: nat, zip64: bool, checkCrc: bool, entry: Values): Skip {
    if pos + 4 > |file| then FileError
    else
      var signed := Le32(file, pos) == SIGN_DATA_DESC;
      var start := if signed then pos + 4 else pos;
      if start + Width(zip64) > |file| then FileError
      else
        var first := ValuesAt(file, start, zip64);
        if Agree(first, entry, checkCrc) then Skipped(start + Width(zip64), first.crc)
        else if signed && Agree(ValuesAt(file, pos, zip64), entry, checkCrc) then Skipped(pos + Width(zip64), SIGN_DATA_DESC)
        else if checkCrc && first.crc != entry.crc then CrcError
        else SizeError
  }

  // ---------------------------------------------------------------- the reader

  /** Parses the CRC and the sizes at offset p of the buffer. */
  method ParseValues(desc: seq<byte>, p: nat, zip64: bool) returns (crc: nat, compressed: nat, uncompressed: nat)
    requires p + Width(zip64) <= |desc|
    ensures Values(crc, compressed, uncompressed) == ValuesAt(desc, p, zip64)
  {
    crc := Le32(desc, p);
    if zip64 {
      compressed, uncompressed := Le64(desc, p + 4), Le64(desc, p + 12);
    } else {
      compressed, uncompressed := Le32(desc, p + 4), Le32(desc, p + 8);
    }
  }

  lemma ValuesOfSlice(file: seq<byte>, pos: nat, n: nat, p: nat, zip64: bool)
    requires pos + n <= |file| && p + Width(zip64) <= n
    ensures ValuesAt(file[pos..pos + n], p, zip64) == ValuesAt(file, pos + p, zip64)
  {
    hide Le32, Le64;
    LeOfSlice(file, pos, n, p);
    LeOfSlice(file, pos, n, p + 4);
    LeOfSlice(file, pos, n, p + 8);
    LeOfSlice(file, pos, n, p + 12);
  }

  lemma CrcOfValues(file: seq<byte>, o: nat, zip64: bool)
    requires o + Width(zip64) <= |file|
    ensures ValuesAt(file, o, zip64).crc == Le32(file, o)
  {
  }

  lemma JoinSlices(s: seq<byte>, a: nat, b: nat, c: nat)
    requires a <= b <= c <= |s|
    ensures s[a..b] + s[b..c] == s[a..c]
  {
  }

  /** A file opened for reading: read_exact advances the position, a seek moves it. */
  class Reader {
    const file: seq<byte>
    var pos: nat

    constructor (file: seq<byte>, pos: nat)
      ensures this.file == file && this.pos == pos
    {
      this.file, this.pos := file, pos;
    }

    method ReadExact(n: nat) returns (r: Option<seq<byte>>)
      modifies this
      ensures r == if old(pos) + n <= |file| then Some(file[old(pos)..old(pos) + n]) else None
      ensures r.Some? ==> pos == old(pos) + n
    {
      if pos + n > |file| {
        pos := if pos < |file| then |file| else pos;
        return None;
      }
      r := Some(file[pos..pos + n]);
      pos := pos + n;
    }

    /** The two reads: four bytes, and as many more as the signature calls for. */
    method ReadDescriptor(zip64: bool) returns (r: Option<seq<byte>>)
      modifies this
      ensures r.Some? <==> old(pos) + 4 <= |file| && old(pos) + Length(file, old(pos), zip64) <= |file|
      ensures r.Some? ==> pos == old(pos) + Length(file, old(pos), zip64) && r.value == file[old(pos)..pos]
    {
      hide Le32, Width;
      ghost var start := pos;
      var head := ReadExact(4);
      if head.None? {
        return None;
      }
      LeOfSlice(file, start, 4, 0);
      var tail := ReadExact(if Le32(head.value, 0) == SIGN_DATA_DESC then Width(zip64) else Width(zip64) - 4);
      if tail.None? {
        return None;
      }
      JoinSlices(file, start, start + 4, pos);
      r := Some(head.value + tail.value);
    }

    method SkipDataDescriptor(zip64: bool, checkCrc: bool, entry: Values) returns (r: Skip)
      modifies this
      ensures r == Outcome(file, old(pos), zip64, checkCrc, entry)
      ensures r.Skipped? ==> pos == r.pos
    {
      hide Le32, Le64, ValuesAt, Width;
      ghost var start := pos;
      var read := ReadDescriptor(zip64);
      if read.None? {
        return FileError;
      }
      var desc := read.value;
      LeOfSlice(file, start, |desc|, 0);
      var signed := Le32(desc, 0) == SIGN_DATA_DESC;
      var p := if signed then 4 else 0;
      ValuesOfSlice(file, start, |desc|, p, zip64);
      var crc, compressed, uncompressed := ParseValues(desc, p, zip64);
      if checkCrc && crc != entry.crc {
        r := CrcError;
      } else if compressed != entry.compressed || uncompressed != entry.uncompressed {
        r := SizeError;
      } else {
        return Skipped(pos, crc);
      }
      if signed {
        ValuesOfSlice(file, start, |desc|, 0, zip64);
        CrcOfValues(file, start, zip64);
        crc, compressed, uncompressed := ParseValues(desc, 0, zip64);
        if (!checkCrc || crc == entry.crc) && compressed == entry.compressed && uncompressed == entry.uncompressed {
          pos := pos - 4;
          return Skipped(pos, crc);
        }
      }
    }
  }

  // ---------------------------------------------------------------- the outcomes

  /** A descriptor is skipped exactly if it is all there and a reading of it agrees with the entry, sizes and, if
      it counts, CRC: the one behind the signature, or else the one that takes the signature for the CRC. The
      position moves to the end of that reading. */
  lemma WhenSkipped(file: seq<byte>, pos: nat, zip64: bool, checkCrc: bool, entry: Values)
    requires pos + 4 <= |file| && pos + Length(file, pos, zip64) <= |file|
    ensures var r := Outcome(file, pos, zip64, checkCrc, entry);
            var end := pos + Length(file, pos, zip64);
            var first, second := ValuesAt(file, end - Width(zip64), zip64), ValuesAt(file, pos, zip64);
            && (r == Skipped(end, first.crc) <==>
                  first.compressed == entry.compressed && first.uncompressed == entry.uncompressed && (checkCrc ==> first.crc == entry.crc))
            && (r.Skipped? && r != Skipped(end, first.crc) ==>
                  && end == pos + Width(zip64) + 4 && r == Skipped(end - 4, second.crc)
                  && second.compressed == entry.compressed && second.uncompressed == entry.uncompressed
                  && (checkCrc ==> second.crc == entry.crc))
  {
    hide Le32, Le64;
    CrcOfValues(file, pos, zip64);
  }

  /** A descriptor that is not skipped is an error: of the file if it is cut off, of the CRC if that counts and is
      wrong behind the signature, of the sizes otherwise; and then neither reading agrees. */
  lemma WhenRefused(file: seq<byte>, pos: nat, zip64: bool, checkCrc: bool, entry: Values)
    ensures var r := Outcome(file, pos, zip64, checkCrc, entry);
            && (r.FileError? <==> pos + 4 > |file| || pos + Length(file, pos, zip64) > |file|)
            && (!r.FileError? ==>
                  var end := pos + Length(file, pos, zip64);
                  var first, second := ValuesAt(file, end - Width(zip64), zip64), ValuesAt(file, pos, zip64);
                  && (r.CrcError? ==> checkCrc && first.crc != entry.crc)
                  && (r.SizeError? ==>
                        && (first.compressed != entry.compressed || first.uncompressed != entry.uncompressed)
                        && (checkCrc ==> first.crc == entry.crc))
                  && (!r.Skipped? && end == pos + Width(zip64) + 4 ==>
                        || second.compressed != entry.compressed || second.uncompressed != entry.uncompressed
                        || (checkCrc && second.crc != entry.crc)))
  {
    hide Le32, Le64;
  }

  // ---------------------------------------------------------------- round trip

  /** The values fit the widths that the descriptor gives them. */
  predicate Fits(v: Values, zip64: bool) {
    && v.crc < 0x1_0000_0000
    && v.compressed < (if zip64 then 0x1_0000_0000_0000_0000 else 0x1_0000_0000)
    && v.uncompressed < (if zip64 then 0x1_0000_0000_0000_0000 else 0x1_0000_0000)
  }

  function StoredValues(v: Values, zip64: bool): (s: seq<byte>)
    ensures |s| == Width(zip64)
  {
    var k := if zip64 then 8 else 4;
    LittleEndian(v.crc, 4) + LittleEndian(v.compressed, k) + LittleEndian(v.uncompressed, k)
  }

  function Stored(v: Values, zip64: bool, signed: bool): seq<byte> {
    (if signed then LittleEndian(SIGN_DATA_DESC, 4) else []) + StoredValues(v, zip64)
  }

  lemma ValuesOfStored(a: seq<byte>, v: Values, zip64: bool, b: seq<byte>)
    requires Fits(v, zip64)
    ensures |a + StoredValues(v, zip64) + b| == |a| + Width(zip64) + |b|
    ensures ValuesAt(a + StoredValues(v, zip64) + b, |a|, zip64) == v
  {
    hide Le32, Le64, LittleEndian;
    var k := if zip64 then 8 else 4;
    var x, y, z := LittleEndian(v.crc, 4), LittleEndian(v.compressed, k), LittleEndian(v.uncompressed, k);
    Le32Of(v.crc, 0);
    if zip64 {
      Le64Of(v.compressed);
      Le64Of(v.uncompressed);
    } else {
      Le32Of(v.compressed, 0);
      Le32Of(v.uncompressed, 0);
    }
    LeOfMiddle(a, x, y + z + b, 0);
    LeOfMiddle(a + x, y, z + b, 0);
    LeOfMiddle(a + x + y, z, b, 0);
    var all := a + StoredValues(v, zip64) + b;
    assert all == a + x + (y + z + b) == a + x + y + (z + b) == a + x + y + z + b;
  }

  /** A signed descriptor, of either width, is always skipped exactly. */
  lemma SignedRoundTrip(before: seq<byte>, v: Values, zip64: bool, after: seq<byte>, checkCrc: bool, entry: Values)
    requires Fits(v, zip64) && Agree(v, entry, checkCrc)
    ensures Outcome(before + Stored(v, zip64, true) + after, |before|, zip64, checkCrc, entry)
         == Skipped(|before| + |Stored(v, zip64, true)|, v.crc)
  {
    hide Le32, Le64, LittleEndian, StoredValues;
    var sign := LittleEndian(SIGN_DATA_DESC, 4);
    Le32Of(SIGN_DATA_DESC, 0);
    ValuesOfStored(before + sign, v, zip64, after);
    LeOfMiddle(before, sign, StoredValues(v, zip64) + after, 0);
    var file := before + Stored(v, zip64, true) + after;
    assert file == before + sign + StoredValues(v, zip64) + after;
    assert file == before + sign + (StoredValues(v, zip64) + after);
  }

  /** An unsigned descriptor whose CRC is not the signature is always skipped exactly. When its CRC is the
      signature, it is skipped exactly if and only if four more bytes follow and the signed reading,
      which takes the sizes for the CRC and so on, does not agree with the entry as well. */
  lemma UnsignedRoundTrip(before: seq<byte>, v: Values, zip64: bool, after: seq<byte>, checkCrc: bool, entry: Values)
    requires Fits(v, zip64) && Agree(v, entry, checkCrc)
    ensures var file := before + Stored(v, zip64, false) + after;
            Outcome(file, |before|, zip64, checkCrc, entry) == Skipped(|before| + |Stored(v, zip64, false)|, v.crc)
            <==> (v.crc != SIGN_DATA_DESC
                  || (|after| >= 4 && !Agree(ValuesAt(file, |before| + 4, zip64), entry, checkCrc)))
  {
    hide Le32, Le64, LittleEndian, StoredValues, ValuesAt, Agree;
    var file := before + Stored(v, zip64, false) + after;
    assert file == before + StoredValues(v, zip64) + after;
    ValuesOfStored(before, v, zip64, after);
    CrcOfValues(file, |before|, zip64);
  }

  /** The signed reading of an unsigned 32-bit descriptor agrees only for a payload whose sizes coincide with
      the four bytes that follow it and, if the CRC counts, with the CRC too. */
  lemma BothReadingsAgree(file: seq<byte>, pos: nat, checkCrc: bool, entry: Values)
    requires pos + 16 <= |file| && Agree(ValuesAt(file, pos, false), entry, checkCrc)
    ensures Agree(ValuesAt(file, pos + 4, false), entry, checkCrc)
       <==> entry.compressed == entry.uncompressed == Le32(file, pos + 12) && (checkCrc ==> entry.crc == entry.compressed)
  {
  }

  /** Where the CRC is not checked this does happen: for a payload of 0x02014B50 bytes whose CRC is the descriptor's
      signature, an unsigned descriptor directly before the central directory is skipped four bytes too far. */
  lemma SkipsTooFar()
    ensures var v := Values(SIGN_DATA_DESC, SIGN_CENTRAL_DIR, SIGN_CENTRAL_DIR);
            && Fits(v, false) && Agree(v, v, true)
            && |Stored(v, false, false)| == 12
            && Outcome(Stored(v, false, false) + LittleEndian(SIGN_CENTRAL_DIR, 4), 0, false, false, v) == Skipped(16, SIGN_CENTRAL_DIR)
  {
    hide Le32, LittleEndian, StoredValues;
    var v := Values(SIGN_DATA_DESC, SIGN_CENTRAL_DIR, SIGN_CENTRAL_DIR);
    var descriptor, next := StoredValues(v, false), LittleEndian(SIGN_CENTRAL_DIR, 4);
    ValuesOfStored([], v, false, next);
    LeOfMiddle(descriptor, next, [], 0);
    Le32Of(SIGN_CENTRAL_DIR, 0);
    assert Stored(v, false, false) + next == [] + descriptor + next == descriptor + next + [];
  }
}

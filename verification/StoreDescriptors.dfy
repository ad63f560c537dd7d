// Data descriptors that end a stored entry of unknown size (section 4.3.9 of
// APPNOTE.TXT), and the two probes of src/zip.c that recognise them in the file.
module StoreDescriptors {
  import opened Bytes
  import opened Crc32
  import opened Signatures

  // ---------------------------------------------------------------- specification

  /** Four bytes as a 32-bit word, least significant first. */
  function WordOf(b0: byte, b1: byte, b2: byte, b3: byte): bv32 {
    (b0 as bv32) | ((b1 as bv32) << 8) | ((b2 as bv32) << 16) | ((b3 as bv32) << 24)
  }

  /** le32 as a word: the CRC at offset i. */
  function CrcField(s: seq<byte>, i: nat): bv32
    requires i + 4 <= |s|
  {
    WordOf(s[i], s[i + 1], s[i + 2], s[i + 3])
  }

  /** CRC and both sizes, then a record signature, at offset o of s. */
  predicate FieldsAt(s: seq<byte>, o: nat, dataLen: nat, dataCrc: bv32) {
    && o + 16 <= |s|
    && CrcField(s, o) == dataCrc
    && Le32(s, o + 4) == dataLen
    && Le32(s, o + 8) == dataLen
    && IsRecordSignature(Le32(s, o + 12))
  }

  /** A signed descriptor for dataLen bytes of payload, followed by a record, at offset o of s. */
  predicate SignedFieldsAt(s: seq<byte>, o: nat, dataLen: nat, dataCrc: bv32) {
    && o + 4 <= |s|
    && Le32(s, o) == SIGN_DATA_DESC
    && FieldsAt(s, o + 4, dataLen, dataCrc)
  }

  /** The first g bytes of the stream v are a payload closed by a signed descriptor at g. */
  predicate SignedAt(v: seq<byte>, g: nat) {
    g <= |v| && SignedFieldsAt(v, g, g, Crc(v[..g]))
  }

  /** The first e bytes of the stream v are a payload closed by an unsigned descriptor at e. */
  predicate UnsignedAt(v: seq<byte>, e: nat) {
    e <= |v| && FieldsAt(v, e, e, Crc(v[..e]))
  }

  // ---------------------------------------------------------------- probes

  /** What a probe found, and where it left the file position. */
  datatype Probe = Skipped(pos: nat) | Matched(pos: nat)

  /** match_signed_store_descriptor, for 32-bit descriptors. */
  method MatchSigned(file: seq<byte>, pos: nat, offset: nat, dataLen: nat, dataCrc: bv32) returns (r: Probe)
    ensures r.Matched? <==> SignedFieldsAt(file, offset, dataLen, dataCrc)
    ensures r.Matched? ==> r.pos == offset + 16
  {
    hide WordOf;
    if offset > |file| || 16 > |file| - offset || |file| - offset - 16 < 4 {
      return Skipped(pos);
    }
    if Le32(file, offset) != SIGN_DATA_DESC {
      return Skipped(offset + 20);
    }
    if CrcField(file, offset + 4) != dataCrc
       || Le32(file, offset + 8) != dataLen
       || Le32(file, offset + 12) != dataLen
       || !IsRecordSignature(Le32(file, offset + 16)) {
      return Skipped(offset + 20);
    }
    r := Matched(offset + 16);
  }

  /** match_unsigned_store_descriptor, for 32-bit descriptors. */
  method MatchUnsigned(file: seq<byte>, pos: nat, offset: nat, dataLen: nat, dataCrc: bv32) returns (r: Probe)
    ensures r.Matched? <==> FieldsAt(file, offset, dataLen, dataCrc)
    ensures r.Matched? ==> r.pos == offset + 12
  {
    hide WordOf;
    if offset > |file| || 12 > |file| - offset || |file| - offset - 12 < 4 {
      return Skipped(pos);
    }
    if CrcField(file, offset) != dataCrc
       || Le32(file, offset + 4) != dataLen
       || Le32(file, offset + 8) != dataLen
       || !IsRecordSignature(Le32(file, offset + 12)) {
      return Skipped(offset + 16);
    }
    r := Matched(offset + 12);
  }

  // ---------------------------------------------------------------- the same bytes elsewhere

  /** The four bytes at i of s are the four bytes at j of t. */
  lemma Le32Same(s: seq<byte>, i: nat, t: seq<byte>, j: nat)
    requires i + 4 <= |s| && j + 4 <= |t|
    requires s[i..i + 4] == t[j..j + 4]
    ensures Le32(s, i) == Le32(t, j) && CrcField(s, i) == CrcField(t, j)
  {
    hide WordOf;
    var a, b := s[i..i + 4], t[j..j + 4];
    assert s[i] == a[0] && s[i + 1] == a[1] && s[i + 2] == a[2] && s[i + 3] == a[3];
    assert t[j] == b[0] && t[j + 1] == b[1] && t[j + 2] == b[2] && t[j + 3] == b[3];
  }

  lemma SuffixSlices(s: seq<byte>, i: nat, t: seq<byte>, j: nat, a: nat, b: nat)
    requires i <= |s| && j <= |t| && s[i..] == t[j..]
    requires a <= b && i + b <= |s|
    ensures |s| - i == |t| - j && s[i + a..i + b] == t[j + a..j + b]
  {
  }

  /** Two views of the same trailing bytes hold the same descriptors. */
  lemma FieldsSame(s: seq<byte>, i: nat, t: seq<byte>, j: nat, dataLen: nat, dataCrc: bv32)
    requires i <= |s| && j <= |t| && s[i..] == t[j..]
    ensures FieldsAt(s, i, dataLen, dataCrc) == FieldsAt(t, j, dataLen, dataCrc)
  {
    hide Le32, CrcField, IsRecordSignature;
    if i + 16 <= |s| {
      SuffixSlices(s, i, t, j, 0, 4);
      SuffixSlices(s, i, t, j, 4, 8);
      SuffixSlices(s, i, t, j, 8, 12);
      SuffixSlices(s, i, t, j, 12, 16);
      Le32Same(s, i, t, j);
      Le32Same(s, i + 4, t, j + 4);
      Le32Same(s, i + 8, t, j + 8);
      Le32Same(s, i + 12, t, j + 12);
    }
  }

  lemma SignedFieldsSame(s: seq<byte>, i: nat, t: seq<byte>, j: nat, dataLen: nat, dataCrc: bv32)
    requires i <= |s| && j <= |t| && s[i..] == t[j..]
    ensures SignedFieldsAt(s, i, dataLen, dataCrc) == SignedFieldsAt(t, j, dataLen, dataCrc)
  {
    hide Le32, FieldsAt;
    assert |s[i..]| == |t[j..]|;
    if i + 4 <= |s| {
      SuffixSlices(s, i, t, j, 0, 4);
      Le32Same(s, i, t, j);
      assert s[i + 4..] == s[i..][4..];
      assert t[j + 4..] == t[j..][4..];
      FieldsSame(s, i + 4, t, j + 4, dataLen, dataCrc);
    }
  }
}

// Data descriptors written out in bytes (section 4.3.9 of APPNOTE.TXT): exactly where
// the scan for the end of a stored entry may stop, and what it publishes.
module DescriptorBytes {
  import opened Bytes
  import opened Crc32
  import opened Signatures
  import opened StoreDescriptors
  import opened StoreScanner

  // ---------------------------------------------------------------- fields as bytes

  /** A CRC as it is stored. */
  function CrcBytes(c: bv32): (s: seq<byte>)
    ensures |s| == 4
  {
    [(c & 0xFF) as bv8, ((c >> 8) & 0xFF) as bv8, ((c >> 16) & 0xFF) as bv8, ((c >> 24) & 0xFF) as bv8]
  }

  lemma WordOfBytes(c: bv32)
    ensures WordOf((c & 0xFF) as bv8, ((c >> 8) & 0xFF) as bv8, ((c >> 16) & 0xFF) as bv8, ((c >> 24) & 0xFF) as bv8) == c
  {
  }

  lemma LowByteOfWord(b0: byte, b1: byte, b2: byte, b3: byte)
    ensures (WordOf(b0, b1, b2, b3) & 0xFF) as bv8 == b0 && ((WordOf(b0, b1, b2, b3) >> 8) & 0xFF) as bv8 == b1
    ensures ((WordOf(b0, b1, b2, b3) >> 16) & 0xFF) as bv8 == b2 && ((WordOf(b0, b1, b2, b3) >> 24) & 0xFF) as bv8 == b3
  {
  }

  lemma BytesOfWord(b0: byte, b1: byte, b2: byte, b3: byte)
    ensures CrcBytes(WordOf(b0, b1, b2, b3)) == [b0, b1, b2, b3]
  {
    LowByteOfWord(b0, b1, b2, b3);
  }

  lemma CrcFieldIs(s: seq<byte>, i: nat, c: bv32)
    requires i + 4 <= |s|
    ensures CrcField(s, i) == c <==> s[i..i + 4] == CrcBytes(c)
  {
    hide WordOf;
    BytesOfWord(s[i], s[i + 1], s[i + 2], s[i + 3]);
    WordOfBytes(c);
    assert s[i..i + 4] == [s[i], s[i + 1], s[i + 2], s[i + 3]];
  }

  /** The first bytes of a local header, a central header, an end record, a ZIP64 end record and its locator. */
  predicate StartsRecord(s: seq<byte>) {
    || s == [0x50, 0x4B, 3, 4] || s == [0x50, 0x4B, 1, 2] || s == [0x50, 0x4B, 5, 6]
    || s == [0x50, 0x4B, 6, 6] || s == [0x50, 0x4B, 6, 7]
  }

  lemma BytesOfNumber(s: seq<byte>, n: nat)
    requires |s| == 4 && Le32(s, 0) == n
    ensures LittleEndian(n, 4) == s
  {
    hide Le32, LittleEndian;
    FourBytes(s, 0);
    assert s[0..4] == s;
  }

  lemma SignatureBytes()
    ensures LittleEndian(SIGN_LOCAL_FILE, 4) == [0x50, 0x4B, 3, 4]
    ensures LittleEndian(SIGN_CENTRAL_DIR, 4) == [0x50, 0x4B, 1, 2]
    ensures LittleEndian(SIGN_END_CENTRAL, 4) == [0x50, 0x4B, 5, 6]
    ensures LittleEndian(SIGN_ZIP64_END, 4) == [0x50, 0x4B, 6, 6]
    ensures LittleEndian(SIGN_ZIP64_LOCATOR, 4) == [0x50, 0x4B, 6, 7]
    ensures LittleEndian(SIGN_DATA_DESC, 4) == [0x50, 0x4B, 7, 8]
  {
    hide LittleEndian;
    BytesOfNumber([0x50, 0x4B, 3, 4], SIGN_LOCAL_FILE);
    BytesOfNumber([0x50, 0x4B, 1, 2], SIGN_CENTRAL_DIR);
    BytesOfNumber([0x50, 0x4B, 5, 6], SIGN_END_CENTRAL);
    BytesOfNumber([0x50, 0x4B, 6, 6], SIGN_ZIP64_END);
    BytesOfNumber([0x50, 0x4B, 6, 7], SIGN_ZIP64_LOCATOR);
    BytesOfNumber([0x50, 0x4B, 7, 8], SIGN_DATA_DESC);
  }

  lemma RecordSignatureIs(s: seq<byte>, i: nat)
    requires i + 4 <= |s|
    ensures IsRecordSignature(Le32(s, i)) <==> StartsRecord(s[i..i + 4])
  {
    hide Le32, LittleEndian;
    SignatureBytes();
    Le32Is(s, i, SIGN_LOCAL_FILE);
    Le32Is(s, i, SIGN_CENTRAL_DIR);
    Le32Is(s, i, SIGN_END_CENTRAL);
    Le32Is(s, i, SIGN_ZIP64_END);
    Le32Is(s, i, SIGN_ZIP64_LOCATOR);
  }

  // ---------------------------------------------------------------- descriptors as bytes

  /** The 32-bit descriptor of a stored payload. */
  function Descriptor(payload: seq<byte>, signed: bool): (s: seq<byte>)
    ensures |s| == if signed then 16 else 12
  {
    (if signed then [0x50, 0x4B, 7, 8] else [])
    + CrcBytes(Crc(payload)) + LittleEndian(|payload|, 4) + LittleEndian(|payload|, 4)
  }

  lemma ThreeParts(s: seq<byte>, o: nat, a: seq<byte>, b: seq<byte>, c: seq<byte>)
    requires o + 12 <= |s| && |a| == |b| == |c| == 4
    ensures s[o..o + 12] == a + b + c <==> s[o..o + 4] == a && s[o + 4..o + 8] == b && s[o + 8..o + 12] == c
  {
    var t := s[o..o + 12];
    SliceOfSlice(s, o, 12, 0, 4);
    SliceOfSlice(s, o, 12, 4, 8);
    SliceOfSlice(s, o, 12, 8, 12);
    assert t == t[0..4] + t[4..8] + t[8..12];
    assert (a + b + c)[..4] == a && (a + b + c)[4..8] == b && (a + b + c)[8..] == c;
  }

  lemma FieldsInBytes(s: seq<byte>, o: nat, payload: seq<byte>)
    ensures FieldsAt(s, o, |payload|, Crc(payload))
       <==> && o + 16 <= |s| && |payload| < 0x1_0000_0000
            && s[o..o + 12] == Descriptor(payload, false) && StartsRecord(s[o + 12..o + 16])
  {
    hide Le32, LittleEndian, Crc, CrcField, CrcBytes, IsRecordSignature, StartsRecord;
    if o + 16 <= |s| && |payload| < 0x1_0000_0000 {
      CrcFieldIs(s, o, Crc(payload));
      Le32Is(s, o + 4, |payload|);
      Le32Is(s, o + 8, |payload|);
      RecordSignatureIs(s, o + 12);
      ThreeParts(s, o, CrcBytes(Crc(payload)), LittleEndian(|payload|, 4), LittleEndian(|payload|, 4));
      assert Descriptor(payload, false) == CrcBytes(Crc(payload)) + LittleEndian(|payload|, 4) + LittleEndian(|payload|, 4);
    }
  }

  lemma TwoParts(a: seq<byte>, b: seq<byte>, c: seq<byte>, d: seq<byte>)
    requires |a| == |c|
    ensures a + b == c + d <==> a == c && b == d
  {
    assert (a + b)[..|a|] == a && (a + b)[|a|..] == b;
    assert (c + d)[..|c|] == c && (c + d)[|c|..] == d;
  }

  /** The scan sees a signed descriptor at g exactly where the sixteen bytes of one for the g bytes before it
      and the first four of a record are. */
  lemma SignedInBytes(v: seq<byte>, g: nat)
    ensures SignedAt(v, g)
       <==> && g + 20 <= |v| && g < 0x1_0000_0000
            && v[g..g + 16] == Descriptor(v[..g], true) && StartsRecord(v[g + 16..g + 20])
  {
    hide Le32, Crc, FieldsAt, StartsRecord, LittleEndian, CrcBytes;
    if g + 20 <= |v| {
      SignatureBytes();
      Le32Is(v, g, SIGN_DATA_DESC);
      FieldsInBytes(v, g + 4, v[..g]);
      var sign: seq<byte> := [0x50, 0x4B, 7, 8];
      assert Descriptor(v[..g], true) == sign + Descriptor(v[..g], false);
      assert v[g..g + 16] == v[g..g + 4] + v[g + 4..g + 16];
      TwoParts(v[g..g + 4], v[g + 4..g + 16], sign, Descriptor(v[..g], false));
    } else {
      FieldsInBytes(v, g + 4, if g <= |v| then v[..g] else []);
    }
  }

  /** The same for an unsigned descriptor. */
  lemma UnsignedInBytes(v: seq<byte>, e: nat)
    ensures UnsignedAt(v, e)
       <==> && e + 16 <= |v| && e < 0x1_0000_0000
            && v[e..e + 12] == Descriptor(v[..e], false) && StartsRecord(v[e + 12..e + 16])
  {
    hide Crc, FieldsAt, StartsRecord, Descriptor;
    FieldsInBytes(v, e, if e <= |v| then v[..e] else []);
  }

  // ---------------------------------------------------------------- round trip

  /** The cursor at which the descriptor of a payload of n bytes stops the scan. */
  function StopOf(n: nat, signed: bool): nat {
    if signed then n else n + 12
  }

  lemma NotSignedBehind(v: seq<byte>, e: nat)
    requires UnsignedAt(v, e)
    ensures !SignedAt(v, e + 12)
  {
  }

  /** Behind any payload that fits its 32-bit sizes, each form of its descriptor, before a record of any
      kind, may stop the scan at the end of that payload. */
  lemma StopsBehindPayload(payload: seq<byte>, signed: bool, rest: seq<byte>)
    requires |payload| < 0x1_0000_0000 && 4 <= |rest| && StartsRecord(rest[..4])
    ensures var v, g := payload + Descriptor(payload, signed) + rest, StopOf(|payload|, signed);
            && StopsAt(v, 0, g) && (SignedAt(v, g) <==> signed) && PayloadEnd(v, g) == |payload|
  {
    hide Crc, SignedAt, UnsignedAt, Descriptor, StartsRecord;
    var d := Descriptor(payload, signed);
    var v := payload + d + rest;
    var n := |payload|;
    assert v[..n] == payload && v[n..n + |d|] == d;
    assert v[n + |d|..n + |d| + 4] == rest[..4];
    if signed {
      SignedInBytes(v, n);
    } else {
      UnsignedInBytes(v, n);
      NotSignedBehind(v, n);
    }
  }

  lemma EndOfStop(v: seq<byte>, g: nat)
    requires SignedAt(v, g) || 12 <= g
    ensures PayloadEnd(v, g) == if SignedAt(v, g) then g else g - 12
  {
  }

  /** A scan that starts afresh at a payload followed by its descriptor and another record publishes exactly
      that payload, with its CRC and the position of that record, if and only if no cursor before stops it. */
  lemma PublishedAsStored(before: seq<byte>, payload: seq<byte>, signed: bool, rest: seq<byte>, r: ScanResult)
    requires |payload| < 0x1_0000_0000 && 4 <= |rest| && StartsRecord(rest[..4])
    requires ScansTo(before + payload + Descriptor(payload, signed) + rest, |before|, [], false, r)
    ensures var v := payload + Descriptor(payload, signed) + rest;
            r == Published(payload, Crc(payload), |before| + |payload| + |Descriptor(payload, signed)|)
            <==> forall h: nat :: h < StopOf(|payload|, signed) ==> !StopsAt(v, 0, h)
  {
    hide Crc, SignedAt, StopsAt, Descriptor, StartsRecord, PayloadEnd;
    var file := before + payload + Descriptor(payload, signed) + rest;
    var v, g := payload + Descriptor(payload, signed) + rest, StopOf(|payload|, signed);
    assert file[|before|..] == v;
    assert Stream([], v) == v;
    StopsBehindPayload(payload, signed, rest);
    var f: nat :| FirstStop(v, 0, f) && PublishedAt(r, v, |before|, f);
    assert v[..|payload|] == payload;
    assert f <= g;
    if f == g {
      assert r.payload == payload;
    } else {
      assert StopsAt(v, 0, f);
      EndOfStop(v, f);
      EndOfStop(v, g);
    }
  }
}

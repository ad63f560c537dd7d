// Resuming the unknown-size scan on an archive that is still growing: when the
// kept part leads to the same descriptor as an uninterrupted scan, and when not.
module ScannerResume {
  import opened Bytes
  import opened Crc32
  import opened Signatures
  import opened StoreDescriptors
  import opened StoreScanner
  import opened DescriptorOverlap

  // ---------------------------------------------------------------- truncated streams

  lemma FieldsInPrefix(data: seq<byte>, m: nat, o: nat, dataLen: nat, dataCrc: bv32)
    requires m <= |data|
    ensures FieldsAt(data[..m], o, dataLen, dataCrc) <==> o + 16 <= m && FieldsAt(data, o, dataLen, dataCrc)
  {
    hide IsRecordSignature;
  }

  lemma SignedInPrefix(data: seq<byte>, m: nat, g: nat)
    requires m <= |data|
    ensures SignedAt(data[..m], g) <==> g + 20 <= m && SignedAt(data, g)
  {
    hide Crc, FieldsAt;
    if g <= m {
      assert data[..m][..g] == data[..g];
      FieldsInPrefix(data, m, g + 4, g, Crc(data[..g]));
    }
  }

  lemma UnsignedInPrefix(data: seq<byte>, m: nat, e: nat)
    requires m <= |data|
    ensures UnsignedAt(data[..m], e) <==> e + 16 <= m && UnsignedAt(data, e)
  {
    hide Crc, FieldsAt;
    if e <= m {
      assert data[..m][..e] == data[..e];
      FieldsInPrefix(data, m, e, e, Crc(data[..e]));
    }
  }

  /** How much of the stream must be there before the scan can stop at g. */
  function Needed(data: seq<byte>, g: nat): nat {
    if SignedAt(data, g) then g + 20 else g + 4
  }

  lemma NotBoth(data: seq<byte>, g: nat)
    requires 12 <= g && SignedAt(data, g)
    ensures !UnsignedAt(data, g - 12)
  {
  }

  /** A truncated archive stops the scan exactly where the whole one does, if enough of it is there. */
  lemma StopsInPrefix(data: seq<byte>, m: nat, from: nat, g: nat)
    requires m <= |data|
    ensures StopsAt(data[..m], from, g) <==> Needed(data, g) <= m && StopsAt(data, from, g)
  {
    hide SignedAt, UnsignedAt;
    SignedInPrefix(data, m, g);
    if 12 <= g {
      UnsignedInPrefix(data, m, g - 12);
      if SignedAt(data, g) {
        NotBoth(data, g);
      }
    }
  }

  lemma EndInPrefix(data: seq<byte>, m: nat, from: nat, g: nat)
    requires m <= |data| && StopsAt(data[..m], from, g)
    ensures StopsAt(data, from, g) && PayloadEnd(data[..m], g) == PayloadEnd(data, g)
  {
    hide SignedAt, UnsignedAt;
    StopsInPrefix(data, m, from, g);
    SignedInPrefix(data, m, g);
  }

  // ---------------------------------------------------------------- picking up a true prefix

  /** A part that is a prefix of the data makes the stream the data itself. */
  lemma PrefixStream(data: seq<byte>, k: nat)
    requires k <= |data|
    ensures Stream(data[..k], data) == data
  {
  }

  /** The resumed scan stops where the fresh one does if and only if the part holds no byte of that descriptor. */
  lemma ResumeAgrees(data: seq<byte>, k: nat, g: nat)
    requires FirstStop(data, 0, g)
    ensures FirstStop(data, k, g) <==> k <= PayloadEnd(data, g)
  {
    hide SignedAt, UnsignedAt;
    if SignedAt(data, g) && 12 <= g {
      NotBoth(data, g);
    }
    forall h: nat | h < g
      ensures !StopsAt(data, k, h)
    {
      assert !StopsAt(data, 0, h);
    }
  }

  /** The outcome of a scan that resumes from the first k bytes of the data, in terms of the data alone. */
  lemma TruePartScan(file: seq<byte>, dataOffset: nat, k: nat, r: ScanResult)
    requires dataOffset + k <= |file| && ScansTo(file, dataOffset, file[dataOffset..][..k], true, r)
    ensures r.Published? <==> exists g: nat :: StopsAt(file[dataOffset..], k, g)
    ensures r.Published? ==> exists g: nat :: FirstStop(file[dataOffset..], k, g) && PublishedAt(r, file[dataOffset..], dataOffset, g)
  {
    hide StopsAt, FirstStop, PublishedAt, Flushed;
    PrefixStream(file[dataOffset..], k);
  }

  lemma FirstStopIsUnique(data: seq<byte>, from: nat, g: nat, h: nat)
    requires FirstStop(data, from, g) && FirstStop(data, from, h)
    ensures g == h
  {
  }

  lemma EndAfterPart(data: seq<byte>, k: nat, h: nat)
    requires StopsAt(data, k, h)
    ensures SignedAt(data, h) || 12 <= h
    ensures k <= PayloadEnd(data, h)
  {
  }

  /** A run that resumes from the first k bytes of the data ends exactly like a fresh run, with the same bytes,
      CRC and next position, if and only if the part holds no byte of the descriptor that ends the entry. */
  lemma ResumedRunAgrees(file: seq<byte>, dataOffset: nat, k: nat, g: nat, anew: ScanResult, resumed: ScanResult)
    requires dataOffset + k <= |file| && FirstStop(file[dataOffset..], 0, g)
    requires ScansTo(file, dataOffset, [], true, anew)
    requires ScansTo(file, dataOffset, file[dataOffset..][..k], true, resumed)
    ensures anew.Published?
    ensures resumed == anew <==> k <= PayloadEnd(file[dataOffset..], g)
  {
    hide StopsAt, PayloadEnd, Crc, ScansTo;
    var data := file[dataOffset..];
    assert data[..0] == [];
    TruePartScan(file, dataOffset, 0, anew);
    TruePartScan(file, dataOffset, k, resumed);
    assert StopsAt(data, 0, g);
    ResumeAgrees(data, k, g);
    var f: nat :| FirstStop(data, 0, f) && PublishedAt(anew, data, dataOffset, f);
    FirstStopIsUnique(data, 0, f, g);
    if resumed.Published? {
      var h: nat :| FirstStop(data, k, h) && PublishedAt(resumed, data, dataOffset, h);
      EndAfterPart(data, k, h);
      if k <= PayloadEnd(data, g) {
        FirstStopIsUnique(data, k, h, g);
      }
    }
  }

  // ---------------------------------------------------------------- one truncated run

  /** An unsuccessful fresh run on a truncated archive leaves a part from which the scan of the whole
      archive agrees with a fresh one, unless the truncation fell into the last bytes of a signed
      descriptor, 16 to 19 bytes after its start. */
  lemma ResumeAfterTruncation(data: seq<byte>, m: nat, g: nat)
    requires m <= |data| && FirstStop(data, 0, g)
    requires forall h: nat :: !StopsAt(data[..m], 0, h)
    ensures FirstStop(data, Flushed(m, 0), g) <==> !(SignedAt(data, g) && g + 16 <= m <= g + 19)
  {
    hide SignedAt, UnsignedAt;
    StopsInPrefix(data, m, 0, g);
    ResumeAgrees(data, Flushed(m, 0), g);
  }

  // ---------------------------------------------------------------- what a truncated run may find

  /** The length of the part a run picks up. */
  function From(k: nat, length: nat): nat {
    if k <= length then k else 0
  }

  /** The truncations that lose a signed descriptor. */
  predicate CutsDescriptor(data: seq<byte>, g: nat, length: nat) {
    SignedAt(data, g) && g + 16 <= length <= g + 19
  }

  /** A run on any truncation that finds a descriptor finds the one that a fresh run on the whole archive finds,
      if it picks up no byte of that: no shorter entry looks complete while the archive is growing. */
  lemma TruncatedStop(data: seq<byte>, m: nat, from: nat, g: nat, h: nat)
    requires m <= |data| && FirstStop(data, 0, g) && from <= PayloadEnd(data, g)
    requires FirstStop(data[..m], from, h)
    ensures h == g
  {
    hide SignedAt, UnsignedAt;
    StopsInPrefix(data, m, from, h);
    StopsInPrefix(data, m, from, g);
    ResumeAgrees(data, from, g);
    if h != g {
      assert !StopsAt(data, 0, h) || g < h;
      assert g < h && m < Needed(data, g);
      NoOverlap(data, g, h);
    }
  }

  lemma EndIfStops(data: seq<byte>, from: nat, g: nat)
    requires StopsAt(data, from, g)
    ensures SignedAt(data, g) || 12 <= g
    ensures PayloadEnd(data, g) == (if SignedAt(data, g) then g else g - 12)
  {
  }

  // ---------------------------------------------------------------- archives that grow

  /** The part after unsuccessful, uninterrupted runs on archives of the given lengths. */
  function PartAfter(lengths: seq<nat>): nat
    decreases |lengths|
  {
    if lengths == [] then 0
    else
      var n := |lengths| - 1;
      Flushed(lengths[n], From(PartAfter(lengths[..n]), lengths[n]))
  }

  /** The run on the first m bytes of the stream, resuming from a part of k bytes, finds no end. */
  ghost predicate IncompleteRun(data: seq<byte>, k: nat, m: nat) {
    m <= |data| && forall h: nat :: !StopsAt(data[..m], From(k, m), h)
  }

  ghost predicate AllIncomplete(data: seq<byte>, lengths: seq<nat>)
    decreases |lengths|
  {
    if lengths == [] then true
    else
      var n := |lengths| - 1;
      AllIncomplete(data, lengths[..n]) && IncompleteRun(data, PartAfter(lengths[..n]), lengths[n])
  }

  predicate Growing(lengths: seq<nat>) {
    forall i, j :: 0 <= i < j < |lengths| ==> lengths[i] <= lengths[j]
  }

  lemma {:induction false} PartFits(lengths: seq<nat>)
    requires Growing(lengths) && lengths != []
    ensures PartAfter(lengths) <= lengths[|lengths| - 1]
    ensures |lengths| > 1 ==> PartAfter(lengths[..|lengths| - 1]) <= PartAfter(lengths)
    decreases |lengths|
  {
  }

  /** One more unsuccessful run from a part of k bytes, on an archive that has not shrunk. */
  lemma OneMoreRun(data: seq<byte>, k: nat, m: nat, g: nat)
    requires FirstStop(data, 0, g) && k <= m && IncompleteRun(data, k, m)
    ensures Flushed(m, k) <= PayloadEnd(data, g)
       <==> k <= PayloadEnd(data, g) && !CutsDescriptor(data, g, m)
  {
    hide SignedAt, UnsignedAt, StopsAt;
    EndIfStops(data, 0, g);
    ResumeAgrees(data, k, g);
    StopsInPrefix(data, m, k, g);
    assert From(k, m) == k;
    assert !StopsAt(data[..m], k, g);
    if k <= PayloadEnd(data, g) {
      assert FirstStop(data, k, g);
      assert StopsAt(data, k, g);
      assert m < Needed(data, g);
    }
  }

  ghost predicate NoneCuts(data: seq<byte>, g: nat, lengths: seq<nat>) {
    forall i: nat :: i < |lengths| ==> !CutsDescriptor(data, g, lengths[i])
  }

  lemma NothingCuts(data: seq<byte>, g: nat)
    ensures NoneCuts(data, g, [])
  {
  }

  lemma OneMoreCut(data: seq<byte>, g: nat, lengths: seq<nat>)
    requires lengths != []
    ensures var n := |lengths| - 1;
            NoneCuts(data, g, lengths) <==> NoneCuts(data, g, lengths[..n]) && !CutsDescriptor(data, g, lengths[n])
  {
    hide CutsDescriptor;
    var n := |lengths| - 1;
    var before := lengths[..n];
    if NoneCuts(data, g, lengths) {
      forall i: nat | i < n
        ensures !CutsDescriptor(data, g, before[i])
      {
        assert before[i] == lengths[i];
      }
    }
    if NoneCuts(data, g, before) && !CutsDescriptor(data, g, lengths[n]) {
      forall i: nat | i < |lengths|
        ensures !CutsDescriptor(data, g, lengths[i])
      {
        if i < n {
          assert !CutsDescriptor(data, g, before[i]);
        }
      }
    }
  }

  lemma EndIfFirst(data: seq<byte>, g: nat)
    requires FirstStop(data, 0, g)
    ensures SignedAt(data, g) || 12 <= g
  {
  }

  /** Retried until the descriptor is there, resuming finds the same payload as a fresh run if and only if no
      retry saw the archive end 16 to 19 bytes into the signed descriptor. */
  lemma {:induction false} GrowingLengths(data: seq<byte>, lengths: seq<nat>, g: nat)
    requires FirstStop(data, 0, g)
    requires Growing(lengths) && AllIncomplete(data, lengths)
    ensures FirstStop(data, PartAfter(lengths), g)
       <==> NoneCuts(data, g, lengths)
    decreases |lengths|
  {
    hide CutsDescriptor, FirstStop, IncompleteRun, PayloadEnd, NoneCuts;
    EndIfFirst(data, g);
    if lengths != [] {
      var n := |lengths| - 1;
      var before, m := lengths[..n], lengths[n];
      GrowingLengths(data, before, g);
      ResumeAgrees(data, PartAfter(before), g);
      if n > 0 {
        PartFits(before);
      }
      OneMoreRun(data, PartAfter(before), m, g);
      OneMoreCut(data, g, lengths);
      assert PartAfter(before) <= m;
      assert PartAfter(lengths) == Flushed(m, PartAfter(before));
    } else {
      assert NoneCuts(data, g, lengths) by {
        NothingCuts(data, g);
      }
    }
    ResumeAgrees(data, PartAfter(lengths), g);
  }

  // ---------------------------------------------------------------- the lost descriptor

  /** An empty stored entry, its signed descriptor, and the next record's signature. */
  const EMPTY_ENTRY: seq<byte> :=
    [0x50, 0x4B, 0x07, 0x08] + [0, 0, 0, 0] + [0, 0, 0, 0] + [0, 0, 0, 0] + [0x50, 0x4B, 0x01, 0x02]

  /** A run that sees the archive end after the sixteen bytes of the descriptor keeps its first byte
      as payload, and no later run on the whole archive ever stops. */
  lemma TruncationLosesDescriptor()
    ensures FirstStop(EMPTY_ENTRY, 0, 0)
    ensures forall h: nat :: !StopsAt(EMPTY_ENTRY[..16], 0, h)
    ensures Flushed(16, 0) == 1
    ensures forall h: nat :: !StopsAt(EMPTY_ENTRY, 1, h)
  {
    hide Crc, Update;
    var d := EMPTY_ENTRY;
    CrcOfEmpty();
    assert d[..0] == [];
    assert Le32(d, 0) == SIGN_DATA_DESC && Le32(d, 4) == 0 && Le32(d, 8) == 0 && Le32(d, 12) == 0;
    assert Le32(d, 16) == SIGN_CENTRAL_DIR;
    assert SignedAt(d, 0);
    forall h: nat
      ensures !StopsAt(d[..16], 0, h)
    {
      StopsInPrefix(d, 16, 0, h);
    }
    forall h: nat
      ensures !StopsAt(d, 1, h)
    {
      assert !SignedAt(d, h) || h == 0;
      if 13 <= h <= 16 {
        assert Le32(d, h - 8) == 0;
      }
    }
  }
}

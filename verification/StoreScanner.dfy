// extract_store_data_descriptor of src/zip.c: finds the end of a stored entry of
// unknown size through a sliding window that keeps fifteen bytes between reads.
module StoreScanner {
  import opened Bytes
  import opened Crc32
  import opened PartDisk
  import opened Signatures
  import opened StoreDescriptors

  const KEEP_TAIL: nat := 15

  // ---------------------------------------------------------------- specification

  /** The scan of stream v, whose first `from` bytes are already in the part, may stop at cursor g:
      a signed descriptor starts at g, or the record after an unsigned descriptor does. */
  predicate StopsAt(v: seq<byte>, from: nat, g: nat) {
    (from <= g && SignedAt(v, g)) || (from + 12 <= g && UnsignedAt(v, g - 12))
  }

  ghost predicate FirstStop(v: seq<byte>, from: nat, g: nat) {
    StopsAt(v, from, g) && forall h: nat :: h < g ==> !StopsAt(v, from, h)
  }

  /** No cursor below the limit stops the scan. */
  ghost predicate NoStopBelow(v: seq<byte>, from: nat, limit: int) {
    forall g: nat :: g < limit ==> !StopsAt(v, from, g)
  }

  /** Where the payload ends when the scan stops at g. */
  function PayloadEnd(v: seq<byte>, g: nat): nat
    requires SignedAt(v, g) || 12 <= g
  {
    if SignedAt(v, g) then g else g - 12
  }

  /** How much of the stream an unsuccessful scan has flushed to the part. */
  function Flushed(length: nat, from: nat): nat {
    if from + KEEP_TAIL < length then length - KEEP_TAIL else from
  }

  /** The part that a run picks up: nothing unless resuming, and nothing that cannot be a prefix. */
  function PickedUp(part: seq<byte>, keepPart: bool, available: nat): seq<byte> {
    if keepPart && |part| <= available then part else []
  }

  /** What the scan treats as the stream: the picked-up part, then the archive bytes after it. */
  function Stream(start: seq<byte>, data: seq<byte>): seq<byte>
    requires |start| <= |data|
  {
    start + data[|start|..]
  }

  datatype ScanResult =
    | Published(payload: seq<byte>, crc: bv32, next: nat)
    | Incomplete(part: seq<byte>)
    | BadOffset

  // ---------------------------------------------------------------- one window

  datatype Hit = NoHit(disturbed: bool, pos: nat) | SignedHit(i: nat, next: nat) | UnsignedHit(i: nat, next: nat)

  /** memchr(buf + from, 0x50, to - from) */
  method MemChr50(buf: array<byte>, from: nat, to: nat) returns (r: nat)
    requires from <= to <= buf.Length
    ensures from <= r <= to
    ensures r < to ==> buf[r] == 0x50
    ensures forall k :: from <= k < r ==> buf[k] != 0x50
  {
    r := from;
    while r < to && buf[r] != 0x50
      invariant from <= r <= to
      invariant forall k :: from <= k < r ==> buf[k] != 0x50
    {
      r := r + 1;
    }
  }

  lemma LowByteOf(s: seq<byte>, i: nat) returns (rest: nat)
    requires i + 4 <= |s|
    ensures Le32(s, i) == (s[i] as nat) + 0x100 * rest
  {
    rest := (s[i + 1] as nat) + 0x100 * (s[i + 2] as nat) + 0x1_0000 * (s[i + 3] as nat);
  }

  lemma SignatureLowByte(sig: nat, low: nat, rest: nat)
    requires sig == low + 0x100 * rest && low < 0x100
    requires sig == SIGN_DATA_DESC || IsRecordSignature(sig)
    ensures low == 0x50
  {
  }

  lemma FiftyHex(b: byte)
    requires b as nat == 0x50
    ensures b == 0x50
  {
  }

  /** Every signature starts with the byte 0x50. */
  lemma SignaturesStartWith50(s: seq<byte>, i: nat)
    requires i + 4 <= |s|
    requires Le32(s, i) == SIGN_DATA_DESC || IsRecordSignature(Le32(s, i))
    ensures s[i] == 0x50
  {
    hide Le32, IsRecordSignature;
    var rest := LowByteOf(s, i);
    SignatureLowByte(Le32(s, i), s[i] as nat, rest);
    FiftyHex(s[i]);
  }

  /** The window shows the stream from base on. */
  ghost predicate Shows(buf: array<byte>, n: nat, v: seq<byte>, base: nat)
    reads buf
  {
    n <= buf.Length && base + n <= |v| && buf[..n] == v[base..base + n]
  }

  lemma WindowLe32(buf: array<byte>, n: nat, v: seq<byte>, base: nat, i: nat)
    requires Shows(buf, n, v, base) && i + 4 <= n
    ensures Le32(buf[..n], i) == Le32(v, base + i)
  {
  }

  /** Cursor i of a window at base does not stop the scan, as far as the window can tell. */
  ghost predicate QuietAt(v: seq<byte>, base: nat, i: nat) {
    !SignedAt(v, base + i) && (12 <= i ==> !UnsignedAt(v, base + i - 12))
  }

  /** A signed descriptor starts with its signature and, inside the window, passes the size filter. */
  lemma SignedPassesFilter(v: seq<byte>, g: nat)
    requires SignedAt(v, g)
    ensures Le32(v, g) == SIGN_DATA_DESC && Le32(v, g + 8) == g && Le32(v, g + 12) == g
  {
  }

  /** An unsigned descriptor ends in a record signature and passes the size filter. */
  lemma UnsignedPassesFilter(v: seq<byte>, e: nat)
    requires UnsignedAt(v, e)
    ensures IsRecordSignature(Le32(v, e + 12)) && Le32(v, e + 4) == e && Le32(v, e + 8) == e
  {
  }

  lemma NoSignatureSkipped(buf: array<byte>, n: nat, v: seq<byte>, base: nat, from: nat, to: nat)
    requires Shows(buf, n, v, base) && from <= to && to + 3 <= n
    requires forall k :: from <= k < to ==> buf[k] != 0x50
    ensures forall k: nat :: from <= k < to ==> QuietAt(v, base, k)
  {
    hide Le32, IsRecordSignature, SignedAt, UnsignedAt;
    forall k: nat | from <= k < to
      ensures QuietAt(v, base, k)
    {
      assert buf[k] == buf[..n][k] == v[base + k];
      if SignedAt(v, base + k) {
        SignedPassesFilter(v, base + k);
        SignaturesStartWith50(v, base + k);
      }
      if 12 <= k && UnsignedAt(v, base + k - 12) {
        UnsignedPassesFilter(v, base + k - 12);
        SignaturesStartWith50(v, base + k);
      }
    }
  }

  lemma CandidateCrc(v: seq<byte>, base: nat, buf: array<byte>, n: nat, i: nat, crc: bv32)
    requires Shows(buf, n, v, base) && i <= n && crc == Crc(v[..base])
    ensures Update(crc, buf[..i]) == Crc(v[..base + i])
  {
    hide Update;
    assert buf[..i] == buf[..n][..i] == v[base..base + i];
    assert v[..base + i] == v[..base] + v[base..base + i];
    UpdateConcat(0, v[..base], v[base..base + i]);
  }

  lemma SignedProbe(file: seq<byte>, dataOffset: nat, v: seq<byte>, base: nat, i: nat)
    requires dataOffset + base <= |file| && base + i <= |v| && file[dataOffset + base..] == v[base..]
    ensures SignedFieldsAt(file, dataOffset + base + i, base + i, Crc(v[..base + i])) == SignedAt(v, base + i)
  {
    hide SignedFieldsAt, Crc;
    assert |file[dataOffset + base..]| == |v[base..]|;
    assert file[dataOffset + base + i..] == file[dataOffset + base..][i..];
    assert v[base + i..] == v[base..][i..];
    SignedFieldsSame(file, dataOffset + base + i, v, base + i, base + i, Crc(v[..base + i]));
  }

  lemma UnsignedProbe(file: seq<byte>, dataOffset: nat, v: seq<byte>, base: nat, i: nat)
    requires dataOffset + base <= |file| && base + i <= |v| && file[dataOffset + base..] == v[base..]
    ensures FieldsAt(file, dataOffset + base + i, base + i, Crc(v[..base + i])) == UnsignedAt(v, base + i)
  {
    hide FieldsAt, Crc;
    assert |file[dataOffset + base..]| == |v[base..]|;
    assert file[dataOffset + base + i..] == file[dataOffset + base..][i..];
    assert v[base + i..] == v[base..][i..];
    FieldsSame(file, dataOffset + base + i, v, base + i, base + i, Crc(v[..base + i]));
  }

  lemma NotSigned(buf: array<byte>, n: nat, v: seq<byte>, base: nat, i: nat)
    requires Shows(buf, n, v, base) && i + 4 <= n
    requires Le32(buf[..n], i) != SIGN_DATA_DESC
          || (i + 16 <= n && !(Le32(buf[..n], i + 8) == base + i && Le32(buf[..n], i + 12) == base + i))
    ensures !SignedAt(v, base + i)
  {
    hide Le32, SignedAt;
    WindowLe32(buf, n, v, base, i);
    if i + 16 <= n {
      WindowLe32(buf, n, v, base, i + 8);
      WindowLe32(buf, n, v, base, i + 12);
    }
    if SignedAt(v, base + i) {
      SignedPassesFilter(v, base + i);
    }
  }

  lemma NotUnsigned(buf: array<byte>, n: nat, v: seq<byte>, base: nat, i: nat)
    requires Shows(buf, n, v, base) && 12 <= i && i + 4 <= n
    requires !(IsRecordSignature(Le32(buf[..n], i))
               && Le32(buf[..n], i - 8) == base + i - 12 && Le32(buf[..n], i - 4) == base + i - 12)
    ensures !UnsignedAt(v, base + i - 12)
  {
    hide Le32, IsRecordSignature, UnsignedAt;
    WindowLe32(buf, n, v, base, i);
    WindowLe32(buf, n, v, base, i - 8);
    WindowLe32(buf, n, v, base, i - 4);
    if UnsignedAt(v, base + i - 12) {
      UnsignedPassesFilter(v, base + i - 12);
    }
  }

  /** The inner loop: scans a window for the first cursor that stops the scan. Cursors that need
      bytes before the window are the business of the window before. */
  method ScanWindow(file: seq<byte>, dataOffset: nat, buf: array<byte>, scanLen: nat,
                    base: nat, crc: bv32, pos: nat, ghost v: seq<byte>)
    returns (hit: Hit)
    requires dataOffset + base <= |file| && base <= |v| && file[dataOffset + base..] == v[base..]
    requires Shows(buf, scanLen, v, base) && crc == Crc(v[..base])
    ensures hit.NoHit? ==>
      && (!hit.disturbed ==> hit.pos == pos)
      && forall i: nat :: i + 4 <= scanLen ==> QuietAt(v, base, i)
    ensures !hit.NoHit? ==>
      && hit.i + 4 <= scanLen
      && forall i: nat :: i < hit.i ==> QuietAt(v, base, i)
    ensures hit.SignedHit? ==> SignedAt(v, base + hit.i) && hit.next == dataOffset + base + hit.i + 16
    ensures hit.UnsignedHit? ==> 12 <= hit.i && UnsignedAt(v, base + hit.i - 12) && hit.next == dataOffset + base + hit.i
  {
    hide Le32, Crc, Update, IsRecordSignature, SignedAt, UnsignedAt;
    var i := 0;
    var disturbed, fpos := false, pos;
    while i + 4 <= scanLen
      invariant !disturbed ==> fpos == pos
      invariant forall k: nat :: k < i && k + 4 <= scanLen ==> QuietAt(v, base, k)
    {
      var next := MemChr50(buf, i, scanLen - 3);
      NoSignatureSkipped(buf, scanLen, v, base, i, next);
      if next == scanLen - 3 {
        break;
      }
      i := next;
      var sig := Le32(buf[..scanLen], i);
      WindowLe32(buf, scanLen, v, base, i);
      if sig == SIGN_DATA_DESC
         && (scanLen - i < 16
             || (Le32(buf[..scanLen], i + 8) == base + i && Le32(buf[..scanLen], i + 12) == base + i)) {
        var candidateCrc := Update(crc, buf[..i]);
        CandidateCrc(v, base, buf, scanLen, i, crc);
        disturbed := true;
        var probe := MatchSigned(file, fpos, dataOffset + base + i, base + i, candidateCrc);
        SignedProbe(file, dataOffset, v, base, i);
        if probe.Matched? {
          return SignedHit(i, probe.pos);
        }
        fpos := probe.pos;
      } else {
        NotSigned(buf, scanLen, v, base, i);
      }
      if IsRecordSignature(sig)
         && i >= 12
         && Le32(buf[..scanLen], i - 8) == base + i - 12
         && Le32(buf[..scanLen], i - 4) == base + i - 12 {
        var candidateCrc := Update(crc, buf[..i - 12]);
        CandidateCrc(v, base, buf, scanLen, i - 12, crc);
        disturbed := true;
        var probe := MatchUnsigned(file, fpos, dataOffset + base + i - 12, base + i - 12, candidateCrc);
        UnsignedProbe(file, dataOffset, v, base, i - 12);
        if probe.Matched? {
          return UnsignedHit(i, probe.pos);
        }
        fpos := probe.pos;
      } else if i >= 12 {
        NotUnsigned(buf, scanLen, v, base, i);
      }
      i := i + 1;
    }
    hit := NoHit(disturbed, fpos);
  }

  // ---------------------------------------------------------------- the sliding window

  function Min(a: int, b: int): int {
    if a <= b then a else b
  }

  lemma SuffixOfStream(file: seq<byte>, dataOffset: nat, start: seq<byte>, k: nat)
    requires dataOffset + |start| + k <= |file|
    ensures var v := Stream(start, file[dataOffset..]);
            |v| == |file| - dataOffset && file[dataOffset + |start| + k..] == v[|start| + k..]
  {
  }

  lemma StreamStarts(start: seq<byte>, data: seq<byte>)
    requires |start| <= |data|
    ensures |Stream(start, data)| == |data| && Stream(start, data)[..|start|] == start
  {
  }

  lemma NothingStopsEarly(v: seq<byte>, from: nat)
    ensures NoStopBelow(v, from, from - 3)
  {
  }

  lemma NoStopAtAll(v: seq<byte>, from: nat)
    requires NoStopBelow(v, from, |v| - 3)
    ensures forall g: nat :: !StopsAt(v, from, g)
  {
  }

  /** The tail and the bytes just read show the stream from the tail's start on. */
  lemma WindowShows(file: seq<byte>, pos: nat, v: seq<byte>, buf: array<byte>, base: nat, tailLen: nat, n: nat)
    requires tailLen + n <= buf.Length && base + tailLen + n <= |v| && pos + n <= |file|
    requires file[pos..] == v[base + tailLen..]
    requires buf[..tailLen] == v[base..base + tailLen]
    requires buf[tailLen..tailLen + n] == file[pos..pos + n]
    ensures Shows(buf, tailLen + n, v, base)
  {
    assert file[pos..pos + n] == file[pos..][..n];
    assert v[base + tailLen..][..n] == v[base + tailLen..base + tailLen + n];
    assert buf[..tailLen + n] == buf[..tailLen] + buf[tailLen..tailLen + n];
    assert v[base..base + tailLen + n] == v[base..base + tailLen] + v[base + tailLen..base + tailLen + n];
  }

  /** No stop up to the tail and a quiet window make no stop up to the end of the window:
      a cursor too close to the window's start for its descriptor was scanned before. */
  lemma WindowQuiet(v: seq<byte>, from: nat, base: nat, tailLen: nat, limit: int)
    requires from <= base && tailLen <= KEEP_TAIL && (tailLen == KEEP_TAIL || base == from)
    requires NoStopBelow(v, from, base + tailLen - 3)
    requires forall i: nat :: i < limit ==> QuietAt(v, base, i)
    ensures NoStopBelow(v, from, base + limit)
  {
    hide SignedAt, UnsignedAt;
    forall g: nat | g < base + limit
      ensures !StopsAt(v, from, g)
    {
      if g >= base {
        assert QuietAt(v, base, g - base);
      }
    }
  }

  lemma StopsAtSigned(v: seq<byte>, from: nat, g: nat)
    requires from <= g && SignedAt(v, g)
    ensures StopsAt(v, from, g) && PayloadEnd(v, g) == g
  {
  }

  lemma FlushedIs(length: nat, from: nat, base: nat, tailLen: nat)
    requires from <= base && base + tailLen == length
    requires tailLen <= KEEP_TAIL && (tailLen == KEEP_TAIL || base == from)
    ensures base == Flushed(length, from)
  {
  }

  /** A cursor with a record signature holds no descriptor signature. */
  lemma StopsAtUnsigned(v: seq<byte>, from: nat, g: nat)
    requires from + 12 <= g && UnsignedAt(v, g - 12)
    ensures StopsAt(v, from, g) && !SignedAt(v, g) && PayloadEnd(v, g) == g - 12
  {
  }

  /** crc32_file_prefix: the CRC of a part, read in chunks. */
  method PartCrc(part: seq<byte>, cap: Pos) returns (crc: bv32)
    ensures crc == Crc(part)
  {
    hide Update;
    crc := 0;
    var done := 0;
    assert part[..0] == [];
    CrcOfEmpty();
    while done < |part|
      invariant done <= |part| && crc == Crc(part[..done])
    {
      var n := if |part| - done > cap then cap else |part| - done;
      UpdateConcat(0, part[..done], part[done..done + n]);
      assert part[..done + n] == part[..done] + part[done..done + n];
      crc := Update(crc, part[done..done + n]);
      done := done + n;
    }
    assert part[..done] == part;
  }

  /** Lays the kept tail and the next n bytes of the file side by side in buf. */
  method FillWindow(file: seq<byte>, pos: nat, n: nat, buf: array<byte>, tail: array<byte>, tailLen: nat,
                    ghost v: seq<byte>, ghost base: nat)
    requires buf != tail && tailLen <= tail.Length && tailLen + n <= buf.Length && pos + n <= |file|
    requires base + tailLen + n <= |v| && file[pos..] == v[base + tailLen..]
    requires tail[..tailLen] == v[base..base + tailLen]
    modifies buf
    ensures Shows(buf, tailLen + n, v, base)
  {
    Store(buf, 0, tail[..tailLen]);
    Store(buf, tailLen, file[pos..pos + n]);
    WindowShows(file, pos, v, buf, base, tailLen, n);
  }

  /** Keeps the last fifteen bytes of the window, or all of a shorter one, as the next tail. */
  method KeepTail(buf: array<byte>, scanLen: nat, tail: array<byte>, ghost v: seq<byte>, ghost base: nat)
    returns (flushLen: nat, tailLen: nat)
    requires buf != tail && tail.Length == KEEP_TAIL && Shows(buf, scanLen, v, base)
    modifies tail
    ensures flushLen + tailLen == scanLen && tailLen == Min(scanLen, KEEP_TAIL)
    ensures tail[..tailLen] == v[base + flushLen..base + scanLen]
  {
    flushLen := if scanLen > KEEP_TAIL then scanLen - KEEP_TAIL else 0;
    tailLen := scanLen - flushLen;
    Store(tail, 0, buf[flushLen..scanLen]);
    assert buf[flushLen..scanLen] == buf[..scanLen][flushLen..scanLen];
    SliceOfSlice(v, base, scanLen, flushLen, flushLen + tailLen);
  }

  lemma WindowSlice(v: seq<byte>, base: nat, buf: array<byte>, n: nat, i: nat)
    requires Shows(buf, n, v, base) && i <= n
    ensures buf[..i] == v[base..base + i]
  {
    assert buf[..i] == buf[..n][..i];
    assert v[base..base + n][..i] == v[base..base + i];
  }

  /** Writes out all but the kept tail of a window without a hit. */
  method FlushWindow(disk: Disk, buf: array<byte>, scanLen: nat, tail: array<byte>, crc: bv32,
                     ghost v: seq<byte>, ghost base: nat)
    returns (flushLen: nat, tailLen: nat, newCrc: bv32)
    requires buf != tail && tail.Length == KEEP_TAIL && Shows(buf, scanLen, v, base)
    requires base <= |v| && crc == Crc(v[..base])
    modifies disk, tail
    ensures flushLen + tailLen == scanLen && tailLen == Min(scanLen, KEEP_TAIL)
    ensures base + scanLen <= |v| && tail[..tailLen] == v[base + flushLen..base + scanLen]
    ensures newCrc == Crc(v[..base + flushLen])
    ensures disk.Follows(old(disk.State()), old(disk.log), Appends(v[base..base + flushLen]))
  {
    hide Crc, Update, Appends, ApplyAll;
    flushLen, tailLen := KeepTail(buf, scanLen, tail, v, base);
    CandidateCrc(v, base, buf, scanLen, flushLen, crc);
    WindowSlice(v, base, buf, scanLen, flushLen);
    AppendsNothing(v, base);
    FollowsNothing(disk);
    if flushLen > 0 {
      disk.WriteFile(buf[..flushLen]);
    }
    newCrc := Update(crc, buf[..flushLen]);
  }

  /** The part after bytes of the stream were appended to its start. */
  lemma PartIs(disk: Disk, was: Files, from: seq<Op>, v: seq<byte>, start: nat, end: nat)
    requires start <= end <= |v| && was.part == Some(v[..start])
    requires disk.Follows(was, from, Appends(v[start..end]))
    ensures disk.State() == Files(Some(v[..end]), was.target)
  {
    hide Appends, ApplyAll;
    AppendAll(was, v[start..end]);
    assert v[..start] + v[start..end] == v[..end];
  }

  /** r publishes the payload of a scan that stops at g, and goes on after the descriptor. */
  ghost predicate PublishedAt(r: ScanResult, v: seq<byte>, dataOffset: nat, g: nat) {
    && r.Published? && (SignedAt(v, g) || 12 <= g)
    && PayloadEnd(v, g) <= |v|
    && r.payload == v[..PayloadEnd(v, g)]
    && r.crc == Crc(r.payload)
    && r.next == dataOffset + (if SignedAt(v, g) then g + 16 else g)
  }

  lemma HitPublishes(v: seq<byte>, from: nat, dataOffset: nat, base: nat, hit: Hit, r: ScanResult)
    requires !hit.NoHit? && from <= base && NoStopBelow(v, from, base + hit.i)
    requires hit.SignedHit? ==> SignedAt(v, base + hit.i) && hit.next == dataOffset + base + hit.i + 16
    requires hit.UnsignedHit? ==> 12 <= hit.i && UnsignedAt(v, base + hit.i - 12) && hit.next == dataOffset + base + hit.i
    requires r.Published? && r.next == hit.next && r.crc == Crc(r.payload)
    requires base + hit.i <= |v| && r.payload == v[..base + if hit.SignedHit? then hit.i else hit.i - 12]
    ensures FirstStop(v, from, base + hit.i) && PublishedAt(r, v, dataOffset, base + hit.i)
  {
    hide Crc, SignedAt, UnsignedAt, StopsAt;
    if hit.SignedHit? {
      StopsAtSigned(v, from, base + hit.i);
    } else {
      StopsAtUnsigned(v, from, base + hit.i);
    }
  }

  /** Writes out what precedes the descriptor that was hit. */
  method WriteToHit(disk: Disk, buf: array<byte>, scanLen: nat, hit: Hit, crc: bv32,
                    ghost v: seq<byte>, ghost base: nat)
    returns (newCrc: bv32, ghost end: nat)
    requires Shows(buf, scanLen, v, base) && base <= |v| && crc == Crc(v[..base])
    requires !hit.NoHit? && hit.i <= scanLen && (hit.UnsignedHit? ==> 12 <= hit.i)
    modifies disk
    ensures end == base + (if hit.SignedHit? then hit.i else hit.i - 12) && base <= end <= |v|
    ensures newCrc == Crc(v[..end])
    ensures disk.Follows(old(disk.State()), old(disk.log), Appends(v[base..end]))
  {
    hide Crc, Update, Appends, ApplyAll;
    var dataInBuf := if hit.SignedHit? then hit.i else hit.i - 12;
    end := base + dataInBuf;
    CandidateCrc(v, base, buf, scanLen, dataInBuf, crc);
    WindowSlice(v, base, buf, scanLen, dataInBuf);
    AppendsNothing(v, base);
    FollowsNothing(disk);
    if dataInBuf > 0 {
      disk.WriteFile(buf[..dataInBuf]);
    }
    newCrc := Update(crc, buf[..dataInBuf]);
  }

  /** The bytes that a scan leaves in the part before it is renamed or kept. */
  function Content(r: ScanResult): seq<byte> {
    match r
    case Published(payload, _, _) => payload
    case Incomplete(part) => part
    case BadOffset => []
  }

  /** Reads n more bytes behind the kept tail and scans the window: no cursor up to its end, or up to the hit,
      stops the scan. */
  method NextWindow(file: seq<byte>, dataOffset: nat, start: seq<byte>, pos: nat, n: nat, buf: array<byte>,
                    tail: array<byte>, tailLen: nat, base: nat, crc: bv32, ghost v: seq<byte>)
    returns (hit: Hit)
    requires dataOffset + |start| <= |file| && v == Stream(start, file[dataOffset..])
    requires |start| <= base && base + tailLen + n <= |v| && pos == dataOffset + base + tailLen
    requires tailLen <= KEEP_TAIL && (tailLen == KEEP_TAIL || base == |start|)
    requires buf != tail && tailLen <= tail.Length && tailLen + n <= buf.Length
    requires crc == Crc(v[..base]) && tail[..tailLen] == v[base..base + tailLen]
    requires NoStopBelow(v, |start|, base + tailLen - 3)
    modifies buf
    ensures Shows(buf, tailLen + n, v, base)
    ensures hit.NoHit? ==> (!hit.disturbed ==> hit.pos == pos + n) && NoStopBelow(v, |start|, base + tailLen + n - 3)
    ensures !hit.NoHit? ==> hit.i <= tailLen + n && NoStopBelow(v, |start|, base + hit.i)
    ensures hit.SignedHit? ==> SignedAt(v, base + hit.i) && hit.next == dataOffset + base + hit.i + 16
    ensures hit.UnsignedHit? ==> 12 <= hit.i && UnsignedAt(v, base + hit.i - 12) && hit.next == dataOffset + base + hit.i
  {
    hide Crc, SignedAt, UnsignedAt, StopsAt, NoStopBelow, QuietAt, Stream, Shows;
    var from := |start|;
    StreamStarts(start, file[dataOffset..]);
    SuffixOfStream(file, dataOffset, start, base - from);
    SuffixOfStream(file, dataOffset, start, base + tailLen - from);
    FillWindow(file, pos, n, buf, tail, tailLen, v, base);
    hit := ScanWindow(file, dataOffset, buf, tailLen + n, base, crc, pos + n, v);
    WindowQuiet(v, from, base, tailLen, if hit.NoHit? then tailLen + n - 3 else hit.i);
  }

  lemma PrefixFrom(v: seq<byte>, from: nat, end: nat)
    requires from <= end <= |v|
    ensures v[..end][from..] == v[from..end]
  {
  }

  /** One more stretch of the stream was appended. */
  lemma Extended(disk: Disk, was: Files, log: seq<Op>, mid: Files, midLog: seq<Op>, v: seq<byte>, from: nat, base: nat, end: nat)
    requires from <= base <= end <= |v| && was.part == Some(v[..from])
    requires midLog == log + Appends(v[from..base]) && mid == ApplyAll(was, Appends(v[from..base]))
    requires disk.Follows(mid, midLog, Appends(v[base..end]))
    ensures disk.Follows(was, log, Appends(v[from..end]))
    ensures disk.part == Some(v[..end]) && v[..end][from..] == v[from..end]
  {
    hide Appends, ApplyAll;
    Chain(disk, was, log, Appends(v[from..base]), mid, midLog, Appends(v[base..end]));
    AppendsSplit(v, from, base, end);
    PartIs(disk, was, log, v, from, end);
    PrefixFrom(v, from, end);
  }

  /** The end of a scan at a hit: what precedes the descriptor is in the part. */
  method FinishAtHit(disk: Disk, buf: array<byte>, scanLen: nat, hit: Hit, crc: bv32, dataOffset: nat,
                     ghost v: seq<byte>, ghost from: nat, ghost base: nat, ghost was: Files, ghost log: seq<Op>)
    returns (r: ScanResult)
    requires Shows(buf, scanLen, v, base) && from <= base && base + scanLen <= |v| && crc == Crc(v[..base])
    requires !hit.NoHit? && hit.i <= scanLen && NoStopBelow(v, from, base + hit.i)
    requires hit.SignedHit? ==> SignedAt(v, base + hit.i) && hit.next == dataOffset + base + hit.i + 16
    requires hit.UnsignedHit? ==> 12 <= hit.i && UnsignedAt(v, base + hit.i - 12) && hit.next == dataOffset + base + hit.i
    requires was.part == Some(v[..from]) && disk.Follows(was, log, Appends(v[from..base]))
    modifies disk
    ensures r.Published? && exists g: nat :: FirstStop(v, from, g) && PublishedAt(r, v, dataOffset, g)
    ensures from <= |r.payload| && disk.Follows(was, log, Appends(r.payload[from..]))
  {
    hide Crc, Update, SignedAt, UnsignedAt, NoStopBelow, FirstStop, PublishedAt, Shows, Appends, ApplyAll;
    ghost var mid, midLog := disk.State(), disk.log;
    var newCrc;
    ghost var end;
    newCrc, end := WriteToHit(disk, buf, scanLen, hit, crc, v, base);
    Extended(disk, was, log, mid, midLog, v, from, base, end);
    r := Published(disk.part.value, newCrc, hit.next);
    HitPublishes(v, from, dataOffset, base, hit, r);
  }

  /** The end of a turn without a hit: all but the kept tail is in the part. */
  method FlushMore(disk: Disk, buf: array<byte>, scanLen: nat, tail: array<byte>, crc: bv32,
                   ghost v: seq<byte>, ghost from: nat, ghost base: nat, ghost was: Files, ghost log: seq<Op>)
    returns (flushLen: nat, tailLen: nat, newCrc: bv32)
    requires buf != tail && tail.Length == KEEP_TAIL && Shows(buf, scanLen, v, base)
    requires from <= base <= |v| && crc == Crc(v[..base])
    requires was.part == Some(v[..from]) && disk.Follows(was, log, Appends(v[from..base]))
    modifies disk, tail
    ensures flushLen + tailLen == scanLen && tailLen == Min(scanLen, KEEP_TAIL)
    ensures base + scanLen <= |v| && tail[..tailLen] == v[base + flushLen..base + scanLen]
    ensures newCrc == Crc(v[..base + flushLen])
    ensures disk.Follows(was, log, Appends(v[from..base + flushLen]))
  {
    hide Crc, Shows, Appends, ApplyAll;
    ghost var mid, midLog := disk.State(), disk.log;
    flushLen, tailLen, newCrc := FlushWindow(disk, buf, scanLen, tail, crc, v, base);
    Extended(disk, was, log, mid, midLog, v, from, base, base + flushLen);
  }

  /** The scan of the stream that starts with the bytes already in the part, which is open. */
  method ScanStream(disk: Disk, file: seq<byte>, dataOffset: nat, start: seq<byte>, startCrc: bv32,
                    cap: Pos, readSize: nat -> Pos, ghost v: seq<byte>)
    returns (r: ScanResult)
    requires dataOffset + |start| <= |file| && startCrc == Crc(start) && disk.part == Some(start)
    requires v == Stream(start, file[dataOffset..])
    modifies disk
    ensures !r.BadOffset?
    ensures r.Incomplete? ==> NoStopBelow(v, |start|, |v| - 3) && r.part == v[..Flushed(|v|, |start|)]
    ensures r.Published? ==> exists g: nat :: FirstStop(v, |start|, g) && PublishedAt(r, v, dataOffset, g)
    ensures |start| <= |Content(r)|
    ensures disk.Follows(old(disk.State()), old(disk.log), Appends(Content(r)[|start|..]))
  {
    hide Crc, Update, SignedAt, UnsignedAt, StopsAt, Flushed, PayloadEnd, Stream, NoStopBelow, FirstStop, PublishedAt;
    hide Shows, QuietAt, Appends, ApplyAll;
    ghost var was, log := disk.State(), disk.log;
    var from := |start|;
    var buf, tail := new byte[cap + KEEP_TAIL], new byte[KEEP_TAIL];
    var tailLen, baseLen, crc := 0, from, startCrc;
    var pos, remaining, turn := dataOffset + from, |file| - dataOffset - from, 0;
    SuffixOfStream(file, dataOffset, start, 0);
    NothingStopsEarly(v, from);
    StreamStarts(start, file[dataOffset..]);
    AppendsNothing(v, from);
    FollowsNothing(disk);
    while remaining > 0
      invariant 0 <= remaining && from <= baseLen && baseLen + tailLen + remaining == |v| == |file| - dataOffset
      invariant tailLen <= KEEP_TAIL && (tailLen == KEEP_TAIL || baseLen == from)
      invariant pos == |file| - remaining
      invariant crc == Crc(v[..baseLen]) && disk.Follows(was, log, Appends(v[from..baseLen]))
      invariant tail[..tailLen] == v[baseLen..baseLen + tailLen]
      invariant NoStopBelow(v, from, baseLen + tailLen - 3)
    {
      var n := Min(Min(remaining, cap), readSize(turn));
      var hit := NextWindow(file, dataOffset, start, pos, n, buf, tail, tailLen, baseLen, crc, v);
      turn, pos, remaining := turn + 1, pos + n, remaining - n;
      var scanLen := tailLen + n;
      if !hit.NoHit? {
        r := FinishAtHit(disk, buf, scanLen, hit, crc, dataOffset, v, from, baseLen, was, log);
        return;
      }
      var flushLen;
      flushLen, tailLen, crc := FlushMore(disk, buf, scanLen, tail, crc, v, from, baseLen, was, log);
      baseLen := baseLen + flushLen;
      pos := if hit.disturbed then |file| - remaining else hit.pos;
    }
    FlushedIs(|v|, from, baseLen, tailLen);
    PartIs(disk, was, log, v, from, baseLen);
    PrefixFrom(v, from, baseLen);
    r := Incomplete(disk.part.value);
  }

  /** The outcome of a scan: what precedes the first place where it may stop is published, with its CRC and the
      position of the next record; when there is none, the part holds all but the last fifteen bytes. */
  ghost predicate ScansTo(file: seq<byte>, dataOffset: nat, part: seq<byte>, keepPart: bool, r: ScanResult) {
    && (r.BadOffset? <==> dataOffset > |file|)
    && (dataOffset <= |file| ==>
        var start := PickedUp(part, keepPart, |file| - dataOffset);
        var v, from := Stream(start, file[dataOffset..]), |start|;
        && (r.Published? <==> exists g: nat :: StopsAt(v, from, g))
        && (r.Published? ==> exists g: nat :: FirstStop(v, from, g) && PublishedAt(r, v, dataOffset, g))
        && (r.Incomplete? ==> r.part == v[..Flushed(|v|, from)]))
  }

  /** How the part is opened: one that is not kept, or too long to be picked up, is removed first. */
  function Opening(part: Option<seq<byte>>, keepPart: bool, available: nat): seq<Op> {
    (if !keepPart || |part.GetOr([])| > available then [Remove] else [])
    + [Open(PickedUp(part.GetOr([]), keepPart, available) == [])]
  }

  /** What is behind the first n bytes of s. */
  function Beyond(s: seq<byte>, n: nat): seq<byte> {
    if n <= |s| then s[n..] else []
  }

  /** All effects of a scan in order: the opening, the bytes behind what was picked up, and the end. */
  function ScanEffects(file: seq<byte>, dataOffset: nat, part: Option<seq<byte>>, keepPart: bool, r: ScanResult): seq<Op> {
    if r.BadOffset? || dataOffset > |file| then []
    else
      var available := |file| - dataOffset;
      Opening(part, keepPart, available)
      + Appends(Beyond(Content(r), |PickedUp(part.GetOr([]), keepPart, available)|))
      + (if r.Published? then [Publish] else if keepPart then [] else [Remove])
  }

  /** A part that is not resumed, or is longer than the archive's data so far, is removed first; any other is opened as
      it is, and cut to nothing only if it is empty. */
  lemma FirstEffect(file: seq<byte>, dataOffset: nat, part: Option<seq<byte>>, keepPart: bool, r: ScanResult)
    requires dataOffset <= |file| && !r.BadOffset?
    ensures var ops := ScanEffects(file, dataOffset, part, keepPart, r);
            if !keepPart || (part.Some? && dataOffset + |part.value| > |file|) then [Remove, Open(true)] <= ops
            else [Open(part.GetOr([]) == [])] <= ops
  {
    hide Appends, Content;
  }

  /** Picks up the part, or removes it, and opens the output file. */
  method OpenForScan(disk: Disk, available: nat, keepPart: bool, cap: Pos) returns (start: seq<byte>, crc: bv32)
    modifies disk
    ensures start == PickedUp(old(disk.part).GetOr([]), keepPart, available) && crc == Crc(start)
    ensures disk.part == Some(start)
    ensures disk.Follows(old(disk.State()), old(disk.log), Opening(old(disk.part), keepPart, available))
  {
    hide Crc;
    ghost var was, log := disk.State(), disk.log;
    FollowsNothing(disk);
    start, crc := [], 0;
    CrcOfEmpty();
    ghost var removed: seq<Op> := [];
    if keepPart {
      var (partExists, partSize) := FileSize(disk.part);
      if partExists && partSize > 0 {
        if partSize > available {
          disk.RemovePart();
          removed := [Remove];
        } else {
          start := disk.part.value;
          crc := PartCrc(start, cap);
        }
      }
    } else {
      disk.RemovePart();
      removed := [Remove];
    }
    ghost var mid, midLog := disk.State(), disk.log;
    ApplyOne(was, Remove);
    NoEffects(was);
    ApplyOne(mid, Open(start == []));
    disk.OpenPart(start == []);
    Chain(disk, was, log, removed, mid, midLog, [Open(start == [])]);
  }

  /** extract_store_data_descriptor, from the part that is there to the published file or the part
      that is left. Reads are of any positive length up to cap. */
  method ExtractStoreDataDescriptor(disk: Disk, file: seq<byte>, dataOffset: nat, keepPart: bool,
                                    cap: Pos, readSize: nat -> Pos)
    returns (r: ScanResult)
    modifies disk
    ensures ScansTo(file, dataOffset, old(disk.part).GetOr([]), keepPart, r)
    ensures disk.Follows(old(disk.State()), old(disk.log),
                         ScanEffects(file, dataOffset, old(disk.part), keepPart, r))
  {
    hide Crc, StopsAt, Flushed, PublishedAt, Appends, ApplyAll;
    ghost var was, log := disk.State(), disk.log;
    FollowsNothing(disk);
    if dataOffset > |file| {
      return BadOffset;
    }
    var available := |file| - dataOffset;
    var start, crc := OpenForScan(disk, available, keepPart, cap);
    ghost var opening := Opening(was.part, keepPart, available);
    ghost var v := Stream(start, file[dataOffset..]);
    ghost var mid, midLog := disk.State(), disk.log;
    r := ScanStream(disk, file, dataOffset, start, crc, cap, readSize, v);
    ghost var bytes := Appends(Content(r)[|start|..]);
    Chain(disk, was, log, opening, mid, midLog, bytes);
    mid, midLog := disk.State(), disk.log;
    if r.Published? {
      disk.PublishFile();
      Chain(disk, was, log, opening + bytes, mid, midLog, [Publish]);
      return;
    }
    NoStopAtAll(v, |start|);
    if !keepPart {
      disk.RemovePart();
      Chain(disk, was, log, opening + bytes, mid, midLog, [Remove]);
    } else {
      assert opening + bytes + [] == opening + bytes;
    }
  }
}

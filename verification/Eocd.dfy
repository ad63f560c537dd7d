// The end-of-central-directory search of src/zip.c, on a mapped file and on a
// buffered tail (sections 4.3.14 to 4.3.16 of APPNOTE.TXT).
module Eocd {
  import opened Bytes
  import opened Signatures

  const EOCD_FIXED: nat := 22
  const ZIP64_EOCD_FIXED: nat := 56
  const LOCATOR_FIXED: nat := 20
  const MAX_SEARCH: nat := EOCD_FIXED + 65535

  datatype Dir = Dir(fileSize: nat, eocdOffset: nat, centralOffset: nat, centralSize: nat, entries: nat)

  // ---------------------------------------------------------------- specification

  /** An end record at offset o whose comment ends exactly at the end of the file. */
  predicate EndsFile(file: seq<byte>, o: nat) {
    && o + EOCD_FIXED <= |file|
    && Le32(file, o) == SIGN_END_CENTRAL
    && o + EOCD_FIXED + Le16(file, o + 20) == |file|
  }

  /** The lowest offset the search looks at. */
  function SearchStart(length: nat): nat {
    if length < MAX_SEARCH then 0 else length - MAX_SEARCH
  }

  /** The last end record in the search window, or nothing. */
  ghost predicate LastEnd(file: seq<byte>, o: nat) {
    && SearchStart(|file|) <= o && EndsFile(file, o)
    && forall p: nat :: o < p ==> !EndsFile(file, p)
  }

  /** A field of the end record that only ZIP64 can hold. */
  predicate NeedsZip64(file: seq<byte>, o: nat)
    requires o + EOCD_FIXED <= |file|
  {
    || Le16(file, o + 4) == MAGIC16 || Le16(file, o + 6) == MAGIC16
    || Le16(file, o + 8) == MAGIC16 || Le16(file, o + 10) == MAGIC16
    || Le32(file, o + 12) == MAGIC32 || Le32(file, o + 16) == MAGIC32
  }

  /** A single-disk ZIP64 locator directly before the end record. */
  predicate HasLocator(file: seq<byte>, o: nat)
    requires o <= |file|
  {
    && LOCATOR_FIXED <= o
    && Le32(file, o - 20) == SIGN_ZIP64_LOCATOR
    && Le32(file, o - 16) == 0 && Le32(file, o - 4) == 1
  }

  /** A well-formed single-disk ZIP64 end record at z. */
  predicate IsZip64End(file: seq<byte>, z: nat) {
    && z + ZIP64_EOCD_FIXED <= |file|
    && Le32(file, z) == SIGN_ZIP64_END && Le64(file, z + 4) >= 44
    && Le32(file, z + 16) == 0 && Le32(file, z + 20) == 0
    && Le64(file, z + 24) == Le64(file, z + 32)
  }

  /** The directory that the ZIP64 records before o describe. */
  function Zip64Dir(file: seq<byte>, o: nat): Option<Dir>
    requires o <= |file|
  {
    if !HasLocator(file, o) then None
    else
      var z := Le64(file, o - 12);
      if !IsZip64End(file, z) then None
      else Some(Dir(|file|, o, Le64(file, z + 48), Le64(file, z + 40), Le64(file, z + 32)))
  }

  /** The directory that the end record at o describes. */
  function DirAt(file: seq<byte>, o: nat): Option<Dir>
    requires o + EOCD_FIXED <= |file|
  {
    if NeedsZip64(file, o) then Zip64Dir(file, o)
    else if Le16(file, o + 4) != 0 || Le16(file, o + 6) != 0 || Le16(file, o + 8) != Le16(file, o + 10) then None
    else Some(Dir(|file|, o, Le32(file, o + 16), Le32(file, o + 12), Le16(file, o + 10)))
  }

  /** The directory lies before its end record, in 64-bit arithmetic without overflow. */
  predicate Fits(d: Dir) {
    d.centralSize <= UINT64_MAX - d.centralOffset && d.centralOffset + d.centralSize <= d.eocdOffset
  }

  /** r is what the search must return. */
  ghost predicate SearchResult(file: seq<byte>, r: Option<Dir>) {
    if o: nat :| LastEnd(file, o)
    then (match DirAt(file, o)
          case None => r.None?
          case Some(d) => r == if Fits(d) then Some(d) else None)
    else r.None?
  }

  // ---------------------------------------------------------------- the ZIP64 records

  /** read_zip64_eocd, with seeks and reads. */
  method ReadZip64Seek(file: seq<byte>, o: nat) returns (r: Option<Dir>)
    requires o + EOCD_FIXED <= |file|
    ensures r == Zip64Dir(file, o)
  {
    hide Le16, Le32, Le64;
    if o < LOCATOR_FIXED {
      return None;
    }
    var read := ReadExact(file, o - LOCATOR_FIXED, LOCATOR_FIXED);
    if read.None? {
      return None;
    }
    var locator := read.value;
    LeOfSlice(file, o - 20, 20, 0); LeOfSlice(file, o - 20, 20, 4); LeOfSlice(file, o - 20, 20, 8); LeOfSlice(file, o - 20, 20, 16);
    if Le32(locator, 0) != SIGN_ZIP64_LOCATOR {
      return None;
    }
    if Le32(locator, 4) != 0 || Le32(locator, 16) != 1 {
      return None;
    }
    var z := Le64(locator, 8);
    if |file| < ZIP64_EOCD_FIXED || z > |file| - ZIP64_EOCD_FIXED {
      return None;
    }
    read := ReadExact(file, z, ZIP64_EOCD_FIXED);
    if read.None? {
      return None;
    }
    var eocd := read.value;
    LeOfSlice(file, z, 56, 0); LeOfSlice(file, z, 56, 4); LeOfSlice(file, z, 56, 16); LeOfSlice(file, z, 56, 20);
    LeOfSlice(file, z, 56, 24); LeOfSlice(file, z, 56, 32); LeOfSlice(file, z, 56, 40); LeOfSlice(file, z, 56, 48);
    if Le32(eocd, 0) != SIGN_ZIP64_END || Le64(eocd, 4) < 44 {
      return None;
    }
    if Le32(eocd, 16) != 0 || Le32(eocd, 20) != 0 {
      return None;
    }
    if Le64(eocd, 24) != Le64(eocd, 32) {
      return None;
    }
    r := Some(Dir(|file|, o, Le64(eocd, 48), Le64(eocd, 40), Le64(eocd, 32)));
  }

  /** read_zip64_eocd_mapped */
  method ReadZip64Mapped(image: seq<byte>, o: nat) returns (r: Option<Dir>)
    requires o + EOCD_FIXED <= |image|
    ensures r == Zip64Dir(image, o)
  {
    hide Le16, Le32, Le64;
    if o < LOCATOR_FIXED || Le32(image, o - 20) != SIGN_ZIP64_LOCATOR {
      return None;
    }
    if Le32(image, o - 16) != 0 || Le32(image, o - 4) != 1 {
      return None;
    }
    var z := Le64(image, o - 12);
    if |image| < ZIP64_EOCD_FIXED || z > |image| - ZIP64_EOCD_FIXED {
      return None;
    }
    if Le32(image, z) != SIGN_ZIP64_END || Le64(image, z + 4) < 44 {
      return None;
    }
    if Le32(image, z + 16) != 0 || Le32(image, z + 20) != 0 {
      return None;
    }
    if Le64(image, z + 24) != Le64(image, z + 32) {
      return None;
    }
    r := Some(Dir(|image|, o, Le64(image, z + 48), Le64(image, z + 40), Le64(image, z + 32)));
  }

  // ---------------------------------------------------------------- the two searches

  lemma NoRoom(file: seq<byte>)
    requires |file| < EOCD_FIXED
    ensures forall o: nat :: !LastEnd(file, o)
  {
  }

  lemma NoneInWindow(file: seq<byte>)
    requires forall p: nat :: SearchStart(|file|) <= p ==> !EndsFile(file, p)
    ensures forall o: nat :: !LastEnd(file, o)
  {
  }

  /** A search that comes down to an end record has found the last one. */
  lemma OnlyLast(file: seq<byte>, o: nat)
    requires SearchStart(|file|) <= o && EndsFile(file, o)
    requires forall p: nat :: o < p ==> !EndsFile(file, p)
    ensures LastEnd(file, o)
    ensures forall q: nat :: LastEnd(file, q) ==> q == o
  {
  }

  /** find_eocd_mapped: walks down the mapped file. */
  method FindMapped(image: seq<byte>) returns (r: Option<Dir>)
    ensures SearchResult(image, r)
  {
    hide Le16, Le32, Le64, Zip64Dir;
    if |image| < EOCD_FIXED {
      NoRoom(image);
      return None;
    }
    var tailSize := if |image| < MAX_SEARCH then |image| else MAX_SEARCH;
    var tailOff := |image| - tailSize;
    var i: nat := tailSize - EOCD_FIXED;
    while true
      invariant i + EOCD_FIXED <= tailSize
      invariant forall p: nat :: tailOff + i < p ==> !EndsFile(image, p)
      decreases i
    {
      var p := tailOff + i;
      if Le32(image, p) == SIGN_END_CENTRAL && i + EOCD_FIXED + Le16(image, p + 20) == tailSize {
        OnlyLast(image, p);
        var entries := Le16(image, p + 10);
        var size, offset := Le32(image, p + 12), Le32(image, p + 16);
        var dir := Some(Dir(|image|, p, offset, size, entries));
        if NeedsZip64(image, p) {
          dir := ReadZip64Mapped(image, p);
          if dir.None? {
            return None;
          }
        } else if Le16(image, p + 4) != 0 || Le16(image, p + 6) != 0 || Le16(image, p + 8) != entries {
          return None;
        }
        if UINT64_MAX - dir.value.centralOffset < dir.value.centralSize {
          return None;
        }
        return if dir.value.centralOffset + dir.value.centralSize <= dir.value.eocdOffset then dir else None;
      }
      assert !EndsFile(image, p);
      if i == 0 {
        break;
      }
      i := i - 1;
    }
    NoneInWindow(image);
    r := None;
  }

  /** The body of find_eocd once the end record is found in the tail. */
  method DirFromTail(file: seq<byte>, tail: seq<byte>, tailOff: nat, i: nat) returns (r: Option<Dir>)
    requires tailOff <= |file| && tail == file[tailOff..] && i + EOCD_FIXED <= |tail|
    ensures match DirAt(file, tailOff + i)
      case None => r.None?
      case Some(d) => r == if Fits(d) then Some(d) else None
  {
    hide Le16, Le32, Le64, Zip64Dir;
    assert tail == file[tailOff..tailOff + |tail|];
    LeOfSlice(file, tailOff, |tail|, i + 4); LeOfSlice(file, tailOff, |tail|, i + 6); LeOfSlice(file, tailOff, |tail|, i + 8);
    LeOfSlice(file, tailOff, |tail|, i + 10); LeOfSlice(file, tailOff, |tail|, i + 12); LeOfSlice(file, tailOff, |tail|, i + 16);
    var entries := Le16(tail, i + 10);
    var size, offset := Le32(tail, i + 12), Le32(tail, i + 16);
    var dir := Some(Dir(|file|, tailOff + i, offset, size, entries));
    if NeedsZip64(tail, i) {
      dir := ReadZip64Seek(file, tailOff + i);
      if dir.None? {
        return None;
      }
    } else if Le16(tail, i + 4) != 0 || Le16(tail, i + 6) != 0 || Le16(tail, i + 8) != entries {
      return None;
    }
    if UINT64_MAX - dir.value.centralOffset < dir.value.centralSize {
      return None;
    }
    r := if dir.value.centralOffset + dir.value.centralSize <= dir.value.eocdOffset then dir else None;
  }

  /** find_eocd: reads the tail of the file into a buffer and walks down that. */
  method FindBuffered(file: seq<byte>) returns (r: Option<Dir>)
    ensures SearchResult(file, r)
  {
    hide Le16, Le32, Le64, Zip64Dir;
    if |file| < EOCD_FIXED {
      NoRoom(file);
      return None;
    }
    var tailSize := if |file| < MAX_SEARCH then |file| else MAX_SEARCH;
    var tailOff := |file| - tailSize;
    var read := ReadExact(file, tailOff, tailSize);
    var tail := read.value;
    var i: nat := tailSize - EOCD_FIXED;
    while true
      invariant i + EOCD_FIXED <= tailSize
      invariant forall p: nat :: tailOff + i < p ==> !EndsFile(file, p)
      decreases i
    {
      ghost var p := tailOff + i;
      LeOfSlice(file, tailOff, tailSize, i); LeOfSlice(file, tailOff, tailSize, i + 4); LeOfSlice(file, tailOff, tailSize, i + 6);
      LeOfSlice(file, tailOff, tailSize, i + 8); LeOfSlice(file, tailOff, tailSize, i + 10);
      LeOfSlice(file, tailOff, tailSize, i + 12); LeOfSlice(file, tailOff, tailSize, i + 16);
      LeOfSlice(file, tailOff, tailSize, i + 20);
      if Le32(tail, i) == SIGN_END_CENTRAL && i + EOCD_FIXED + Le16(tail, i + 20) == tailSize {
        OnlyLast(file, p);
        r := DirFromTail(file, tail, tailOff, i);
        return;
      }
      assert !EndsFile(file, p);
      if i == 0 {
        break;
      }
      i := i - 1;
    }
    NoneInWindow(file);
    r := None;
  }

  // ---------------------------------------------------------------- what a result means

  /** The two searches cannot disagree. */
  lemma SearchesAgree(file: seq<byte>, a: Option<Dir>, b: Option<Dir>)
    requires SearchResult(file, a) && SearchResult(file, b)
    ensures a == b
  {
  }

  /** A directory that is found lies before its end record, which is the last one in the window, and the
      file has it, also when ZIP64 replaced the sizes. */
  lemma FoundDirectory(file: seq<byte>, d: Dir)
    requires SearchResult(file, Some(d))
    ensures LastEnd(file, d.eocdOffset) && d.fileSize == |file|
    ensures d.centralOffset + d.centralSize <= d.eocdOffset < |file|
    ensures d.centralOffset + d.centralSize <= UINT64_MAX
  {
    hide Le16, Le32, Le64;
  }
}

// End records written out in bytes (sections 4.3.14 to 4.3.16 of APPNOTE.TXT): what the
// search returns for a file that ends with them.
module EocdRoundTrip {
  import opened Bytes
  import opened DescriptorBytes
  import opened Eocd
  import opened Signatures

  // ---------------------------------------------------------------- records as bytes

  /** The fields of an end record: number of this disk, disk of the directory, entries on this disk, entries,
      size and offset of the directory, comment. */
  datatype End = End(disk: nat, startDisk: nat, here: nat, entries: nat, size: nat, offset: nat, comment: seq<byte>) {
    predicate Valid() {
      && disk < 0x1_0000 && startDisk < 0x1_0000 && here < 0x1_0000 && entries < 0x1_0000
      && size < 0x1_0000_0000 && offset < 0x1_0000_0000 && |comment| < 0x1_0000
    }

    /** Some field is left to ZIP64. */
    predicate LeavesToZip64() {
      || disk == 0xFFFF || startDisk == 0xFFFF || here == 0xFFFF || entries == 0xFFFF
      || size == 0xFFFF_FFFF || offset == 0xFFFF_FFFF
    }
  }

  function StoredEnd(e: End): (s: seq<byte>)
    ensures |s| == 22 + |e.comment|
  {
    [0x50, 0x4B, 5, 6] + LittleEndian(e.disk, 2) + LittleEndian(e.startDisk, 2) + LittleEndian(e.here, 2)
    + LittleEndian(e.entries, 2) + LittleEndian(e.size, 4) + LittleEndian(e.offset, 4)
    + LittleEndian(|e.comment|, 2) + e.comment
  }

  /** The fields of a ZIP64 end record: size of the rest of the record, versions, disk numbers, entries on this disk,
      entries, size and offset of the directory. */
  datatype End64 = End64(rest: nat, versions: nat, disk: nat, startDisk: nat, here: nat, entries: nat, size: nat, offset: nat) {
    predicate Valid() {
      && rest <= UINT64_MAX && versions < 0x1_0000_0000 && disk < 0x1_0000_0000 && startDisk < 0x1_0000_0000
      && here <= UINT64_MAX && entries <= UINT64_MAX && size <= UINT64_MAX && offset <= UINT64_MAX
    }
  }

  function StoredEnd64(z: End64): (s: seq<byte>)
    ensures |s| == 56
  {
    [0x50, 0x4B, 6, 6] + LittleEndian(z.rest, 8) + LittleEndian(z.versions, 4) + LittleEndian(z.disk, 4)
    + LittleEndian(z.startDisk, 4) + LittleEndian(z.here, 8) + LittleEndian(z.entries, 8)
    + LittleEndian(z.size, 8) + LittleEndian(z.offset, 8)
  }

  /** The locator: disk and offset of the ZIP64 end record, number of disks. */
  function StoredLocator(disk: nat, offset: nat, disks: nat): (s: seq<byte>)
    ensures |s| == 20
  {
    [0x50, 0x4B, 6, 7] + LittleEndian(disk, 4) + LittleEndian(offset, 8) + LittleEndian(disks, 4)
  }

  // ---------------------------------------------------------------- reading them back

  lemma ReadEnd(e: End)
    requires e.Valid()
    ensures var s := StoredEnd(e);
            && Le32(s, 0) == SIGN_END_CENTRAL && Le16(s, 4) == e.disk && Le16(s, 6) == e.startDisk
            && Le16(s, 8) == e.here && Le16(s, 10) == e.entries && Le32(s, 12) == e.size && Le32(s, 16) == e.offset
            && Le16(s, 20) == |e.comment|
  {
    hide Le16, Le32, LittleEndian;
    var s := StoredEnd(e);
    SignatureBytes();
    assert s[0..4] == [0x50, 0x4B, 5, 6];
    assert s[4..6] == LittleEndian(e.disk, 2) && s[6..8] == LittleEndian(e.startDisk, 2);
    assert s[8..10] == LittleEndian(e.here, 2) && s[10..12] == LittleEndian(e.entries, 2);
    assert s[12..16] == LittleEndian(e.size, 4) && s[16..20] == LittleEndian(e.offset, 4);
    assert s[20..22] == LittleEndian(|e.comment|, 2);
    Le32Is(s, 0, SIGN_END_CENTRAL);
    Le16Is(s, 4, e.disk); Le16Is(s, 6, e.startDisk); Le16Is(s, 8, e.here); Le16Is(s, 10, e.entries);
    Le32Is(s, 12, e.size); Le32Is(s, 16, e.offset); Le16Is(s, 20, |e.comment|);
  }

  lemma ReadEnd64(z: End64)
    requires z.Valid()
    ensures var s := StoredEnd64(z);
            && Le32(s, 0) == SIGN_ZIP64_END && Le64(s, 4) == z.rest && Le32(s, 16) == z.disk && Le32(s, 20) == z.startDisk
            && Le64(s, 24) == z.here && Le64(s, 32) == z.entries && Le64(s, 40) == z.size && Le64(s, 48) == z.offset
  {
    hide Le32, Le64, LittleEndian;
    var s := StoredEnd64(z);
    SignatureBytes();
    assert s[0..4] == [0x50, 0x4B, 6, 6];
    assert s[4..12] == LittleEndian(z.rest, 8);
    assert s[16..20] == LittleEndian(z.disk, 4) && s[20..24] == LittleEndian(z.startDisk, 4);
    assert s[24..32] == LittleEndian(z.here, 8) && s[32..40] == LittleEndian(z.entries, 8);
    assert s[40..48] == LittleEndian(z.size, 8) && s[48..56] == LittleEndian(z.offset, 8);
    Le32Is(s, 0, SIGN_ZIP64_END); Le64Is(s, 4, z.rest);
    Le32Is(s, 16, z.disk); Le32Is(s, 20, z.startDisk);
    Le64Is(s, 24, z.here); Le64Is(s, 32, z.entries); Le64Is(s, 40, z.size); Le64Is(s, 48, z.offset);
  }

  lemma ReadLocator(disk: nat, offset: nat, disks: nat)
    requires disk < 0x1_0000_0000 && offset <= UINT64_MAX && disks < 0x1_0000_0000
    ensures var s := StoredLocator(disk, offset, disks);
            Le32(s, 0) == SIGN_ZIP64_LOCATOR && Le32(s, 4) == disk && Le64(s, 8) == offset && Le32(s, 16) == disks
  {
    hide Le32, Le64, LittleEndian;
    var s := StoredLocator(disk, offset, disks);
    SignatureBytes();
    assert s[0..4] == [0x50, 0x4B, 6, 7];
    assert s[4..8] == LittleEndian(disk, 4) && s[8..16] == LittleEndian(offset, 8) && s[16..20] == LittleEndian(disks, 4);
    Le32Is(s, 0, SIGN_ZIP64_LOCATOR); Le32Is(s, 4, disk); Le64Is(s, 8, offset); Le32Is(s, 16, disks);
  }

  // ---------------------------------------------------------------- the search

  /** An end record is one exactly where its four signature bytes are and its comment length reaches to the end. */
  lemma EndsFileInBytes(file: seq<byte>, o: nat)
    ensures EndsFile(file, o)
       <==> && o + 22 <= |file| < o + 22 + 0x1_0000
            && file[o..o + 4] == [0x50, 0x4B, 5, 6] && file[o + 20..o + 22] == LittleEndian(|file| - o - 22, 2)
  {
    hide Le16, Le32, LittleEndian;
    if o + 22 <= |file| {
      SignatureBytes();
      Le32Is(file, o, SIGN_END_CENTRAL);
      if |file| < o + 22 + 0x1_0000 {
        Le16Is(file, o + 20, |file| - o - 22);
      }
    }
  }

  /** The fields of the end record in the file, which is the last. */
  lemma EndInFile(before: seq<byte>, e: End)
    requires e.Valid() && forall p: nat :: |before| < p ==> !EndsFile(before + StoredEnd(e), p)
    ensures var file, o := before + StoredEnd(e), |before|;
            && LastEnd(file, o) && (forall q: nat :: LastEnd(file, q) ==> q == o)
            && Le16(file, o + 4) == e.disk && Le16(file, o + 6) == e.startDisk
            && Le16(file, o + 8) == e.here && Le16(file, o + 10) == e.entries
            && Le32(file, o + 12) == e.size && Le32(file, o + 16) == e.offset
  {
    hide Le16, Le32, StoredEnd;
    var s := StoredEnd(e);
    var file := before + s;
    assert before + s + [] == file;
    ReadEnd(e);
    LeOfMiddle(before, s, [], 0); LeOfMiddle(before, s, [], 4); LeOfMiddle(before, s, [], 6); LeOfMiddle(before, s, [], 8);
    LeOfMiddle(before, s, [], 10); LeOfMiddle(before, s, [], 12); LeOfMiddle(before, s, [], 16); LeOfMiddle(before, s, [], 20);
    OnlyLast(file, |before|);
  }

  /** The directory that a result names must end at or before its end record. */
  function Within(d: Dir): Option<Dir> {
    if d.centralOffset + d.centralSize <= d.eocdOffset && d.centralOffset + d.centralSize <= 0xFFFF_FFFF_FFFF_FFFF
    then Some(d) else None
  }

  /** An archive whose last bytes are an end record that leaves nothing to ZIP64: the search returns what it
      says, if it is about one disk and the directory lies before it, and nothing otherwise. */
  lemma PlainEnd(before: seq<byte>, e: End, r: Option<Dir>)
    requires e.Valid() && !e.LeavesToZip64()
    requires forall p: nat :: |before| < p ==> !EndsFile(before + StoredEnd(e), p)
    ensures SearchResult(before + StoredEnd(e), r)
       <==> r == if e.disk == 0 && e.startDisk == 0 && e.here == e.entries
                 then Within(Dir(|before| + 22 + |e.comment|, |before|, e.offset, e.size, e.entries)) else None
  {
    hide Le16, Le32, StoredEnd, LastEnd;
    EndInFile(before, e);
  }

  /** The ZIP64 records in the file. */
  lemma Zip64InFile(head: seq<byte>, z: End64, middle: seq<byte>, disk: nat, disks: nat, tail: seq<byte>)
    requires z.Valid() && |head| <= UINT64_MAX && disk < 0x1_0000_0000 && disks < 0x1_0000_0000
    ensures var before := head + StoredEnd64(z) + middle + StoredLocator(disk, |head|, disks);
            && Zip64Dir(before + tail, |before|)
            == if disk == 0 && disks == 1 && z.rest >= 44 && z.disk == 0 && z.startDisk == 0 && z.here == z.entries
               then Some(Dir(|before| + |tail|, |before|, z.offset, z.size, z.entries)) else None
  {
    hide Le32, Le64, StoredEnd64, StoredLocator;
    var s, l := StoredEnd64(z), StoredLocator(disk, |head|, disks);
    var before := head + s + middle + l;
    var file := before + tail;
    ReadEnd64(z);
    ReadLocator(disk, |head|, disks);
    assert file == head + s + (middle + l + tail);
    assert file == (head + s + middle) + l + tail;
    LeOfMiddle(head, s, middle + l + tail, 0); LeOfMiddle(head, s, middle + l + tail, 4);
    LeOfMiddle(head, s, middle + l + tail, 16); LeOfMiddle(head, s, middle + l + tail, 20);
    LeOfMiddle(head, s, middle + l + tail, 24); LeOfMiddle(head, s, middle + l + tail, 32);
    LeOfMiddle(head, s, middle + l + tail, 40); LeOfMiddle(head, s, middle + l + tail, 48);
    LeOfMiddle(head + s + middle, l, tail, 0); LeOfMiddle(head + s + middle, l, tail, 4);
    LeOfMiddle(head + s + middle, l, tail, 8); LeOfMiddle(head + s + middle, l, tail, 16);
  }

  /** An archive that ends with a ZIP64 end record, any bytes, its locator, and an end record that leaves any
      field to ZIP64: the search returns what the ZIP64 record says, if all of it is about one disk and
      the directory lies before the end record, and nothing otherwise. */
  lemma Zip64End(head: seq<byte>, z: End64, middle: seq<byte>, disk: nat, disks: nat, e: End, r: Option<Dir>)
    requires z.Valid() && |head| <= UINT64_MAX && disk < 0x1_0000_0000 && disks < 0x1_0000_0000
    requires e.Valid() && e.LeavesToZip64()
    requires var before := head + StoredEnd64(z) + middle + StoredLocator(disk, |head|, disks);
             forall p: nat :: |before| < p ==> !EndsFile(before + StoredEnd(e), p)
    ensures var before := head + StoredEnd64(z) + middle + StoredLocator(disk, |head|, disks);
            SearchResult(before + StoredEnd(e), r)
            <==> r == if disk == 0 && disks == 1 && z.rest >= 44 && z.disk == 0 && z.startDisk == 0 && z.here == z.entries
                      then Within(Dir(|before| + 22 + |e.comment|, |before|, z.offset, z.size, z.entries)) else None
  {
    hide Le16, Le32, StoredEnd, StoredEnd64, StoredLocator, LastEnd, Zip64Dir;
    var before := head + StoredEnd64(z) + middle + StoredLocator(disk, |head|, disks);
    EndInFile(before, e);
    Zip64InFile(head, z, middle, disk, disks, StoredEnd(e));
  }

  /** ZIP64 values come only from a record with its own signature, to which a locator with its own points. */
  lemma Zip64DirInBytes(file: seq<byte>, o: nat)
    requires o <= |file| && Zip64Dir(file, o).Some?
    ensures 20 <= o && file[o - 20..o - 16] == [0x50, 0x4B, 6, 7]
    ensures var z := Le64(file, o - 12); z + 56 <= |file| && file[z..z + 4] == [0x50, 0x4B, 6, 6]
  {
    hide Le32, Le64, LittleEndian;
    SignatureBytes();
    Le32Is(file, o - 20, SIGN_ZIP64_LOCATOR);
    Le32Is(file, Le64(file, o - 12), SIGN_ZIP64_END);
  }

  /** An end record that leaves a field to ZIP64 without a locator before it: nothing is found. */
  lemma NoLocator(before: seq<byte>, e: End, r: Option<Dir>)
    requires e.Valid() && e.LeavesToZip64()
    requires forall p: nat :: |before| < p ==> !EndsFile(before + StoredEnd(e), p)
    requires |before| < 20 || before[|before| - 20..|before| - 16] != [0x50, 0x4B, 6, 7]
    ensures SearchResult(before + StoredEnd(e), r) <==> r.None?
  {
    hide Le16, Le32, LittleEndian, StoredEnd, LastEnd;
    EndInFile(before, e);
    if |before| >= 20 {
      var file, o := before + StoredEnd(e), |before|;
      SignatureBytes();
      Le32Is(file, o - 20, SIGN_ZIP64_LOCATOR);
      assert file[o - 20..o - 16] == before[o - 20..o - 16];
    }
  }
}

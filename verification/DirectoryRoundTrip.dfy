// Archives written out in bytes (sections 4.3.12 and 4.3.16 of APPNOTE.TXT, and the AES
// field of the WinZip specification): zipy_open lists what was written.
module DirectoryRoundTrip {
  import opened Bytes
  import opened CentralDirectory
  import DescriptorBytes
  import Eocd
  import EocdRoundTrip
  import opened Signatures
  import Z = Zip64Extra

  // ---------------------------------------------------------------- a member and its record

  /** The WinZip AES field of a member: vendor version, strength and actual method. */
  datatype AesInfo = AesInfo(version: nat, strength: byte, actual: nat) {
    predicate Valid() {
      (version == 1 || version == 2) && 1 <= strength <= 3 && actual < 0x1_0000
    }
  }

  ghost predicate Unrelated(fs: seq<Z.Field>) {
    forall f <- fs :: f.id != 1 && f.id != 0x9901
  }

  function AesData(a: AesInfo): (s: seq<byte>)
    ensures |s| == 7
  {
    LittleEndian(a.version, 2) + [0x41, 0x45, a.strength] + LittleEndian(a.actual, 2)
  }

  /** What a record is to say. `in32` are the values as its fixed header holds them, sentinels included, and `front`
      and `back` fields of no interest around those that are. */
  datatype Member = Member(
    versions: nat, flags: nat, compression: nat, time: nat, crc: nat, attributes: nat,
    name: seq<byte>, comment: seq<byte>,
    uncompressed: nat, compressed: nat, offset: nat, disk: nat, in32: Z.Values,
    aes: Option<AesInfo>, front: seq<Z.Field>, back: seq<Z.Field>
  ) {
    function Values(): Z.Values {
      Z.Values(uncompressed, compressed, offset, disk)
    }

    /** Some value is left to a ZIP64 field. */
    predicate NeedsZip64() {
      || in32.uncompressed == 0xFFFF_FFFF || in32.compressed == 0xFFFF_FFFF || in32.offset == 0xFFFF_FFFF
      || in32.disk == 0xFFFF
    }

    function Extra(): seq<Z.Field> {
      front
      + (if NeedsZip64() then [Z.Field(1, Z.Encoded(in32, Values()))] else [])
      + (if aes.Some? then [Z.Field(0x9901, AesData(aes.value))] else [])
      + back
    }

    ghost predicate Valid() {
      && in32.uncompressed <= 0xFFFF_FFFF && in32.compressed <= 0xFFFF_FFFF && in32.offset <= 0xFFFF_FFFF && in32.disk <= 0xFFFF
      && flags < 0x1_0000 && compression < 0x1_0000 && |name| < 0x1_0000 && |comment| < 0x1_0000
      && Z.Fits64(Values()) && Z.StandsFor(in32, Values()) && (aes.Some? ==> aes.value.Valid())
      && Z.AllValid(front) && Z.AllValid(back) && Unrelated(front) && Unrelated(back)
      && |Z.StoredAll(Extra())| < 0x1_0000
    }

    /** What the archive can have: a name without a zero byte, one disk, AES facts just where the method calls for
        them, and a local header before the directory. */
    predicate Usable(fileSize: nat, directory: nat) {
      && name != [] && 0 !in name && disk == 0
      && (if compression == 99 then flags % 2 == 1 && aes.Some? else aes.None?)
      && offset < directory && compressed <= fileSize && offset + 30 <= 0xFFFF_FFFF_FFFF_FFFF
    }
  }

  /** The 46 fixed bytes of the record. */
  function Header(m: Member): (s: seq<byte>)
    ensures |s| == 46
  {
    [0x50, 0x4B, 1, 2] + LittleEndian(m.versions, 4) + LittleEndian(m.flags, 2) + LittleEndian(m.compression, 2)
    + LittleEndian(m.time, 4) + LittleEndian(m.crc, 4)
    + LittleEndian(m.in32.compressed, 4) + LittleEndian(m.in32.uncompressed, 4)
    + LittleEndian(|m.name|, 2) + LittleEndian(|Z.StoredAll(m.Extra())|, 2) + LittleEndian(|m.comment|, 2)
    + LittleEndian(m.in32.disk, 2) + LittleEndian(m.attributes, 6) + LittleEndian(m.in32.offset, 4)
  }

  function Record(m: Member): (s: seq<byte>)
  {
    Header(m) + m.name + Z.StoredAll(m.Extra()) + m.comment
  }

  /** The entry that lists the member. */
  function Listing(m: Member): Entry
  {
    Entry(Header(m), m.name, m.uncompressed, m.compressed, m.offset,
          if m.aes.Some? then Aes(m.aes.value.strength as nat, m.aes.value.actual) else Aes(0, m.compression))
  }

  // ---------------------------------------------------------------- the fixed header

  lemma HeaderSlices(m: Member)
    requires m.Valid()
    ensures var hdr, v := Header(m), m.in32;
            && hdr[0..4] == [0x50, 0x4B, 1, 2] && hdr[8..10] == LittleEndian(m.flags, 2) && hdr[10..12] == LittleEndian(m.compression, 2)
            && hdr[20..24] == LittleEndian(v.compressed, 4) && hdr[24..28] == LittleEndian(v.uncompressed, 4)
            && hdr[28..30] == LittleEndian(|m.name|, 2) && hdr[30..32] == LittleEndian(|Z.StoredAll(m.Extra())|, 2)
            && hdr[32..34] == LittleEndian(|m.comment|, 2) && hdr[34..36] == LittleEndian(v.disk, 2)
            && hdr[42..46] == LittleEndian(v.offset, 4)
  {
    hide LittleEndian, Z.StoredAll, Z.Encoded;
  }

  lemma HeaderFields(m: Member)
    requires m.Valid()
    ensures var hdr := Header(m);
            && (IsHeader(hdr) <==> m.name != []) && CentralDirectory.Stored(hdr) == m.in32
            && Le16(hdr, 8) == m.flags && Le16(hdr, 10) == m.compression
            && NameLen(hdr) == |m.name| && ExtraLen(hdr) == |Z.StoredAll(m.Extra())| && CommentLen(hdr) == |m.comment|
  {
    hide Le16, Le32, LittleEndian, Z.StoredAll, Z.Encoded;
    var hdr, v := Header(m), m.in32;
    HeaderSlices(m);
    DescriptorBytes.SignatureBytes();
    Le32Is(hdr, 0, SIGN_CENTRAL_DIR);
    Le16Is(hdr, 8, m.flags); Le16Is(hdr, 10, m.compression);
    Le32Is(hdr, 20, v.compressed); Le32Is(hdr, 24, v.uncompressed);
    Le16Is(hdr, 28, |m.name|); Le16Is(hdr, 30, |Z.StoredAll(m.Extra())|); Le16Is(hdr, 32, |m.comment|);
    Le16Is(hdr, 34, v.disk); Le32Is(hdr, 42, v.offset);
  }

  // ---------------------------------------------------------------- the extra fields

  /** An AES field is well formed exactly if it starts with one of two versions, the letters AE and a strength. */
  lemma AesFieldInBytes(data: seq<byte>)
    ensures AesField(data)
       <==> && |data| >= 7 && (data[..2] == [1, 0] || data[..2] == [2, 0])
            && data[2..4] == [0x41, 0x45] && 1 <= data[4] <= 3
  {
    if |data| >= 7 {
      assert data[..2] == [data[0], data[1]] && data[2..4] == [data[2], data[3]];
    }
  }

  lemma ReadAes(a: AesInfo)
    requires a.Valid()
    ensures AesField(AesData(a)) && AesData(a)[4] == a.strength && Le16(AesData(a), 5) == a.actual
  {
    hide Le16, LittleEndian;
    var s := AesData(a);
    assert s[0..2] == LittleEndian(a.version, 2) && s[5..7] == LittleEndian(a.actual, 2);
    Le16Is(s, 0, a.version);
    Le16Is(s, 5, a.actual);
  }

  lemma {:induction false} LastAesAmong(before: seq<Z.Field>, f: Z.Field, after: seq<Z.Field>, plain: Aes)
    requires f.id == 0x9901 && |f.data| >= 7 && Unrelated(after)
    ensures LastAes(before + [f] + after, plain) == Aes(f.data[4] as nat, Le16(f.data, 5))
    decreases |after|
  {
    hide Le16;
    var all := before + [f] + after;
    if after == [] {
      assert all == before + [f];
    } else {
      var n := |after| - 1;
      assert all[..|all| - 1] == before + [f] + after[..n];
      assert all[|all| - 1] == after[n];
      LastAesAmong(before, f, after[..n], plain);
    }
  }

  lemma {:induction false} NoAesAmong(fs: seq<Z.Field>, plain: Aes)
    requires forall f <- fs :: f.id != 0x9901
    ensures LastAes(fs, plain) == plain && AllAesFields(fs)
    decreases |fs|
  {
    if fs != [] {
      NoAesAmong(fs[..|fs| - 1], plain);
    }
  }

  /** What the list of fields says of the AES facts. */
  lemma AesOfExtra(m: Member)
    requires m.Valid()
    ensures AllAesFields(m.Extra())
    ensures LastAes(m.Extra(), Aes(0, m.compression)) == Listing(m).aes
  {
    hide Le16, AesField, AesData, Z.Encoded, Z.StoredAll, Header;
    if m.aes.Some? {
      var f := Z.Field(0x9901, AesData(m.aes.value));
      var before := m.front + if m.NeedsZip64() then [Z.Field(1, Z.Encoded(m.in32, m.Values()))] else [];
      assert m.Extra() == before + [f] + m.back;
      ReadAes(m.aes.value);
      LastAesAmong(before, f, m.back, Aes(0, m.compression));
    } else {
      NoAesAmong(m.Extra(), Aes(0, m.compression));
    }
  }

  lemma EncodedIsShort(h: Z.Values, v: Z.Values)
    ensures |Z.Encoded(h, v)| <= 28
  {
  }

  /** The list of fields is read back, and gives the values that the header leaves out. */
  lemma ValuesOfExtra(m: Member)
    requires m.Valid()
    ensures Z.Fields(Z.StoredAll(m.Extra())) == Some(m.Extra())
    ensures Z.AllLongEnough(m.in32, m.Extra()) && Z.Values64(m.in32, m.Extra()) == m.Values()
    ensures Z.Accepts(m.in32, Z.StoredAll(m.Extra())) <==> m.disk == 0
    ensures m.Extra() == [] ==> !Z.HasSentinel(m.in32)
  {
    hide AesData, Z.Encoded, Z.StoredAll, Z.Fields, Z.LastZip64, Z.LongEnough, Z.Resolved;
    var aes := if m.aes.Some? then [Z.Field(0x9901, AesData(m.aes.value))] else [];
    EncodedIsShort(m.in32, m.Values());
    if m.NeedsZip64() {
      assert Z.Encoded(m.in32, m.Values()) + [] == Z.Encoded(m.in32, m.Values());
      assert m.Extra() == m.front + [Z.Field(1, Z.Encoded(m.in32, m.Values()) + [])] + (aes + m.back);
      Z.RoundTrip(m.in32, m.Values(), [], m.front, aes + m.back);
    } else {
      assert m.Extra() == m.front + aes + m.back;
      Z.FieldsOfStored(m.Extra());
      Z.NoneOfNone(m.Extra());
      Z.WithoutZip64(m.in32, Z.StoredAll(m.Extra()));
    }
  }

  // ---------------------------------------------------------------- one record

  lemma NothingStored(fs: seq<Z.Field>)
    ensures Z.StoredAll(fs) == [] <==> fs == []
  {
    if fs != [] {
      assert |Z.StoredAll(fs)| >= 4;
    }
  }

  /** The record of a member is usable exactly if the member is, and its entry says what the member says. */
  lemma AcceptsMember(m: Member, at: Place)
    requires m.Valid() && at.offset <= UINT64_MAX
    ensures RecordAccepts(Header(m), m.name, Z.StoredAll(m.Extra()), at) <==> m.Usable(at.fileSize, at.offset)
    ensures m.Usable(at.fileSize, at.offset) ==>
              && ExtraAccepts(Header(m), Z.StoredAll(m.Extra()))
              && EntryOf(Header(m), m.name, Z.StoredAll(m.Extra())) == Listing(m)
  {
    hide Header, IsHeader, Z.StoredAll, Z.Fields, Z.Accepts, Z.AllLongEnough, Z.Values64, Z.HasSentinel, LastAes, AllAesFields;
    HeaderFields(m);
    ValuesOfExtra(m);
    AesOfExtra(m);
    NothingStored(m.Extra());
  }

  lemma RecordParts(before: seq<byte>, m: Member, after: seq<byte>)
    requires m.Valid()
    ensures var src, pos := before + Record(m) + after, |before|;
            && pos + 46 <= |src| && src[pos..pos + 46] == Header(m)
            && pos + 46 + |m.name| + |Z.StoredAll(m.Extra())| <= |src|
            && src[pos + 46..pos + 46 + |m.name|] == m.name
            && src[pos + 46 + |m.name|..pos + 46 + |m.name| + |Z.StoredAll(m.Extra())|] == Z.StoredAll(m.Extra())
  {
    hide Header, Z.StoredAll;
  }

  lemma AcceptsExtra(hdr: seq<byte>, name: seq<byte>, extra: seq<byte>, at: Place)
    requires |hdr| == 46 && RecordAccepts(hdr, name, extra, at)
    ensures ExtraAccepts(hdr, extra)
  {
    hide ExtraAccepts;
  }

  lemma SmallNumbers()
    ensures LittleEndian(0, 2) == [0, 0] && LittleEndian(MAGIC16, 2) == [0xFF, 0xFF]
  {
    hide LittleEndian;
    var zeros: seq<byte>, ones: seq<byte> := [0, 0], [0xFF, 0xFF];
    TwoBytes(zeros, 0);
    TwoBytes(ones, 0);
    assert zeros[0..2] == zeros && ones[0..2] == ones;
  }

  lemma HeaderInBytes(hdr: seq<byte>)
    requires |hdr| == 46
    ensures IsHeader(hdr) <==> hdr[0..4] == [0x50, 0x4B, 1, 2] && hdr[28..30] != [0, 0]
    ensures CentralDirectory.Stored(hdr).disk == 0 <==> hdr[34..36] == [0, 0]
    ensures CentralDirectory.Stored(hdr).disk == MAGIC16 <==> hdr[34..36] == [0xFF, 0xFF]
  {
    hide Le16, Le32, LittleEndian;
    DescriptorBytes.SignatureBytes();
    SmallNumbers();
    Le32Is(hdr, 0, SIGN_CENTRAL_DIR);
    Le16Is(hdr, 28, 0);
    Le16Is(hdr, 34, 0);
    Le16Is(hdr, 34, MAGIC16);
  }

  lemma NameIsThere(hdr: seq<byte>)
    requires |hdr| == 46 && IsHeader(hdr)
    ensures NameLen(hdr) > 0
  {
  }

  /** Nothing is listed for bytes that do not start with the signature of a record, for a record without a name or on
      another disk, for a name with a zero byte, or for a member that does not lie before the directory. */
  lemma ListedRecord(src: seq<byte>, pos: nat, at: Place)
    requires RecordOf(src, pos, at).Some?
    ensures var e := RecordOf(src, pos, at).value.entry;
            && pos + 46 <= |src| && src[pos..pos + 4] == [0x50, 0x4B, 1, 2]
            && (src[pos + 34..pos + 36] == [0, 0] || src[pos + 34..pos + 36] == [0xFF, 0xFF])
            && e.header == src[pos..pos + 46] && e.name != [] && 0 !in e.name
            && e.offset < at.offset && e.compressed <= at.fileSize
  {
    hide Le16, Le32, ExtraAccepts, IsHeader;
    var hdr := HeaderAt(src, pos);
    HeaderInBytes(hdr);
    SliceOfSlice(src, pos, 46, 0, 4);
    SliceOfSlice(src, pos, 46, 34, 36);
    NameIsThere(hdr);
  }

  /** Nor does the first pass count bytes that do not start with that signature, or end outside the directory. */
  lemma CountedRecord(src: seq<byte>, count: nat)
    requires Skim(src, count + 1).Some?
    ensures Skim(src, count).Some?
    ensures var k := Skim(src, count).value;
            && k.end + 46 <= Skim(src, count + 1).value.end <= |src| && src[k.end..k.end + 4] == [0x50, 0x4B, 1, 2]
            && src[k.end + 28..k.end + 30] != [0, 0]
  {
    hide Le16, Le32, IsHeader;
    var k := Skim(src, count).value;
    HeaderInBytes(HeaderAt(src, k.end));
    SliceOfSlice(src, k.end, 46, 0, 4);
    SliceOfSlice(src, k.end, 46, 28, 30);
  }

  /** A record in terms of its parts. */
  lemma RecordIs(src: seq<byte>, pos: nat, hdr: seq<byte>, name: seq<byte>, extra: seq<byte>, commentLen: nat, at: Place)
    requires |hdr| == 46 && NameLen(hdr) == |name| && ExtraLen(hdr) == |extra| && CommentLen(hdr) == commentLen
    requires pos + 46 + |name| + |extra| <= |src| && src[pos..pos + 46] == hdr
    requires src[pos + 46..pos + 46 + |name|] == name
    requires src[pos + 46 + |name|..pos + 46 + |name| + |extra|] == extra
    ensures RecordAccepts(hdr, name, extra, at) ==> ExtraAccepts(hdr, extra)
    ensures RecordOf(src, pos, at)
         == if RecordAccepts(hdr, name, extra, at)
            then Some(Read(EntryOf(hdr, name, extra), pos + 46 + |name| + |extra| + commentLen)) else None
  {
    hide NameLen, ExtraLen, CommentLen, RecordAccepts, EntryOf, ExtraAccepts;
    if RecordAccepts(hdr, name, extra, at) {
      AcceptsExtra(hdr, name, extra, at);
    }
    assert HeaderAt(src, pos) == hdr;
    assert RecordAt(src, pos, at) <==> RecordAccepts(hdr, name, extra, at);
  }

  lemma RecordLength(before: seq<byte>, m: Member)
    ensures |before + Record(m)| == |before| + 46 + |m.name| + |Z.StoredAll(m.Extra())| + |m.comment|
  {
    hide Header, Z.StoredAll;
  }

  /** The record of a member is read back, anywhere, exactly if the member is usable. */
  lemma ReadBack(before: seq<byte>, m: Member, after: seq<byte>, at: Place)
    requires m.Valid() && at.offset <= UINT64_MAX
    ensures RecordOf(before + Record(m) + after, |before|, at)
         == if m.Usable(at.fileSize, at.offset) then Some(Read(Listing(m), |before + Record(m)|)) else None
  {
    hide Header, Z.StoredAll, Record, RecordAccepts, RecordOf, EntryOf, ExtraAccepts, IsHeader, Listing;
    hide NameLen, ExtraLen, CommentLen, Member.Usable;
    RecordLength(before, m);
    RecordParts(before, m, after);
    HeaderFields(m);
    AcceptsMember(m, at);
    RecordIs(before + Record(m) + after, |before|, Header(m), m.name, Z.StoredAll(m.Extra()), |m.comment|, at);
  }

  // ---------------------------------------------------------------- the directory

  ghost predicate AllMembers(ms: seq<Member>) {
    forall m <- ms :: m.Valid()
  }

  ghost predicate AllUsable(ms: seq<Member>, fileSize: nat, directory: nat) {
    forall m <- ms :: m.Usable(fileSize, directory)
  }

  function Directory(ms: seq<Member>): seq<byte>
  {
    if ms == [] then [] else Directory(ms[..|ms| - 1]) + Record(ms[|ms| - 1])
  }

  function Listings(ms: seq<Member>): seq<Entry>
  {
    if ms == [] then [] else Listings(ms[..|ms| - 1]) + [Listing(ms[|ms| - 1])]
  }

  /** A walk over a written directory gives its members in order, exactly if all are usable. */
  lemma {:induction false} WalkBack(before: seq<byte>, ms: seq<Member>, after: seq<byte>, at: Place)
    requires AllMembers(ms) && at.offset <= UINT64_MAX
    ensures Walk(before + Directory(ms) + after, |before|, |ms|, at)
         == if AllUsable(ms, at.fileSize, at.offset)
            then Some(Walked(Listings(ms), |before + Directory(ms)|)) else None
    decreases |ms|
  {
    hide RecordOf, Record, Listing;
    if ms != [] {
      var n := |ms| - 1;
      var start := before + Directory(ms[..n]);
      assert before + Directory(ms) + after == before + Directory(ms[..n]) + (Record(ms[n]) + after);
      assert before + Directory(ms) + after == start + Record(ms[n]) + after;
      assert before + Directory(ms) == start + Record(ms[n]);
      WalkBack(before, ms[..n], Record(ms[n]) + after, at);
      ReadBack(start, ms[n], after, at);
      assert ms == ms[..n] + [ms[n]];
    }
  }

  // ---------------------------------------------------------------- the archive

  /** What zipy_open lists for a directory of members behind the body of an archive. */
  lemma ListedBack(body: seq<byte>, ms: seq<Member>, tail: seq<byte>, o: nat, mapped: bool)
    requires AllMembers(ms) && |body| <= UINT64_MAX
    ensures var file := body + Directory(ms) + tail;
            Listed(file, Eocd.Dir(|file|, o, |body|, |Directory(ms)|, |ms|), mapped)
            == if AllUsable(ms, |file|, |body|) then Some(Listings(ms)) else None
  {
    hide Walk, AllMembers, AllUsable, Directory, Listings;
    var file, dir := body + Directory(ms) + tail, Directory(ms);
    var at := Place(|file|, |body|, |dir|);
    if mapped {
      assert Central(file, at) == dir == [] + dir + [] == [] + dir;
      WalkBack([], ms, [], at);
    } else {
      WalkBack(body, ms, tail, at);
    }
  }

  lemma OpensFound(file: seq<byte>, d: Eocd.Dir, mapped: bool, es: Option<seq<Entry>>)
    requires forall r :: Eocd.SearchResult(file, r) <==> r == Some(d)
    requires d.centralOffset + d.centralSize <= |file|
    ensures Opens(file, mapped, es) <==> es == Listed(file, d, mapped)
  {
    hide Eocd.SearchResult, Listed;
    assert Eocd.SearchResult(file, Some(d));
    if es == Listed(file, d, mapped) {
      assert ListedFrom(file, Some(d), mapped, es);
    }
  }

  /** The archive up to its end record: body, directory, ZIP64 end record, locator. */
  function Zip64Before(body: seq<byte>, ms: seq<Member>, versions: nat): seq<byte> {
    body + Directory(ms)
    + EocdRoundTrip.StoredEnd64(EocdRoundTrip.End64(44, versions, 0, 0, |ms|, |ms|, |Directory(ms)|, |body|))
    + EocdRoundTrip.StoredLocator(0, |body + Directory(ms)|, 1)
  }

  /** An archive without ZIP64 records is listed exactly as it was written, mapped or not, if all its members are
      usable, and refused otherwise. */
  lemma ArchiveIsListed(body: seq<byte>, ms: seq<Member>, comment: seq<byte>, mapped: bool, es: Option<seq<Entry>>)
    requires AllMembers(ms) && |ms| < 0xFFFF && |body| < 0xFFFF_FFFF && |Directory(ms)| < 0xFFFF_FFFF && |comment| <= 0xFFFF
    requires var e := EocdRoundTrip.End(0, 0, |ms|, |ms|, |Directory(ms)|, |body|, comment);
             var before := body + Directory(ms);
             forall p: nat :: |before| < p ==> !Eocd.EndsFile(before + EocdRoundTrip.StoredEnd(e), p)
    ensures var e := EocdRoundTrip.End(0, 0, |ms|, |ms|, |Directory(ms)|, |body|, comment);
            var file := body + Directory(ms) + EocdRoundTrip.StoredEnd(e);
            Opens(file, mapped, es) <==> es == if AllUsable(ms, |file|, |body|) then Some(Listings(ms)) else None
  {
    hide Eocd.SearchResult, Eocd.EndsFile, EocdRoundTrip.StoredEnd, Listed, AllMembers, AllUsable, Directory, Listings;
    var e := EocdRoundTrip.End(0, 0, |ms|, |ms|, |Directory(ms)|, |body|, comment);
    var before := body + Directory(ms);
    var file := before + EocdRoundTrip.StoredEnd(e);
    var d := Eocd.Dir(|file|, |before|, |body|, |Directory(ms)|, |ms|);
    ListedBack(body, ms, EocdRoundTrip.StoredEnd(e), |before|, mapped);
    OpensFound(file, d, mapped, es) by {
      forall r
        ensures Eocd.SearchResult(file, r) <==> r == Some(d)
      {
        EocdRoundTrip.PlainEnd(before, e, r);
      }
    }
  }

  /** The same with a ZIP64 end record and locator, for any directory that 64 bits can describe. */
  lemma Zip64ArchiveIsListed(body: seq<byte>, ms: seq<Member>, versions: nat, e: EocdRoundTrip.End, mapped: bool,
                             es: Option<seq<Entry>>)
    requires AllMembers(ms) && |body + Directory(ms)| <= UINT64_MAX && |ms| <= UINT64_MAX && versions < 0x1_0000_0000
    requires e.Valid() && e.LeavesToZip64()
    requires var before := Zip64Before(body, ms, versions);
             forall p: nat :: |before| < p ==> !Eocd.EndsFile(before + EocdRoundTrip.StoredEnd(e), p)
    ensures var file := Zip64Before(body, ms, versions) + EocdRoundTrip.StoredEnd(e);
            Opens(file, mapped, es) <==> es == if AllUsable(ms, |file|, |body|) then Some(Listings(ms)) else None
  {
    hide Eocd.SearchResult, Eocd.EndsFile, EocdRoundTrip.StoredEnd, EocdRoundTrip.StoredEnd64, EocdRoundTrip.StoredLocator;
    hide Listed, AllMembers, AllUsable, Directory, Listings;
    var head := body + Directory(ms);
    var z := EocdRoundTrip.End64(44, versions, 0, 0, |ms|, |ms|, |Directory(ms)|, |body|);
    var before := Zip64Before(body, ms, versions);
    var file := before + EocdRoundTrip.StoredEnd(e);
    var records := EocdRoundTrip.StoredEnd64(z) + EocdRoundTrip.StoredLocator(0, |head|, 1);
    assert before == head + EocdRoundTrip.StoredEnd64(z) + [] + EocdRoundTrip.StoredLocator(0, |head|, 1);
    assert file == body + Directory(ms) + (records + EocdRoundTrip.StoredEnd(e));
    var d := Eocd.Dir(|file|, |before|, |body|, |Directory(ms)|, |ms|);
    ListedBack(body, ms, records + EocdRoundTrip.StoredEnd(e), |before|, mapped);
    OpensFound(file, d, mapped, es) by {
      forall r
        ensures Eocd.SearchResult(file, r) <==> r == Some(d)
      {
        EocdRoundTrip.Zip64End(head, z, [], 0, 1, e, r);
      }
    }
  }
}

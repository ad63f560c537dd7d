// The two walks of zipy_open over the central directory (section 4.3.12 of
// APPNOTE.TXT): one over a mapped directory, with a name slab of the exact size
// set aside first, and one that reads the file record by record.
module CentralDirectory {
  import opened Bytes
  import opened Signatures
  import Eocd
  import Paths
  import Zip64Extra

  const CENTRAL_FIXED: nat := 46
  const LOCAL_FIXED: nat := 30
  const CHUNK: nat := 4096
  const AES_ID: nat := 0x9901
  const AES_METHOD: nat := 99
  const ENCRYPTED: nat := 1

  /** Where find_eocd put the directory. */
  datatype Place = Place(fileSize: nat, offset: nat, size: nat)

  /** The WinZip AES facts of a record: strength 0 when it has none. */
  datatype Aes = Aes(strength: nat, actualMethod: nat)

  /** What one record says. */
  datatype Entry = Entry(header: seq<byte>, name: seq<byte>, uncompressed: nat, compressed: nat, offset: nat, aes: Aes)

  // ---------------------------------------------------------------- specification of one record

  function NameLen(hdr: seq<byte>): nat
    requires |hdr| == CENTRAL_FIXED
  {
    Le16(hdr, 28)
  }

  function ExtraLen(hdr: seq<byte>): nat
    requires |hdr| == CENTRAL_FIXED
  {
    Le16(hdr, 30)
  }

  function CommentLen(hdr: seq<byte>): nat
    requires |hdr| == CENTRAL_FIXED
  {
    Le16(hdr, 32)
  }

  function RecordLen(hdr: seq<byte>): nat
    requires |hdr| == CENTRAL_FIXED
  {
    CENTRAL_FIXED + NameLen(hdr) + ExtraLen(hdr) + CommentLen(hdr)
  }

  predicate IsHeader(hdr: seq<byte>)
    requires |hdr| == CENTRAL_FIXED
  {
    Le32(hdr, 0) == SIGN_CENTRAL_DIR && NameLen(hdr) != 0
  }

  function Stored(hdr: seq<byte>): Zip64Extra.Values
    requires |hdr| == CENTRAL_FIXED
  {
    Zip64Extra.Values(Le32(hdr, 24), Le32(hdr, 20), Le32(hdr, 42), Le16(hdr, 34))
  }

  /** A well-formed AES field. */
  predicate AesField(data: seq<byte>) {
    && |data| >= 7 && data[2] == 0x41 && data[3] == 0x45 && 1 <= data[4] <= 3
    && (Le16(data, 0) == 1 || Le16(data, 0) == 2)
  }

  ghost predicate AllAesFields(fs: seq<Zip64Extra.Field>) {
    forall f <- fs :: f.id == AES_ID ==> AesField(f.data)
  }

  /** What the last AES field says. */
  function LastAes(fs: seq<Zip64Extra.Field>, plain: Aes): Aes {
    if fs == [] then plain
    else
      var f := fs[|fs| - 1];
      if f.id == AES_ID && |f.data| >= 7 then Aes(f.data[4] as nat, Le16(f.data, 5))
      else LastAes(fs[..|fs| - 1], plain)
  }

  /** Without extra bytes the fixed header must be enough. The disk number is not looked at here. */
  predicate PlainAccepts(hdr: seq<byte>)
    requires |hdr| == CENTRAL_FIXED
  {
    !Zip64Extra.HasSentinel(Stored(hdr))
  }

  ghost predicate ExtraAccepts(hdr: seq<byte>, extra: seq<byte>)
    requires |hdr| == CENTRAL_FIXED
  {
    if extra == [] then PlainAccepts(hdr)
    else Zip64Extra.Accepts(Stored(hdr), extra) && AllAesFields(Zip64Extra.Fields(extra).value)
  }

  /** The entry of a record that its extra bytes do not refuse. */
  ghost function EntryOf(hdr: seq<byte>, name: seq<byte>, extra: seq<byte>): (e: Entry)
    requires |hdr| == CENTRAL_FIXED && ExtraAccepts(hdr, extra)
    ensures e.header == hdr && e.name == name
  {
    var plain := Aes(0, Le16(hdr, 10));
    if extra == [] then Entry(hdr, name, Stored(hdr).uncompressed, Stored(hdr).compressed, Stored(hdr).offset, plain)
    else
      var fs := Zip64Extra.Fields(extra).value;
      var v := Zip64Extra.Values64(Stored(hdr), fs);
      Entry(hdr, name, v.uncompressed, v.compressed, v.offset, LastAes(fs, plain))
  }

  /** An entry that the archive can have: AES data go with the AES method, and the local header lies before
      the directory. */
  predicate Plausible(e: Entry, at: Place)
    requires |e.header| == CENTRAL_FIXED
  {
    && (if Le16(e.header, 10) == AES_METHOD then Le16(e.header, 8) % 2 == ENCRYPTED && e.aes.strength != 0 else e.aes.strength == 0)
    && e.offset < at.offset && e.compressed <= at.fileSize && LOCAL_FIXED <= UINT64_MAX - e.offset
  }

  ghost predicate RecordAccepts(hdr: seq<byte>, name: seq<byte>, extra: seq<byte>, at: Place)
    requires |hdr| == CENTRAL_FIXED
  {
    && IsHeader(hdr)
    && (Stored(hdr).disk == 0 || Stored(hdr).disk == MAGIC16)
    && 0 !in name
    && ExtraAccepts(hdr, extra)
    && Plausible(EntryOf(hdr, name, extra), at)
  }

  // ---------------------------------------------------------------- specification of the walk

  function HeaderAt(src: seq<byte>, pos: nat): (hdr: seq<byte>)
    requires pos + CENTRAL_FIXED <= |src|
    ensures |hdr| == CENTRAL_FIXED
  {
    src[pos..pos + CENTRAL_FIXED]
  }

  function NameAt(src: seq<byte>, pos: nat): seq<byte>
    requires pos + CENTRAL_FIXED <= |src| && pos + CENTRAL_FIXED + NameLen(HeaderAt(src, pos)) <= |src|
  {
    src[pos + CENTRAL_FIXED..pos + CENTRAL_FIXED + NameLen(HeaderAt(src, pos))]
  }

  function ExtraAt(src: seq<byte>, pos: nat): seq<byte>
    requires pos + CENTRAL_FIXED <= |src|
    requires var hdr := HeaderAt(src, pos); pos + CENTRAL_FIXED + NameLen(hdr) + ExtraLen(hdr) <= |src|
  {
    var hdr := HeaderAt(src, pos);
    src[pos + CENTRAL_FIXED + NameLen(hdr)..pos + CENTRAL_FIXED + NameLen(hdr) + ExtraLen(hdr)]
  }

  /** A usable record starts at pos: all of it but its comment is there. */
  ghost predicate RecordAt(src: seq<byte>, pos: nat, at: Place) {
    && pos + CENTRAL_FIXED <= |src|
    && var hdr := HeaderAt(src, pos);
    && pos + CENTRAL_FIXED + NameLen(hdr) + ExtraLen(hdr) <= |src|
    && RecordAccepts(hdr, NameAt(src, pos), ExtraAt(src, pos), at)
  }

  /** Where the record at pos ends. */
  function EndOfRecord(src: seq<byte>, pos: nat): nat
    requires pos + CENTRAL_FIXED <= |src|
  {
    pos + RecordLen(HeaderAt(src, pos))
  }

  datatype Read = Read(entry: Entry, end: nat)

  /** The record at pos and where it ends, if it is usable. */
  ghost function RecordOf(src: seq<byte>, pos: nat, at: Place): (r: Option<Read>)
    ensures r.Some? ==> pos + CENTRAL_FIXED <= |src| && r.value.end >= pos
  {
    if RecordAt(src, pos, at)
    then Some(Read(EntryOf(HeaderAt(src, pos), NameAt(src, pos), ExtraAt(src, pos)), EndOfRecord(src, pos)))
    else None
  }

  datatype Walked = Walked(entries: seq<Entry>, end: nat)

  /** The entries of the first count records from pos on, and where they end. */
  ghost function Walk(src: seq<byte>, pos: nat, count: nat, at: Place): Option<Walked>
    decreases count
  {
    if count == 0 then Some(Walked([], pos))
    else
      match Walk(src, pos, count - 1, at)
      case None => None
      case Some(w) =>
        match RecordOf(src, w.end, at)
        case None => None
        case Some(r) => Some(Walked(w.entries + [r.entry], r.end))
  }

  /** Once a record fails there is no longer walk. */
  lemma {:induction false} NoLongerWalk(src: seq<byte>, pos: nat, i: nat, count: nat, at: Place)
    requires i <= count && Walk(src, pos, i, at).None?
    ensures Walk(src, pos, count, at).None?
    decreases count
  {
    hide RecordOf;
    if i < count {
      NoLongerWalk(src, pos, i, count - 1, at);
    }
  }

  lemma {:induction false} WalkAdvances(src: seq<byte>, pos: nat, i: nat, count: nat, at: Place)
    requires i <= count && Walk(src, pos, count, at).Some?
    ensures Walk(src, pos, i, at).Some?
    ensures Walk(src, pos, i, at).value.end <= Walk(src, pos, count, at).value.end
    decreases count
  {
    hide RecordOf;
    if i < count {
      WalkAdvances(src, pos, i, count - 1, at);
    }
  }

  /** All names in order, each with its zero byte. */
  function AllNames(es: seq<Entry>): seq<byte> {
    if es == [] then [] else AllNames(es[..|es| - 1]) + es[|es| - 1].name + [0]
  }

  datatype Skimmed = Skimmed(total: nat, end: nat)

  /** The first pass: the bytes that the names of count records need, and where the records end. */
  function Skim(src: seq<byte>, count: nat): Option<Skimmed>
    decreases count
  {
    if count == 0 then Some(Skimmed(0, 0))
    else
      match Skim(src, count - 1)
      case None => None
      case Some(k) =>
        if k.end + CENTRAL_FIXED <= |src| && IsHeader(HeaderAt(src, k.end)) && EndOfRecord(src, k.end) <= |src|
        then Some(Skimmed(k.total + NameLen(HeaderAt(src, k.end)) + 1, EndOfRecord(src, k.end)))
        else None
  }

  lemma {:induction false} SkimGrows(src: seq<byte>, i: nat, count: nat)
    requires i <= count
    ensures Skim(src, i).None? ==> Skim(src, count).None?
    ensures Skim(src, count).Some? ==> Skim(src, i).value.total <= Skim(src, count).value.total
    ensures Skim(src, count).Some? && i < count ==> Skim(src, i).value.total < Skim(src, count).value.total
    decreases count
  {
    hide IsHeader, RecordLen, HeaderAt;
    if i < count {
      SkimGrows(src, i, count - 1);
    }
  }

  // ---------------------------------------------------------------- one record

  lemma OneMoreAes(done: seq<Zip64Extra.Field>, f: Zip64Extra.Field, plain: Aes)
    ensures AllAesFields(done + [f]) <==> AllAesFields(done) && (f.id == AES_ID ==> AesField(f.data))
    ensures LastAes(done + [f], plain)
         == if f.id == AES_ID && |f.data| >= 7 then Aes(f.data[4] as nat, Le16(f.data, 5)) else LastAes(done, plain)
  {
  }

  lemma BadAes(done: seq<Zip64Extra.Field>, f: Zip64Extra.Field, rest: Option<seq<Zip64Extra.Field>>)
    requires f.id == AES_ID && !AesField(f.data)
    ensures Zip64Extra.Then(done + [f], rest).Some? ==> !AllAesFields(Zip64Extra.Then(done + [f], rest).value)
  {
  }

  lemma NoAes(plain: Aes)
    ensures AllAesFields([]) && LastAes([], plain) == plain
  {
  }

  /** parse_aes_extra */
  method ParseAesExtra(extra: seq<byte>, plain: Aes) returns (r: Option<Aes>)
    ensures r.Some? <==> Zip64Extra.Fields(extra).Some? && AllAesFields(Zip64Extra.Fields(extra).value)
    ensures r.Some? ==> r.value == LastAes(Zip64Extra.Fields(extra).value, plain)
  {
    hide Le16, Zip64Extra.Fields, LastAes, AllAesFields;
    Zip64Extra.FieldsStart(extra);
    NoAes(plain);
    var pos, aes := 0, plain;
    ghost var done: seq<Zip64Extra.Field> := [];
    while |extra| - pos >= 4
      invariant 0 <= pos <= |extra|
      invariant Zip64Extra.Fields(extra) == Zip64Extra.Then(done, Zip64Extra.Fields(extra[pos..]))
      invariant AllAesFields(done) && aes == LastAes(done, plain)
    {
      Zip64Extra.FieldsStep(extra, pos);
      var id, size := Le16(extra, pos), Le16(extra, pos + 2);
      pos := pos + 4;
      if size > |extra| - pos {
        return None;
      }
      var p := extra[pos..pos + size];
      ghost var f := Zip64Extra.Field(id, p);
      OneMoreAes(done, f, plain);
      Zip64Extra.ThenOneMore(done, f, Zip64Extra.Fields(extra[pos + size..]));
      if id == AES_ID {
        if size < 7 || p[2] != 0x41 || p[3] != 0x45 || p[4] < 1 || p[4] > 3 || (Le16(p, 0) != 1 && Le16(p, 0) != 2) {
          BadAes(done, f, Zip64Extra.Fields(extra[pos + size..]));
          return None;
        }
        aes := Aes(p[4] as nat, Le16(p, 5));
      }
      done := done + [f];
      pos := pos + size;
    }
    Zip64Extra.FieldsEnd(extra, pos);
    assert done + [] == done;
    r := if pos == |extra| then Some(aes) else None;
  }

  lemma AcceptedFields(hdr: seq<byte>, extra: seq<byte>)
    requires |hdr| == CENTRAL_FIXED
    ensures Zip64Extra.Accepts(Stored(hdr), extra) ==> Zip64Extra.Fields(extra).Some?
  {
  }

  /** The rest of the loop body of zipy_open, once the name and the extra bytes of a record are there. */
  method ParseEntry(hdr: seq<byte>, name: seq<byte>, extra: seq<byte>, at: Place) returns (r: Option<Entry>)
    requires |hdr| == CENTRAL_FIXED && |name| < 0x1_0000
    ensures r.Some? <==> 0 !in name && ExtraAccepts(hdr, extra) && Plausible(EntryOf(hdr, name, extra), at)
    ensures r.Some? ==> r.value == EntryOf(hdr, name, extra)
  {
    hide Le16, Le32, Zip64Extra.Accepts, Zip64Extra.Values64, LastAes, AllAesFields, Paths.Describes;
    AcceptedFields(hdr, extra);
    var facts := Paths.ScanMemberName(name);
    if facts.None? {
      return None;
    }
    var h := Zip64Extra.Values(Le32(hdr, 24), Le32(hdr, 20), Le32(hdr, 42), Le16(hdr, 34));
    var zipMethod := Le16(hdr, 10);
    var info := new Zip64Extra.Info(h);
    var aes := Aes(0, zipMethod);
    if |extra| > 0 {
      var ok := info.ParseZip64Extra(h, extra);
      if !ok {
        return None;
      }
      var found := ParseAesExtra(extra, aes);
      if found.None? {
        return None;
      }
      aes := found.value;
    } else if h.compressed == MAGIC32 || h.uncompressed == MAGIC32 || h.offset == MAGIC32 {
      return None;
    }
    var e := Entry(hdr, name, info.uncompressed, info.compressed, info.offset, aes);
    assert e == EntryOf(hdr, name, extra);
    if zipMethod == AES_METHOD {
      if Le16(hdr, 8) % 2 != ENCRYPTED || aes.strength == 0 {
        return None;
      }
    } else if aes.strength != 0 {
      return None;
    }
    if info.offset >= at.offset || info.compressed > at.fileSize || UINT64_MAX - info.offset < LOCAL_FIXED {
      return None;
    }
    r := Some(e);
  }

  /** One turn of the loop up to ParseEntry: over the mapped directory the record with its comment must be
      inside; from the file, each part is read in turn. */
  method ReadRecord(src: seq<byte>, pos: nat, at: Place, mapped: bool) returns (r: Option<Read>)
    requires mapped ==> pos <= |src|
    ensures var spec := RecordOf(src, pos, at);
            r == if mapped && spec.Some? && spec.value.end > |src| then None else spec
  {
    hide Le16, Le32, ExtraAccepts, Plausible, EntryOf;
    var header := None;
    if mapped {
      if |src| - pos < CENTRAL_FIXED {
        return None;
      }
      header := Some(src[pos..pos + CENTRAL_FIXED]);
    } else {
      header := ReadExact(src, pos, CENTRAL_FIXED);
      if header.None? {
        return None;
      }
    }
    var hdr := header.value;
    if Le32(hdr, 0) != SIGN_CENTRAL_DIR {
      return None;
    }
    var nameLen, extraLen, commentLen, disk := Le16(hdr, 28), Le16(hdr, 30), Le16(hdr, 32), Le16(hdr, 34);
    if nameLen == 0 || (disk != 0 && disk != MAGIC16) {
      return None;
    }
    var nameAt := pos + CENTRAL_FIXED;
    var name, extra := None, Some([]);
    if mapped {
      if CENTRAL_FIXED + nameLen + extraLen + commentLen > |src| - pos {
        return None;
      }
      name := Some(src[nameAt..nameAt + nameLen]);
      extra := Some(src[nameAt + nameLen..nameAt + nameLen + extraLen]);
    } else {
      name := ReadExact(src, nameAt, nameLen);
      if name.None? {
        return None;
      }
      if extraLen > 0 {
        extra := ReadExact(src, nameAt + nameLen, extraLen);
        if extra.None? {
          return None;
        }
      }
    }
    var e := ParseEntry(hdr, name.value, extra.value, at);
    if e.None? {
      return None;
    }
    r := Some(Read(e.value, pos + CENTRAL_FIXED + nameLen + extraLen + commentLen));
  }

  // ---------------------------------------------------------------- the archive

  /** name_chunk_t: the used bytes, and how many there may be. */
  datatype Chunk = Chunk(data: seq<byte>, cap: nat)

  /** Where a name was put. */
  datatype Ref = Ref(chunk: nat, offset: nat)

  /** The name of e stands where its reference says, with its zero byte. */
  predicate IsStored(chunks: seq<Chunk>, ref: Ref, name: seq<byte>) {
    && ref.chunk < |chunks|
    && ref.offset + |name| < |chunks[ref.chunk].data|
    && chunks[ref.chunk].data[ref.offset..ref.offset + |name| + 1] == name + [0]
  }

  /** Chunks only grow: what was used stays as it was. */
  ghost predicate Grown(before: seq<Chunk>, after: seq<Chunk>) {
    |before| <= |after| && forall c :: 0 <= c < |before| ==> before[c].data <= after[c].data
  }

  /** mapped_range: the mapped directory. */
  function Central(file: seq<byte>, at: Place): (c: seq<byte>)
    requires at.offset + at.size <= |file|
    ensures |c| == at.size
  {
    file[at.offset..at.offset + at.size]
  }

  lemma OneMoreName(es: seq<Entry>, e: Entry)
    ensures AllNames(es + [e]) == AllNames(es) + e.name + [0]
  {
  }

  lemma SkimNext(src: seq<byte>, i: nat, at: Place)
    requires Skim(src, i).Some?
    requires var r := RecordOf(src, Skim(src, i).value.end, at); r.Some? && r.value.end <= |src|
    ensures var r := RecordOf(src, Skim(src, i).value.end, at).value;
            Skim(src, i + 1) == Some(Skimmed(Skim(src, i).value.total + |r.entry.name| + 1, r.end))
  {
    hide Le32, IsHeader, NameLen, RecordLen, ExtraAccepts, EntryOf, Plausible, Stored;
    assert IsHeader(HeaderAt(src, Skim(src, i).value.end));
  }

  /** The first pass and the second take the same step. */
  lemma SkimStep(src: seq<byte>, i: nat, count: nat, at: Place)
    requires i < count && Skim(src, i).Some?
    requires var r := RecordOf(src, Skim(src, i).value.end, at); r.Some? && r.value.end <= |src|
    ensures var r := RecordOf(src, Skim(src, i).value.end, at).value;
            Skim(src, i + 1) == Some(Skimmed(Skim(src, i).value.total + |r.entry.name| + 1, r.end))
    ensures Skim(src, count).Some? ==> Skim(src, i + 1).value.total <= Skim(src, count).value.total
  {
    hide Skim, RecordOf;
    SkimNext(src, i, at);
    SkimGrows(src, i + 1, count);
  }

  lemma NoNames(src: seq<byte>)
    ensures AllNames([]) == [] && Skim(src, 0) == Some(Skimmed(0, 0))
  {
  }

  /** A walk that stays inside is also what the first pass sees. */
  lemma {:induction false} SkimOfWalk(src: seq<byte>, count: nat, at: Place)
    requires Walk(src, 0, count, at).Some? && Walk(src, 0, count, at).value.end <= |src|
    ensures Skim(src, count) == Some(Skimmed(|AllNames(Walk(src, 0, count, at).value.entries)|, Walk(src, 0, count, at).value.end))
    decreases count
  {
    hide Skim, RecordOf, AllNames;
    NoNames(src);
    if count > 0 {
      var w := Walk(src, 0, count - 1, at).value;
      WalkAdvances(src, 0, count - 1, count, at);
      SkimOfWalk(src, count - 1, at);
      SkimStep(src, count - 1, count, at);
      OneMoreName(w.entries, RecordOf(src, w.end, at).value.entry);
    }
  }

  /** What the first pass refuses, the second would refuse too. */
  lemma RefusedSlab(src: seq<byte>, count: nat, at: Place)
    requires Skim(src, count).None? || Skim(src, count).value.end != |src|
    ensures Walk(src, 0, count, at).Some? ==> Walk(src, 0, count, at).value.end != |src|
  {
    hide Skim, Walk;
    if Walk(src, 0, count, at).Some? && Walk(src, 0, count, at).value.end == |src| {
      SkimOfWalk(src, count, at);
    }
  }

  /** What one record refuses is refused for good. */
  lemma RefusedRecord(src: seq<byte>, base: nat, i: nat, count: nat, at: Place, mapped: bool)
    requires i < count && Walk(src, base, i, at).Some?
    requires var r := RecordOf(src, Walk(src, base, i, at).value.end, at);
             r.None? || (mapped && r.value.end > |src|)
    ensures Walk(src, base, count, at).Some? ==> mapped && Walk(src, base, count, at).value.end > |src|
  {
    hide RecordOf;
    if Walk(src, base, i + 1, at).None? {
      NoLongerWalk(src, base, i + 1, count, at);
    } else if Walk(src, base, count, at).Some? {
      WalkAdvances(src, base, i + 1, count, at);
    }
  }

  ghost predicate WithinCaps(chunks: seq<Chunk>) {
    forall c <- chunks :: |c.data| <= c.cap
  }

  /** Every entry has its name in a chunk. */
  ghost predicate AllPut(chunks: seq<Chunk>, refs: seq<Ref>, es: seq<Entry>) {
    && WithinCaps(chunks)
    && |refs| == |es|
    && forall i :: 0 <= i < |refs| ==> IsStored(chunks, refs[i], es[i].name)
  }

  /** The names are laid end to end in one chunk of the given size, in order and with nothing between them. */
  ghost predicate Tiled(chunks: seq<Chunk>, refs: seq<Ref>, es: seq<Entry>, cap: nat) {
    && chunks == [Chunk(AllNames(es), cap)]
    && |refs| == |es|
    && forall i :: 0 <= i < |refs| ==> refs[i] == Ref(0, |AllNames(es[..i])|)
  }

  lemma NothingPut(chunks: seq<Chunk>, cap: nat)
    requires chunks == [] || chunks == [Chunk([], cap)]
    ensures AllPut(chunks, [], [])
    ensures chunks == [Chunk([], cap)] ==> Tiled(chunks, [], [], cap)
  {
  }

  lemma PutIsWithin(chunks: seq<Chunk>, refs: seq<Ref>, es: seq<Entry>)
    requires AllPut(chunks, refs, es)
    ensures WithinCaps(chunks)
  {
  }

  lemma OneMorePut(before: seq<Chunk>, after: seq<Chunk>, refs: seq<Ref>, ref: Ref, es: seq<Entry>, e: Entry)
    requires AllPut(before, refs, es) && Grown(before, after) && WithinCaps(after) && IsStored(after, ref, e.name)
    ensures AllPut(after, refs + [ref], es + [e])
  {
  }

  lemma OneMoreTile(before: seq<Chunk>, after: seq<Chunk>, refs: seq<Ref>, ref: Ref, es: seq<Entry>, e: Entry, cap: nat)
    requires Tiled(before, refs, es, cap) && ref == Ref(0, |AllNames(es)|)
    requires after == before[0 := Chunk(AllNames(es) + e.name + [0], cap)]
    ensures Tiled(after, refs + [ref], es + [e], cap)
  {
    hide AllNames;
    OneMoreName(es, e);
    forall i | 0 <= i <= |es|
      ensures (es + [e])[..i] == es[..i]
    {
    }
    assert es[..|es|] == es;
  }

  class Archive {
    var entries: seq<Entry>
    var refs: seq<Ref>
    var chunks: seq<Chunk>

    constructor ()
      ensures entries == [] && refs == [] && chunks == []
    {
      entries, refs, chunks := [], [], [];
    }

    /** A name put behind a chunk's data, or into a chunk of its own. */
    lemma PutSomewhere(before: seq<Chunk>, name: seq<byte>, cap: nat)
      ensures var after := before + [Chunk(name + [0], cap)];
              IsStored(after, Ref(|before|, 0), name) && Grown(before, after)
      ensures before != [] ==>
        var n := |before| - 1;
        var after := before[n := Chunk(before[n].data + name + [0], before[n].cap)];
        IsStored(after, Ref(n, |before[n].data|), name) && Grown(before, after)
    {
    }

    /** alloc_name, and the copy of the name with its zero byte into what it returns. */
    method PutName(name: seq<byte>) returns (ref: Ref)
      requires WithinCaps(chunks)
      modifies this`chunks
      ensures WithinCaps(chunks)
      ensures IsStored(chunks, ref, name) && Grown(old(chunks), chunks)
      ensures var n := |old(chunks)|;
              n > 0 && |name| + 1 <= old(chunks)[n - 1].cap - |old(chunks)[n - 1].data|
              ==> && ref == Ref(n - 1, |old(chunks)[n - 1].data|)
                  && chunks == old(chunks)[n - 1 := Chunk(old(chunks)[n - 1].data + name + [0], old(chunks)[n - 1].cap)]
      ensures var n := |old(chunks)|;
              n == 0 || |name| + 1 > old(chunks)[n - 1].cap - |old(chunks)[n - 1].data|
              ==> && ref == Ref(n, 0)
                  && chunks == old(chunks) + [Chunk(name + [0], if |name| + 1 > 4096 then |name| + 1 else 4096)]
    {
      hide IsStored, Grown;
      ghost var was := chunks;
      var len := |name| + 1;
      if chunks == [] || len > chunks[|chunks| - 1].cap - |chunks[|chunks| - 1].data| {
        chunks := chunks + [Chunk([], if len > CHUNK then len else CHUNK)];
        assert [] + name + [0] == name + [0];
      }
      var last := |chunks| - 1;
      var chunk := chunks[last];
      ref := Ref(last, |chunk.data|);
      chunks := chunks[last := chunk.(data := chunk.data + name + [0])];
      PutSomewhere(was, name, chunk.cap);
      if last == |was| {
        assert chunks == was + [Chunk(name + [0], chunk.cap)];
      } else {
        assert chunks == was[last := Chunk(was[last].data + name + [0], was[last].cap)];
      }
    }

    /** prealloc_name_slab */
    method PreallocNameSlab(central: seq<byte>, count: nat) returns (ok: bool)
      modifies this`chunks
      ensures count == 0 ==> ok && chunks == old(chunks)
      ensures count > 0 ==> (ok <==> Skim(central, count).Some? && Skim(central, count).value.end == |central|)
      ensures count > 0 && ok ==> chunks == old(chunks) + [Chunk([], Skim(central, count).value.total)]
    {
      hide Le16, Le32;
      if count == 0 {
        return true;
      }
      var pos: nat, total: nat := 0, 0;
      for i := 0 to count
        invariant Skim(central, i) == Some(Skimmed(total, pos)) && pos <= |central|
        invariant chunks == old(chunks)
      {
        SkimGrows(central, i + 1, count);
        if |central| - pos < CENTRAL_FIXED {
          return false;
        }
        var hdr := central[pos..pos + CENTRAL_FIXED];
        if Le32(hdr, 0) != SIGN_CENTRAL_DIR {
          return false;
        }
        var nameLen, extraLen, commentLen := Le16(hdr, 28), Le16(hdr, 30), Le16(hdr, 32);
        if nameLen == 0 {
          return false;
        }
        var recordLen := CENTRAL_FIXED + nameLen + extraLen + commentLen;
        if recordLen > |central| - pos {
          return false;
        }
        total, pos := total + nameLen + 1, pos + recordLen;
      }
      SkimGrows(central, 0, count);
      if pos != |central| || total == 0 {
        return pos == |central|;
      }
      chunks := chunks + [Chunk([], total)];
      ok := true;
    }

    /** The directory part of zipy_open: over the mapped directory, or record by record from the file. */
    method ReadDirectory(file: seq<byte>, at: Place, count: nat, mapped: bool) returns (ok: bool)
      requires entries == [] && refs == [] && chunks == []
      requires at.offset + at.size <= |file|
      modifies this
      ensures !mapped ==> (ok <==> Walk(file, at.offset, count, at).Some?)
      ensures !mapped && ok ==> entries == Walk(file, at.offset, count, at).value.entries
      ensures mapped ==>
        var walked := Walk(Central(file, at), 0, count, at);
        && (ok <==> walked.Some? && walked.value.end == at.size)
        && (ok ==> entries == walked.value.entries)
      ensures ok ==> |entries| == count && AllPut(chunks, refs, entries)
      ensures ok && mapped && count > 0 ==> Tiled(chunks, refs, entries, |AllNames(entries)|)
    {
      hide RecordOf, AllNames, Central, Skim, Grown, IsStored, AllPut, WithinCaps;
      var src, base := file, at.offset;
      if mapped {
        src, base := Central(file, at), 0;
        ok := PreallocNameSlab(src, count);
        if !ok {
          RefusedSlab(src, count, at);
          return;
        }
      }
      ghost var cap := if mapped && count > 0 then Skim(src, count).value.total else 0;
      var pos: nat := base;
      NoNames(src);
      NothingPut(chunks, cap);
      for i := 0 to count
        invariant Walk(src, base, i, at) == Some(Walked(entries, pos)) && |entries| == i
        invariant mapped ==> pos <= |src| && Skim(src, i) == Some(Skimmed(|AllNames(entries)|, pos))
        invariant AllPut(chunks, refs, entries)
        invariant mapped && count > 0 ==> Tiled(chunks, refs, entries, cap)
      {
        var next := ReadRecord(src, pos, at, mapped);
        if next.None? {
          RefusedRecord(src, base, i, count, at, mapped);
          return false;
        }
        var e := next.value.entry;
        if mapped {
          SkimStep(src, i, count, at);
        }
        OneMoreName(entries, e);
        ghost var before := chunks;
        PutIsWithin(chunks, refs, entries);
        var ref := PutName(e.name);
        OneMorePut(before, chunks, refs, ref, entries, e);
        if mapped {
          OneMoreTile(before, chunks, refs, ref, entries, e, cap);
        }
        refs := refs + [ref];
        entries := entries + [e];
        pos := next.value.end;
      }
      ok := !mapped || pos == |src|;
    }
  }

  // ---------------------------------------------------------------- the two walks agree

  lemma HeaderInSlice(file: seq<byte>, at: Place, pos: nat)
    requires at.offset + at.size <= |file| && pos + CENTRAL_FIXED <= at.size
    ensures HeaderAt(Central(file, at), pos) == HeaderAt(file, at.offset + pos)
    ensures EndOfRecord(file, at.offset + pos) == at.offset + EndOfRecord(Central(file, at), pos)
  {
    hide RecordLen;
    SliceOfSlice(file, at.offset, at.size, pos, pos + CENTRAL_FIXED);
  }

  lemma RecordInSlice(file: seq<byte>, at: Place, pos: nat)
    requires at.offset + at.size <= |file| && pos + CENTRAL_FIXED <= at.size
    requires EndOfRecord(Central(file, at), pos) <= at.size
    ensures var c, f := RecordOf(Central(file, at), pos, at), RecordOf(file, at.offset + pos, at);
            && (c.Some? <==> f.Some?)
            && (c.Some? ==> c.value.entry == f.value.entry)
  {
    hide Le16, RecordAccepts, EntryOf;
    var c, o := Central(file, at), at.offset + pos;
    HeaderInSlice(file, at, pos);
    var hdr := HeaderAt(file, o);
    var n, e := pos + CENTRAL_FIXED, pos + CENTRAL_FIXED + NameLen(hdr);
    SliceOfSlice(file, at.offset, at.size, n, e);
    SliceOfSlice(file, at.offset, at.size, e, e + ExtraLen(hdr));
    assert NameAt(c, pos) == NameAt(file, o);
    assert ExtraAt(c, pos) == ExtraAt(file, o);
  }

  lemma EndsAfterHeader(src: seq<byte>, pos: nat, at: Place)
    requires RecordOf(src, pos, at).Some?
    ensures RecordOf(src, pos, at).value.end >= pos + CENTRAL_FIXED
  {
    hide RecordAt, EntryOf;
  }

  /** A record of the file that ends inside the directory is a record of the mapped directory, and conversely. */
  lemma OneRecordInSlice(file: seq<byte>, at: Place, pos: nat)
    requires at.offset + at.size <= |file| && pos <= at.size
    ensures var c, f := RecordOf(Central(file, at), pos, at), RecordOf(file, at.offset + pos, at);
            && (c.Some? && c.value.end <= at.size <==> f.Some? && f.value.end <= at.offset + at.size)
            && (c.Some? && c.value.end <= at.size
                ==> c.value.entry == f.value.entry && f.value.end == at.offset + c.value.end)
  {
    hide RecordAt, EntryOf, HeaderAt, RecordLen, Central;
    if pos + CENTRAL_FIXED <= at.size {
      HeaderInSlice(file, at, pos);
      if EndOfRecord(Central(file, at), pos) <= at.size {
        RecordInSlice(file, at, pos);
      }
    } else if RecordOf(file, at.offset + pos, at).Some? {
      EndsAfterHeader(file, at.offset + pos, at);
    }
  }

  lemma StepInSlice(file: seq<byte>, count: nat, at: Place)
    requires count > 0 && at.offset + at.size <= |file|
    requires var m, f := Walk(Central(file, at), 0, count - 1, at), Walk(file, at.offset, count - 1, at);
            && (m.Some? && m.value.end <= at.size <==> f.Some? && f.value.end <= at.offset + at.size)
            && (m.Some? && m.value.end <= at.size
                ==> f.value.entries == m.value.entries && f.value.end == at.offset + m.value.end)
    ensures var m, f := Walk(Central(file, at), 0, count, at), Walk(file, at.offset, count, at);
            && (m.Some? && m.value.end <= at.size <==> f.Some? && f.value.end <= at.offset + at.size)
            && (m.Some? && m.value.end <= at.size
                ==> f.value.entries == m.value.entries && f.value.end == at.offset + m.value.end)
  {
    hide RecordOf, Central;
    var c := Central(file, at);
    var m, f := Walk(c, 0, count, at), Walk(file, at.offset, count, at);
    if m.Some? {
      WalkAdvances(c, 0, count - 1, count, at);
    }
    if f.Some? {
      WalkAdvances(file, at.offset, count - 1, count, at);
    }
    var before := Walk(c, 0, count - 1, at);
    if before.Some? && before.value.end <= at.size {
      OneRecordInSlice(file, at, before.value.end);
    }
  }

  /** As long as the records stay inside the directory, a walk over the mapped directory is the walk over
      the file, shifted. */
  lemma {:induction false} WalkInSlice(file: seq<byte>, count: nat, at: Place)
    requires at.offset + at.size <= |file|
    ensures var m, f := Walk(Central(file, at), 0, count, at), Walk(file, at.offset, count, at);
            && (m.Some? && m.value.end <= at.size <==> f.Some? && f.value.end <= at.offset + at.size)
            && (m.Some? && m.value.end <= at.size
                ==> f.value.entries == m.value.entries && f.value.end == at.offset + m.value.end)
    decreases count
  {
    hide RecordOf, Central;
    if count > 0 {
      WalkInSlice(file, count - 1, at);
      StepInSlice(file, count, at);
    }
  }

  /** The mapped parse accepts exactly when the seek-and-read parse of the same bytes accepts and its records
      end where the directory is said to end; then both give the same entries. */
  lemma MappedAgreesWithSeek(file: seq<byte>, count: nat, at: Place)
    requires at.offset + at.size <= |file|
    ensures var m, f := Walk(Central(file, at), 0, count, at), Walk(file, at.offset, count, at);
            && (m.Some? && m.value.end == at.size <==> f.Some? && f.value.end == at.offset + at.size)
            && (m.Some? && m.value.end == at.size ==> m.value.entries == f.value.entries)
  {
    hide Walk;
    WalkInSlice(file, count, at);
  }

  // ---------------------------------------------------------------- opening an archive

  function PlaceOf(d: Eocd.Dir): Place {
    Place(d.fileSize, d.centralOffset, d.centralSize)
  }

  /** What the walk over a found directory gives. */
  ghost function Listed(file: seq<byte>, d: Eocd.Dir, mapped: bool): Option<seq<Entry>>
    requires d.centralOffset + d.centralSize <= |file|
  {
    var at := PlaceOf(d);
    var w := if mapped then Walk(Central(file, at), 0, d.entries, at) else Walk(file, at.offset, d.entries, at);
    if w.None? || (mapped && w.value.end != at.size) then None else Some(w.value.entries)
  }

  ghost predicate ListedFrom(file: seq<byte>, d: Option<Eocd.Dir>, mapped: bool, es: Option<seq<Entry>>) {
    match d
    case None => es == None
    case Some(dir) => dir.centralOffset + dir.centralSize <= |file| && es == Listed(file, dir, mapped)
  }

  /** es are the entries that zipy_open lists, or nothing when it refuses the file. */
  ghost predicate Opens(file: seq<byte>, mapped: bool, es: Option<seq<Entry>>) {
    exists d :: Eocd.SearchResult(file, d) && ListedFrom(file, d, mapped, es)
  }

  /** zipy_open: with or without a mapped file. */
  method Open(file: seq<byte>, mapped: bool) returns (archive: Archive?)
    ensures archive != null ==> fresh(archive) && AllPut(archive.chunks, archive.refs, archive.entries)
    ensures archive != null && mapped && archive.entries != []
            ==> Tiled(archive.chunks, archive.refs, archive.entries, |AllNames(archive.entries)|)
    ensures Opens(file, mapped, if archive == null then None else Some(archive.entries))
  {
    hide Eocd.SearchResult, Walk, Central, AllPut, Tiled;
    var found: Option<Eocd.Dir>;
    if mapped {
      found := Eocd.FindMapped(file);
    } else {
      found := Eocd.FindBuffered(file);
    }
    if found.None? {
      assert ListedFrom(file, found, mapped, None);
      return null;
    }
    var dir := found.value;
    Eocd.FoundDirectory(file, dir);
    archive := new Archive();
    var ok := archive.ReadDirectory(file, PlaceOf(dir), dir.entries, mapped);
    assert ListedFrom(file, found, mapped, if ok then Some(archive.entries) else None);
    if !ok {
      archive := null;
    }
  }

  /** Whenever the mapped parse of a file accepts it, the seek-and-read parse accepts it with the same entries. */
  lemma MappedOpenMeansOpen(file: seq<byte>, es: seq<Entry>, r: Option<seq<Entry>>)
    requires Opens(file, true, Some(es)) && Opens(file, false, r)
    ensures r == Some(es)
  {
    hide Eocd.SearchResult, Walk, Central;
    var a :| Eocd.SearchResult(file, a) && ListedFrom(file, a, true, Some(es));
    var b :| Eocd.SearchResult(file, b) && ListedFrom(file, b, false, r);
    Eocd.SearchesAgree(file, a, b);
    MappedAgreesWithSeek(file, a.value.entries, PlaceOf(a.value));
  }

  // ---------------------------------------------------------------- the disk number

  /** A record without a ZIP64 field that stands for an unresolved disk number (0xFFFF) is refused when it has
      extra bytes but accepted when it has none. */
  lemma UnresolvedDisk(hdr: seq<byte>, extra: seq<byte>)
    requires |hdr| == CENTRAL_FIXED
    requires Zip64Extra.Fields(extra).Some? && Zip64Extra.NoZip64(Zip64Extra.Fields(extra).value)
    ensures ExtraAccepts(hdr, extra)
       <==> && Stored(hdr).uncompressed != 0xFFFF_FFFF && Stored(hdr).compressed != 0xFFFF_FFFF
            && Stored(hdr).offset != 0xFFFF_FFFF && AllAesFields(Zip64Extra.Fields(extra).value)
            && (extra == [] || Stored(hdr).disk == 0)
  {
    hide Le16, Le32, Zip64Extra.Accepts;
    Zip64Extra.WithoutZip64(Stored(hdr), extra);
  }

  /** The header of an empty stored member with a name of one byte, on disk 0xFFFF. */
  function DiskHeader(extraLen: byte): (hdr: seq<byte>)
    ensures |hdr| == CENTRAL_FIXED
  {
    [0x50, 0x4B, 0x01, 0x02, 20, 0, 20, 0, 0, 0, 0, 0, 0, 0, 0, 0] + [0, 0, 0, 0, 0, 0, 0, 0, 0, 0, 0, 0]
    + [1, 0, extraLen, 0, 0, 0, 0xFF, 0xFF, 0, 0, 0, 0, 0, 0] + [0, 0, 0, 0]
  }

  /** The fields of that header. */
  lemma DiskHeaderFields(extraLen: byte)
    ensures var hdr := DiskHeader(extraLen);
            && IsHeader(hdr) && NameLen(hdr) == 1 && Stored(hdr) == Zip64Extra.Values(0, 0, 0, MAGIC16)
            && Le16(hdr, 8) == 0 && Le16(hdr, 10) == 0 && ExtraLen(hdr) == extraLen as nat
  {
  }

  /** Four extra bytes are one field of no interest. */
  lemma UnrelatedField()
    ensures Zip64Extra.Fields([0x55, 0x58, 0, 0]) == Some([Zip64Extra.Field(0x5855, [])])
  {
    var extra: seq<byte> := [0x55, 0x58, 0, 0];
    assert Le16(extra, 0) == 0x5855 && Le16(extra, 2) == 0;
    assert extra[4..] == [] && extra[4..4] == [];
    assert Zip64Extra.Fields([]) == Some([]);
    assert [Zip64Extra.Field(0x5855, [])] + [] == [Zip64Extra.Field(0x5855, [])];
  }

  lemma AcceptedWithoutExtra(hdr: seq<byte>, at: Place)
    requires |hdr| == CENTRAL_FIXED && IsHeader(hdr) && Stored(hdr) == Zip64Extra.Values(0, 0, 0, MAGIC16)
    requires Le16(hdr, 10) == 0 && 0 < at.offset
    ensures RecordAccepts(hdr, [0x61], [], at)
  {
    hide Le16, Le32, IsHeader;
  }

  /** The same record is accepted without extra bytes and refused with four bytes of an unrelated field. */
  lemma UnresolvedDiskExample()
    ensures RecordAccepts(DiskHeader(0), [0x61], [], Place(100, 31, 47))
    ensures !RecordAccepts(DiskHeader(4), [0x61], [0x55, 0x58, 0, 0], Place(100, 31, 51))
  {
    hide DiskHeader, Le16, Le32, Zip64Extra.Fields, ExtraAccepts, EntryOf, Plausible;
    DiskHeaderFields(0);
    DiskHeaderFields(4);
    AcceptedWithoutExtra(DiskHeader(0), Place(100, 31, 47));
    UnrelatedField();
    UnresolvedDisk(DiskHeader(4), [0x55, 0x58, 0, 0]);
  }
}

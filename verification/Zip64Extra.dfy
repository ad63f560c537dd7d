// Extra fields of a central-directory record, and the 64-bit sizes that a ZIP64
// field supplies (sections 4.4.28, 4.5.1 and 4.5.3 of APPNOTE.TXT).
module Zip64Extra {
  import opened Bytes
  import opened Signatures

  const ZIP64_ID: nat := 1

  // ---------------------------------------------------------------- the list of fields

  datatype Field = Field(id: nat, data: seq<byte>) {
    predicate Valid() {
      id < 0x1_0000 && |data| < 0x1_0000
    }
  }

  /** The fields that extra is made of, or nothing when they do not end exactly where it ends. */
  function Fields(extra: seq<byte>): Option<seq<Field>>
    decreases |extra|
  {
    if extra == [] then Some([])
    else if |extra| < 4 || Le16(extra, 2) > |extra| - 4 then None
    else
      var end := 4 + Le16(extra, 2);
      match Fields(extra[end..])
      case None => None
      case Some(rest) => Some([Field(Le16(extra, 0), extra[4..end])] + rest)
  }

  /** One field as it is stored: its id and size, then its data. */
  function Stored(f: Field): (s: seq<byte>)
    ensures |s| == 4 + |f.data|
  {
    LittleEndian(f.id, 2) + LittleEndian(|f.data|, 2) + f.data
  }

  function StoredAll(fs: seq<Field>): seq<byte> {
    if fs == [] then [] else Stored(fs[0]) + StoredAll(fs[1..])
  }

  ghost predicate AllValid(fs: seq<Field>) {
    forall f <- fs :: f.Valid()
  }

  lemma HeaderOfStored(f: Field, rest: seq<byte>)
    requires f.Valid()
    ensures Le16(Stored(f) + rest, 0) == f.id && Le16(Stored(f) + rest, 2) == |f.data|
  {
    hide Le16, LittleEndian;
    var id, size := LittleEndian(f.id, 2), LittleEndian(|f.data|, 2);
    Le16Of(f.id, 0);
    Le16Of(|f.data|, 0);
    LeOfMiddle([], id, size + f.data + rest, 0);
    LeOfMiddle(id, size, f.data + rest, 0);
    assert Stored(f) + rest == [] + id + (size + f.data + rest) == id + size + (f.data + rest);
  }

  lemma DataOfStored(f: Field, rest: seq<byte>)
    ensures (Stored(f) + rest)[4..4 + |f.data|] == f.data
  {
  }

  /** Every list of fields is read back as it was stored. */
  lemma {:induction false} FieldsOfStored(fs: seq<Field>)
    requires AllValid(fs)
    ensures Fields(StoredAll(fs)) == Some(fs)
    decreases |fs|
  {
    hide Le16, Stored;
    if fs != [] {
      var f, rest := fs[0], StoredAll(fs[1..]);
      var extra := Stored(f) + rest;
      HeaderOfStored(f, rest);
      FieldsOfStored(fs[1..]);
      assert extra[4 + |f.data|..] == rest;
      assert extra[4..4 + |f.data|] == f.data by {
        DataOfStored(f, rest);
      }
      assert Field(Le16(extra, 0), f.data) == f;
      assert [f] + fs[1..] == fs;
    }
  }

  // ---------------------------------------------------------------- specification

  /** The sizes, offset and disk number of a record: as the fixed header holds them, or as resolved. */
  datatype Values = Values(uncompressed: nat, compressed: nat, offset: nat, disk: nat)

  predicate HasSentinel(h: Values) {
    h.compressed == MAGIC32 || h.uncompressed == MAGIC32 || h.offset == MAGIC32
  }

  /** Where each value stands in the data of a ZIP64 field: only the values whose header holds the sentinel are there. */
  function AtCompressed(h: Values): nat {
    if h.uncompressed == MAGIC32 then 8 else 0
  }

  function AtOffset(h: Values): nat {
    AtCompressed(h) + if h.compressed == MAGIC32 then 8 else 0
  }

  function AtDisk(h: Values): nat {
    AtOffset(h) + if h.offset == MAGIC32 then 8 else 0
  }

  predicate LongEnough(h: Values, data: seq<byte>) {
    AtDisk(h) + (if h.disk == MAGIC16 then 4 else 0) <= |data|
  }

  /** The values of a record whose ZIP64 field holds data. */
  function Resolved(h: Values, data: seq<byte>): Values
    requires LongEnough(h, data)
  {
    Values(
      if h.uncompressed == MAGIC32 then Le64(data, 0) else h.uncompressed,
      if h.compressed == MAGIC32 then Le64(data, AtCompressed(h)) else h.compressed,
      if h.offset == MAGIC32 then Le64(data, AtOffset(h)) else h.offset,
      if h.disk == MAGIC16 then Le32(data, AtDisk(h)) else h.disk)
  }

  /** The data of the last ZIP64 field. */
  function LastZip64(fs: seq<Field>): Option<seq<byte>> {
    if fs == [] then None
    else
      var n := |fs| - 1;
      if fs[n].id == ZIP64_ID then Some(fs[n].data) else LastZip64(fs[..n])
  }

  ghost predicate AllLongEnough(h: Values, fs: seq<Field>) {
    forall f <- fs :: f.id == ZIP64_ID ==> LongEnough(h, f.data)
  }

  lemma LastIsLongEnough(h: Values, fs: seq<Field>)
    requires AllLongEnough(h, fs)
    ensures LastZip64(fs).Some? ==> LongEnough(h, LastZip64(fs).value)
  {
  }

  /** The values that a list of extra fields gives to the header h. */
  ghost function Values64(h: Values, fs: seq<Field>): Values
    requires AllLongEnough(h, fs)
  {
    LastIsLongEnough(h, fs);
    match LastZip64(fs)
    case None => h
    case Some(data) => Resolved(h, data)
  }

  /** The record is usable: its fields end exactly at the end, each ZIP64 field holds what the header
      leaves to it, nothing is left unresolved, and the record is on the one disk. */
  ghost predicate Accepts(h: Values, extra: seq<byte>) {
    match Fields(extra)
    case None => false
    case Some(fs) =>
      && AllLongEnough(h, fs)
      && Values64(h, fs).disk == 0
      && (LastZip64(fs).Some? || !HasSentinel(h))
  }

  // ---------------------------------------------------------------- the parser

  function Then(done: seq<Field>, rest: Option<seq<Field>>): Option<seq<Field>> {
    match rest
    case None => None
    case Some(fs) => Some(done + fs)
  }

  lemma FieldsStart(extra: seq<byte>)
    ensures Fields(extra) == Then([], Fields(extra[0..]))
  {
    hide Fields;
    assert extra[0..] == extra;
    if Fields(extra).Some? {
      assert [] + Fields(extra).value == Fields(extra).value;
    }
  }

  lemma NoFields(h: Values)
    ensures AllLongEnough(h, []) && LastZip64([]) == None && Values64(h, []) == h
  {
  }

  /** Reading one field at pos. */
  lemma FieldsStep(extra: seq<byte>, pos: nat)
    requires pos + 4 <= |extra|
    ensures var end := pos + 4 + Le16(extra, pos + 2);
            Fields(extra[pos..])
            == if end > |extra| then None
               else Then([Field(Le16(extra, pos), extra[pos + 4..end])], Fields(extra[end..]))
  {
    hide Le16;
    var rest := extra[pos..];
    assert rest == extra[pos..pos + |rest|];
    LeOfSlice(extra, pos, |rest|, 0);
    LeOfSlice(extra, pos, |rest|, 2);
    var end := pos + 4 + Le16(extra, pos + 2);
    if end <= |extra| {
      assert rest[4..end - pos] == extra[pos + 4..end];
      assert rest[end - pos..] == extra[end..];
    }
  }

  lemma FieldsEnd(extra: seq<byte>, pos: nat)
    requires pos <= |extra| < pos + 4
    ensures Fields(extra[pos..]) == if pos == |extra| then Some([]) else None
  {
  }

  lemma ThenOneMore(done: seq<Field>, f: Field, rest: Option<seq<Field>>)
    ensures Then(done, Then([f], rest)) == Then(done + [f], rest)
  {
    if rest.Some? {
      assert done + ([f] + rest.value) == done + [f] + rest.value;
    }
  }

  lemma OneMoreField(h: Values, done: seq<Field>, f: Field)
    ensures AllLongEnough(h, done + [f]) <==> AllLongEnough(h, done) && (f.id == ZIP64_ID ==> LongEnough(h, f.data))
    ensures LastZip64(done + [f]) == if f.id == ZIP64_ID then Some(f.data) else LastZip64(done)
    ensures AllLongEnough(h, done + [f])
            ==> Values64(h, done + [f]) == if f.id == ZIP64_ID then Resolved(h, f.data) else Values64(h, done)
  {
  }

  lemma ShortField(h: Values, done: seq<Field>, f: Field, rest: Option<seq<Field>>)
    requires f.id == ZIP64_ID && !LongEnough(h, f.data)
    ensures Then(done + [f], rest).Some? ==> !AllLongEnough(h, Then(done + [f], rest).value)
  {
  }

  /** What the header does not leave to ZIP64 fields, they do not change. */
  lemma KeptValues(h: Values, done: seq<Field>)
    requires AllLongEnough(h, done)
    ensures var v := Values64(h, done);
            && (h.uncompressed != MAGIC32 ==> v.uncompressed == h.uncompressed)
            && (h.compressed != MAGIC32 ==> v.compressed == h.compressed)
            && (h.offset != MAGIC32 ==> v.offset == h.offset)
            && (h.disk != MAGIC16 ==> v.disk == h.disk)
  {
  }

  /** The fields of entry_info_t that the parser fills in. */
  class Info {
    var uncompressed: nat
    var compressed: nat
    var offset: nat

    constructor (h: Values)
      ensures uncompressed == h.uncompressed && compressed == h.compressed && offset == h.offset
    {
      uncompressed, compressed, offset := h.uncompressed, h.compressed, h.offset;
    }

    /** This record holds the values v, on any disk. */
    predicate Holds(v: Values)
      reads this
    {
      uncompressed == v.uncompressed && compressed == v.compressed && offset == v.offset
    }

    /** The body of the loop for one ZIP64 field: overwrites what the header leaves to it. */
    method TakeZip64(h: Values, data: seq<byte>, disk: nat) returns (ok: bool, newDisk: nat)
      requires h.disk != MAGIC16 ==> disk == h.disk
      requires h.uncompressed != MAGIC32 ==> uncompressed == h.uncompressed
      requires h.compressed != MAGIC32 ==> compressed == h.compressed
      requires h.offset != MAGIC32 ==> offset == h.offset
      modifies this
      ensures ok <==> LongEnough(h, data)
      ensures ok ==> Holds(Resolved(h, data)) && newDisk == Resolved(h, data).disk
    {
      hide Le32, Le64;
      var p, rem := 0, |data|;
      newDisk := disk;
      if h.uncompressed == MAGIC32 {
        if rem < 8 {
          return false, newDisk;
        }
        uncompressed := Le64(data, p);
        p, rem := p + 8, rem - 8;
      }
      if h.compressed == MAGIC32 {
        if rem < 8 {
          return false, newDisk;
        }
        compressed := Le64(data, p);
        p, rem := p + 8, rem - 8;
      }
      if h.offset == MAGIC32 {
        if rem < 8 {
          return false, newDisk;
        }
        offset := Le64(data, p);
        p, rem := p + 8, rem - 8;
      }
      if h.disk == MAGIC16 {
        if rem < 4 {
          return false, newDisk;
        }
        newDisk := Le32(data, p);
      }
      ok := true;
    }

    /** parse_zip64_extra, on a record that still holds the header's values. */
    method ParseZip64Extra(h: Values, extra: seq<byte>) returns (ok: bool)
      requires Holds(h)
      modifies this
      ensures ok <==> Accepts(h, extra)
      ensures ok ==> Holds(Values64(h, Fields(extra).value))
    {
      hide LongEnough, Resolved, Le16, Fields, LastZip64, Values64;
      FieldsStart(extra);
      NoFields(h);
      var pos, disk, hasZip64 := 0, h.disk, false;
      ghost var done: seq<Field> := [];
      while |extra| - pos >= 4
        invariant 0 <= pos <= |extra|
        invariant Fields(extra) == Then(done, Fields(extra[pos..]))
        invariant AllLongEnough(h, done) && hasZip64 == LastZip64(done).Some?
        invariant Holds(Values64(h, done))
        invariant disk == Values64(h, done).disk
      {
        FieldsStep(extra, pos);
        var id, size := Le16(extra, pos), Le16(extra, pos + 2);
        pos := pos + 4;
        if size > |extra| - pos {
          return false;
        }
        var data := extra[pos..pos + size];
        ghost var f := Field(id, data);
        OneMoreField(h, done, f);
        ThenOneMore(done, f, Fields(extra[pos + size..]));
        if id == ZIP64_ID {
          KeptValues(h, done);
          ok, disk := TakeZip64(h, data, disk);
          if !ok {
            ShortField(h, done, f, Fields(extra[pos + size..]));
            return;
          }
          hasZip64 := true;
        }
        done := done + [f];
        pos := pos + size;
      }
      FieldsEnd(extra, pos);
      assert done + [] == done;
      ok := pos == |extra| && disk == 0 && (hasZip64 || (h.compressed != MAGIC32 && h.uncompressed != MAGIC32 && h.offset != MAGIC32));
    }
  }

  // ---------------------------------------------------------------- round trip

  predicate Fits64(v: Values) {
    && v.uncompressed < 0x1_0000_0000_0000_0000
    && v.compressed < 0x1_0000_0000_0000_0000
    && v.offset < 0x1_0000_0000_0000_0000
    && v.disk < 0x1_0000_0000
  }

  /** The header h stands for the values v: each is stored as it is or as the sentinel. A value that
      equals the sentinel is always left to the ZIP64 field. */
  predicate StandsFor(h: Values, v: Values) {
    && (h.uncompressed == v.uncompressed || h.uncompressed == 0xFFFF_FFFF)
    && (h.compressed == v.compressed || h.compressed == 0xFFFF_FFFF)
    && (h.offset == v.offset || h.offset == 0xFFFF_FFFF)
    && (h.disk == v.disk || h.disk == 0xFFFF)
  }

  /** The data of the ZIP64 field for v: the values whose header holds the sentinel, in this order. */
  function Encoded(h: Values, v: Values): seq<byte> {
    (if h.uncompressed == 0xFFFF_FFFF then LittleEndian(v.uncompressed, 8) else [])
    + (if h.compressed == 0xFFFF_FFFF then LittleEndian(v.compressed, 8) else [])
    + (if h.offset == 0xFFFF_FFFF then LittleEndian(v.offset, 8) else [])
    + (if h.disk == 0xFFFF then LittleEndian(v.disk, 4) else [])
  }

  lemma FourParts(u: seq<byte>, c: seq<byte>, o: seq<byte>, d: seq<byte>, more: seq<byte>)
    ensures var data := u + c + o + d + more;
            && (8 <= |u| ==> Le64(data, 0) == Le64(u, 0))
            && (8 <= |c| ==> Le64(data, |u|) == Le64(c, 0))
            && (8 <= |o| ==> Le64(data, |u| + |c|) == Le64(o, 0))
            && (4 <= |d| ==> Le32(data, |u| + |c| + |o|) == Le32(d, 0))
  {
    hide Le32, Le64;
    var data := u + c + o + d + more;
    LeOfMiddle([], u, c + o + d + more, 0);
    LeOfMiddle(u, c, o + d + more, 0);
    LeOfMiddle(u + c, o, d + more, 0);
    LeOfMiddle(u + c + o, d, more, 0);
    assert [] + u + (c + o + d + more) == data;
    assert u + c + (o + d + more) == data;
    assert u + c + o + (d + more) == data;
  }

  /** Whatever the header leaves out, and whatever follows the encoding, the field gives the values back. */
  lemma ResolvedOfEncoded(h: Values, v: Values, more: seq<byte>)
    requires StandsFor(h, v) && Fits64(v)
    ensures LongEnough(h, Encoded(h, v) + more)
    ensures Resolved(h, Encoded(h, v) + more) == v
  {
    hide Le32, Le64, LittleEndian;
    var u := if h.uncompressed == MAGIC32 then LittleEndian(v.uncompressed, 8) else [];
    var c := if h.compressed == MAGIC32 then LittleEndian(v.compressed, 8) else [];
    var o := if h.offset == MAGIC32 then LittleEndian(v.offset, 8) else [];
    var d := if h.disk == MAGIC16 then LittleEndian(v.disk, 4) else [];
    Le64Of(v.uncompressed);
    Le64Of(v.compressed);
    Le64Of(v.offset);
    Le32Of(v.disk, 0);
    FourParts(u, c, o, d, more);
    assert Encoded(h, v) + more == u + c + o + d + more;
  }

  predicate NoZip64(fs: seq<Field>) {
    forall f <- fs :: f.id != 1
  }

  lemma {:induction false} NoneOfNone(fs: seq<Field>)
    requires NoZip64(fs)
    ensures LastZip64(fs) == None
    decreases |fs|
  {
    if fs != [] {
      NoneOfNone(fs[..|fs| - 1]);
    }
  }

  lemma {:induction false} LastAmong(before: seq<Field>, f: Field, after: seq<Field>)
    requires f.id == ZIP64_ID && NoZip64(after)
    ensures LastZip64(before + [f] + after) == Some(f.data)
    decreases |after|
  {
    var all := before + [f] + after;
    if after == [] {
      assert all == before + [f];
    } else {
      var n := |after| - 1;
      assert all[..|all| - 1] == before + [f] + after[..n];
      assert all[|all| - 1] == after[n];
      LastAmong(before, f, after[..n]);
    }
  }

  /** The last ZIP64 field, anywhere in a stored list of fields, gives back every 64-bit value that the
      header leaves to it, including one that equals the 32-bit sentinel. The record is accepted
      exactly when it is on disk 0. */
  lemma RoundTrip(h: Values, v: Values, more: seq<byte>, before: seq<Field>, after: seq<Field>)
    requires StandsFor(h, v) && Fits64(v)
    requires AllValid(before) && AllValid(after) && AllLongEnough(h, before) && NoZip64(after)
    requires |Encoded(h, v) + more| < 0x1_0000
    ensures var fs := before + [Field(1, Encoded(h, v) + more)] + after;
            && Fields(StoredAll(fs)) == Some(fs)
            && AllLongEnough(h, fs) && Values64(h, fs) == v
            && (Accepts(h, StoredAll(fs)) <==> v.disk == 0)
  {
    hide Encoded, Resolved, LongEnough, StandsFor, Fields, StoredAll, LastZip64;
    var f := Field(1, Encoded(h, v) + more);
    var fs := before + [f] + after;
    FieldsOfStored(fs);
    ResolvedOfEncoded(h, v, more);
    LastAmong(before, f, after);
  }

  /** Without a ZIP64 field a list is accepted exactly when it ends where the buffer ends, the header
      leaves nothing to ZIP64, and the disk is 0. */
  lemma WithoutZip64(h: Values, extra: seq<byte>)
    requires Fields(extra).Some? ==> NoZip64(Fields(extra).value)
    ensures Accepts(h, extra)
       <==> && Fields(extra).Some? && h.disk == 0
            && h.uncompressed != 0xFFFF_FFFF && h.compressed != 0xFFFF_FFFF && h.offset != 0xFFFF_FFFF
  {
    hide Fields, LastZip64;
    if Fields(extra).Some? {
      NoneOfNone(Fields(extra).value);
    }
  }

  lemma StoredField(extra: seq<byte>)
    requires |extra| >= 4 && Le16(extra, 2) <= |extra| - 4
    ensures Stored(Field(Le16(extra, 0), extra[4..4 + Le16(extra, 2)])) == extra[..4 + Le16(extra, 2)]
  {
    hide LittleEndian, Le16;
    TwoBytes(extra, 0);
    TwoBytes(extra, 2);
    var end := 4 + Le16(extra, 2);
    assert extra[0..2] + extra[2..4] + extra[4..end] == extra[..end];
  }

  /** What is read as a list of fields is that list, stored: no byte is skipped and none is left over. */
  lemma {:induction false} StoredOfFields(extra: seq<byte>)
    requires Fields(extra).Some?
    ensures StoredAll(Fields(extra).value) == extra && AllValid(Fields(extra).value)
    decreases |extra|
  {
    hide Le16, Stored;
    if extra != [] {
      var end := 4 + Le16(extra, 2);
      var f := Field(Le16(extra, 0), extra[4..end]);
      var rest := Fields(extra[end..]).value;
      StoredOfFields(extra[end..]);
      StoredField(extra);
      assert ([f] + rest)[1..] == rest;
      assert Stored(f) + extra[end..] == extra;
    }
  }
}

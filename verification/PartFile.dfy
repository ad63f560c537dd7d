// The part file of extract_entry in src/zip.c: what one atomic or resuming run
// does to the part and the target, write by write.
module PartFile {
  import opened Bytes
  import opened Crc32
  import opened PartDisk

  // ---------------------------------------------------------------- entries and disks

  /** An entry and what decoding its archive bytes yields. `payload` is what the copy or inflate loop
      produces after decryption, `sound` whether the decoder and the authentication end well,
      `sizesMatch` whether a stored entry's two sizes agree, and `scratch` whatever a mapped Deflate
      output file holds while it is being filled, if it is mapped. */
  datatype Entry = Entry(
    size: nat,
    crc: bv32,
    stored: bool,
    encrypted: bool,
    payload: seq<byte>,
    sound: bool,
    sizesMatch: bool,
    mapsOutput: bool,
    scratch: seq<seq<byte>>
  )

  ghost predicate Valid(e: Entry) {
    && ((if e.stored then e.sizesMatch else e.sound) ==> |e.payload| == e.size)
    && (e.stored && !e.encrypted ==> e.sound)
    && (e.mapsOutput ==> forall s :: s in e.scratch ==> |s| == e.size)
  }

  /** check: CRC validation is on; keep: ZIPY_EXTRACT_RESUME, otherwise ZIPY_EXTRACT_ATOMIC. */
  datatype Options = Options(check: bool, keep: bool)

  datatype Outcome = Done | SkippedEntry | Failed

  // ---------------------------------------------------------------- specification of a run

  /** What the part block decides before the output file is opened. */
  datatype Decision = SkipTarget | PublishPart | CopyFrom(removes: bool, offset: nat, seed: bv32)

  /** The CRC left over from checking an existing target of the right size. */
  function SeedFromTarget(e: Entry, o: Options, f: Files): bv32 {
    if o.keep && o.check && f.target.Some? && |f.target.value| == e.size then Crc(f.target.value) else 0
  }

  predicate TargetIsGood(e: Entry, o: Options, f: Files) {
    && o.keep && f.target.Some? && |f.target.value| == e.size
    && (o.check ==> Crc(f.target.value) == e.crc)
  }

  /** The decision on the part, with the CRC left over from the target. */
  function DecidePart(e: Entry, o: Options, p: Option<seq<byte>>, seed: bv32): Decision {
    if !o.keep then CopyFrom(true, 0, seed)
    else if p.None? then CopyFrom(false, 0, seed)
    else
      var part := p.value;
      if |part| == e.size then
        if e.encrypted || (!o.check && !e.stored) then CopyFrom(true, 0, seed)
        else if !o.check || Crc(part) == e.crc then PublishPart
        else CopyFrom(true, 0, Crc(part))
      else if |part| > e.size then CopyFrom(true, 0, seed)
      else if |part| == 0 then CopyFrom(false, 0, seed)
      else if e.encrypted || !e.stored || !e.sizesMatch then CopyFrom(true, 0, seed)
      else CopyFrom(false, |part|, if o.check then Crc(part) else seed)
  }

  function Decide(e: Entry, o: Options, f: Files): Decision {
    if TargetIsGood(e, o, f) then SkipTarget else DecidePart(e, o, f.part, SeedFromTarget(e, o, f))
  }

  /** Whether the copy of the payload from the given offset, with the CRC seeded so, succeeds. */
  predicate CopySucceeds(e: Entry, o: Options, offset: nat, seed: bv32) {
    if e.stored then
      && e.sizesMatch && offset <= |e.payload| && e.sound
      && (o.check ==> Update(seed, e.payload[offset..]) == e.crc)
    else
      offset == 0 && e.sound && (o.check ==> Crc(e.payload) == e.crc)
  }

  /** What the copy writes, whether it succeeds or not. */
  function CopyOps(e: Entry, o: Options, offset: nat): seq<Op> {
    if e.stored then
      if e.sizesMatch && offset <= |e.payload| then Appends(e.payload[offset..]) else []
    else if offset > 0 then []
    else if e.mapsOutput then
      Overwrites(e.scratch) + if e.sound then [Overwrite(e.payload)] else []
    else if CopySucceeds(e, o, 0, 0) then Appends(e.payload)
    else []
  }

  /** All effects of an uninterrupted run, in order, and its outcome. */
  function Script(e: Entry, o: Options, f: Files): (seq<Op>, Outcome) {
    match Decide(e, o, f)
    case SkipTarget => ([], SkippedEntry)
    case PublishPart => ([Publish], Done)
    case CopyFrom(removes, offset, seed) =>
      var before := (if removes then [Remove] else []) + [Open(offset == 0)] + CopyOps(e, o, offset);
      if CopySucceeds(e, o, offset, seed) then (before + [Publish], Done)
      else (before + if o.keep then [] else [Remove], Failed)
  }

  /** The files after a run that is cut off after n effects. */
  function CutRun(e: Entry, o: Options, f: Files, n: nat): Files
    requires n <= |Script(e, o, f).0|
  {
    ApplyAll(f, Script(e, o, f).0[..n])
  }

  function FullRun(e: Entry, o: Options, f: Files): Files {
    ApplyAll(f, Script(e, o, f).0)
  }

  // ---------------------------------------------------------------- the code

  lemma UpdateSplit(crc: bv32, s: seq<byte>, from: nat, mid: nat, to: nat)
    requires from <= mid <= to <= |s|
    ensures Update(crc, s[from..to]) == Update(Update(crc, s[from..mid]), s[mid..to])
  {
    hide Update;
    UpdateConcat(crc, s[from..mid], s[mid..to]);
    assert s[from..to] == s[from..mid] + s[mid..to];
  }

  lemma UpdateNothing(crc: bv32, s: seq<byte>, i: nat)
    requires i <= |s|
    ensures Update(crc, s[i..i]) == crc
  {
  }

  /** copy_store and copy_store_mapped: writes the payload from alreadyWritten on, in chunks, carrying
      the CRC from the given start. */
  method CopyStore(disk: Disk, e: Entry, check: bool, alreadyWritten: nat, initialCrc: bv32, chunk: Pos)
    returns (ok: bool)
    requires alreadyWritten <= |e.payload|
    modifies disk
    ensures disk.Follows(old(disk.State()), old(disk.log), Appends(e.payload[alreadyWritten..]))
    ensures ok <==> e.sound && (check ==> Update(initialCrc, e.payload[alreadyWritten..]) == e.crc)
  {
    hide Update, Appends, ApplyAll;
    ghost var was, from := disk.State(), disk.log;
    AppendsNothing(e.payload, alreadyWritten);
    var data := e.payload;
    var crc, written := initialCrc, alreadyWritten;
    UpdateNothing(crc, data, written);
    FollowsNothing(disk);
    while written < |data|
      invariant alreadyWritten <= written <= |data|
      invariant disk.Follows(was, from, Appends(data[alreadyWritten..written]))
      invariant check ==> crc == Update(initialCrc, data[alreadyWritten..written])
    {
      var n := if |data| - written > chunk then chunk else |data| - written;
      ghost var mid, midLog := disk.State(), disk.log;
      disk.WriteFile(data[written..written + n]);
      AppendsSplit(data, alreadyWritten, written, written + n);
      Chain(disk, was, from, Appends(data[alreadyWritten..written]), mid, midLog, Appends(data[written..written + n]));
      if check {
        UpdateSplit(initialCrc, data, alreadyWritten, written, written + n);
        crc := Update(crc, data[written..written + n]);
      }
      written := written + n;
    }
    assert data[alreadyWritten..written] == data[alreadyWritten..];
    ok := e.sound && (check ==> crc == e.crc);
  }

  /** The inflater's stores into a mapped output file. */
  method FillMapped(disk: Disk, contents: seq<seq<byte>>)
    modifies disk
    ensures disk.Follows(old(disk.State()), old(disk.log), Overwrites(contents))
  {
    ghost var was, from, all := disk.State(), disk.log, Overwrites(contents);
    assert all[..0] == [];
    for i := 0 to |contents|
      invariant disk.Follows(was, from, all[..i])
    {
      ghost var mid, midLog := disk.State(), disk.log;
      disk.OverwritePart(contents[i]);
      Chain(disk, was, from, all[..i], mid, midLog, [Overwrite(contents[i])]);
      assert all[..i + 1] == all[..i] + [Overwrite(contents[i])];
    }
    assert all[..|contents|] == all;
  }

  /** inflate_raw: fills a mapped output in place, or writes the whole output once it is known good. */
  method InflateRaw(disk: Disk, e: Entry, o: Options) returns (ok: bool)
    requires !e.stored
    modifies disk
    ensures disk.Follows(old(disk.State()), old(disk.log), CopyOps(e, o, 0))
    ensures ok <==> CopySucceeds(e, o, 0, 0)
  {
    hide Crc, Update;
    ghost var was, from := disk.State(), disk.log;
    FollowsNothing(disk);
    if e.mapsOutput {
      FillMapped(disk, e.scratch);
      if !e.sound {
        assert Overwrites(e.scratch) + [] == Overwrites(e.scratch);
        return false;
      }
      ghost var mid, midLog := disk.State(), disk.log;
      disk.OverwritePart(e.payload);
      Chain(disk, was, from, Overwrites(e.scratch), mid, midLog, [Overwrite(e.payload)]);
      return o.check ==> Crc(e.payload) == e.crc;
    }
    if !e.sound || (o.check && Crc(e.payload) != e.crc) {
      return false;
    }
    disk.WriteFile(e.payload);
    ok := true;
  }

  datatype Start = Finished(outcome: Outcome) | StartAt(offset: nat, seed: bv32)

  /** The check of an existing target: skip it, or go on with the CRC it left behind. */
  method CheckTarget(disk: Disk, e: Entry, o: Options) returns (skip: bool, seed: bv32)
    ensures skip <==> TargetIsGood(e, o, disk.State())
    ensures !skip ==> seed == SeedFromTarget(e, o, disk.State())
  {
    hide Crc;
    seed := 0;
    skip := false;
    var (finalExists, finalSize) := FileSize(disk.target);
    if o.keep && finalExists && finalSize == e.size {
      if !o.check {
        return true, 0;
      }
      seed := Crc(disk.target.value);
      skip := seed == e.crc;
    }
  }

  /** The effects and the result of the part block are those of the decision. */
  ghost predicate StartFollows(disk: Disk, d: Decision, o: Options, s: Start, was: Files, from: seq<Op>)
    reads disk
  {
    match d
    case SkipTarget => s == Finished(SkippedEntry) && disk.Follows(was, from, [])
    case PublishPart => s == Finished(Done) && disk.Follows(was, from, [Publish])
    case CopyFrom(removes, offset, seed) =>
      && s.StartAt? && s.offset == offset && (o.check ==> s.seed == seed)
      && disk.Follows(was, from, if removes then [Remove] else [])
  }

  /** The part block of extract_entry, up to the opening of the output file. */
  method PreparePart(disk: Disk, e: Entry, o: Options) returns (s: Start)
    modifies disk
    ensures StartFollows(disk, Decide(e, o, old(disk.State())), o, s, old(disk.State()), old(disk.log))
  {
    hide Crc, Apply, ApplyAll;
    FollowsNothing(disk);
    var skip, resumeCrc := CheckTarget(disk, e, o);
    if skip {
      return Finished(SkippedEntry);
    }
    ghost var seed := resumeCrc;
    var resumeOffset := 0;
    var (partExists, partSize) := if o.keep then FileSize(disk.part) else (false, 0);
    if o.keep && partExists {
      if partSize == e.size {
        if e.encrypted {
          disk.RemovePart();
          partExists, partSize := false, 0;
        } else if !o.check && !e.stored {
          disk.RemovePart();
          partExists, partSize := false, 0;
        } else if !o.check {
          disk.PublishFile();
          return Finished(Done);
        } else {
          resumeCrc := Crc(disk.part.value);
          if resumeCrc == e.crc {
            disk.PublishFile();
            return Finished(Done);
          }
          disk.RemovePart();
          partExists, partSize := false, 0;
        }
      } else if partSize > e.size {
        disk.RemovePart();
        partExists, partSize := false, 0;
      }
    } else if !o.keep {
      disk.RemovePart();
    }
    if o.keep && partExists && partSize > 0 && !e.encrypted && e.stored && e.sizesMatch {
      if o.check {
        resumeCrc := Crc(disk.part.value);
      }
      resumeOffset := partSize;
    } else if partExists && partSize > 0 {
      disk.RemovePart();
    }
    s := StartAt(resumeOffset, resumeCrc);
  }

  /** The copy or inflate step on the opened part. */
  method CopyPayload(disk: Disk, e: Entry, o: Options, offset: nat, seed: bv32, chunk: Pos) returns (ok: bool)
    requires Valid(e) && offset <= e.size && (offset > 0 ==> e.stored && e.sizesMatch)
    modifies disk
    ensures disk.Follows(old(disk.State()), old(disk.log), CopyOps(e, o, offset))
    ensures ok <==> CopySucceeds(e, o, offset, seed)
  {
    hide Crc, Update;
    if e.stored {
      if !e.sizesMatch {
        return false;
      }
      ok := CopyStore(disk, e, o.check, offset, seed, chunk);
    } else {
      ok := InflateRaw(disk, e, o);
    }
  }

  lemma OffsetFits(e: Entry, o: Options, f: Files)
    requires Decide(e, o, f).CopyFrom?
    ensures var d := Decide(e, o, f);
            d.offset <= e.size && (d.offset > 0 ==> e.stored && e.sizesMatch && !e.encrypted)
  {
  }

  lemma SeedOnlyMattersChecked(e: Entry, o: Options, offset: nat, a: bv32, b: bv32)
    requires o.check ==> a == b
    ensures CopySucceeds(e, o, offset, a) == CopySucceeds(e, o, offset, b)
  {
  }

  /** extract_entry with a part file, for a regular file. */
  method ExtractEntry(disk: Disk, e: Entry, o: Options, chunk: Pos) returns (r: Outcome)
    requires Valid(e)
    modifies disk
    ensures var (ops, outcome) := Script(e, o, old(disk.State()));
            r == outcome && disk.Follows(old(disk.State()), old(disk.log), ops)
  {
    hide Crc, Update, CopySucceeds, CopyOps, Decide, Apply, ApplyAll;
    ghost var was, from := disk.State(), disk.log;
    ghost var d := Decide(e, o, was);
    var start := PreparePart(disk, e, o);
    if start.Finished? {
      return start.outcome;
    }
    var offset := start.offset;
    OffsetFits(e, o, was);
    ghost var ops1 := if d.removes then [Remove] else [];
    ghost var mid, midLog := disk.State(), disk.log;
    disk.OpenPart(offset == 0);
    Chain(disk, was, from, ops1, mid, midLog, [Open(offset == 0)]);
    ghost var ops2 := ops1 + [Open(offset == 0)];
    mid, midLog := disk.State(), disk.log;
    var ok := CopyPayload(disk, e, o, offset, start.seed, chunk);
    SeedOnlyMattersChecked(e, o, offset, start.seed, d.seed);
    Chain(disk, was, from, ops2, mid, midLog, CopyOps(e, o, offset));
    ghost var ops3 := ops2 + CopyOps(e, o, offset);
    mid, midLog := disk.State(), disk.log;
    if ok {
      disk.PublishFile();
      Chain(disk, was, from, ops3, mid, midLog, [Publish]);
      return Done;
    }
    if !o.keep {
      disk.RemovePart();
      Chain(disk, was, from, ops3, mid, midLog, [Remove]);
    } else {
      assert ops3 + [] == ops3;
    }
    r := Failed;
  }
}

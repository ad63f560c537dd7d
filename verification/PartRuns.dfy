// What any number of runs of extract_entry, each cut off after any write, does to
// the part and the target: prefixes, published contents, retries.
module PartRuns {
  import opened Bytes
  import opened Crc32
  import Crc32BaseTable
  import Crc32Tables
  import opened PartDisk
  import opened PartFile

  // ---------------------------------------------------------------- the shape of a run

  /** The effects before the final rename or removal. */
  function Work(e: Entry, o: Options, f: Files): seq<Op>
    requires Decide(e, o, f).CopyFrom?
  {
    var d := Decide(e, o, f);
    (if d.removes then [Remove] else []) + [Open(d.offset == 0)] + CopyOps(e, o, d.offset)
  }

  lemma WorkHasNoPublish(e: Entry, o: Options, f: Files)
    requires Decide(e, o, f).CopyFrom?
    ensures Publish !in Work(e, o, f)
  {
  }

  /** The part once the output file is open. */
  function Opened(e: Entry, o: Options, f: Files): Files
    requires Decide(e, o, f).CopyFrom?
  {
    Files(Some(if Decide(e, o, f).offset == 0 then [] else f.part.GetOr([])), f.target)
  }

  /** What each decision says about the part it was made on. */
  lemma DecisionFacts(e: Entry, o: Options, f: Files)
    ensures match Decide(e, o, f)
      case SkipTarget => TargetIsGood(e, o, f)
      case PublishPart =>
        && o.keep && f.part.Some? && |f.part.value| == e.size && !e.encrypted
        && (if o.check then Crc(f.part.value) == e.crc else e.stored)
      case CopyFrom(removes, offset, seed) =>
        && offset <= e.size
        && (offset > 0 ==>
              && f.part.Some? && |f.part.value| == offset < e.size && !removes
              && e.stored && e.sizesMatch && !e.encrypted && (o.check ==> seed == Crc(f.part.value)))
  {
  }

  lemma OpenedIs(e: Entry, o: Options, f: Files)
    requires Decide(e, o, f).CopyFrom?
    ensures var d := Decide(e, o, f);
            ApplyAll(f, (if d.removes then [Remove] else []) + [Open(d.offset == 0)]) == Opened(e, o, f)
  {
    hide Decide;
    DecisionFacts(e, o, f);
    var d := Decide(e, o, f);
    var open := Open(d.offset == 0);
    if d.removes {
      ApplyOne(f, Remove);
      ApplyAllConcat(f, [Remove], [open]);
      ApplyOne(Apply(f, Remove), open);
    } else {
      assert [] + [open] == [open];
      ApplyOne(f, open);
    }
  }

  /** What the copy adds to an opened part. */
  lemma CopyWrites(e: Entry, o: Options, g: Files, offset: nat)
    requires g.part.Some? && (offset == 0 ==> g.part.value == [])
    ensures var h := ApplyAll(g, CopyOps(e, o, offset));
            && h.part.Some? && h.target == g.target
            && (e.stored && e.sizesMatch && offset <= |e.payload| ==>
                  h.part.value == g.part.value + e.payload[offset..])
            && (!e.stored && CopySucceeds(e, o, offset, 0) ==> h.part.value == e.payload)
  {
    hide Crc, Update;
    if e.stored {
      if e.sizesMatch && offset <= |e.payload| {
        AppendAll(g, e.payload[offset..]);
      }
    } else if offset == 0 && e.mapsOutput {
      OverwriteAll(g, e.scratch);
      var last := if e.sound then [Overwrite(e.payload)] else [];
      ApplyAllConcat(g, Overwrites(e.scratch), last);
      if e.sound {
        ApplyOne(ApplyAll(g, Overwrites(e.scratch)), Overwrite(e.payload));
      }
    } else if CopySucceeds(e, o, 0, 0) {
      AppendAll(g, e.payload);
      assert [] + e.payload == e.payload;
    }
  }

  /** What the part holds when the copy is done. */
  lemma WorkWrites(e: Entry, o: Options, f: Files)
    requires Valid(e) && Decide(e, o, f).CopyFrom?
    ensures var d := Decide(e, o, f);
            var g := ApplyAll(f, Work(e, o, f));
            && g.part.Some? && g.target == f.target
            && (e.stored && e.sizesMatch ==>
                  g.part.value == Opened(e, o, f).part.value + e.payload[d.offset..])
            && (CopySucceeds(e, o, d.offset, d.seed) && !e.stored ==> g.part.value == e.payload)
  {
    hide Crc, Update, Decide, CopyOps;
    DecisionFacts(e, o, f);
    OpenedIs(e, o, f);
    var d := Decide(e, o, f);
    CopyWrites(e, o, Opened(e, o, f), d.offset);
    ApplyAllConcat(f, (if d.removes then [Remove] else []) + [Open(d.offset == 0)], CopyOps(e, o, d.offset));
  }

  // ---------------------------------------------------------------- atomic replacement

  /** A run cut off before its end, or failing, leaves the target as it was. */
  lemma TargetIsReplacedAtOnce(e: Entry, o: Options, f: Files, n: nat)
    requires n <= |Script(e, o, f).0|
    requires n < |Script(e, o, f).0| || Script(e, o, f).1 != Done
    ensures CutRun(e, o, f, n).target == f.target
  {
    hide Crc, Update, Decide, CopyOps, CopySucceeds;
    var (ops, outcome) := Script(e, o, f);
    if Decide(e, o, f).CopyFrom? {
      WorkHasNoPublish(e, o, f);
      var work := Work(e, o, f);
      assert forall i :: 0 <= i < |work| ==> ops[i] == work[i];
      assert Publish !in ops[..n];
    } else {
      assert ops[..n] == [];
    }
    NoPublishNoChange(f, ops[..n]);
  }

  lemma WorkThen(e: Entry, o: Options, f: Files)
    requires Decide(e, o, f).CopyFrom?
    ensures var (ops, outcome) := Script(e, o, f);
            ops == Work(e, o, f) + (if outcome == Done then [Publish] else if o.keep then [] else [Remove])
    ensures var d := Decide(e, o, f);
            Script(e, o, f).1 == if CopySucceeds(e, o, d.offset, d.seed) then Done else Failed
  {
  }

  /** What a finished run puts in place of the target. */
  function Replacement(e: Entry, o: Options, f: Files): seq<byte> {
    match Decide(e, o, f)
    case SkipTarget => []
    case PublishPart => f.part.GetOr([])
    case CopyFrom(_, offset, _) =>
      if offset == 0 || offset > |e.payload| then e.payload else f.part.GetOr([]) + e.payload[offset..]
  }

  lemma DoneReplaces(e: Entry, o: Options, f: Files)
    requires Valid(e) && Script(e, o, f).1 == Done
    ensures FullRun(e, o, f) == Files(None, Some(Replacement(e, o, f)))
    ensures |Replacement(e, o, f)| == e.size
  {
    hide Crc, Update, Decide, Work, CopyOps, Appends;
    DecisionFacts(e, o, f);
    match Decide(e, o, f)
    case SkipTarget =>
    case PublishPart =>
      ApplyOne(f, Publish);
    case CopyFrom(removes, offset, seed) =>
      WorkWrites(e, o, f);
      WorkThen(e, o, f);
      ApplyAllConcat(f, Work(e, o, f), [Publish]);
      ApplyOne(ApplyAll(f, Work(e, o, f)), Publish);
      assert [] + e.payload[0..] == e.payload;
  }

  // ---------------------------------------------------------------- published contents

  /** With CRC validation off, a Deflate or encrypted entry is published only as this run's own output:
      a part of the full size is never taken over. */
  lemma NeverPublishesStalePart(e: Entry, o: Options, f: Files)
    requires Valid(e) && !o.check && (!e.stored || e.encrypted)
    requires Script(e, o, f).1 == Done
    ensures FullRun(e, o, f) == Files(None, Some(e.payload))
  {
    hide Crc, Update, Decide, CopyOps, FullRun;
    DecisionFacts(e, o, f);
    DoneReplaces(e, o, f);
  }

  /** A part of the full size, unencrypted, with a wrong and nonzero CRC. */
  predicate RejectedPart(e: Entry, f: Files) {
    && !e.encrypted && f.part.Some? && |f.part.value| == e.size
    && Crc(f.part.value) != e.crc && Crc(f.part.value) != 0
  }

  /** A target of the full size with a wrong and nonzero CRC. */
  predicate RejectedTarget(e: Entry, f: Files) {
    && f.target.Some? && |f.target.value| == e.size
    && Crc(f.target.value) != e.crc && Crc(f.target.value) != 0
  }

  /** There is no part that can be taken over or continued. */
  predicate StartsOver(e: Entry, f: Files) {
    || f.part.None? || |f.part.value| == 0 < e.size || |f.part.value| > e.size
    || e.encrypted || (|f.part.value| < e.size && !e.sizesMatch)
  }

  /** The copy starts over after a file of the right size was rejected, whose CRC was not zero; the
      code then continues from that CRC instead of from zero. */
  predicate StaleSeed(e: Entry, o: Options, f: Files) {
    && o.check && o.keep && e.stored && !TargetIsGood(e, o, f)
    && (RejectedPart(e, f) || (RejectedTarget(e, f) && StartsOver(e, f)))
  }

  lemma StaleSeedIsDecision(e: Entry, o: Options, f: Files)
    requires o.check && e.stored
    ensures StaleSeed(e, o, f)
       <==> Decide(e, o, f).CopyFrom? && Decide(e, o, f).offset == 0 && Decide(e, o, f).seed != 0
  {
  }

  lemma NotStoredNotStale(e: Entry, o: Options, f: Files)
    requires !e.stored
    ensures !StaleSeed(e, o, f)
  {
  }

  lemma NoCopyNotStale(e: Entry, o: Options, f: Files)
    requires !Decide(e, o, f).CopyFrom?
    ensures !StaleSeed(e, o, f)
  {
  }

  /** With CRC validation on, a finished run has published a file with the entry's CRC if and only if
      its copy was not seeded with the CRC of a rejected file. */
  lemma PublishedCrc(e: Entry, o: Options, f: Files)
    requires Valid(e) && o.check && Script(e, o, f).1 == Done
    ensures FullRun(e, o, f).target.Some?
    ensures Crc(FullRun(e, o, f).target.value) == e.crc <==> !StaleSeed(e, o, f)
  {
    hide Update, Decide, CopyOps, FullRun, StaleSeed;
    DecisionFacts(e, o, f);
    DoneReplaces(e, o, f);
    if Decide(e, o, f).CopyFrom? {
      var d := Decide(e, o, f);
      WorkThen(e, o, f);
      if e.stored {
        StaleSeedIsDecision(e, o, f);
        if d.offset == 0 {
          assert e.payload[0..] == e.payload;
          if Update(d.seed, e.payload) == Update(0, e.payload) {
            UpdateInjective(d.seed, 0, e.payload);
          }
        } else {
          UpdateConcat(0, f.part.value, e.payload[d.offset..]);
        }
      } else {
        NotStoredNotStale(e, o, f);
      }
    } else {
      NoCopyNotStale(e, o, f);
    }
  }

  // ---------------------------------------------------------------- what each run does

  /** A run is skipped exactly if it resumes and a target of the entry's size is there, whose CRC is right or
      not asked for. */
  lemma WhenSkipped(e: Entry, o: Options, f: Files)
    ensures Script(e, o, f).1 == SkippedEntry
       <==> o.keep && f.target.Some? && |f.target.value| == e.size && (o.check ==> Crc(f.target.value) == e.crc)
    ensures Script(e, o, f).1 == SkippedEntry <==> Script(e, o, f).0 == []
  {
    hide Crc, Update, CopyOps, CopySucceeds;
  }

  /** Whatever the options, a run that does not fail leaves a target of the entry's size. */
  lemma TargetHasSize(e: Entry, o: Options, f: Files)
    requires Valid(e) && Script(e, o, f).1 != Failed
    ensures FullRun(e, o, f).target.Some? && |FullRun(e, o, f).target.value| == e.size
  {
    hide Crc, Update, CopyOps, CopySucceeds, Decide;
    WhenSkipped(e, o, f);
    if Script(e, o, f).1 == Done {
      DoneReplaces(e, o, f);
    }
  }

  /** A part is published as it is exactly if the run resumes without being skipped and the part has the full size,
      is not encrypted, and has the right CRC or, without validation, belongs to a stored entry. */
  lemma WhenTakenOver(e: Entry, o: Options, f: Files)
    ensures Script(e, o, f).0 == [Publish]
       <==> && Script(e, o, f).1 != SkippedEntry && o.keep
            && f.part.Some? && |f.part.value| == e.size && !e.encrypted
            && if o.check then Crc(f.part.value) == e.crc else e.stored
    ensures Script(e, o, f).0 == [Publish] ==> Script(e, o, f).1 == Done
  {
    hide Crc, Update, CopyOps, CopySucceeds;
    if Decide(e, o, f).CopyFrom? {
      WorkThen(e, o, f);
      assert Work(e, o, f)[0] != Publish;
      assert Script(e, o, f).0[0] == Work(e, o, f)[0];
    }
  }

  /** The run opens its output file for the rest of the payload. */
  predicate Continues(e: Entry, o: Options, f: Files) {
    && o.keep && f.part.Some? && 0 < |f.part.value| < e.size && e.stored && e.sizesMatch && !e.encrypted
  }

  /** A run that is neither skipped nor takes the part over copies, from the end of a part that it continues. */
  lemma CopyDecision(e: Entry, o: Options, f: Files)
    requires Script(e, o, f).1 != SkippedEntry && Script(e, o, f).0 != [Publish]
    ensures Decide(e, o, f).CopyFrom?
    ensures Decide(e, o, f).offset == if Continues(e, o, f) then |f.part.value| else 0
    ensures Decide(e, o, f).removes
       <==> !o.keep || (f.part.Some? && !Continues(e, o, f) && (|f.part.value| > 0 || e.size == 0))
  {
    hide Crc, CopyOps, CopySucceeds;
  }

  /** A run that is neither skipped nor takes the part over appends the rest of the payload to a shorter part
      of a stored, unencrypted entry, and in all other cases starts over, first removing a part that it must not
      keep. */
  lemma WhenCopied(e: Entry, o: Options, f: Files)
    requires Valid(e) && Script(e, o, f).1 != SkippedEntry && Script(e, o, f).0 != [Publish]
    ensures var ops := Script(e, o, f).0;
            var removes := !o.keep || (f.part.Some? && !Continues(e, o, f) && (|f.part.value| > 0 || e.size == 0));
            var start := if removes then [Remove, Open(true)] else [Open(!Continues(e, o, f))];
            && start <= ops
            && (e.stored && e.sizesMatch ==>
                  start + Appends(e.payload[if Continues(e, o, f) then |f.part.value| else 0..]) <= ops)
  {
    hide Crc, Update, Appends, CopySucceeds, Decide, Script;
    CopyDecision(e, o, f);
    WorkThen(e, o, f);
    var d := Decide(e, o, f);
    assert [Remove] + [Open(d.offset == 0)] == [Remove, Open(d.offset == 0)];
  }

  /** Such a run ends well exactly if the decoder and the authentication do, the two sizes of a stored entry agree,
      and, with validation, the CRC of what it wrote, from its first byte on, is the entry's: no output of a
      failed decryption or inflation is ever published. */
  lemma WhenCopyEndsWell(e: Entry, o: Options, f: Files)
    requires Valid(e) && Script(e, o, f).1 != SkippedEntry && Script(e, o, f).0 != [Publish]
    requires !StaleSeed(e, o, f)
    ensures Script(e, o, f).1 == Done
       <==> && e.sound && (e.stored ==> e.sizesMatch)
            && (o.check ==> Crc(if Continues(e, o, f) && |f.part.value| <= |e.payload|
                                then f.part.value + e.payload[|f.part.value|..] else e.payload) == e.crc)
  {
    hide Update, CopyOps, Decide, StaleSeed, Script;
    DecisionFacts(e, o, f);
    CopyDecision(e, o, f);
    WorkThen(e, o, f);
    var d := Decide(e, o, f);
    assert e.payload[0..] == e.payload;
    if o.check && e.stored {
      StaleSeedIsDecision(e, o, f);
      if d.offset > 0 && e.sizesMatch {
        UpdateConcat(0, f.part.value, e.payload[d.offset..]);
      }
    }
  }

  // ---------------------------------------------------------------- retries

  /** An entry whose archive bytes are intact: they decode to a payload of the entry's size and CRC. */
  ghost predicate Intact(e: Entry) {
    (e.stored ==> e.sizesMatch) && e.sound && |e.payload| == e.size && Crc(e.payload) == e.crc
  }

  /** With CRC validation, a resuming run on an intact stored entry succeeds if and only if its copy is not
      seeded with a rejected file's CRC and a continued part completes to the entry's CRC. */
  lemma WhenRunSucceeds(e: Entry, f: Files)
    requires Valid(e) && Intact(e) && e.stored
    ensures var o := Options(true, true);
            Script(e, o, f).1 != Failed <==>
              && !StaleSeed(e, o, f)
              && (Decide(e, o, f).CopyFrom? && Decide(e, o, f).offset > 0 ==>
                    f.part.Some? && |f.part.value| <= e.size
                    && Crc(f.part.value + e.payload[|f.part.value|..]) == e.crc)
  {
    hide Update, Decide, CopyOps, StaleSeed;
    var o := Options(true, true);
    DecisionFacts(e, o, f);
    StaleSeedIsDecision(e, o, f);
    if Decide(e, o, f).CopyFrom? {
      var d := Decide(e, o, f);
      WorkThen(e, o, f);
      if d.offset == 0 {
        assert e.payload[0..] == e.payload;
        if Update(d.seed, e.payload) == Update(0, e.payload) {
          UpdateInjective(d.seed, 0, e.payload);
        }
      } else {
        UpdateConcat(0, f.part.value, e.payload[d.offset..]);
      }
    }
  }

  /** After a failed run, the part has the full size: the continued part, or the payload itself. */
  lemma FailedRunLeaves(e: Entry, f: Files)
    requires Valid(e) && Intact(e) && e.stored
    requires Script(e, Options(true, true), f).1 == Failed
    ensures var o := Options(true, true);
            && Decide(e, o, f).CopyFrom?
            && FullRun(e, o, f) == Files(Some(Opened(e, o, f).part.value + e.payload[Decide(e, o, f).offset..]), f.target)
            && Decide(e, o, f).offset <= |e.payload|
  {
    hide Crc, Update, Decide, CopyOps, Work;
    var o := Options(true, true);
    DecisionFacts(e, o, f);
    WorkWrites(e, o, f);
    WorkThen(e, o, f);
    assert Work(e, o, f) + [] == Work(e, o, f);
  }

  /** A run that finds the payload itself in the part publishes it. */
  lemma PayloadInPart(e: Entry, f: Files)
    requires Valid(e) && Intact(e) && e.stored && !e.encrypted && f.part == Some(e.payload)
    ensures Script(e, Options(true, true), f).1 != Failed
  {
  }

  /** A failed run from a full-size part or from nothing usable leaves the payload in the part. */
  lemma StartingOverLeavesPayload(e: Entry, f: Files)
    requires Valid(e) && Intact(e) && e.stored && Script(e, Options(true, true), f).1 == Failed
    requires Decide(e, Options(true, true), f).offset == 0
    ensures FullRun(e, Options(true, true), f).part == Some(e.payload)
  {
    hide Crc, Update, Decide, CopyOps, FullRun;
    FailedRunLeaves(e, f);
    assert [] + e.payload[0..] == e.payload;
  }

  /** After a failed run the part has the full size, so the next run does not continue it. */
  lemma SecondRunStartsOver(e: Entry, f: Files)
    requires Valid(e) && Intact(e) && e.stored && !e.encrypted
    requires Script(e, Options(true, true), f).1 == Failed
    ensures var o := Options(true, true);
            Decide(e, o, FullRun(e, o, f)).CopyFrom? ==> Decide(e, o, FullRun(e, o, f)).offset == 0
  {
    hide Crc, Update, Decide, CopyOps, FullRun, Script;
    var o := Options(true, true);
    DecisionFacts(e, o, f);
    FailedRunLeaves(e, f);
    DecisionFacts(e, o, FullRun(e, o, f));
    var p := FullRun(e, o, f).part.value;
    assert |p| == e.size;
  }

  /** The target is a file of the entry's size and CRC. */
  ghost predicate Good(e: Entry, f: Files) {
    f.target.Some? && |f.target.value| == e.size && Crc(f.target.value) == e.crc
  }

  /** A resuming run with CRC validation that does not fail on an intact entry leaves a good target. */
  lemma SuccessIsGood(e: Entry, f: Files)
    requires Valid(e) && Intact(e) && Script(e, Options(true, true), f).1 != Failed
    ensures Good(e, FullRun(e, Options(true, true), f))
  {
    hide Crc, Update, Decide, CopyOps, StaleSeed;
    var o := Options(true, true);
    if Script(e, o, f).1 == Done {
      if e.stored {
        WhenRunSucceeds(e, f);
      } else {
        NotStoredNotStale(e, o, f);
      }
      PublishedCrc(e, o, f);
      DoneReplaces(e, o, f);
    } else {
      DecisionFacts(e, o, f);
    }
  }

  /** A Deflate entry is never continued from a part, nor its CRC from a rejected file's: with CRC validation a
      resuming run on an intact one succeeds from any part and any target, encrypted or not. */
  lemma DeflateRunSucceeds(e: Entry, f: Files)
    requires Valid(e) && Intact(e) && !e.stored
    ensures Script(e, Options(true, true), f).1 != Failed
    ensures Good(e, FullRun(e, Options(true, true), f))
  {
    hide Crc, Update, CopyOps, FullRun;
    if Decide(e, Options(true, true), f).CopyFrom? {
      OffsetFits(e, Options(true, true), f);
    }
    SuccessIsGood(e, f);
  }

  /** Without resuming, the part is removed and no CRC is kept: an uninterrupted run publishes the payload of any
      intact entry, stored or not, encrypted or not, with or without CRC validation, from any part and any target. */
  lemma FreshRunSucceeds(e: Entry, check: bool, f: Files)
    requires Valid(e) && Intact(e)
    ensures Script(e, Options(check, false), f).1 == Done
    ensures FullRun(e, Options(check, false), f) == Files(None, Some(e.payload))
  {
    hide Update, CopyOps, FullRun, Script;
    var o := Options(check, false);
    assert Decide(e, o, f) == CopyFrom(true, 0, 0);
    assert e.payload[0..] == e.payload;
    WorkThen(e, o, f);
    DoneReplaces(e, o, f);
  }

  /** From any part and any target, some one of three uninterrupted resuming runs leaves a good target, unless
      the entry is both stored and encrypted. */
  lemma AtMostThreeRuns(e: Entry, f: Files)
    requires Valid(e) && Intact(e) && !(e.stored && e.encrypted)
    ensures var o := Options(true, true);
            var f1 := FullRun(e, o, f);
            var f2 := FullRun(e, o, f1);
            Good(e, f1) || Good(e, f2) || Good(e, FullRun(e, o, f2))
  {
    hide Crc, Update, Decide, CopyOps, FullRun, Script, Good;
    var o := Options(true, true);
    var f1 := FullRun(e, o, f);
    var f2 := FullRun(e, o, f1);
    if !e.stored {
      DeflateRunSucceeds(e, f);
    } else if Script(e, o, f).1 != Failed {
      SuccessIsGood(e, f);
    } else if Script(e, o, f1).1 != Failed {
      SuccessIsGood(e, f1);
    } else {
      FailedRunLeaves(e, f);
      FailedRunLeaves(e, f1);
      SecondRunStartsOver(e, f);
      StartingOverLeavesPayload(e, f1);
      PayloadInPart(e, f2);
      SuccessIsGood(e, f2);
    }
  }

  /** There is a short part of a stored entry to continue, and with the rest of the payload it has a CRC that is
      neither the entry's nor zero. */
  predicate CompletesWrong(e: Entry, f: Files)
    requires |e.payload| == e.size
  {
    && e.stored && !TargetIsGood(e, Options(true, true), f)
    && f.part.Some? && 0 < |f.part.value| < e.size
    && var crc := Crc(f.part.value + e.payload[|f.part.value|..]);
    crc != e.crc && crc != 0
  }

  /** What a continued part decides. */
  lemma ContinuesPart(e: Entry, f: Files)
    requires Valid(e) && Intact(e) && e.stored && !e.encrypted && !TargetIsGood(e, Options(true, true), f)
    ensures var d := Decide(e, Options(true, true), f);
            d.CopyFrom? && d.offset > 0
            <==> f.part.Some? && 0 < |f.part.value| < e.size
    ensures var d := Decide(e, Options(true, true), f);
            d.CopyFrom? && d.offset > 0 ==> d == CopyFrom(false, |f.part.value|, Crc(f.part.value))
  {
    hide Crc;
  }

  /** After a failed continuation the next run rejects the completed part, and fails again exactly when
      that part's CRC is not zero. */
  lemma RunAfterWrongPart(e: Entry, f: Files)
    requires Valid(e) && Intact(e) && e.stored && !e.encrypted && !TargetIsGood(e, Options(true, true), f)
    requires f.part.Some? && |f.part.value| == e.size && Crc(f.part.value) != e.crc
    ensures Script(e, Options(true, true), f).1 == Failed <==> Crc(f.part.value) != 0
  {
    hide Crc, Update, CopyOps, Script;
    WhenRunSucceeds(e, f);
  }

  lemma GoodIsGoodTarget(e: Entry, f: Files)
    ensures Good(e, f) <==> TargetIsGood(e, Options(true, true), f)
  {
  }

  lemma SkipsGoodTarget(e: Entry, f: Files)
    requires TargetIsGood(e, Options(true, true), f)
    ensures Script(e, Options(true, true), f).1 == SkippedEntry
  {
  }

  lemma SameTargetIsAsGood(e: Entry, f: Files, g: Files)
    requires f.target == g.target
    ensures TargetIsGood(e, Options(true, true), f) == TargetIsGood(e, Options(true, true), g)
  {
  }

  lemma NotStaleSeed(e: Entry, f: Files)
    requires Intact(e) && e.stored && Decide(e, Options(true, true), f).CopyFrom? && Decide(e, Options(true, true), f).offset > 0
    ensures !StaleSeed(e, Options(true, true), f)
  {
    hide Crc;
    StaleSeedIsDecision(e, Options(true, true), f);
  }

  /** Two uninterrupted runs are enough if and only if there is no part that completes wrong. */
  lemma TwoRunsSuffice(e: Entry, f: Files)
    requires Valid(e) && Intact(e) && !(e.stored && e.encrypted)
    ensures var o := Options(true, true);
            var f1 := FullRun(e, o, f);
            Good(e, f1) || Good(e, FullRun(e, o, f1)) <==> !CompletesWrong(e, f)
  {
    hide Crc, Update, Decide, CopyOps, FullRun, Script, Good, StaleSeed, TargetIsGood;
    var o := Options(true, true);
    var f1 := FullRun(e, o, f);
    if e.stored {
      WhenRunSucceeds(e, f);
    }
    if !e.stored {
      DeflateRunSucceeds(e, f);
    } else if TargetIsGood(e, o, f) {
      SkipsGoodTarget(e, f);
      SuccessIsGood(e, f);
    } else {
      ContinuesPart(e, f);
      if Script(e, o, f).1 != Failed {
        SuccessIsGood(e, f);
      } else {
        FailedRunLeaves(e, f);
        GoodIsGoodTarget(e, f);
        GoodIsGoodTarget(e, f1);
        SameTargetIsAsGood(e, f, f1);
        if Decide(e, o, f).offset == 0 {
          StartingOverLeavesPayload(e, f);
          PayloadInPart(e, f1);
          SuccessIsGood(e, f1);
        } else {
          OpenedIs(e, o, f);
          NotStaleSeed(e, f);
          RunAfterWrongPart(e, f1);
          if Script(e, o, f1).1 != Failed {
            SuccessIsGood(e, f1);
          } else {
            FailedRunLeaves(e, f1);
            GoodIsGoodTarget(e, FullRun(e, o, f1));
            SameTargetIsAsGood(e, f1, FullRun(e, o, f1));
          }
        }
      }
    }
  }

  // ---------------------------------------------------------------- any number of interrupted runs

  /** The part is a prefix of the payload, and the target, if any, is the payload. */
  ghost predicate PrefixOnly(e: Entry, f: Files) {
    && (f.part.Some? ==> f.part.value <= e.payload)
    && (f.target.Some? ==> f.target.value == e.payload)
  }

  /** Whatever bytes an interrupted copy appends, they continue a prefix of the payload. */
  lemma {:induction false} PrefixGrows(e: Entry, f: Files, offset: nat, n: nat)
    requires offset + n <= |e.payload| && f.part == Some(e.payload[..offset])
    ensures ApplyAll(f, Appends(e.payload[offset..])[..n]) == Files(Some(e.payload[..offset + n]), f.target)
  {
    var s := e.payload[offset..];
    assert Appends(s)[..n] == Appends(s[..n]);
    AppendAll(f, s[..n]);
    assert e.payload[..offset] + s[..n] == e.payload[..offset + n];
  }

  /** Removing or opening a part keeps it a prefix. */
  lemma {:induction false} OpeningKeepsPrefix(e: Entry, f: Files, ops: seq<Op>)
    requires PrefixOnly(e, f)
    requires forall op :: op in ops ==> op.Remove? || op.Open?
    ensures PrefixOnly(e, ApplyAll(f, ops))
    decreases |ops|
  {
    if ops != [] {
      OpeningKeepsPrefix(e, f, ops[..|ops| - 1]);
      assert ops[|ops| - 1] in ops;
    }
  }

  function Opening(d: Decision): seq<Op>
    requires d.CopyFrom?
  {
    (if d.removes then [Remove] else []) + [Open(d.offset == 0)]
  }

  /** The first effects of a copying run: part of the opening, or the opening and some of the bytes. */
  lemma FirstEffects(e: Entry, o: Options, f: Files, n: nat)
    requires Valid(e) && e.stored && e.sizesMatch && Decide(e, o, f).CopyFrom?
    requires n <= |Work(e, o, f)|
    ensures var d := Decide(e, o, f);
            && d.offset <= |e.payload|
            && Script(e, o, f).0[..n] ==
                 if n <= |Opening(d)| then Opening(d)[..n]
                 else Opening(d) + Appends(e.payload[d.offset..])[..n - |Opening(d)|]
  {
    hide Crc, Update, Decide, CopySucceeds, Appends;
    DecisionFacts(e, o, f);
    WorkThen(e, o, f);
    var d := Decide(e, o, f);
    assert Script(e, o, f).0[..n] == Work(e, o, f)[..n];
    assert Work(e, o, f) == Opening(d) + Appends(e.payload[d.offset..]);
  }

  lemma OpenedPrefix(e: Entry, o: Options, f: Files)
    requires Decide(e, o, f).CopyFrom? && PrefixOnly(e, f)
    ensures Decide(e, o, f).offset <= |e.payload| ==>
              Opened(e, o, f).part == Some(e.payload[..Decide(e, o, f).offset])
  {
    hide Decide, Crc;
    DecisionFacts(e, o, f);
    if 0 < Decide(e, o, f).offset <= |e.payload| {
      assert f.part.value == e.payload[..|f.part.value|];
    }
  }

  /** An uninterrupted run that does not fail ends with the payload as the target. */
  lemma FullRunKeepsPrefix(e: Entry, o: Options, f: Files)
    requires Valid(e) && e.stored && !e.encrypted && e.sizesMatch && PrefixOnly(e, f)
    ensures PrefixOnly(e, FullRun(e, o, f))
    ensures Script(e, o, f).1 != Failed ==> FullRun(e, o, f).target == Some(e.payload)
  {
    hide Crc, Update, Decide, CopySucceeds, ApplyAll, Work, Apply;
    DecisionFacts(e, o, f);
    NoEffects(f);
    match Script(e, o, f).1
    case SkippedEntry =>
    case Done =>
      DoneReplaces(e, o, f);
      if Decide(e, o, f).CopyFrom? && Decide(e, o, f).offset > 0 {
        assert e.payload == f.part.value + e.payload[|f.part.value|..];
      }
    case Failed =>
      WorkThen(e, o, f);
      WorkWrites(e, o, f);
      if !o.keep {
        ApplyAllConcat(f, Work(e, o, f), [Remove]);
        RemoveLast(ApplyAll(f, Work(e, o, f)));
      } else {
        assert Work(e, o, f) + [] == Work(e, o, f);
        if Decide(e, o, f).offset > 0 {
          assert e.payload == f.part.value + e.payload[|f.part.value|..];
        }
      }
  }

  /** A run on a stored, unencrypted entry keeps the part a prefix, wherever it is cut off. */
  lemma CutKeepsPrefix(e: Entry, o: Options, f: Files, n: nat)
    requires Valid(e) && e.stored && !e.encrypted && e.sizesMatch
    requires PrefixOnly(e, f) && n <= |Script(e, o, f).0|
    ensures PrefixOnly(e, CutRun(e, o, f, n))
  {
    hide Crc, Update, Decide, CopySucceeds, ApplyAll, Work, Apply;
    DecisionFacts(e, o, f);
    NoEffects(f);
    var (ops, outcome) := Script(e, o, f);
    if n == |ops| {
      assert ops[..n] == ops;
      FullRunKeepsPrefix(e, o, f);
    } else if Decide(e, o, f).CopyFrom? {
      WorkThen(e, o, f);
      FirstEffects(e, o, f, n);
      var d := Decide(e, o, f);
      var k := |Opening(d)|;
      if n <= k {
        OpeningKeepsPrefix(e, f, Opening(d)[..n]);
      } else {
        OpenedIs(e, o, f);
        ApplyAllConcat(f, Opening(d), Appends(e.payload[d.offset..])[..n - k]);
        OpenedPrefix(e, o, f);
        PrefixGrows(e, Opened(e, o, f), d.offset, n - k);
      }
    } else {
      assert ops[..n] == [];
    }
  }

  /** One run: its options, and after how many effects it is cut off. */
  datatype Run = Run(options: Options, cut: nat)

  /** The files after a number of runs, each cut off after some effect or run to its end. */
  function AfterRuns(e: Entry, f: Files, runs: seq<Run>): Files
    decreases |runs|
  {
    if runs == [] then f
    else
      var g, last := AfterRuns(e, f, runs[..|runs| - 1]), runs[|runs| - 1];
      var ops := Script(e, last.options, g).0;
      ApplyAll(g, ops[..if last.cut <= |ops| then last.cut else |ops|])
  }

  // ---------------------------------------------------------------- encrypted entries over an old target

  /** An encrypted stored entry is never continued, so with CRC validation a resuming run succeeds if and
      only if there is no target of the entry's size with a wrong, nonzero CRC. */
  lemma EncryptedRunSucceeds(e: Entry, f: Files)
    requires Valid(e) && Intact(e) && e.stored && e.encrypted
    ensures Script(e, Options(true, true), f).1 != Failed <==> !RejectedTarget(e, f)
  {
    hide Crc, Update, CopyOps, Script;
    WhenRunSucceeds(e, f);
    if Decide(e, Options(true, true), f).CopyFrom? {
      OffsetFits(e, Options(true, true), f);
    }
  }

  /** Such a target is never replaced: every resuming run fails, and after any number of them, cut off
      anywhere, it is still there. */
  lemma {:induction false} NeverReplacesTarget(e: Entry, f: Files, runs: seq<Run>)
    requires Valid(e) && Intact(e) && e.stored && e.encrypted && RejectedTarget(e, f)
    requires forall r <- runs :: r.options == Options(true, true)
    ensures AfterRuns(e, f, runs).target == f.target
    ensures Script(e, Options(true, true), AfterRuns(e, f, runs)).1 == Failed
    decreases |runs|
  {
    hide Crc, Update, Script;
    if runs != [] {
      var n := |runs| - 1;
      var g, o := AfterRuns(e, f, runs[..n]), Options(true, true);
      NeverReplacesTarget(e, f, runs[..n]);
      var ops := Script(e, o, g).0;
      assert runs[n].options == o;
      TargetIsReplacedAtOnce(e, o, g, if runs[n].cut <= |ops| then runs[n].cut else |ops|);
    }
    EncryptedRunSucceeds(e, AfterRuns(e, f, runs));
  }

  // ---------------------------------------------------------------- true prefixes

  /** Over any number of runs with any options, each cut off after any write, starting without a target
      and with no part or a true prefix, the part of a stored, unencrypted entry stays a prefix of the
      payload, the target is never anything but the payload, and a run that then ends well ends with
      the payload as the target. */
  lemma {:induction false} AnyRunsKeepPrefix(e: Entry, f: Files, runs: seq<Run>, o: Options)
    requires Valid(e) && e.stored && !e.encrypted && e.sizesMatch
    requires f.target.None? && (f.part.Some? ==> f.part.value <= e.payload)
    ensures PrefixOnly(e, AfterRuns(e, f, runs))
    ensures var g := AfterRuns(e, f, runs);
            Script(e, o, g).1 != Failed ==> FullRun(e, o, g).target == Some(e.payload)
    decreases |runs|
  {
    hide Script, FullRun, Crc, Update;
    if runs != [] {
      var before, last := runs[..|runs| - 1], runs[|runs| - 1];
      AnyRunsKeepPrefix(e, f, before, last.options);
      var g := AfterRuns(e, f, before);
      var total := |Script(e, last.options, g).0|;
      CutKeepsPrefix(e, last.options, g, if last.cut <= total then last.cut else total);
    }
    FullRunKeepsPrefix(e, o, AfterRuns(e, f, runs));
  }

  lemma FullPrefix(e: Entry, f: Files)
    requires f.part.Some? && f.part.value <= e.payload && |f.part.value| == |e.payload|
    ensures f.part.value == e.payload
  {
  }

  /** From a true prefix, with intact archive bytes, the next uninterrupted run does not fail. */
  lemma PrefixRunSucceeds(e: Entry, o: Options, f: Files)
    requires Valid(e) && Intact(e) && e.stored && !e.encrypted && PrefixOnly(e, f)
    ensures Script(e, o, f).1 != Failed
  {
    hide Update, CopyOps;
    DecisionFacts(e, o, f);
    if f.part.Some? && |f.part.value| == e.size {
      FullPrefix(e, f);
    }
    if Decide(e, o, f).CopyFrom? {
      var d := Decide(e, o, f);
      assert e.payload[0..] == e.payload;
      if d.offset > 0 {
        assert e.payload == f.part.value + e.payload[d.offset..];
        UpdateConcat(0, f.part.value, e.payload[d.offset..]);
      }
      WorkThen(e, o, f);
    }
  }

  // ---------------------------------------------------------------- the stale seed, concretely

  /** One byte continued with the listed table entry. */
  lemma UpdateOneByte(crc: bv32, b: byte, x: byte, entry: bv32)
    requires Crc32Tables.Mix(Not(crc), b) == x && Crc32BaseTable.BaseEntry(x as nat) == entry
    ensures Update(crc, [b]) == Not(Xor(Crc32Tables.Down(Not(crc)), entry))
  {
    hide Not, Xor, FeedBits, Crc32BaseTable.BaseEntry, Crc32Tables.Mix, Crc32Tables.Down;
    RawOfOne(Not(crc), b);
    Crc32Tables.OneByte(Not(crc), b);
    Crc32BaseTable.BaseEntryIs(x);
  }

  lemma TableEntries()
    ensures Crc32BaseTable.BaseEntry(0xFF) == 0x2D02EF8D && Crc32BaseTable.BaseEntry(0xFE) == 0x5A05DF1B
    ensures Crc32BaseTable.BaseEntry(0xE4) == 0xA7672661 && Crc32BaseTable.BaseEntry(0x72) == 0xBE0B1010
  {
  }

  lemma OneByteCrcs()
    ensures Crc([0]) == 0xD202EF8D && Crc([1]) == 0xA505DF1B
    ensures Update(0xA505DF1B, [0]) == 0x58C223BE && Update(0xD202EF8D, [0]) == 0x41D912FF
  {
    hide Update, Crc32BaseTable.BaseEntry;
    TableEntries();
    UpdateOneByte(0, 0, 0xFF, 0x2D02EF8D);
    UpdateOneByte(0, 1, 0xFE, 0x5A05DF1B);
    UpdateOneByte(0xA505DF1B, 0, 0xE4, 0xA7672661);
    UpdateOneByte(0xD202EF8D, 0, 0x72, 0xBE0B1010);
  }

  lemma SmallCrcs()
    ensures Crc([0]) == 0xD202EF8D
    ensures Crc([1]) == 0xA505DF1B
    ensures Update(0xA505DF1B, [0]) == 0x58C223BE
    ensures Crc([1, 0]) == 0x58C223BE
    ensures Crc([0, 0]) == 0x41D912FF
  {
    hide Update;
    var zero: seq<byte>, one: seq<byte> := [0], [1];
    OneByteCrcs();
    UpdateConcat(0, one, zero);
    UpdateConcat(0, zero, zero);
    assert one + zero == [1, 0] && zero + zero == [0, 0];
  }

  /** A stored entry of the given bytes and CRC, as an intact archive or a damaged one would hold it. */
  function StoredEntry(payload: seq<byte>, crc: bv32): Entry {
    Entry(|payload|, crc, true, false, payload, true, true, false, [])
  }

  /** A short part of one wrong byte, before an intact entry of two zero bytes: three runs. */
  lemma ThreeRunsExample()
    ensures var e, o := StoredEntry([0, 0], 0x41D912FF), Options(true, true);
            var f1 := FullRun(e, o, Files(Some([1]), None));
            var f2 := FullRun(e, o, f1);
            Intact(e) && !Good(e, f1) && !Good(e, f2) && Good(e, FullRun(e, o, f2))
  {
    hide Crc, Update, FullRun, Script, Good;
    SmallCrcs();
    var e, f := StoredEntry([0, 0], 0x41D912FF), Files(Some([1]), None);
    assert [1] + e.payload[1..] == [1, 0];
    TwoRunsSuffice(e, f);
    AtMostThreeRuns(e, f);
  }

  /** An intact encrypted entry of two zero bytes over an old target of two other bytes: no number of resuming
      runs extracts it. */
  lemma EncryptedTargetExample(runs: seq<Run>)
    requires forall r <- runs :: r.options == Options(true, true)
    ensures var e := StoredEntry([0, 0], 0x41D912FF).(encrypted := true);
            var f := AfterRuns(e, Files(None, Some([1, 0])), runs);
            && Valid(e) && Intact(e)
            && f.target == Some([1, 0]) && Script(e, Options(true, true), f).1 == Failed
  {
    hide Crc, Update, Script;
    SmallCrcs();
    NeverReplacesTarget(StoredEntry([0, 0], 0x41D912FF).(encrypted := true), Files(None, Some([1, 0])), runs);
  }

  /** A damaged archive: the payload's CRC is not the entry's, but continuing from the CRC of the
      rejected part gives it, and the run publishes the damaged payload. */
  lemma DamagedPayloadExample()
    ensures var e, o, f := StoredEntry([0], 0x58C223BE), Options(true, true), Files(Some([1]), None);
            && Script(e, o, f).1 == Done
            && FullRun(e, o, f).target == Some([0])
            && Crc([0]) != e.crc
  {
    hide Crc, Update, FullRun, CopyOps;
    SmallCrcs();
    var e, o, f := StoredEntry([0], 0x58C223BE), Options(true, true), Files(Some([1]), None);
    assert Decide(e, o, f) == CopyFrom(true, 0, 0xA505DF1B);
    assert e.payload[0..] == [0];
    WorkThen(e, o, f);
    DoneReplaces(e, o, f);
  }
}

// Any number of runs of the unknown-size scan on an archive that is there in part,
// each cut off after any effect: what they leave in the part and in the target.
module ScannerRuns {
  import opened Bytes
  import opened Crc32
  import opened PartDisk
  import opened StoreDescriptors
  import opened StoreScanner
  import opened ScannerResume

  // ---------------------------------------------------------------- runs

  /** A run while the first `length` bytes of the archive are there: its outcome if it is not cut off, and
      after how many effects it is. */
  datatype Run = Run(length: nat, keepPart: bool, result: ScanResult, cut: Option<nat>)

  /** The first bytes of the archive, as many as are there. */
  function There(file: seq<byte>, length: nat): seq<byte> {
    if length <= |file| then file[..length] else file
  }

  /** The outcome of the run is what the scan gives from the part in f. */
  ghost predicate IsRun(file: seq<byte>, dataOffset: nat, f: Files, run: Run) {
    && run.length <= |file|
    && ScansTo(There(file, run.length), dataOffset, f.part.GetOr([]), run.keepPart, run.result)
  }

  /** All effects that the run would have. */
  function Effects(file: seq<byte>, dataOffset: nat, f: Files, run: Run): seq<Op> {
    ScanEffects(There(file, run.length), dataOffset, f.part, run.keepPart, run.result)
  }

  /** The files after the run. */
  function AfterRun(file: seq<byte>, dataOffset: nat, f: Files, run: Run): Files {
    var ops := Effects(file, dataOffset, f, run);
    ApplyAll(f, if run.cut.Some? && run.cut.value <= |ops| then ops[..run.cut.value] else ops)
  }

  /** The files after one run after the other. */
  function AfterRuns(file: seq<byte>, dataOffset: nat, f: Files, runs: seq<Run>): Files
    decreases |runs|
  {
    if runs == [] then f
    else
      var n := |runs| - 1;
      AfterRun(file, dataOffset, AfterRuns(file, dataOffset, f, runs[..n]), runs[n])
  }

  ghost predicate AreRuns(file: seq<byte>, dataOffset: nat, f: Files, runs: seq<Run>)
    decreases |runs|
  {
    if runs == [] then true
    else
      var n := |runs| - 1;
      && AreRuns(file, dataOffset, f, runs[..n])
      && IsRun(file, dataOffset, AfterRuns(file, dataOffset, f, runs[..n]), runs[n])
  }

  /** A fresh scan of the whole data stops at g, behind a payload of `end` bytes. */
  ghost predicate FreshPayload(data: seq<byte>, g: nat, end: nat) {
    FirstStop(data, 0, g) && (SignedAt(data, g) || 12 <= g) && end == PayloadEnd(data, g)
  }

  /** The part holds payload bytes only, and the target, if any, is the payload. */
  ghost predicate PayloadOnly(data: seq<byte>, end: nat, f: Files) {
    && end <= |data|
    && (f.part.Some? ==> f.part.value <= data[..end])
    && (f.target.Some? ==> f.target.value == data[..end])
  }

  // ---------------------------------------------------------------- one run, cut off anywhere

  /** What is there of the data in a truncated archive. */
  lemma TruncatedData(file: seq<byte>, dataOffset: nat, length: nat)
    requires dataOffset <= length <= |file|
    ensures file[..length][dataOffset..] == file[dataOffset..][..length - dataOffset]
  {
  }

  /** A picked-up prefix of the data makes the stream of a truncated archive a prefix of the data. */
  lemma TruncatedStream(data: seq<byte>, m: nat, part: seq<byte>, keepPart: bool)
    requires m <= |data| && part <= data
    ensures var start := PickedUp(part, keepPart, m);
            |start| <= m && start == data[..|start|] && Stream(start, data[..m]) == data[..m]
  {
    var start := PickedUp(part, keepPart, m);
    assert start == data[..m][..|start|];
    PrefixStream(data[..m], |start|);
  }

  lemma PickedUpIsShort(part: seq<byte>, keepPart: bool, m: nat)
    ensures |PickedUp(part, keepPart, m)| <= |part| && |PickedUp(part, keepPart, m)| <= m
  {
  }

  /** An unsuccessful scan flushes no byte of the descriptor, unless the truncation cuts that. */
  lemma FlushedAtMost(data: seq<byte>, m: nat, from: nat, g: nat)
    requires m <= |data| && FirstStop(data, 0, g) && from <= PayloadEnd(data, g) && from <= m
    requires (forall h: nat :: !StopsAt(data[..m], from, h)) && !CutsDescriptor(data, g, m)
    ensures from <= Flushed(m, from) <= PayloadEnd(data, g) && Flushed(m, from) <= m
  {
    hide SignedAt, UnsignedAt, StopsAt;
    assert From(from, m) == from;
    OneMoreRun(data, from, m, g);
  }

  /** What a run writes is payload: a published file exactly the payload, a part at most that. */
  lemma WritesPayload(file: seq<byte>, dataOffset: nat, f: Files, run: Run, g: nat, end: nat)
    requires dataOffset <= run.length <= |file| && FreshPayload(file[dataOffset..], g, end)
    requires PayloadOnly(file[dataOffset..], end, f) && IsRun(file, dataOffset, f, run)
    requires !CutsDescriptor(file[dataOffset..], g, run.length - dataOffset)
    ensures var data := file[dataOffset..];
            var start := PickedUp(f.part.GetOr([]), run.keepPart, run.length - dataOffset);
            && start <= Content(run.result) <= data[..end]
            && (run.result.Published? ==> run.result.payload == data[..end])
            && !run.result.BadOffset?
  {
    hide SignedAt, UnsignedAt, StopsAt, PayloadEnd, PickedUp, Stream, Crc, Flushed;
    var data, m := file[dataOffset..], run.length - dataOffset;
    var part := f.part.GetOr([]);
    var start := PickedUp(part, run.keepPart, m);
    TruncatedData(file, dataOffset, run.length);
    TruncatedStream(data, m, part, run.keepPart);
    PickedUpIsShort(part, run.keepPart, m);
    if run.result.Published? {
      var h: nat :| FirstStop(data[..m], |start|, h) && PublishedAt(run.result, data[..m], dataOffset, h);
      TruncatedStop(data, m, |start|, g, h);
      EndInPrefix(data, m, |start|, h);
      EndAfterPart(data[..m], |start|, h);
      assert run.result.payload == data[..end];
    } else {
      FlushedAtMost(data, m, |start|, g);
      assert run.result.part == data[..Flushed(m, |start|)];
    }
  }

  /** The first effects of a run: part of the opening, or the opening and some of the bytes, or all. */
  lemma FirstEffects(pre: seq<Op>, s: seq<byte>, last: seq<Op>, n: nat)
    requires n <= |pre + Appends(s) + last| && |last| <= 1
    ensures (pre + Appends(s) + last)[..n]
         == if n <= |pre| then pre[..n]
            else if n <= |pre| + |s| then pre + Appends(s[..n - |pre|])
            else pre + Appends(s) + last
  {
    if |pre| < n <= |pre| + |s| {
      assert Appends(s)[..n - |pre|] == Appends(s[..n - |pre|]);
    }
  }

  lemma OpenOrRemove(f: Files, truncate: bool)
    ensures Apply(f, Remove) == Files(None, f.target)
    ensures Apply(f, Open(truncate)) == Files(Some(if truncate then [] else f.part.GetOr([])), f.target)
    ensures Apply(Apply(f, Remove), Open(truncate)) == Files(Some([]), f.target)
  {
  }

  /** The opening, whole or in part, leaves the old part, none, or what is picked up. */
  lemma OpeningLeaves(f: Files, keepPart: bool, available: nat, n: nat)
    requires n <= |Opening(f.part, keepPart, available)|
    ensures var ops := Opening(f.part, keepPart, available);
            var g := ApplyAll(f, ops[..n]);
            && g.target == f.target && (g.part == None || g.part == f.part || g.part == Some([]))
            && (n == |ops| ==> g.part == Some(PickedUp(f.part.GetOr([]), keepPart, available)))
  {
    hide Apply;
    var start := PickedUp(f.part.GetOr([]), keepPart, available);
    var ops := Opening(f.part, keepPart, available);
    var open := Open(start == []);
    NoEffects(f);
    ApplyOne(f, Remove);
    ApplyOne(f, open);
    ApplyAllConcat(f, [Remove], [open]);
    ApplyOne(Apply(f, Remove), open);
    OpenOrRemove(f, start == []);
    if |ops| == 2 {
      assert ops == [Remove] + [open] && ops[..1] == [Remove];
    } else {
      assert ops == [open];
    }
  }

  lemma EndOfRun(f: Files)
    requires f.part.Some?
    ensures ApplyAll(f, [Remove]) == Files(None, f.target)
    ensures ApplyAll(f, [Publish]) == Files(None, f.part)
  {
    ApplyOne(f, Remove);
    ApplyOne(f, Publish);
  }

  /** Effects that open a part at the start of the content and append the rest of it leave just that. */
  lemma UncutLeaves(f: Files, keepPart: bool, available: nat, content: seq<byte>)
    requires PickedUp(f.part.GetOr([]), keepPart, available) <= content
    ensures var start := PickedUp(f.part.GetOr([]), keepPart, available);
            ApplyAll(f, Opening(f.part, keepPart, available) + Appends(Beyond(content, |start|))) == Files(Some(content), f.target)
  {
    hide Apply, ApplyAll, Opening, PickedUp, Appends;
    var start := PickedUp(f.part.GetOr([]), keepPart, available);
    var pre, s := Opening(f.part, keepPart, available), Beyond(content, |start|);
    OpeningLeaves(f, keepPart, available, |pre|);
    assert pre[..|pre|] == pre;
    ApplyAllConcat(f, pre, Appends(s));
    AppendAll(Files(Some(start), f.target), s);
    assert start + s == content;
  }

  /** Effects that open a part at the start of the content, append the rest of it, and then publish all of it or
      not, leave payload only, wherever they are cut off. */
  lemma CutLeavesPayload(data: seq<byte>, end: nat, f: Files, keepPart: bool, available: nat,
                         content: seq<byte>, last: seq<Op>, n: nat)
    requires PayloadOnly(data, end, f) && content <= data[..end]
    requires PickedUp(f.part.GetOr([]), keepPart, available) <= content
    requires last == [] || last == [Remove] || (last == [Publish] && content == data[..end])
    requires n <= |Opening(f.part, keepPart, available)| + |Beyond(content, |PickedUp(f.part.GetOr([]), keepPart, available)|)| + |last|
    ensures var start := PickedUp(f.part.GetOr([]), keepPart, available);
            var ops := Opening(f.part, keepPart, available) + Appends(Beyond(content, |start|)) + last;
            && |ops| >= n
            && PayloadOnly(data, end, ApplyAll(f, ops[..n]))
            && (n == |ops| && last == [] ==> ApplyAll(f, ops[..n]) == Files(Some(content), f.target))
            && (n == |ops| && last == [Publish] ==> ApplyAll(f, ops[..n]) == Files(None, Some(content)))
  {
    hide Apply, ApplyAll, Opening, PickedUp, Appends;
    var start := PickedUp(f.part.GetOr([]), keepPart, available);
    var pre, s := Opening(f.part, keepPart, available), Beyond(content, |start|);
    var ops := pre + Appends(s) + last;
    FirstEffects(pre, s, last, n);
    if n <= |pre| {
      OpeningLeaves(f, keepPart, available, n);
      if n == |pre| == |ops| {
        assert content == start;
      }
    } else {
      var k := if n <= |pre| + |s| then n - |pre| else |s|;
      OpeningLeaves(f, keepPart, available, |pre|);
      assert pre[..|pre|] == pre;
      assert s[..|s|] == s;
      var atStart := Files(Some(start), f.target);
      ApplyAllConcat(f, pre, Appends(s[..k]));
      AppendAll(atStart, s[..k]);
      assert start + s == content;
      assert start + s[..k] == content[..|start| + k];
      if n > |pre| + |s| {
        ApplyAllConcat(f, pre + Appends(s), last);
        EndOfRun(Files(Some(content), f.target));
      } else if n == |ops| {
        assert content[..|start| + k] == content;
      }
    }
  }

  // ---------------------------------------------------------------- any number of runs

  /** The truncations at which some run saw the descriptor cut. */
  ghost predicate NoneCutsDescriptor(data: seq<byte>, dataOffset: nat, g: nat, runs: seq<Run>) {
    forall r <- runs :: dataOffset <= r.length ==> !CutsDescriptor(data, g, r.length - dataOffset)
  }

  lemma BadOffsetRun(file: seq<byte>, dataOffset: nat, f: Files, run: Run)
    requires run.length < dataOffset && IsRun(file, dataOffset, f, run)
    ensures run.result.BadOffset? && Effects(file, dataOffset, f, run) == []
  {
  }

  /** One run, cut off after any effect, leaves payload bytes only; one that is not cut off and finds the
      descriptor leaves the payload as the target. */
  lemma RunLeavesPayload(file: seq<byte>, dataOffset: nat, f: Files, run: Run, g: nat, end: nat)
    requires dataOffset <= |file| && FreshPayload(file[dataOffset..], g, end)
    requires PayloadOnly(file[dataOffset..], end, f) && IsRun(file, dataOffset, f, run)
    requires dataOffset <= run.length ==> !CutsDescriptor(file[dataOffset..], g, run.length - dataOffset)
    ensures PayloadOnly(file[dataOffset..], end, AfterRun(file, dataOffset, f, run))
    ensures run.cut.None? && run.result.Published?
            ==> AfterRun(file, dataOffset, f, run) == Files(None, Some(file[dataOffset..][..end]))
    ensures run.cut.None? && run.result.Incomplete? && run.keepPart
            ==> AfterRun(file, dataOffset, f, run) == Files(Some(run.result.part), f.target)
  {
    hide FreshPayload, ScansTo, PickedUp, Opening, Appends, ApplyAll, CutsDescriptor;
    var ops := Effects(file, dataOffset, f, run);
    if dataOffset <= run.length {
      WritesPayload(file, dataOffset, f, run, g, end);
      var last := if run.result.Published? then [Publish] else if run.keepPart then [] else [Remove];
      CutLeavesPayload(file[dataOffset..], end, f, run.keepPart, run.length - dataOffset, Content(run.result), last,
                       if run.cut.Some? && run.cut.value <= |ops| then run.cut.value else |ops|);
      assert ops[..|ops|] == ops;
    } else {
      BadOffsetRun(file, dataOffset, f, run);
      NoEffects(f);
    }
  }

  /** Over any number of runs while the archive is there to any extent, each resuming or not and cut off after any
      effect, the part holds payload bytes only and the target, if any, is the payload of a fresh scan of the
      whole archive, provided no run saw that descriptor cut. */
  lemma {:induction false} AnyRuns(file: seq<byte>, dataOffset: nat, f: Files, runs: seq<Run>, g: nat, end: nat)
    requires dataOffset <= |file| && FreshPayload(file[dataOffset..], g, end)
    requires PayloadOnly(file[dataOffset..], end, f) && AreRuns(file, dataOffset, f, runs)
    requires NoneCutsDescriptor(file[dataOffset..], dataOffset, g, runs)
    ensures PayloadOnly(file[dataOffset..], end, AfterRuns(file, dataOffset, f, runs))
    decreases |runs|
  {
    hide FreshPayload, IsRun, PayloadOnly, AfterRun, CutsDescriptor;
    if runs != [] {
      var n := |runs| - 1;
      AnyRuns(file, dataOffset, f, runs[..n], g, end);
      RunLeavesPayload(file, dataOffset, AfterRuns(file, dataOffset, f, runs[..n]), runs[n], g, end);
    }
  }

  lemma WholeIsNotCut(data: seq<byte>, g: nat)
    ensures !CutsDescriptor(data, g, |data|)
  {
  }

  /** After such runs, one that is not cut off on the whole archive publishes the payload. */
  lemma LastRunPublishes(file: seq<byte>, dataOffset: nat, f: Files, run: Run, g: nat, end: nat)
    requires dataOffset <= |file| && FreshPayload(file[dataOffset..], g, end)
    requires PayloadOnly(file[dataOffset..], end, f) && IsRun(file, dataOffset, f, run)
    requires run.length == |file| && run.cut.None?
    ensures AfterRun(file, dataOffset, f, run) == Files(None, Some(file[dataOffset..][..end]))
  {
    hide SignedAt, UnsignedAt, StopsAt, PayloadEnd, PickedUp, Stream, PublishedAt, AfterRun;
    var data := file[dataOffset..];
    var part := f.part.GetOr([]);
    var start := PickedUp(part, run.keepPart, |data|);
    WholeIsNotCut(data, g);
    RunLeavesPayload(file, dataOffset, f, run, g, end);
    assert data[..|data|] == data && There(file, |file|) == file;
    TruncatedStream(data, |data|, part, run.keepPart);
    PickedUpIsShort(part, run.keepPart, |data|);
    ResumeAgrees(data, |start|, g);
  }

  // ---------------------------------------------------------------- retries on a growing archive

  /** Resuming runs that are not cut off and find no descriptor. */
  ghost predicate Retries(runs: seq<Run>) {
    forall r <- runs :: r.keepPart && r.cut.None? && r.result.Incomplete?
  }

  function Lengths(dataOffset: nat, runs: seq<Run>): (lengths: seq<nat>)
    ensures |lengths| == |runs|
  {
    seq(|runs|, i requires 0 <= i < |runs| => if dataOffset <= runs[i].length then runs[i].length - dataOffset else 0)
  }

  lemma PicksUpFrom(data: seq<byte>, k: nat, m: nat)
    requires k <= |data|
    ensures PickedUp(data[..k], true, m) == data[..From(k, m)]
  {
  }

  /** A retry from the first k bytes of the data flushes all but the last fifteen bytes, and found no end. */
  lemma RetryFlushes(file: seq<byte>, dataOffset: nat, f: Files, run: Run, k: nat)
    requires dataOffset <= |file| && k <= |file| - dataOffset && f.part.GetOr([]) == file[dataOffset..][..k]
    requires IsRun(file, dataOffset, f, run) && run.keepPart && run.result.Incomplete?
    ensures dataOffset <= run.length <= |file|
    ensures var data, m := file[dataOffset..], run.length - dataOffset;
            && IncompleteRun(data, k, m) && Flushed(m, From(k, m)) <= m
            && PickedUp(data[..k], true, m) == data[..From(k, m)] <= run.result.part
            && run.result.part == data[..Flushed(m, From(k, m))]
  {
    hide StopsAt, PublishedAt, Stream, PickedUp;
    if run.length < dataOffset {
      BadOffsetRun(file, dataOffset, f, run);
    }
    var data, m := file[dataOffset..], run.length - dataOffset;
    TruncatedData(file, dataOffset, run.length);
    TruncatedStream(data, m, data[..k], true);
    PicksUpFrom(data, k, m);
    assert data[..m][..Flushed(m, From(k, m))] == data[..Flushed(m, From(k, m))];
  }

  lemma InThere(file: seq<byte>, run: Run)
    requires run.length <= |file|
    ensures |There(file, run.length)| == run.length
  {
  }

  /** So it leaves that in the part. */
  lemma RetryLeaves(file: seq<byte>, dataOffset: nat, f: Files, run: Run, k: nat)
    requires dataOffset <= |file| && k <= |file| - dataOffset
    requires f.part.GetOr([]) == file[dataOffset..][..k]
    requires IsRun(file, dataOffset, f, run) && run.keepPart && run.cut.None? && run.result.Incomplete?
    ensures dataOffset <= run.length <= |file|
    ensures var data, m := file[dataOffset..], run.length - dataOffset;
            && IncompleteRun(data, k, m) && Flushed(m, From(k, m)) <= m
            && AfterRun(file, dataOffset, f, run) == Files(Some(data[..Flushed(m, From(k, m))]), f.target)
  {
    hide IsRun, IncompleteRun, Flushed, PickedUp, Opening, Appends, ApplyAll;
    RetryFlushes(file, dataOffset, f, run, k);
    var m := run.length - dataOffset;
    var ops := Opening(f.part, true, m) + Appends(Beyond(run.result.part, |PickedUp(f.part.GetOr([]), true, m)|));
    InThere(file, run);
    UncutLeaves(f, true, m, run.result.part);
    assert Effects(file, dataOffset, f, run) == ops + [] == ops;
  }

  /** Retries leave the bytes that their lengths determine. */
  lemma {:induction false} RetriesLeave(file: seq<byte>, dataOffset: nat, runs: seq<Run>)
    requires dataOffset <= |file| && AreRuns(file, dataOffset, Files(None, None), runs) && Retries(runs)
    ensures var data, lengths := file[dataOffset..], Lengths(dataOffset, runs);
            && AllIncomplete(data, lengths) && PartAfter(lengths) <= |data|
            && AfterRuns(file, dataOffset, Files(None, None), runs).part.GetOr([]) == data[..PartAfter(lengths)]
            && AfterRuns(file, dataOffset, Files(None, None), runs).target.None?
    decreases |runs|
  {
    hide IsRun, AfterRun, IncompleteRun, Flushed;
    if runs != [] {
      var n := |runs| - 1;
      var lengths := Lengths(dataOffset, runs);
      assert lengths[..n] == Lengths(dataOffset, runs[..n]);
      assert runs[n] in runs;
      RetriesLeave(file, dataOffset, runs[..n]);
      RetryLeaves(file, dataOffset, AfterRuns(file, dataOffset, Files(None, None), runs[..n]), runs[n], PartAfter(lengths[..n]));
      assert lengths[n] == runs[n].length - dataOffset;
      assert PartAfter(lengths) == Flushed(lengths[n], From(PartAfter(lengths[..n]), lengths[n]));
    }
  }

  /** Retried on a growing archive until the descriptor is there, the resumed scan ends exactly like a fresh one, with
      the same bytes, CRC and next position, if and only if no retry saw the archive end 16 to 19 bytes
      into the signed descriptor. */
  lemma GrowingArchive(file: seq<byte>, dataOffset: nat, runs: seq<Run>, g: nat, anew: ScanResult, resumed: ScanResult)
    requires dataOffset <= |file| && FirstStop(file[dataOffset..], 0, g)
    requires AreRuns(file, dataOffset, Files(None, None), runs) && Retries(runs) && Growing(Lengths(dataOffset, runs))
    requires ScansTo(file, dataOffset, [], true, anew)
    requires ScansTo(file, dataOffset, AfterRuns(file, dataOffset, Files(None, None), runs).part.GetOr([]), true, resumed)
    ensures anew.Published?
    ensures resumed == anew <==> NoneCuts(file[dataOffset..], g, Lengths(dataOffset, runs))
  {
    hide FirstStop, PayloadEnd, NoneCuts, ScansTo, AreRuns, AfterRuns, Growing, AllIncomplete;
    var data, lengths := file[dataOffset..], Lengths(dataOffset, runs);
    RetriesLeave(file, dataOffset, runs);
    GrowingLengths(data, lengths, g);
    ResumeAgrees(data, PartAfter(lengths), g);
    ResumedRunAgrees(file, dataOffset, PartAfter(lengths), g, anew, resumed);
  }

  // ---------------------------------------------------------------- the runs that spoil a part

  /** A resuming run from payload bytes that sees the descriptor cut finds no end. */
  lemma CutRunFindsNoEnd(file: seq<byte>, dataOffset: nat, f: Files, run: Run, g: nat, end: nat)
    requires dataOffset <= |file| && FreshPayload(file[dataOffset..], g, end) && dataOffset <= run.length
    requires PayloadOnly(file[dataOffset..], end, f) && IsRun(file, dataOffset, f, run) && run.keepPart
    requires CutsDescriptor(file[dataOffset..], g, run.length - dataOffset)
    ensures run.result.Incomplete?
  {
    hide SignedAt, UnsignedAt, StopsAt, PublishedAt, Stream;
    var data, m := file[dataOffset..], run.length - dataOffset;
    var part := f.part.GetOr([]);
    var start := PickedUp(part, run.keepPart, m);
    TruncatedData(file, dataOffset, run.length);
    TruncatedStream(data, m, part, run.keepPart);
    PickedUpIsShort(part, run.keepPart, m);
    if run.result.Published? {
      var h: nat :| FirstStop(data[..m], |start|, h);
      TruncatedStop(data, m, |start|, g, h);
      StopsInPrefix(data, m, |start|, h);
      assert false;
    }
  }

  /** A resuming run that is not cut off leaves payload only if and only if it did not see the descriptor cut. */
  lemma WhenRunLeavesPayload(file: seq<byte>, dataOffset: nat, f: Files, run: Run, g: nat, end: nat)
    requires dataOffset <= |file| && FreshPayload(file[dataOffset..], g, end) && dataOffset <= run.length
    requires PayloadOnly(file[dataOffset..], end, f) && IsRun(file, dataOffset, f, run)
    requires run.keepPart && run.cut.None?
    ensures PayloadOnly(file[dataOffset..], end, AfterRun(file, dataOffset, f, run))
       <==> !CutsDescriptor(file[dataOffset..], g, run.length - dataOffset)
  {
    hide SignedAt, StopsAt, IsRun, AfterRun, IncompleteRun;
    var data, m := file[dataOffset..], run.length - dataOffset;
    if CutsDescriptor(data, g, m) {
      var k := |f.part.GetOr([])|;
      CutRunFindsNoEnd(file, dataOffset, f, run, g, end);
      RetryLeaves(file, dataOffset, f, run, k);
      assert Flushed(m, From(k, m)) > g == end;
    } else {
      RunLeavesPayload(file, dataOffset, f, run, g, end);
    }
  }

  /** Before the runs and after each of them the part and the target are payload. */
  ghost predicate AlwaysPayload(file: seq<byte>, dataOffset: nat, f: Files, runs: seq<Run>, end: nat)
    requires dataOffset <= |file|
    decreases |runs|
  {
    && PayloadOnly(file[dataOffset..], end, AfterRuns(file, dataOffset, f, runs))
    && (runs != [] ==> AlwaysPayload(file, dataOffset, f, runs[..|runs| - 1], end))
  }

  /** Resuming runs that are not cut off. */
  ghost predicate WholeRuns(runs: seq<Run>) {
    forall r <- runs :: r.keepPart && r.cut.None?
  }

  lemma NoRuns(data: seq<byte>, dataOffset: nat, g: nat)
    ensures NoneCutsDescriptor(data, dataOffset, g, [])
  {
  }

  lemma OneMoreWholeRun(data: seq<byte>, dataOffset: nat, g: nat, runs: seq<Run>)
    requires runs != []
    ensures var n := |runs| - 1;
            && (WholeRuns(runs) ==> WholeRuns(runs[..n]) && runs[n].keepPart && runs[n].cut.None?)
            && (NoneCutsDescriptor(data, dataOffset, g, runs) <==>
                  && NoneCutsDescriptor(data, dataOffset, g, runs[..n])
                  && (dataOffset <= runs[n].length ==> !CutsDescriptor(data, g, runs[n].length - dataOffset)))
  {
    hide CutsDescriptor;
    var n := |runs| - 1;
    assert runs == runs[..n] + [runs[n]];
    assert runs[n] in runs;
  }

  /** Over any number of resuming runs that are not cut off, the files are payload all the time if and only if no
      run saw the descriptor cut. */
  lemma {:induction false} WhenRunsLeavePayload(file: seq<byte>, dataOffset: nat, f: Files, runs: seq<Run>, g: nat, end: nat)
    requires dataOffset <= |file| && FreshPayload(file[dataOffset..], g, end)
    requires PayloadOnly(file[dataOffset..], end, f) && AreRuns(file, dataOffset, f, runs)
    requires WholeRuns(runs)
    ensures AlwaysPayload(file, dataOffset, f, runs, end) <==> NoneCutsDescriptor(file[dataOffset..], dataOffset, g, runs)
    decreases |runs|
  {
    hide FreshPayload, IsRun, PayloadOnly, AfterRun, CutsDescriptor, WholeRuns, NoneCutsDescriptor;
    var data := file[dataOffset..];
    if runs == [] {
      assert NoneCutsDescriptor(data, dataOffset, g, []) by {
        NoRuns(data, dataOffset, g);
      }
    } else {
      var n := |runs| - 1;
      var before := AfterRuns(file, dataOffset, f, runs[..n]);
      OneMoreWholeRun(data, dataOffset, g, runs);
      WhenRunsLeavePayload(file, dataOffset, f, runs[..n], g, end);
      if PayloadOnly(data, end, before) {
        if dataOffset <= runs[n].length {
          WhenRunLeavesPayload(file, dataOffset, before, runs[n], g, end);
        } else {
          RunLeavesPayload(file, dataOffset, before, runs[n], g, end);
        }
      }
    }
  }
}

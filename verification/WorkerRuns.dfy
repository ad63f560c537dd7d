// All interleavings of the workers of extract_all_parallel: every step keeps the
// accounting of entries, progress and results, and a run that ends well did the
// serial run's work.
module WorkerRuns {
  import opened Bytes
  import opened Workers

  // ---------------------------------------------------------------- states and steps

  /** Where a worker is. lo is the entry at hand, hi the end of its batch; credit what it has reported
      of entry lo. */
  datatype Phase =
    | Starting
    | Idle
    | Batch(lo: nat, hi: nat)
    | Extracting(lo: nat, hi: nat, credit: nat)
    | Finishing(lo: nat, hi: nat, credit: nat)
    | Failing(err: int)
    | Stopped

  /** The shared state, the workers, and a record of what happened to each entry. */
  datatype State = State(
    shared: Shared,
    phases: seq<Phase>,
    owner: seq<nat>,
    begun: seq<nat>,
    written: seq<bool>,
    finished: seq<bool>,
    credit: seq<nat>,
    batches: seq<(nat, nat)>,
    files: map<string, seq<byte>>
  )

  /** One atomic step of worker w. goOn is what the progress callback answers. */
  datatype Action =
    | Start(w: nat)
    | StartFails(w: nat, err: int)
    | ClaimNext(w: nat)
    | Begin(w: nat)
    | Chunk(w: nat, amount: nat, goOn: bool)
    | Extracted(w: nat)
    | ExtractFails(w: nat, err: int)
    | Finish(w: nat, goOn: bool)
    | Record(w: nat)

  function Init(c: Config, workers: nat, files: map<string, seq<byte>>): State {
    var n := |c.items|;
    State(INITIAL, seq(workers, i => Starting), seq(n, i => 0), seq(n, i => 0), seq(n, i => false),
          seq(n, i => false), seq(n, i => 0), [], files)
  }

  predicate Sized(c: Config, s: State) {
    var n := |c.items|;
    |s.owner| == n && |s.begun| == n && |s.written| == n && |s.finished| == n && |s.credit| == n
  }

  predicate Enabled(c: Config, s: State, a: Action) {
    && Sized(c, s) && a.w < |s.phases| && s.shared.next <= |c.items|
    && var p := s.phases[a.w];
       match a
       case Start(_) => p.Starting?
       case StartFails(_, err) => p.Starting? && err < OK
       case ClaimNext(_) => p.Idle?
       case Begin(_) => p.Batch? && p.lo <= p.hi <= |c.items|
       case Chunk(_, amount, _) =>
         // the decoder never produces more than the declared size
         && p.Extracting? && p.lo < |c.items| && c.progress && !c.items[p.lo].isDirectory
         && 0 < amount && p.credit + amount <= c.items[p.lo].size
       case Extracted(_) => p.Extracting? && p.lo < |c.items|
       case ExtractFails(_, err) => p.Extracting? && err < OK
       case Finish(_, _) => p.Finishing? && p.lo < |c.items|
       case Record(_) => p.Failing?
  }

  /** The amount progress_finish_entry still has to report. */
  function Rest(c: Config, p: Phase): nat
    requires p.Finishing? && p.lo < |c.items|
  {
    var size := ProgressSize(c.items[p.lo]);
    if c.progress && size > p.credit then size - p.credit else 0
  }

  function Assign(owner: seq<nat>, lo: nat, hi: nat, w: nat): (r: seq<nat>)
    requires lo <= hi <= |owner|
    ensures |r| == |owner|
  {
    seq(|owner|, i requires 0 <= i < |owner| => if lo <= i < hi then w else owner[i])
  }

  function Do(c: Config, s: State, a: Action): State
    requires Enabled(c, s, a)
  {
    var w, p := a.w, s.phases[a.w];
    match a
    case Start(_) => s.(phases := s.phases[w := Idle])
    case StartFails(_, err) => s.(phases := s.phases[w := Stopped], shared := Fail(s.shared, err))
    case ClaimNext(_) =>
      var (shared, batch) := Claim(c, s.shared);
      if batch.None? then s.(phases := s.phases[w := Stopped])
      else
        var (lo, hi) := batch.value;
        s.(shared := shared,
           phases := s.phases[w := Batch(lo, hi)],
           owner := Assign(s.owner, lo, hi, w),
           batches := s.batches + [(lo, hi)])
    case Begin(_) =>
      if p.lo == p.hi then s.(phases := s.phases[w := Idle])
      else if c.items[p.lo].skip then s.(phases := s.phases[w := Finishing(p.lo, p.hi, 0)])
      else s.(phases := s.phases[w := Extracting(p.lo, p.hi, 0)], begun := s.begun[p.lo := s.begun[p.lo] + 1])
    case Chunk(_, amount, goOn) =>
      var credit := p.credit + amount;
      s.(shared := Advance(s.shared, amount, goOn),
         credit := s.credit[p.lo := s.credit[p.lo] + amount],
         phases := s.phases[w := if goOn then Extracting(p.lo, p.hi, credit) else Failing(ECANCEL)])
    case Extracted(_) =>
      s.(phases := s.phases[w := Finishing(p.lo, p.hi, p.credit)],
         written := s.written[p.lo := true],
         files := s.files[c.items[p.lo].path := c.items[p.lo].content])
    case ExtractFails(_, err) => s.(phases := s.phases[w := Failing(err)])
    case Finish(_, goOn) =>
      var rest := Rest(c, p);
      if rest == 0 then
        s.(phases := s.phases[w := Batch(p.lo + 1, p.hi)], finished := s.finished[p.lo := true])
      else if goOn then
        s.(shared := Advance(s.shared, rest, true),
           credit := s.credit[p.lo := s.credit[p.lo] + rest],
           phases := s.phases[w := Batch(p.lo + 1, p.hi)],
           finished := s.finished[p.lo := true])
      else
        s.(shared := Advance(s.shared, rest, false),
           credit := s.credit[p.lo := s.credit[p.lo] + rest],
           phases := s.phases[w := Failing(ECANCEL)])
    case Record(_) => s.(phases := s.phases[w := Stopped], shared := Fail(s.shared, p.err))
  }

  // ---------------------------------------------------------------- the invariant

  /** Nothing has happened to entry j. */
  predicate Fresh(s: State, j: nat)
    requires j < |s.begun| && j < |s.written| && j < |s.finished| && j < |s.credit|
  {
    s.begun[j] == 0 && !s.written[j] && !s.finished[j] && s.credit[j] == 0
  }

  ghost predicate OwnsFresh(c: Config, s: State, w: nat, lo: nat, hi: nat)
    requires Sized(c, s) && hi <= |c.items|
  {
    forall j: nat :: lo <= j < hi ==> s.owner[j] == w && Fresh(s, j)
  }

  /** How often entry j is to be extracted. */
  function Once(c: Config, j: nat): nat
    requires j < |c.items|
  {
    if c.items[j].skip then 0 else 1
  }

  ghost predicate WorkerOk(c: Config, s: State, w: nat)
    requires Sized(c, s) && w < |s.phases| && s.shared.next <= |c.items|
  {
    match s.phases[w]
    case Starting => true
    case Idle => true
    case Batch(lo, hi) => lo <= hi <= s.shared.next && OwnsFresh(c, s, w, lo, hi)
    case Extracting(lo, hi, credit) =>
      && lo < hi <= s.shared.next && OwnsFresh(c, s, w, lo + 1, hi)
      && s.owner[lo] == w && !c.items[lo].skip
      && s.begun[lo] == 1 && !s.written[lo] && !s.finished[lo] && s.credit[lo] == credit
    case Finishing(lo, hi, credit) =>
      && lo < hi <= s.shared.next && OwnsFresh(c, s, w, lo + 1, hi)
      && s.owner[lo] == w
      && s.begun[lo] == Once(c, lo) && s.written[lo] == !c.items[lo].skip && !s.finished[lo] && s.credit[lo] == credit
    case Failing(err) => err < OK
    case Stopped => s.shared.result != OK || s.shared.next >= |c.items|
  }

  predicate InBatch(p: Phase, j: nat) {
    match p
    case Batch(lo, hi) => lo <= j < hi
    case Extracting(lo, hi, _) => lo <= j < hi
    case Finishing(lo, hi, _) => lo <= j < hi
    case _ => false
  }

  /** The worker has given up, and the result says so or will. */
  predicate GaveUp(s: State, p: Phase) {
    p.Failing? || (p.Stopped? && s.shared.result != OK)
  }

  ghost predicate EntryOk(c: Config, s: State, j: nat)
    requires Sized(c, s) && j < |c.items|
  {
    && s.begun[j] <= 1 && s.credit[j] <= ProgressSize(c.items[j])
    && (j >= s.shared.next ==> Fresh(s, j))
    && (j < s.shared.next ==>
          && s.owner[j] < |s.phases|
          && if s.finished[j] then
               && s.begun[j] == Once(c, j) && s.written[j] == !c.items[j].skip
               && (c.progress ==> s.credit[j] == ProgressSize(c.items[j]))
             else InBatch(s.phases[s.owner[j]], j) || GaveUp(s, s.phases[s.owner[j]]))
  }

  ghost predicate Accounted(c: Config, s: State) {
    && Sized(c, s) && s.shared.next <= |c.items|
    && (forall w: nat :: w < |s.phases| ==> WorkerOk(c, s, w))
    && (forall j: nat :: j < |c.items| ==> EntryOk(c, s, j))
  }

  // ---------------------------------------------------------------- every step keeps the accounting

  lemma InitAccounted(c: Config, workers: nat, files: map<string, seq<byte>>)
    ensures Accounted(c, Init(c, workers, files))
  {
  }

  /** Entry j is recorded alike in both states. */
  predicate SameEntry(s: State, t: State, j: nat)
    requires j < |s.owner| && j < |s.begun| && j < |s.written| && j < |s.finished| && j < |s.credit|
    requires j < |t.owner| && j < |t.begun| && j < |t.written| && j < |t.finished| && j < |t.credit|
  {
    && s.owner[j] == t.owner[j] && s.begun[j] == t.begun[j] && s.written[j] == t.written[j]
    && s.finished[j] == t.finished[j] && s.credit[j] == t.credit[j]
  }

  /** A step of worker w alone, touching no entry but its own entry lo (or none, if lo is negative). */
  ghost predicate LocalStep(c: Config, s: State, t: State, w: nat, lo: int) {
    && Sized(c, s) && Sized(c, t) && s.shared.next == t.shared.next <= |c.items|
    && (s.shared.result != OK ==> t.shared.result != OK)
    && |t.phases| == |s.phases| && w < |s.phases|
    && (forall v: nat :: v < |s.phases| && v != w ==> t.phases[v] == s.phases[v])
    && (forall j: nat :: j < |c.items| && j != lo ==> SameEntry(s, t, j))
    && (0 <= lo ==> lo < s.shared.next && s.owner[lo] == w)
    && (forall j: nat :: j != lo && InBatch(s.phases[w], j) ==> InBatch(t.phases[w], j) || GaveUp(t, t.phases[w]))
  }

  lemma StillFresh(c: Config, s: State, t: State, w: nat, lo: int, v: nat, from: nat, to: nat)
    requires LocalStep(c, s, t, w, lo) && (v == w ==> lo < from) && to <= |c.items| && OwnsFresh(c, s, v, from, to)
    ensures OwnsFresh(c, t, v, from, to)
  {
    forall j: nat | from <= j < to
      ensures t.owner[j] == v && Fresh(t, j)
    {
      assert s.owner[j] == v && Fresh(s, j);
      assert SameEntry(s, t, j);
    }
  }

  lemma OtherWorker(c: Config, s: State, t: State, w: nat, lo: int, v: nat)
    requires Accounted(c, s) && LocalStep(c, s, t, w, lo) && v < |s.phases| && v != w
    ensures WorkerOk(c, t, v)
  {
    assert WorkerOk(c, s, v);
    assert t.phases[v] == s.phases[v];
    match s.phases[v]
    case Batch(from, to) =>
      StillFresh(c, s, t, w, lo, v, from, to);
    case Extracting(at, to, _) =>
      StillFresh(c, s, t, w, lo, v, at + 1, to);
      assert SameEntry(s, t, at);
    case Finishing(at, to, _) =>
      StillFresh(c, s, t, w, lo, v, at + 1, to);
      assert SameEntry(s, t, at);
    case _ =>
  }

  lemma OtherEntry(c: Config, s: State, t: State, w: nat, lo: int, j: nat)
    requires Accounted(c, s) && LocalStep(c, s, t, w, lo) && j < |c.items| && j != lo
    requires !GaveUp(s, s.phases[w]) || GaveUp(t, t.phases[w])
    ensures EntryOk(c, t, j)
  {
    assert EntryOk(c, s, j);
    assert SameEntry(s, t, j);
  }

  lemma OthersKeep(c: Config, s: State, t: State, w: nat, lo: int)
    requires Accounted(c, s) && LocalStep(c, s, t, w, lo)
    requires !GaveUp(s, s.phases[w]) || GaveUp(t, t.phases[w])
    requires WorkerOk(c, t, w) && (0 <= lo ==> EntryOk(c, t, lo))
    ensures Accounted(c, t)
  {
    forall v: nat | v < |t.phases|
      ensures WorkerOk(c, t, v)
    {
      if v != w {
        OtherWorker(c, s, t, w, lo, v);
      }
    }
    forall j: nat | j < |c.items|
      ensures EntryOk(c, t, j)
    {
      if j != lo {
        OtherEntry(c, s, t, w, lo, j);
      }
    }
  }

  lemma StartKeeps(c: Config, s: State, a: Action)
    requires Accounted(c, s) && Enabled(c, s, a) && (a.Start? || a.StartFails? || a.Record?)
    ensures Accounted(c, Do(c, s, a))
  {
    assert WorkerOk(c, s, a.w);
    OthersKeep(c, s, Do(c, s, a), a.w, -1);
  }

  lemma BeginKeeps(c: Config, s: State, a: Action)
    requires Accounted(c, s) && Enabled(c, s, a) && a.Begin?
    ensures Accounted(c, Do(c, s, a))
  {
    var p, t := s.phases[a.w], Do(c, s, a);
    assert WorkerOk(c, s, a.w);
    if p.lo < p.hi {
      assert s.owner[p.lo] == a.w && Fresh(s, p.lo);
      assert EntryOk(c, s, p.lo);
      StillFresh(c, s, t, a.w, p.lo, a.w, p.lo + 1, p.hi);
      OthersKeep(c, s, t, a.w, p.lo);
    } else {
      OthersKeep(c, s, t, a.w, -1);
    }
  }

  lemma ChunkKeeps(c: Config, s: State, a: Action)
    requires Accounted(c, s) && Enabled(c, s, a) && a.Chunk?
    ensures Accounted(c, Do(c, s, a))
  {
    var p, t := s.phases[a.w], Do(c, s, a);
    assert WorkerOk(c, s, a.w) && EntryOk(c, s, p.lo);
    StillFresh(c, s, t, a.w, p.lo, a.w, p.lo + 1, p.hi);
    OthersKeep(c, s, t, a.w, p.lo);
  }

  lemma ExtractedKeeps(c: Config, s: State, a: Action)
    requires Accounted(c, s) && Enabled(c, s, a) && (a.Extracted? || a.ExtractFails?)
    ensures Accounted(c, Do(c, s, a))
  {
    var p, t := s.phases[a.w], Do(c, s, a);
    assert WorkerOk(c, s, a.w) && EntryOk(c, s, p.lo);
    StillFresh(c, s, t, a.w, p.lo, a.w, p.lo + 1, p.hi);
    OthersKeep(c, s, t, a.w, p.lo);
  }

  lemma FinishKeeps(c: Config, s: State, a: Action)
    requires Accounted(c, s) && Enabled(c, s, a) && a.Finish?
    ensures Accounted(c, Do(c, s, a))
  {
    var p, t := s.phases[a.w], Do(c, s, a);
    assert WorkerOk(c, s, a.w) && EntryOk(c, s, p.lo);
    StillFresh(c, s, t, a.w, p.lo, a.w, p.lo + 1, p.hi);
    OthersKeep(c, s, t, a.w, p.lo);
  }

  /** Entries claimed before keep their owner and stay fresh. */
  lemma ClaimKeepsFresh(c: Config, s: State, a: Action, v: nat, from: nat, to: nat)
    requires Accounted(c, s) && Enabled(c, s, a) && a.ClaimNext? && Claim(c, s.shared).1.Some?
    requires to <= s.shared.next && OwnsFresh(c, s, v, from, to)
    ensures OwnsFresh(c, Do(c, s, a), v, from, to)
  {
    var t := Do(c, s, a);
    forall j: nat | from <= j < to
      ensures t.owner[j] == v && Fresh(t, j)
    {
      assert s.owner[j] == v && Fresh(s, j);
      assert SameEntry(s, t, j);
    }
  }

  lemma ClaimKeepsWorker(c: Config, s: State, a: Action, v: nat)
    requires Accounted(c, s) && Enabled(c, s, a) && a.ClaimNext? && Claim(c, s.shared).1.Some?
    requires v < |s.phases|
    ensures WorkerOk(c, Do(c, s, a), v)
  {
    var t := Do(c, s, a);
    var (lo, hi) := Claim(c, s.shared).1.value;
    assert WorkerOk(c, s, v);
    if v == a.w {
      forall j: nat | lo <= j < hi
        ensures t.owner[j] == v && Fresh(t, j)
      {
        assert EntryOk(c, s, j);
      }
    } else {
      match s.phases[v]
      case Batch(from, to) => ClaimKeepsFresh(c, s, a, v, from, to);
      case Extracting(at, to, _) => ClaimKeepsFresh(c, s, a, v, at + 1, to);
      case Finishing(at, to, _) => ClaimKeepsFresh(c, s, a, v, at + 1, to);
      case _ =>
    }
  }

  /** A claim hands fresh entries, owned by nobody else, to one worker. */
  lemma ClaimKeeps(c: Config, s: State, a: Action)
    requires Accounted(c, s) && Enabled(c, s, a) && a.ClaimNext?
    ensures Accounted(c, Do(c, s, a))
  {
    var t := Do(c, s, a);
    if Claim(c, s.shared).1.None? {
      OthersKeep(c, s, t, a.w, -1);
    } else {
      forall v: nat | v < |t.phases|
        ensures WorkerOk(c, t, v)
      {
        ClaimKeepsWorker(c, s, a, v);
      }
      forall j: nat | j < |c.items|
        ensures EntryOk(c, t, j)
      {
        assert EntryOk(c, s, j);
      }
    }
  }

  lemma StepAccounted(c: Config, s: State, a: Action)
    requires Accounted(c, s) && Enabled(c, s, a)
    ensures Accounted(c, Do(c, s, a))
  {
    match a
    case Start(_) => StartKeeps(c, s, a);
    case StartFails(_, _) => StartKeeps(c, s, a);
    case ClaimNext(_) => ClaimKeeps(c, s, a);
    case Begin(_) => BeginKeeps(c, s, a);
    case Chunk(_, _, _) => ChunkKeeps(c, s, a);
    case Extracted(_) => ExtractedKeeps(c, s, a);
    case ExtractFails(_, _) => ExtractedKeeps(c, s, a);
    case Finish(_, _) => FinishKeeps(c, s, a);
    case Record(_) => StartKeeps(c, s, a);
  }

  // ---------------------------------------------------------------- progress

  lemma {:induction false} SumSet(s: seq<nat>, i: nat, v: nat)
    requires i < |s|
    ensures Sum(s[i := v]) == Sum(s) - s[i] + v
    decreases |s|
  {
    var n := |s| - 1;
    if i == n {
      assert s[i := v][..n] == s[..n];
    } else {
      assert s[i := v][..n] == s[..n][i := v];
      SumSet(s[..n], i, v);
    }
  }

  lemma {:induction false} SumAtMost(s: seq<nat>, t: seq<nat>)
    requires |s| == |t| && forall i :: 0 <= i < |s| ==> s[i] <= t[i]
    ensures Sum(s) <= Sum(t)
    decreases |s|
  {
    if s != [] {
      SumAtMost(s[..|s| - 1], t[..|t| - 1]);
    }
  }

  lemma {:induction false} SumZero(s: seq<nat>)
    requires forall i :: 0 <= i < |s| ==> s[i] == 0
    ensures Sum(s) == 0
    decreases |s|
  {
    if s != [] {
      SumZero(s[..|s| - 1]);
    }
  }

  /** What the callback was told last; zero before the first report. */
  function LastReport(reports: seq<nat>): nat {
    if reports == [] then 0 else reports[|reports| - 1]
  }

  /** Reports never went down, and the last one is the progress there is. */
  ghost predicate ReportsOk(s: Shared) {
    && s.done == LastReport(s.reports)
    && (forall k, l :: 0 <= k < l < |s.reports| ==> s.reports[k] <= s.reports[l])
    && (forall k :: 0 <= k < |s.reports| ==> s.reports[k] <= s.done)
  }

  /** The progress is the saturated sum of what each entry was credited, and has been reported. */
  ghost predicate ProgressOk(s: State) {
    s.shared.done == Saturate(Sum(s.credit)) && ReportsOk(s.shared)
  }

  lemma SameReports(s: Shared, t: Shared)
    requires ReportsOk(s) && t.reports == s.reports && t.done == s.done
    ensures ReportsOk(t)
  {
  }

  lemma AdvanceKeeps(s: Shared, amount: nat, goOn: bool)
    requires s.done <= UINT64_MAX && ReportsOk(s)
    ensures var t := Advance(s, amount, goOn);
            && t.done == Saturate(s.done + amount) && t.done >= s.done && s.reports <= t.reports && ReportsOk(t)
  {
  }

  lemma StepProgress(c: Config, s: State, a: Action)
    requires Accounted(c, s) && Enabled(c, s, a) && ProgressOk(s)
    ensures ProgressOk(Do(c, s, a))
    ensures Do(c, s, a).shared.done >= s.shared.done
    ensures s.shared.reports <= Do(c, s, a).shared.reports
  {
    hide EntryOk, WorkerOk, Advance, BatchEnd, Sum, ReportsOk;
    var p := s.phases[a.w];
    match a
    case Chunk(_, amount, goOn) =>
      SumSet(s.credit, p.lo, s.credit[p.lo] + amount);
      AdvanceKeeps(s.shared, amount, goOn);
    case Finish(_, goOn) =>
      var rest := Rest(c, p);
      SumSet(s.credit, p.lo, s.credit[p.lo] + rest);
      AdvanceKeeps(s.shared, rest, goOn);
    case _ =>
      SameReports(s.shared, Do(c, s, a).shared);
  }

  /** Nothing is ever reported for a directory. */
  lemma NothingForDirectories(c: Config, s: State, j: nat)
    requires Accounted(c, s) && j < |c.items| && c.items[j].isDirectory
    ensures s.credit[j] == 0
  {
    assert EntryOk(c, s, j);
  }

  /** The progress reported never exceeds the total, in any state. */
  lemma DoneAtMostTotal(c: Config, s: State)
    requires Accounted(c, s) && ProgressOk(s)
    ensures s.shared.done <= Total(c)
    ensures forall r :: r in s.shared.reports ==> r <= Total(c)
  {
    forall i | 0 <= i < |c.items|
      ensures s.credit[i] <= Sizes(c.items)[i]
    {
      assert EntryOk(c, s, i);
    }
    SumAtMost(s.credit, Sizes(c.items));
  }

  // ---------------------------------------------------------------- results

  /** The result is the first failure recorded. */
  predicate ResultOk(s: State) {
    && s.shared.result == (if s.shared.failures == [] then OK else s.shared.failures[0])
    && forall k :: 0 <= k < |s.shared.failures| ==> s.shared.failures[k] < OK
  }

  lemma StepResult(c: Config, s: State, a: Action)
    requires Accounted(c, s) && Enabled(c, s, a) && ResultOk(s)
    ensures ResultOk(Do(c, s, a))
    ensures s.shared.result != OK ==> Do(c, s, a).shared.result == s.shared.result
  {
    assert WorkerOk(c, s, a.w);
  }

  // ---------------------------------------------------------------- batches

  /** The batches claimed so far are consecutive, cover exactly [0, next), and each is a maximal batch. */
  predicate Tiles(c: Config, batches: seq<(nat, nat)>, next: nat)
    decreases |batches|
  {
    if batches == [] then next == 0
    else
      var (lo, hi) := batches[|batches| - 1];
      && lo < hi == next <= |c.items|
      && FitsBatch(c.items, lo, hi) && (hi < |c.items| ==> !FitsBatch(c.items, lo, hi + 1))
      && Tiles(c, batches[..|batches| - 1], lo)
  }

  lemma StepBatches(c: Config, s: State, a: Action)
    requires Enabled(c, s, a) && Tiles(c, s.batches, s.shared.next)
    ensures Tiles(c, Do(c, s, a).batches, Do(c, s, a).shared.next)
  {
    if a.ClaimNext? && Claim(c, s.shared).1.Some? {
      var (lo, hi) := Claim(c, s.shared).1.value;
      BatchIsMaximal(c.items, lo);
      assert (s.batches + [(lo, hi)])[..|s.batches|] == s.batches;
    }
  }

  // ---------------------------------------------------------------- files

  ghost predicate DistinctPaths(c: Config) {
    forall i, j :: 0 <= i < j < |c.items| && !c.items[i].skip && !c.items[j].skip ==>
      c.items[i].path != c.items[j].path
  }

  /** The files with the marked entries extracted, in index order. */
  function Overlay(c: Config, files: map<string, seq<byte>>, marked: seq<bool>, n: nat): map<string, seq<byte>>
    requires n <= |c.items| && |marked| == |c.items|
  {
    if n == 0 then files
    else
      var before := Overlay(c, files, marked, n - 1);
      if marked[n - 1] then before[c.items[n - 1].path := c.items[n - 1].content] else before
  }

  /** What extract_all_serial leaves when no entry fails. */
  function SerialFiles(c: Config, files: map<string, seq<byte>>): map<string, seq<byte>> {
    Overlay(c, files, seq(|c.items|, i requires 0 <= i < |c.items| => !c.items[i].skip), |c.items|)
  }

  /** With distinct paths, extracting one more entry commutes with all the others. */
  lemma {:induction false} OverlaySet(c: Config, files: map<string, seq<byte>>, marked: seq<bool>, j: nat, n: nat)
    requires n <= |c.items| == |marked| && j < |c.items| && DistinctPaths(c)
    requires !c.items[j].skip && forall i :: 0 <= i < |marked| && marked[i] ==> !c.items[i].skip
    ensures Overlay(c, files, marked[j := true], n)
         == if j < n then Overlay(c, files, marked, n)[c.items[j].path := c.items[j].content]
            else Overlay(c, files, marked, n)
  {
    if n > 0 {
      OverlaySet(c, files, marked, j, n - 1);
      if j < n - 1 && marked[n - 1] {
        assert c.items[j].path != c.items[n - 1].path;
      }
    }
  }

  ghost predicate FilesOk(c: Config, files: map<string, seq<byte>>, s: State) {
    && |s.written| == |c.items|
    && (forall j :: 0 <= j < |c.items| && s.written[j] ==> !c.items[j].skip)
    && s.files == Overlay(c, files, s.written, |c.items|)
  }

  lemma StepFiles(c: Config, files: map<string, seq<byte>>, s: State, a: Action)
    requires Accounted(c, s) && Enabled(c, s, a) && DistinctPaths(c) && FilesOk(c, files, s)
    ensures FilesOk(c, files, Do(c, s, a))
  {
    hide Overlay;
    if a.Extracted? {
      assert WorkerOk(c, s, a.w);
      OverlaySet(c, files, s.written, s.phases[a.w].lo, |c.items|);
    }
  }

  // ---------------------------------------------------------------- runs

  ghost predicate Inv(c: Config, files: map<string, seq<byte>>, s: State) {
    && Accounted(c, s) && ProgressOk(s) && ResultOk(s) && Tiles(c, s.batches, s.shared.next)
    && (DistinctPaths(c) ==> FilesOk(c, files, s))
  }

  /** The states of an execution: each follows from the one before by the action between them. */
  ghost predicate Run(c: Config, workers: nat, files: map<string, seq<byte>>, states: seq<State>, actions: seq<Action>) {
    && |states| == |actions| + 1 && states[0] == Init(c, workers, files)
    && forall k :: 0 <= k < |actions| ==>
         Enabled(c, states[k], actions[k]) && states[k + 1] == Do(c, states[k], actions[k])
  }

  lemma {:induction false} NothingMarked(c: Config, files: map<string, seq<byte>>, n: nat)
    requires n <= |c.items|
    ensures Overlay(c, files, seq(|c.items|, i => false), n) == files
  {
    if n > 0 {
      NothingMarked(c, files, n - 1);
    }
  }

  lemma InitInv(c: Config, workers: nat, files: map<string, seq<byte>>)
    ensures Inv(c, files, Init(c, workers, files))
  {
    InitAccounted(c, workers, files);
    SumZero(Init(c, workers, files).credit);
    NothingMarked(c, files, |c.items|);
  }

  lemma StepInv(c: Config, files: map<string, seq<byte>>, s: State, a: Action)
    requires Inv(c, files, s) && Enabled(c, s, a)
    ensures Inv(c, files, Do(c, s, a))
  {
    hide Accounted, ProgressOk, ResultOk, Tiles, FilesOk, DistinctPaths, Do, Enabled;
    StepAccounted(c, s, a);
    StepProgress(c, s, a);
    StepResult(c, s, a);
    StepBatches(c, s, a);
    if DistinctPaths(c) {
      StepFiles(c, files, s, a);
    }
  }

  lemma InvBounds(c: Config, files: map<string, seq<byte>>, s: State)
    requires Inv(c, files, s)
    ensures s.shared.done <= Total(c) && |s.begun| == |c.items|
    ensures forall j: nat :: j < |c.items| ==> s.begun[j] <= 1
  {
    hide Tiles, FilesOk, Total, ResultOk;
    DoneAtMostTotal(c, s);
    forall j: nat | j < |c.items|
      ensures s.begun[j] <= 1
    {
      assert EntryOk(c, s, j);
    }
  }

  /** In every interleaving of any number of workers, every state keeps the accounting: claimed batches
      tile [0, next), nothing is extracted twice, the result is the first failure, progress never goes
      down or past the total. */
  lemma {:induction false} EveryState(c: Config, workers: nat, files: map<string, seq<byte>>,
                                      states: seq<State>, actions: seq<Action>, k: nat)
    requires Run(c, workers, files, states, actions) && k < |states|
    ensures Inv(c, files, states[k])
    ensures states[k].shared.done <= Total(c)
    ensures forall j: nat :: j < |c.items| ==> states[k].begun[j] <= 1
  {
    hide Inv, Enabled, Do, Init;
    if k == 0 {
      InitInv(c, workers, files);
    } else {
      EveryState(c, workers, files, states, actions, k - 1);
      assert states[k - 1 + 1] == Do(c, states[k - 1], actions[k - 1]);
      StepInv(c, files, states[k - 1], actions[k - 1]);
    }
    InvBounds(c, files, states[k]);
  }

  predicate AllStopped(s: State) {
    |s.phases| > 0 && forall w :: 0 <= w < |s.phases| ==> s.phases[w].Stopped?
  }

  lemma StoppedWithoutFailure(c: Config, files: map<string, seq<byte>>, s: State)
    requires Inv(c, files, s) && AllStopped(s) && s.shared.result == OK
    ensures |s.begun| == |c.items| && forall j: nat :: j < |c.items| ==> s.begun[j] == Once(c, j)
    ensures DistinctPaths(c) ==> s.files == SerialFiles(c, files)
    ensures c.progress ==> s.shared.done == Total(c) == LastReport(s.shared.reports)
  {
    hide Tiles, ResultOk;
    assert s.phases[0].Stopped?;
    assert WorkerOk(c, s, 0);
    forall j: nat | j < |c.items|
      ensures s.finished[j] && s.begun[j] == Once(c, j) && s.written[j] == !c.items[j].skip
      ensures c.progress ==> s.credit[j] == ProgressSize(c.items[j])
    {
      assert EntryOk(c, s, j);
      assert s.phases[s.owner[j]].Stopped?;
    }
    if c.progress {
      assert s.credit == Sizes(c.items);
    }
    assert s.written == seq(|c.items|, i requires 0 <= i < |c.items| => !c.items[i].skip);
  }

  /** When an execution has stopped all workers without a failure, every entry that is not skipped was extracted
      exactly once, the files are those of the serial run, and the last report was of the total (there was none if
      that is zero). */
  lemma JoinedWithoutFailure(c: Config, workers: nat, files: map<string, seq<byte>>, states: seq<State>, actions: seq<Action>)
    requires Run(c, workers, files, states, actions)
    requires AllStopped(states[|actions|]) && states[|actions|].shared.result == OK
    ensures var s := states[|actions|];
            && |s.begun| == |c.items| && (forall j: nat :: j < |c.items| ==> s.begun[j] == Once(c, j))
            && (DistinctPaths(c) ==> s.files == SerialFiles(c, files))
            && (c.progress ==> s.shared.done == Total(c) == LastReport(s.shared.reports))
            && (c.progress && Total(c) > 0 ==> s.shared.reports != [] && s.shared.reports[|s.shared.reports| - 1] == Total(c))
  {
    hide Inv;
    EveryState(c, workers, files, states, actions, |actions|);
    StoppedWithoutFailure(c, files, states[|actions|]);
  }

  /** Once a failure is recorded the result never changes, and the progress never goes down, over
      whole executions. */
  lemma {:induction false} NeverGoesBack(c: Config, workers: nat, files: map<string, seq<byte>>,
                                         states: seq<State>, actions: seq<Action>, k: nat, l: nat)
    requires Run(c, workers, files, states, actions) && k <= l < |states|
    ensures states[k].shared.result != OK ==> states[l].shared.result == states[k].shared.result
    ensures states[k].shared.done <= states[l].shared.done
    ensures states[k].shared.reports <= states[l].shared.reports
    decreases l
  {
    hide Enabled, Do, Init, Accounted, ProgressOk, ResultOk, Tiles, FilesOk, DistinctPaths;
    if k < l {
      NeverGoesBack(c, workers, files, states, actions, k, l - 1);
      EveryState(c, workers, files, states, actions, l - 1);
      assert states[l - 1 + 1] == Do(c, states[l - 1], actions[l - 1]);
      StepResult(c, states[l - 1], actions[l - 1]);
      StepProgress(c, states[l - 1], actions[l - 1]);
    }
  }

  lemma StepClaimsNothing(c: Config, s: State, a: Action)
    requires Enabled(c, s, a) && s.shared.result != OK
    ensures Do(c, s, a).shared.next == s.shared.next && Do(c, s, a).batches == s.batches
    ensures Do(c, s, a).shared.result != OK
  {
  }

  /** Once there is a result, a failure or a cancellation, no batch is claimed any more. */
  lemma {:induction false} NoBatchAfterFailure(c: Config, workers: nat, files: map<string, seq<byte>>,
                                               states: seq<State>, actions: seq<Action>, k: nat, l: nat)
    requires Run(c, workers, files, states, actions) && k <= l < |states|
    requires states[k].shared.result != OK
    ensures states[l].shared.result != OK
    ensures states[l].shared.next == states[k].shared.next && states[l].batches == states[k].batches
    decreases l
  {
    hide Enabled, Do, Init;
    if k < l {
      NoBatchAfterFailure(c, workers, files, states, actions, k, l - 1);
      assert states[l - 1 + 1] == Do(c, states[l - 1], actions[l - 1]);
      StepClaimsNothing(c, states[l - 1], actions[l - 1]);
    }
  }

  /** A report that the callback refuses is the last that its worker makes: in the same step the cancellation is
      recorded, as the result if there was none, and the worker gives up its batch. */
  lemma RefusalStops(c: Config, s: State, a: Action)
    requires Accounted(c, s) && Enabled(c, s, a)
    requires (a.Chunk? || (a.Finish? && Rest(c, s.phases[a.w]) > 0)) && !a.goOn
    ensures Do(c, s, a).shared.result == if s.shared.result == 0 then -11 else s.shared.result
    ensures Do(c, s, a).phases[a.w] == Failing(-11)
    ensures Do(c, s, a).finished == s.finished
  {
  }

  /** A step in which nothing is refused and nothing fails leaves the result alone. */
  lemma OthersGoOn(c: Config, s: State, a: Action)
    requires Enabled(c, s, a) && !a.StartFails? && !a.Record? && ((a.Chunk? || a.Finish?) ==> a.goOn)
    ensures Do(c, s, a).shared.result == s.shared.result && Do(c, s, a).shared.failures == s.shared.failures
    ensures a.Chunk? || a.Finish? ==> !Do(c, s, a).phases[a.w].Failing?
  {
  }

  /** Without a callback nothing is ever reported. */
  lemma NoCallbackNoReport(c: Config, s: State, a: Action)
    requires Enabled(c, s, a) && !c.progress
    ensures Do(c, s, a).shared.reports == s.shared.reports && Do(c, s, a).credit == s.credit
  {
  }

  predicate Gone(s: State, w: nat) {
    w < |s.phases| && (s.phases[w].Failing? || s.phases[w].Stopped?)
  }

  lemma StepNeverReturns(c: Config, s: State, a: Action, w: nat)
    requires Enabled(c, s, a) && Gone(s, w)
    ensures Gone(Do(c, s, a), w)
    ensures s.phases[w].Stopped? ==> Do(c, s, a).phases[w].Stopped?
  {
    hide Claim, Fail, Advance, Assign, BatchEnd;
    if a.w == w {
      assert a.Record?;
    } else {
      assert Do(c, s, a).phases[w] == s.phases[w];
    }
  }

  /** A worker that has given up or stopped never takes part again. */
  lemma {:induction false} NeverReturns(c: Config, workers: nat, files: map<string, seq<byte>>,
                                        states: seq<State>, actions: seq<Action>, w: nat, k: nat, l: nat)
    requires Run(c, workers, files, states, actions) && k <= l < |states|
    requires Gone(states[k], w)
    ensures Gone(states[l], w)
    ensures states[k].phases[w].Stopped? ==> states[l].phases[w].Stopped?
    decreases l
  {
    hide Enabled, Do, Init;
    if k < l {
      NeverReturns(c, workers, files, states, actions, w, k, l - 1);
      assert states[l - 1 + 1] == Do(c, states[l - 1], actions[l - 1]);
      StepNeverReturns(c, states[l - 1], actions[l - 1], w);
    }
  }

  /** The workers never lock each other out: until all have stopped, some step is possible. */
  lemma NeverStuck(c: Config, s: State, w: nat)
    requires Accounted(c, s) && w < |s.phases| && !s.phases[w].Stopped?
    ensures exists a: Action :: a.w == w && Enabled(c, s, a)
  {
    assert WorkerOk(c, s, w);
    match s.phases[w]
    case Starting => assert Enabled(c, s, Start(w));
    case Idle => assert Enabled(c, s, ClaimNext(w));
    case Batch(_, _) => assert Enabled(c, s, Begin(w));
    case Extracting(_, _, _) => assert Enabled(c, s, Extracted(w));
    case Finishing(_, _, _) => assert Enabled(c, s, Finish(w, true));
    case Failing(_) => assert Enabled(c, s, Record(w));
  }

  // ---------------------------------------------------------------- the serial run

  /** How entry i ends: with the result of extracting it, unless what is left to report of it is refused. */
  function EntryEnds(c: Config, i: nat, result: int, credited: nat, goOn: bool): int
    requires i < |c.items|
  {
    if !c.items[i].skip && result < OK then result
    else if c.progress && ProgressSize(c.items[i]) > credited && !goOn then ECANCEL
    else OK
  }

  /** An entry ends well exactly if it is skipped or extracted and nothing that is left to report is refused. */
  lemma WhenEntryEndsWell(c: Config, i: nat, result: int, credited: nat, goOn: bool)
    requires i < |c.items|
    ensures EntryEnds(c, i, result, credited, goOn) >= 0
       <==> && (c.items[i].skip || result >= 0)
            && (c.progress && !c.items[i].isDirectory && c.items[i].size > credited ==> goOn)
    ensures !c.items[i].skip && result < 0 ==> EntryEnds(c, i, result, credited, goOn) == result
    ensures EntryEnds(c, i, result, credited, goOn) < 0 && (c.items[i].skip || result >= 0) ==>
      EntryEnds(c, i, result, credited, goOn) == -11
  {
  }

  /** What extracting each entry returns, what it reports while it runs, and what the progress callback answers to
      the rest. */
  datatype Outcomes = Outcomes(results: seq<int>, credited: seq<nat>, goOn: seq<bool>)

  predicate Matches(c: Config, o: Outcomes) {
    && |o.results| == |o.credited| == |o.goOn| == |c.items|
    && forall i :: 0 <= i < |c.items| ==>
         o.credited[i] <= (if c.progress && !c.items[i].skip then ProgressSize(c.items[i]) else 0)
  }

  function Ends(c: Config, o: Outcomes, i: nat): int
    requires Matches(c, o) && i < |c.items|
  {
    EntryEnds(c, i, o.results[i], o.credited[i], o.goOn[i])
  }

  /** All entries end well exactly if none that is not skipped fails and nothing left to report is refused. */
  lemma WhenAllEndWell(c: Config, o: Outcomes)
    requires Matches(c, o)
    ensures (forall i: nat :: i < |c.items| ==> Ends(c, o, i) >= OK)
       <==> forall i: nat :: i < |c.items| ==>
              && (c.items[i].skip || o.results[i] >= 0)
              && (c.progress && !c.items[i].isDirectory && c.items[i].size > o.credited[i] ==> o.goOn[i])
  {
    hide EntryEnds;
    forall i: nat | i < |c.items|
      ensures Ends(c, o, i) >= OK
         <==> && (c.items[i].skip || o.results[i] >= 0)
              && (c.progress && !c.items[i].isDirectory && c.items[i].size > o.credited[i] ==> o.goOn[i])
    {
      WhenEntryEndsWell(c, i, o.results[i], o.credited[i], o.goOn[i]);
    }
  }

  predicate FirstFailure(c: Config, o: Outcomes, i: nat)
    requires Matches(c, o)
  {
    && i < |c.items| && Ends(c, o, i) < OK
    && forall k: nat :: k < i ==> Ends(c, o, k) >= OK
  }

  /** extract_all_serial: stops at the first entry that fails or whose last report is refused. */
  method ExtractAllSerial(c: Config, files: map<string, seq<byte>>, o: Outcomes)
    returns (ret: int, out: map<string, seq<byte>>, done: nat)
    requires Matches(c, o)
    ensures ret == OK <==> forall i: nat :: i < |c.items| ==> Ends(c, o, i) >= OK
    ensures ret != OK ==> ret < OK && exists i: nat :: FirstFailure(c, o, i) && ret == Ends(c, o, i)
    ensures ret == OK ==> out == SerialFiles(c, files) && done == if c.progress then Total(c) else 0
  {
    ghost var marked := seq(|c.items|, i requires 0 <= i < |c.items| => !c.items[i].skip);
    out, done := files, 0;
    assert Sizes(c.items)[..0] == [];
    for i := 0 to |c.items|
      invariant forall k: nat :: k < i ==> Ends(c, o, k) >= OK
      invariant out == Overlay(c, files, marked, i)
      invariant done == if c.progress then Saturate(Sum(Sizes(c.items)[..i])) else 0
    {
      SumOneMore(Sizes(c.items), i);
      done := Saturate(done + o.credited[i]);
      if !c.items[i].skip {
        if o.results[i] < OK {
          assert FirstFailure(c, o, i);
          return o.results[i], out, done;
        }
        out := out[c.items[i].path := c.items[i].content];
      }
      if c.progress && ProgressSize(c.items[i]) > o.credited[i] {
        done := Saturate(done + (ProgressSize(c.items[i]) - o.credited[i]));
        if !o.goOn[i] {
          assert FirstFailure(c, o, i);
          return ECANCEL, out, done;
        }
      }
    }
    assert Sizes(c.items)[..|c.items|] == Sizes(c.items);
    ret := OK;
  }
}

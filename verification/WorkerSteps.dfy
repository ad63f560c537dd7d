// The workers of extract_all_parallel stop: every execution has a bounded number of
// steps, whatever their order.
module WorkerSteps {
  import opened Bytes
  import opened Workers
  import opened WorkerRuns

  // ---------------------------------------------------------------- a potential

  /** What an entry can cost: one step for each byte it may report, and those around them. */
  function Costs(c: Config): (r: seq<nat>)
    ensures |r| == |c.items|
  {
    seq(|c.items|, i requires 0 <= i < |c.items| => ProgressSize(c.items[i]) + 6)
  }

  /** The cost of the first i entries. */
  function CostTo(c: Config, i: nat): nat
    requires i <= |c.items|
  {
    Sum(Costs(c)[..i])
  }

  lemma CostStep(c: Config, i: nat)
    requires i < |c.items|
    ensures CostTo(c, i + 1) == CostTo(c, i) + ProgressSize(c.items[i]) + 6
  {
    SumOneMore(Costs(c), i);
  }

  lemma {:induction false} CostGrows(c: Config, lo: nat, hi: nat)
    requires lo <= hi <= |c.items|
    ensures CostTo(c, lo) <= CostTo(c, hi)
    decreases hi - lo
  {
    hide CostTo;
    if lo < hi {
      CostStep(c, hi - 1);
      CostGrows(c, lo, hi - 1);
    }
  }

  /** The cost of the entries from lo to hi. */
  function CostOf(c: Config, lo: nat, hi: nat): nat
    requires lo <= hi <= |c.items|
  {
    CostGrows(c, lo, hi);
    CostTo(c, hi) - CostTo(c, lo)
  }

  lemma CostSplits(c: Config, lo: nat, mid: nat, hi: nat)
    requires lo <= mid <= hi <= |c.items|
    ensures CostOf(c, lo, hi) == CostOf(c, lo, mid) + CostOf(c, mid, hi)
  {
    hide CostTo;
  }

  /** A worker's position makes sense. */
  predicate InBounds(c: Config, p: Phase) {
    match p
    case Batch(lo, hi) => lo <= hi <= |c.items|
    case Extracting(lo, hi, credit) => lo < hi <= |c.items| && credit <= ProgressSize(c.items[lo])
    case Finishing(lo, hi, _) => lo < hi <= |c.items|
    case _ => true
  }

  /** The steps that a worker still has before it claims again or stops. */
  function Weight(c: Config, p: Phase): nat {
    if !InBounds(c, p) then 0
    else
      match p
      case Starting => 4
      case Idle => 3
      case Batch(lo, hi) => if lo == hi then 4 else CostOf(c, lo, hi) + 2
      case Extracting(lo, hi, credit) => CostOf(c, lo + 1, hi) + 7 + (ProgressSize(c.items[lo]) - credit)
      case Finishing(lo, hi, _) => CostOf(c, lo + 1, hi) + 5
      case Failing(_) => 1
      case Stopped => 0
  }

  function Weights(c: Config, phases: seq<Phase>): (r: seq<nat>)
    ensures |r| == |phases|
  {
    seq(|phases|, i requires 0 <= i < |phases| => Weight(c, phases[i]))
  }

  /** What all workers still have to do, and what is not claimed yet. */
  function Potential(c: Config, s: State): nat
    requires s.shared.next <= |c.items|
  {
    CostOf(c, s.shared.next, |c.items|) + Sum(Weights(c, s.phases))
  }

  // ---------------------------------------------------------------- every step costs something

  lemma PhaseInBounds(c: Config, s: State, w: nat)
    requires Accounted(c, s) && w < |s.phases|
    ensures InBounds(c, s.phases[w])
  {
    assert WorkerOk(c, s, w);
    if s.phases[w].Extracting? {
      assert EntryOk(c, s, s.phases[w].lo);
    }
  }

  lemma NextInBounds(c: Config, s: State)
    requires Accounted(c, s)
    ensures s.shared.next <= |c.items|
  {
  }

  /** A step of one worker changes one weight. */
  lemma OneWeight(c: Config, s: State, t: State, w: nat)
    requires w < |s.phases| == |t.phases| && t.phases == s.phases[w := t.phases[w]]
    ensures Sum(Weights(c, t.phases)) == Sum(Weights(c, s.phases)) - Weight(c, s.phases[w]) + Weight(c, t.phases[w])
  {
    hide Weight, Sum;
    SumSet(Weights(c, s.phases), w, Weight(c, t.phases[w]));
    assert Weights(c, t.phases) == Weights(c, s.phases)[w := Weight(c, t.phases[w])];
  }

  lemma NoCost(c: Config, i: nat)
    requires i <= |c.items|
    ensures CostOf(c, i, i) == 0
  {
  }

  lemma OneEntry(c: Config, lo: nat, hi: nat)
    requires lo < hi <= |c.items|
    ensures CostOf(c, lo, hi) == ProgressSize(c.items[lo]) + 6 + CostOf(c, lo + 1, hi)
  {
    hide CostTo;
    CostStep(c, lo);
  }

  /** The weight of the worker falls, by more than what a claim adds to it. */
  lemma WeightFalls(c: Config, s: State, a: Action)
    requires Accounted(c, s) && Enabled(c, s, a)
    ensures var t := Do(c, s, a);
            && s.shared.next <= t.shared.next <= |c.items|
            && |t.phases| == |s.phases| && t.phases == s.phases[a.w := t.phases[a.w]]
            && Weight(c, t.phases[a.w]) < Weight(c, s.phases[a.w]) + CostOf(c, s.shared.next, t.shared.next)
  {
    hide CostOf, BatchEnd, Accounted;
    PhaseInBounds(c, s, a.w);
    NextInBounds(c, s);
    var p := s.phases[a.w];
    NoCost(c, s.shared.next);
    match a
    case ClaimNext(_) =>
    case Begin(_) =>
      if p.lo < p.hi {
        OneEntry(c, p.lo, p.hi);
      }
    case Finish(_, _) =>
      NoCost(c, p.hi);
    case _ =>
  }

  lemma InStep(c: Config, s: State, a: Action)
    requires Enabled(c, s, a)
    ensures a.w < |s.phases| && s.shared.next <= |c.items|
  {
  }

  lemma StepCosts(c: Config, s: State, a: Action)
    requires Accounted(c, s) && Enabled(c, s, a)
    ensures Do(c, s, a).shared.next <= |c.items|
    ensures Potential(c, Do(c, s, a)) < Potential(c, s)
  {
    hide CostOf, Weight, Do, Accounted, Enabled, Sum, Weights;
    WeightFalls(c, s, a);
    var t := Do(c, s, a);
    InStep(c, s, a);
    OneWeight(c, s, t, a.w);
    CostSplits(c, s.shared.next, t.shared.next, |c.items|);
  }

  // ---------------------------------------------------------------- executions end

  /** How many steps the start leaves. */
  function Bound(c: Config, workers: nat): nat {
    4 * workers + Sum(Sizes(c.items)) + 6 * |c.items|
  }

  lemma {:induction false} SumOfCosts(c: Config, i: nat)
    requires i <= |c.items|
    ensures Sum(Costs(c)[..i]) == Sum(Sizes(c.items)[..i]) + 6 * i
  {
    if i > 0 {
      SumOfCosts(c, i - 1);
      SumOneMore(Costs(c), i - 1);
      SumOneMore(Sizes(c.items), i - 1);
    }
  }

  lemma {:induction false} SumOfStarts(c: Config, n: nat)
    ensures Sum(Weights(c, seq(n, i => Starting))) == 4 * n
  {
    if n > 0 {
      SumOfStarts(c, n - 1);
      var s := Weights(c, seq(n, i => Starting));
      assert s[..n - 1] == Weights(c, seq(n - 1, i => Starting));
    }
  }

  lemma StartPotential(c: Config, workers: nat, files: map<string, seq<byte>>)
    ensures Potential(c, Init(c, workers, files)) == Bound(c, workers)
  {
    SumOfCosts(c, 0);
    SumOfCosts(c, |c.items|);
    SumOfStarts(c, workers);
    assert Costs(c)[..|c.items|] == Costs(c) && Sizes(c.items)[..|c.items|] == Sizes(c.items);
    assert Init(c, workers, files).phases == seq(workers, i => Starting);
  }

  lemma {:induction false} PotentialLeft(c: Config, workers: nat, files: map<string, seq<byte>>,
                                         states: seq<State>, actions: seq<Action>, k: nat)
    requires Run(c, workers, files, states, actions) && k < |states|
    ensures states[k].shared.next <= |c.items| && Potential(c, states[k]) + k <= Bound(c, workers)
  {
    hide Potential, Bound, Enabled, Do, Init, ProgressOk, ResultOk, Tiles, FilesOk, Accounted;
    if k == 0 {
      StartPotential(c, workers, files);
      InitInv(c, workers, files);
      NextInBounds(c, states[0]);
    } else {
      PotentialLeft(c, workers, files, states, actions, k - 1);
      EveryState(c, workers, files, states, actions, k - 1);
      assert states[k - 1 + 1] == Do(c, states[k - 1], actions[k - 1]);
      StepCosts(c, states[k - 1], actions[k - 1]);
    }
  }

  /** No execution is longer than four steps for each worker, one for each byte and six for each entry. Together
      with NeverStuck, every execution that goes on as long as it can stops all workers. */
  lemma ExecutionsEnd(c: Config, workers: nat, files: map<string, seq<byte>>, states: seq<State>, actions: seq<Action>)
    requires Run(c, workers, files, states, actions)
    ensures |actions| <= 4 * workers + Sum(Sizes(c.items)) + 6 * |c.items|
  {
    hide Potential, Enabled, Do, Init;
    PotentialLeft(c, workers, files, states, actions, |actions|);
  }
}

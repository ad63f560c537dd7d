// extract_all_parallel of src/zip.c: the state the workers share under one lock,
// its critical sections, and the workers as interleaved steps.
module Workers {
  import opened Bytes

  const WORK_BATCH: nat := 8
  const WORK_BATCH_BYTES: nat := 1048576

  const OK: int := 0
  const ECANCEL: int := -11

  /** An archive member: its declared size, and what extracting it puts where. */
  datatype Item = Item(size: nat, isDirectory: bool, skip: bool, path: string, content: seq<byte>)

  /** The items, and whether a progress callback is set. */
  datatype Config = Config(items: seq<Item>, progress: bool)

  ghost predicate ValidConfig(c: Config) {
    forall i :: 0 <= i < |c.items| ==> c.items[i].size <= UINT64_MAX
  }

  // ---------------------------------------------------------------- saturating totals

  function Saturate(n: nat): nat {
    if n > UINT64_MAX then UINT64_MAX else n
  }

  /** entry_progress_size */
  function ProgressSize(item: Item): nat {
    if item.isDirectory then 0 else item.size
  }

  function Sum(s: seq<nat>): nat
    decreases |s|
  {
    if s == [] then 0 else Sum(s[..|s| - 1]) + s[|s| - 1]
  }

  function Sizes(items: seq<Item>): (r: seq<nat>)
    ensures |r| == |items|
  {
    seq(|items|, i requires 0 <= i < |items| => ProgressSize(items[i]))
  }

  /** The total that progress is measured against. */
  function Total(c: Config): nat {
    Saturate(Sum(Sizes(c.items)))
  }

  lemma SumOneMore(s: seq<nat>, i: nat)
    requires i < |s|
    ensures Sum(s[..i + 1]) == Sum(s[..i]) + s[i]
  {
    assert s[..i + 1][..i] == s[..i];
  }

  /** record_extract_metrics over all entries: the saturating running total of their sizes. */
  method RecordExtractMetrics(items: seq<Item>) returns (total: nat)
    requires ValidConfig(Config(items, true))
    ensures total == Saturate(Sum(Sizes(items)))
  {
    total := 0;
    assert Sizes(items)[..0] == [];
    for i := 0 to |items|
      invariant total == Saturate(Sum(Sizes(items)[..i]))
    {
      SumOneMore(Sizes(items), i);
      if !items[i].isDirectory {
        if UINT64_MAX - total < items[i].size {
          total := UINT64_MAX;
        } else {
          total := total + items[i].size;
        }
      }
    }
    assert Sizes(items)[..|items|] == Sizes(items);
  }

  // ---------------------------------------------------------------- batches

  /** The end of a batch that holds [index, end) of the given size so far. */
  function Grow(items: seq<Item>, index: nat, end: nat, batchBytes: nat): (r: nat)
    requires index < end <= |items|
    ensures end <= r <= |items|
    decreases |items| - end
  {
    if end < |items| && end - index < WORK_BATCH && batchBytes < WORK_BATCH_BYTES
       && items[end].size <= WORK_BATCH_BYTES - batchBytes
    then Grow(items, index, end + 1, batchBytes + items[end].size)
    else end
  }

  function BatchEnd(items: seq<Item>, index: nat): (end: nat)
    requires index < |items|
    ensures index < end <= |items|
  {
    Grow(items, index, index + 1, items[index].size)
  }

  function BatchBytes(items: seq<Item>, lo: nat, hi: nat): nat
    requires lo <= hi <= |items|
  {
    if lo == hi then 0 else BatchBytes(items, lo, hi - 1) + items[hi - 1].size
  }

  /** [index, end) may be a batch: up to eight entries; if more than one, at most 1 MiB together, and less
      than that without the last. */
  predicate FitsBatch(items: seq<Item>, index: nat, end: nat)
    requires index < end <= |items|
  {
    && end - index <= 8
    && (end - index > 1 ==>
          BatchBytes(items, index, end) <= 0x10_0000 && BatchBytes(items, index, end - 1) < 0x10_0000)
  }

  lemma {:induction false} GrowFits(items: seq<Item>, index: nat, end: nat)
    requires index < end <= |items| && FitsBatch(items, index, end)
    ensures var r := Grow(items, index, end, BatchBytes(items, index, end));
            && FitsBatch(items, index, r)
            && (r < |items| ==> !FitsBatch(items, index, r + 1))
    decreases |items| - end
  {
    var bytes := BatchBytes(items, index, end);
    if end < |items| && FitsBatch(items, index, end + 1) {
      GrowFits(items, index, end + 1);
    }
  }

  /** A batch is the longest run of entries that fits: no more can be added, and all of it fits. */
  lemma BatchIsMaximal(items: seq<Item>, index: nat)
    requires index < |items|
    ensures var end := BatchEnd(items, index);
            FitsBatch(items, index, end) && (end < |items| ==> !FitsBatch(items, index, end + 1))
  {
    assert BatchBytes(items, index, index + 1) == items[index].size;
    GrowFits(items, index, index + 1);
  }

  // ---------------------------------------------------------------- the shared state

  /** What the lock protects, with the progress reports made and the failures recorded so far. */
  datatype Shared = Shared(next: nat, done: nat, result: int, reports: seq<nat>, failures: seq<int>)

  const INITIAL: Shared := Shared(0, 0, OK, [], [])

  /** A worker that fails: the first failure becomes the result. */
  function Fail(s: Shared, err: int): Shared {
    s.(result := if s.result == OK then err else s.result, failures := s.failures + [err])
  }

  /** progress_advance under the lock, with the callback's answer. */
  function Advance(s: Shared, amount: nat, goOn: bool): Shared {
    var done := Saturate(s.done + amount);
    var t := s.(done := done, reports := s.reports + [done]);
    if goOn then t else Fail(t, ECANCEL)
  }

  /** The claim section: no batch once there is a result or nothing left. */
  function Claim(c: Config, s: Shared): (Shared, Option<(nat, nat)>) {
    if s.result != OK || s.next >= |c.items| then (s, None)
    else
      var end := BatchEnd(c.items, s.next);
      (s.(next := end), Some((s.next, end)))
  }

  /** extract_all_context_t: every method is one critical section. */
  class Context {
    const config: Config
    var next: nat
    var done: nat
    var result: int
    ghost var reports: seq<nat>
    ghost var failures: seq<int>

    ghost function State(): Shared
      reads this
    {
      Shared(next, done, result, reports, failures)
    }

    constructor (config: Config)
      ensures this.config == config && State() == INITIAL
    {
      this.config := config;
      next, done, result := 0, 0, OK;
      reports, failures := [], [];
    }

    method ClaimBatch() returns (batch: Option<(nat, nat)>)
      modifies this
      ensures (State(), batch) == Claim(config, old(State()))
    {
      if result != OK || next >= |config.items| {
        return None;
      }
      var index := next;
      var end := index + 1;
      var batchBytes: nat := config.items[index].size;
      while end < |config.items| && end - index < WORK_BATCH && batchBytes < WORK_BATCH_BYTES
        invariant index < end <= |config.items|
        invariant Grow(config.items, index, end, batchBytes) == BatchEnd(config.items, index)
      {
        var nextBytes := config.items[end].size;
        if nextBytes > WORK_BATCH_BYTES - batchBytes {
          break;
        }
        batchBytes := batchBytes + nextBytes;
        end := end + 1;
      }
      next := end;
      batch := Some((index, end));
    }

    method RecordFailure(err: int)
      modifies this
      ensures State() == Fail(old(State()), err)
    {
      if result == OK {
        result := err;
      }
      failures := failures + [err];
    }

    /** progress_advance, for a positive amount and a set callback. */
    method ProgressAdvance(amount: nat, goOn: bool)
      requires done <= UINT64_MAX
      modifies this
      ensures State() == Advance(old(State()), amount, goOn)
    {
      if UINT64_MAX - done < amount {
        done := UINT64_MAX;
      } else {
        done := done + amount;
      }
      reports := reports + [done];
      if !goOn {
        if result == OK {
          result := ECANCEL;
        }
        failures := failures + [ECANCEL];
      }
    }
  }
}

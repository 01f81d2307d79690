/** The parallel prime count: a coordinator splits a range over harts and adds up what they report. */
module Benchmark {
  import opened Basics
  import opened Primes

  /** What one hart has done: nothing yet, stored its count, or also announced it. */
  datatype Stage = Waiting | Stored | Announced

  /** A 64-bit result. */
  function Wrap64(x: int): nat { if 0 <= x < TWO64 then x else x % TWO64 }

  /** The job: a range and the number of harts that share it. */
  datatype Job = Job(start: nat, end: nat, harts: nat) {
    ghost predicate Ok() { start < TWO64 && end < TWO64 && harts <= MAX_HARTS }
    ghost predicate Ordered() { start <= end }

    /** The length of the range, in 64 bits. */
    function Length(): nat { Wrap64(end - start) }

    function Chunk(): nat
      requires harts > 0
    {
      Length() / harts
    }

    /** The share `offset` into the range, given the length of a share. */
    function ShareAt(offset: nat, chunk: nat, last: bool): (nat, nat) {
      var first := Wrap64(start + offset);
      (first, if last then end else Wrap64(first + chunk))
    }

    /** `get_work_range`, in 64-bit arithmetic that wraps. */
    function Range(h: nat): (nat, nat) {
      if harts == 0 || h >= harts then (0, 0) else ShareAt(h * Chunk(), Chunk(), h == harts - 1)
    }
  }

  lemma ChunksFit(total: nat, n: nat, h: nat)
    requires h < n
    ensures h * (total / n) + total / n <= total
  {
    NextChunk(h, total / n);
    TimesMonotone(total / n, h + 1, n);
    assert n * (total / n) <= total;
  }

  lemma NextChunk(h: nat, chunk: nat)
    ensures (h + 1) * chunk == h * chunk + chunk
  {
  }

  /** The first hart starts at the start and the last ends at the end. */
  lemma RangesCover(j: Job)
    requires j.Ok() && j.harts > 0
    ensures j.Range(0).0 == j.start && j.Range(j.harts - 1).1 == j.end
  {
  }

  /** A share that fits an ordered range does not wrap. */
  lemma ShareIs(j: Job, offset: nat, chunk: nat)
    requires j.Ok() && j.Ordered() && offset + chunk <= j.end - j.start
    ensures j.ShareAt(offset, chunk, false) == (j.start + offset, j.start + offset + chunk)
    ensures j.ShareAt(offset, chunk, true) == (j.start + offset, j.end)
  {
  }

  /** Each share of an ordered range is an interval, and the next one starts where it ends. */
  lemma RangesMeet(j: Job, h: nat)
    requires j.Ok() && j.Ordered() && h < j.harts
    ensures j.start <= j.Range(h).0 <= j.Range(h).1 <= j.end
    ensures h + 1 < j.harts ==> j.Range(h + 1).0 == j.Range(h).1
  {
    var chunk: nat := j.Chunk();
    ChunksFit(j.Length(), j.harts, h);
    ShareIs(j, h * chunk, chunk);
    if h + 1 < j.harts {
      NextChunk(h, chunk);
      ChunksFit(j.Length(), j.harts, h + 1);
      ShareIs(j, h * chunk + chunk, chunk);
    }
  }

  /** Every hart gets the same part of an ordered range, and the last also what is left over. */
  lemma SharesAreEven(j: Job, h: nat)
    requires j.Ok() && j.Ordered() && h < j.harts
    ensures j.Range(h).1 - j.Range(h).0
         == (j.end - j.start) / j.harts + if h == j.harts - 1 then (j.end - j.start) % j.harts else 0
  {
    var chunk: nat := j.Chunk();
    ChunksFit(j.Length(), j.harts, h);
    ShareIs(j, h * chunk, chunk);
    if h == j.harts - 1 { NextChunk(h, chunk); }
  }

  /** The primes in the shares of the first `h` harts. */
  ghost function Shares(j: Job, h: nat): nat
    requires j.Ok() && h <= j.harts
  {
    if h == 0 then 0 else Shares(j, h - 1) + Share(j, h - 1)
  }

  ghost function Share(j: Job, h: nat): nat { PrimesIn(j.Range(h).0, j.Range(h).1) }

  lemma OneMoreShare(j: Job, h: nat, first: nat, end: nat)
    requires j.Ok() && 0 < h <= j.harts && j.Range(h - 1) == (first, end) && j.start <= first <= end
    requires Shares(j, h - 1) == PrimesIn(j.start, first)
    ensures Shares(j, h) == PrimesIn(j.start, end)
  {
    PrimesSplit(j.start, first, end);
  }

  /** The shares of an ordered range add up to its primes. */
  lemma {:induction false} SharesAddUp(j: Job, h: nat)
    requires j.Ok() && j.Ordered() && 0 < h <= j.harts
    ensures j.start <= j.Range(h - 1).1 && Shares(j, h) == PrimesIn(j.start, j.Range(h - 1).1)
  {
    var (first, end) := j.Range(h - 1);
    assert j.start <= first <= end by { RangesMeet(j, h - 1); }
    assert Shares(j, h - 1) == PrimesIn(j.start, first) by {
      if h > 1 {
        SharesAddUp(j, h - 1);
        RangesMeet(j, h - 2);
      } else {
        RangesCover(j);
      }
    }
    OneMoreShare(j, h, first, end);
  }

  // ---------------------------------------------------------------------------
  // No sum of counts wraps, even for a range that runs backwards
  // ---------------------------------------------------------------------------

  lemma WrapsOnce(x: int)
    requires 0 <= x + TWO64 && x < 2 * TWO64
    ensures Wrap64(x) == if x < 0 then x + TWO64 else if x < TWO64 then x else x - TWO64
  {
  }

  /** A share has as many numbers as its length, or none if it wraps. */
  lemma ShareIsShort(j: Job, offset: nat, chunk: nat, last: bool)
    requires j.Ok() && offset + chunk <= j.Length()
    ensures var (a, b) := j.ShareAt(offset, chunk, last);
            b <= a || b - a == if last then j.Length() - offset else chunk
  {
    WrapsOnce(j.end - j.start);
    WrapsOnce(j.start + offset);
    WrapsOnce(Wrap64(j.start + offset) + chunk);
  }

  lemma CountIsSmall(j: Job, offset: nat, chunk: nat, last: bool)
    requires j.Ok() && offset + chunk <= j.Length()
    ensures var (a, b) := j.ShareAt(offset, chunk, last);
            PrimesIn(a, b) <= if last then j.Length() - offset else chunk
  {
    var (a, b) := j.ShareAt(offset, chunk, last);
    ShareIsShort(j, offset, chunk, last);
    if a < b { PrimesAtMost(a, b); }
  }

  /** The primes in all shares together are no more than the length of the range, so a 64-bit sum holds them. */
  lemma {:induction false} SharesFit(j: Job, h: nat)
    requires j.Ok() && h <= j.harts
    ensures Shares(j, h) <= j.Length() < TWO64
    ensures h < j.harts ==> Shares(j, h) <= h * j.Chunk()
  {
    if h > 0 {
      var chunk := j.Chunk();
      var offset := (h - 1) * chunk;
      SharesFit(j, h - 1);
      assert offset + chunk <= j.Length() by { ChunksFit(j.Length(), j.harts, h - 1); }
      assert j.Range(h - 1) == j.ShareAt(offset, chunk, h == j.harts);
      CountIsSmall(j, offset, chunk, h == j.harts);
      assert h * chunk == offset + chunk by { NextChunk(h - 1, chunk); }
    }
  }

  /** The sum of the first `n` results. */
  function Sum(results: seq<nat>, n: nat): nat
    requires n <= |results|
  {
    if n == 0 then 0 else Sum(results, n - 1) + results[n - 1]
  }

  lemma SumWraps(a: nat, b: nat)
    ensures (a % TWO64 + b) % TWO64 == (a + b) % TWO64
  {
  }

  /** Harts among the first `n` that have announced. */
  ghost function Announcements(stage: seq<Stage>, n: nat): (c: nat)
    requires n <= |stage|
    ensures c <= n
  {
    if n == 0 then 0 else Announcements(stage, n - 1) + if stage[n - 1].Announced? then 1 else 0
  }

  lemma {:induction false} Announce(stage: seq<Stage>, h: nat, s: Stage, n: nat)
    requires h < |stage| && n <= |stage| && !stage[h].Announced?
    ensures Announcements(stage[h := s], n) == Announcements(stage, n) + if h < n && s.Announced? then 1 else 0
  {
    if n > 0 { Announce(stage, h, s, n - 1); }
  }

  lemma {:induction false} NoneAnnounced(stage: seq<Stage>, n: nat)
    requires n <= |stage| && forall h | 0 <= h < n :: stage[h].Waiting?
    ensures Announcements(stage, n) == 0
  {
    if n > 0 { NoneAnnounced(stage, n - 1); }
  }

  /** As many announcements as harts means that every hart has announced. */
  lemma {:induction false} AllAnnounced(stage: seq<Stage>, n: nat, h: nat)
    requires h < n <= |stage| && Announcements(stage, n) >= n
    ensures stage[h].Announced?
  {
    if h < n - 1 { AllAnnounced(stage, n - 1, h); }
  }

  /** A hart's result is the count of its share once it has stored it, and zero before. */
  ghost predicate Reported(j: Job, results: seq<nat>, stage: seq<Stage>) {
    && j.Ok() && |results| == |stage| == MAX_HARTS
    && forall h | 0 <= h < j.harts :: results[h] == if stage[h].Waiting? then 0 else Share(j, h)
  }

  /** The primes in the shares not stored yet. */
  ghost function Missing(j: Job, stage: seq<Stage>, n: nat): nat
    requires j.Ok() && n <= |stage|
  {
    if n == 0 then 0 else Missing(j, stage, n - 1) + if stage[n - 1].Waiting? then Share(j, n - 1) else 0
  }

  lemma {:induction false} SumIsStored(j: Job, results: seq<nat>, stage: seq<Stage>, n: nat)
    requires Reported(j, results, stage) && n <= j.harts
    ensures Sum(results, n) + Missing(j, stage, n) == Shares(j, n)
  {
    if n > 0 { SumIsStored(j, results, stage, n - 1); }
  }

  lemma {:induction false} NothingMissingIff(j: Job, stage: seq<Stage>, n: nat)
    requires j.Ok() && n <= |stage|
    ensures Missing(j, stage, n) == 0 <==> forall h | 0 <= h < n && stage[h].Waiting? :: Share(j, h) == 0
  {
    if n > 0 { NothingMissingIff(j, stage, n - 1); }
  }

  /** At any moment the 64-bit sum of the results is their sum. */
  lemma SumFits(j: Job, results: seq<nat>, stage: seq<Stage>)
    requires Reported(j, results, stage)
    ensures Sum(results, j.harts) % TWO64 == Sum(results, j.harts)
  {
    SumIsStored(j, results, stage, j.harts);
    SharesFit(j, j.harts);
  }

  /** At any moment the results of an ordered range add up to its primes exactly when no share that is still
      to be stored has one. */
  lemma TotalIsExactIff(j: Job, results: seq<nat>, stage: seq<Stage>)
    requires Reported(j, results, stage) && j.Ordered() && 0 < j.harts
    ensures Sum(results, j.harts) <= PrimesIn(j.start, j.end)
    ensures Sum(results, j.harts) == PrimesIn(j.start, j.end)
       <==> forall h | 0 <= h < j.harts && stage[h].Waiting? :: Share(j, h) == 0
  {
    SumIsStored(j, results, stage, j.harts);
    NothingMissingIff(j, stage, j.harts);
    SharesAddUp(j, j.harts);
    RangesCover(j);
  }

  /** Once as many harts announced as take part, the results add up to the shares, and of an ordered range to
      its primes. */
  lemma TotalIsExact(j: Job, results: seq<nat>, stage: seq<Stage>)
    requires Reported(j, results, stage) && 0 < j.harts <= Announcements(stage, j.harts)
    ensures Sum(results, j.harts) == Shares(j, j.harts)
    ensures j.Ordered() ==> Sum(results, j.harts) == PrimesIn(j.start, j.end)
  {
    forall h | 0 <= h < j.harts ensures !stage[h].Waiting? { AllAnnounced(stage, j.harts, h); }
    SumIsStored(j, results, stage, j.harts);
    NothingMissingIff(j, stage, j.harts);
    if j.Ordered() { TotalIsExactIff(j, results, stage); }
  }

  lemma {:induction false} SharesGrow(j: Job, h: nat)
    requires j.Ok() && 0 < h <= j.harts
    ensures Shares(j, h) >= Share(j, 0)
  {
    if h > 1 { SharesGrow(j, h - 1); } else { assert Shares(j, 0) == 0; }
  }

  lemma TwoIsFirst(end: nat)
    requires end > 2
    ensures PrimesIn(2, end) > 0
  {
    RootSuffices(2, 2);
    PrimesSplit(2, 3, end);
    assert PrimesIn(2, 2) == 0 && PrimesIn(2, 3) == PrimesIn(2, 2) + 1;
  }

  /** The shell counts from 2: its total is the number of primes below the limit exactly when the limit is at
      least 2 or one hart works alone. With a limit of 1 the length of the range wraps to 2^64 - 1. */
  lemma CommandIsExactIff(limit: nat, harts: nat)
    requires limit < TWO64 && 0 < harts <= MAX_HARTS
    ensures Shares(Job(2, limit, harts), harts) == PrimesIn(2, limit) <==> limit >= 2 || harts == 1
  {
    var j := Job(2, limit, harts);
    RangesCover(j);
    if limit >= 2 {
      SharesAddUp(j, harts);
    } else if harts == 1 {
      assert Shares(j, 1) == Shares(j, 0) + Share(j, 0) && Shares(j, 0) == 0;
    } else {
      FirstWraps(limit, harts);
      TwoIsFirst(j.Range(0).1);
      SharesGrow(j, harts);
    }
  }

  lemma FirstWraps(limit: nat, harts: nat)
    requires limit < 2 <= harts <= MAX_HARTS
    ensures Job(2, limit, harts).Range(0).1 > 2
  {
    var total := Wrap64(limit - 2);
    assert total == TWO64 + limit - 2;
    HalfAtMost(total, harts);
  }

  lemma HalfAtMost(total: nat, harts: nat)
    requires 2 <= harts <= MAX_HARTS && total >= MAX_HARTS
    ensures 0 < total / harts && 2 * (total / harts) <= total
  {
    TimesMonotone(total / harts, 2, harts);
    assert total == harts * (total / harts) + total % harts;
  }

  class BenchmarkState {
    var active: bool
    var job: Job
    var completed: nat
    var results: seq<nat>
    /** Where each hart is in its report. */
    var stage: seq<Stage>

    ghost predicate Valid()
      reads this
    {
      Reported(job, results, stage) && completed == Announcements(stage, job.harts)
    }

    constructor ()
      ensures Valid() && !active
    {
      active, job, completed := false, Job(0, 0, 0), 0;
      results, stage := seq(MAX_HARTS, _ => 0), seq(MAX_HARTS, _ => Waiting);
    }

    /** `start`: the mode is set last. */
    method Start(start: nat, end: nat, harts: nat)
      requires |results| == MAX_HARTS && Job(start, end, harts).Ok()
      modifies this
      ensures Valid() && active && job == Job(start, end, harts) && completed == 0
      ensures stage == seq(MAX_HARTS, _ => Waiting) && forall i | 0 <= i < MAX_HARTS :: results[i] == 0
    {
      for i := 0 to MAX_HARTS
        invariant |results| == MAX_HARTS && forall k | 0 <= k < i :: results[k] == 0
      {
        results := results[i := 0];
      }
      completed, job := 0, Job(start, end, harts);
      stage := seq(MAX_HARTS, _ => Waiting);
      NoneAnnounced(stage, harts);
      active := true;
    }

    /** The first half of `report_result`. */
    method Store(h: nat, count: nat)
      requires |results| == MAX_HARTS
      modifies this`results
      ensures results == if h < MAX_HARTS then old(results)[h := count] else old(results)
    {
      if h < MAX_HARTS { results := results[h := count]; }
    }

    /** The second half of `report_result`, after the fence. */
    method Increment()
      modifies this`completed
      ensures completed == old(completed) + 1
    {
      completed := completed + 1;
    }

    method TotalResult() returns (total: nat)
      requires |results| == MAX_HARTS && job.harts <= MAX_HARTS
      ensures total == Sum(results, job.harts) % TWO64
      ensures Valid() ==> total == Sum(results, job.harts)
    {
      total := 0;
      for i := 0 to job.harts
        invariant total == Sum(results, i) % TWO64
      {
        SumWraps(Sum(results, i), results[i]);
        total := (total + results[i]) % TWO64;
      }
      if Reported(job, results, stage) { SumFits(job, results, stage); }
    }

    predicate AllCompleted()
      reads this
    {
      completed >= job.harts
    }

    /** A participating hart counts its share and stores the count. */
    method HartStores(h: nat)
      requires Valid() && h < job.harts && stage[h].Waiting?
      modifies this`results, this`stage
      ensures Valid() && stage == old(stage)[h := Stored]
    {
      var (start, end) := job.Range(h);
      var count := 0;
      if start < end { count := CountPrimes(start, end); }
      Store(h, count);
      Announce(stage, h, Stored, job.harts);
      stage := stage[h := Stored];
    }

    method HartAnnounces(h: nat)
      requires Valid() && h < job.harts && stage[h].Stored?
      modifies this`completed, this`stage
      ensures Valid() && stage == old(stage)[h := Announced]
    {
      Increment();
      Announce(stage, h, Announced, job.harts);
      stage := stage[h := Announced];
    }

    /** Any interleaving of the harts' two steps, each hart reporting at most once: whenever the coordinator's
        poll says all completed, its total is the number of primes, and while a hart is missing it says no. */
    method Run(events: seq<Event>) returns (total: Option<nat>)
      requires Valid() && job.harts > 0
      modifies this`results, this`completed, this`stage
      ensures total.Some? ==> total.value == Shares(job, job.harts)
      ensures total.Some? && job.Ordered() ==> total.value == PrimesIn(job.start, job.end)
      ensures total.None? ==> Valid() && exists h | 0 <= h < job.harts :: !stage[h].Announced?
    {
      for k := 0 to |events|
        invariant Valid()
      {
        var h := events[k].hart;
        if h < job.harts {
          if events[k].Stores? && stage[h].Waiting? {
            HartStores(h);
          } else if events[k].Announces? && stage[h].Stored? {
            HartAnnounces(h);
          }
        }
        if AllCompleted() { break; }
      }
      if AllCompleted() {
        TotalIsExact(job, results, stage);
        var sum := TotalResult();
        return Some(sum);
      }
      if forall h | 0 <= h < job.harts :: stage[h].Announced? { EveryOneCounts(stage, job.harts); }
      return None;
    }
  }

  datatype Event = Stores(hart: nat) | Announces(hart: nat)

  lemma {:induction false} EveryOneCounts(stage: seq<Stage>, n: nat)
    requires n <= |stage| && forall h | 0 <= h < n :: stage[h].Announced?
    ensures Announcements(stage, n) == n
  {
    if n > 0 { EveryOneCounts(stage, n - 1); }
  }

  lemma FiveIsPrime()
    ensures Prime(5)
  {
    RemainderDecides(2, 5);
    RootSuffices(5, 3);
  }

  /** Announcements are only counted: a hart that reports twice stands in for one that has not reported, and
      the total misses that one's primes. */
  method ReportedTwice() returns (done: bool, total: nat)
    ensures done && total < PrimesIn(2, 6)
  {
    var b := new BenchmarkState();
    b.Start(2, 6, 2);
    var count := CountPrimes(2, 4);
    b.Store(0, count);
    b.Increment();
    b.Store(0, count);
    b.Increment();
    done := b.AllCompleted();
    total := b.TotalResult();
    assert Sum(b.results, 2) == Sum(b.results, 1) + b.results[1] == count by {
      assert Sum(b.results, 1) == Sum(b.results, 0) + b.results[0];
    }
    PrimesSplit(2, 4, 6);
    FiveIsPrime();
    assert PrimesIn(4, 6) == PrimesIn(4, 5) + 1;
  }
}

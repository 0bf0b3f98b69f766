/**
 * Slice location by contention timing (`find_closest_slice`,
 * `get_cache_slice_index`). For each probe core 0, 2, 4, ... a probe thread
 * on that core times repeated loads of the address while a load thread on
 * the odd neighbour keeps writing it; the probe core that finishes fastest
 * is taken as the slice of the address. A location is accepted once two
 * runs in a row agree.
 *
 * The timings are inputs: one run of the race is an `Elapsed` function
 * giving, for each probe core, the cycles its probe thread took.
 */
module SliceLocator {
  import opened Wrappers
  import opened Word
  import opened MachineConst

  /** The time a probe must beat to be taken as the slice at all. */
  const SENTINEL_TIME: u64 := 1_000_000_000

  /** `(uint64_t)-1`: the answer when no probe beats the sentinel. */
  const NO_SLICE: u64 := 0xFFFF_FFFF_FFFF_FFFF

  /** One run of the race: the elapsed cycles measured on each probe core. */
  type Elapsed = int -> u64

  /** The cores that host a probe thread. */
  predicate IsProbeCpu(numCores: CoreCount, cpu: int)
  {
    0 <= cpu < numCores && cpu % 2 == 0
  }

  /**
   * The slice a run designates, stated without reference to the loop: the
   * first probe core whose time is smallest and below the sentinel, or
   * NO_SLICE when no probe core is below the sentinel.
   */
  ghost predicate IsClosestSlice(numCores: CoreCount, elapsed: Elapsed, s: u64)
  {
    if exists cpu :: IsProbeCpu(numCores, cpu) && elapsed(cpu) < SENTINEL_TIME then
      && IsProbeCpu(numCores, s)
      && elapsed(s) < SENTINEL_TIME
      && (forall cpu :: IsProbeCpu(numCores, cpu) ==> elapsed(s) <= elapsed(cpu))
      && (forall cpu :: IsProbeCpu(numCores, cpu) && cpu < s ==> elapsed(s) < elapsed(cpu))
    else
      s == NO_SLICE
  }

  /**
   * What the race loop knows after the probe cores below `cpu`: either none
   * beat the sentinel and the best is still (sentinel, NO_SLICE), or the
   * best is the first probe core below `cpu` with the smallest time.
   */
  ghost predicate BestBelow(numCores: CoreCount, elapsed: Elapsed, cpu: int, bestTime: u64, bestCpu: u64)
  {
    || (&& bestCpu == NO_SLICE
        && bestTime == SENTINEL_TIME
        && forall p :: IsProbeCpu(numCores, p) && p < cpu ==> elapsed(p) >= SENTINEL_TIME)
    || (&& IsProbeCpu(numCores, bestCpu)
        && bestCpu < cpu
        && bestTime == elapsed(bestCpu) < SENTINEL_TIME
        && (forall p :: IsProbeCpu(numCores, p) && p < cpu ==> bestTime <= elapsed(p))
        && (forall p :: IsProbeCpu(numCores, p) && p < bestCpu ==> bestTime < elapsed(p)))
  }

  /** The race loop from probe core `cpu` on, with the best time and core so far. */
  function Sweep(numCores: CoreCount, elapsed: Elapsed, cpu: nat, bestTime: u64, bestCpu: u64): (r: u64)
    requires cpu % 2 == 0
    requires bestCpu == NO_SLICE || IsProbeCpu(numCores, bestCpu)
    ensures r == NO_SLICE || IsProbeCpu(numCores, r)
    decreases numCores - cpu
  {
    if cpu >= numCores then bestCpu
    else if elapsed(cpu) < bestTime then Sweep(numCores, elapsed, cpu + 2, elapsed(cpu), cpu)
    else Sweep(numCores, elapsed, cpu + 2, bestTime, bestCpu)
  }

  /** The slice one run designates: a probe core, or NO_SLICE. */
  function ClosestSlice(numCores: CoreCount, elapsed: Elapsed): (s: u64)
    ensures s == NO_SLICE || IsProbeCpu(numCores, s)
  {
    Sweep(numCores, elapsed, 0, SENTINEL_TIME, NO_SLICE)
  }

  /** One step of the race loop keeps `BestBelow`. */
  lemma BestBelowStep(numCores: CoreCount, elapsed: Elapsed, cpu: nat, bestTime: u64, bestCpu: u64)
    requires cpu % 2 == 0 && cpu < numCores
    requires BestBelow(numCores, elapsed, cpu, bestTime, bestCpu)
    ensures elapsed(cpu) < bestTime ==> BestBelow(numCores, elapsed, cpu + 2, elapsed(cpu), cpu)
    ensures elapsed(cpu) >= bestTime ==> BestBelow(numCores, elapsed, cpu + 2, bestTime, bestCpu)
  {
    assert forall p :: IsProbeCpu(numCores, p) && p < cpu + 2 ==> p < cpu || p == cpu;
  }

  /** Once every probe core is seen, `BestBelow` is the closest slice. */
  lemma BestBelowComplete(numCores: CoreCount, elapsed: Elapsed, cpu: nat, bestTime: u64, bestCpu: u64)
    requires cpu >= numCores
    requires BestBelow(numCores, elapsed, cpu, bestTime, bestCpu)
    ensures IsClosestSlice(numCores, elapsed, bestCpu)
  {
  }

  lemma {:induction false} SweepIsClosestSlice(numCores: CoreCount, elapsed: Elapsed, cpu: nat, bestTime: u64, bestCpu: u64)
    requires cpu % 2 == 0
    requires BestBelow(numCores, elapsed, cpu, bestTime, bestCpu)
    ensures IsClosestSlice(numCores, elapsed, Sweep(numCores, elapsed, cpu, bestTime, bestCpu))
    decreases numCores - cpu
  {
    if cpu >= numCores {
      BestBelowComplete(numCores, elapsed, cpu, bestTime, bestCpu);
    } else {
      BestBelowStep(numCores, elapsed, cpu, bestTime, bestCpu);
      if elapsed(cpu) < bestTime {
        SweepIsClosestSlice(numCores, elapsed, cpu + 2, elapsed(cpu), cpu);
      } else {
        SweepIsClosestSlice(numCores, elapsed, cpu + 2, bestTime, bestCpu);
      }
    }
  }

  /** The race loop designates the first fastest probe core below the sentinel. */
  lemma ClosestSliceIsFirstFastest(numCores: CoreCount, elapsed: Elapsed)
    ensures IsClosestSlice(numCores, elapsed, ClosestSlice(numCores, elapsed))
  {
    SweepIsClosestSlice(numCores, elapsed, 0, SENTINEL_TIME, NO_SLICE);
  }

  /** At most one value fits the description of the closest slice. */
  lemma ClosestSliceUnique(numCores: CoreCount, elapsed: Elapsed, s1: u64, s2: u64)
    requires IsClosestSlice(numCores, elapsed, s1) && IsClosestSlice(numCores, elapsed, s2)
    ensures s1 == s2
  {
  }

  /** A probe core that is strictly faster than every other and below the
      sentinel is the slice of the run. */
  lemma ClearWinner(numCores: CoreCount, elapsed: Elapsed, s: int)
    requires IsProbeCpu(numCores, s) && elapsed(s) < SENTINEL_TIME
    requires forall p :: IsProbeCpu(numCores, p) && p != s ==> elapsed(s) < elapsed(p)
    ensures ClosestSlice(numCores, elapsed) == s
  {
    ClosestSliceIsFirstFastest(numCores, elapsed);
    var r := ClosestSlice(numCores, elapsed);
    assert IsProbeCpu(numCores, r);
  }

  /** With fewer than one probe core every run answers NO_SLICE. */
  lemma NoProbeCpuNoSlice(numCores: CoreCount, elapsed: Elapsed)
    requires numCores <= 0
    ensures ClosestSlice(numCores, elapsed) == NO_SLICE
  {
  }

  /** `find_closest_slice`: the race loop over the probe cores. */
  method FindClosestSlice(numCores: CoreCount, elapsed: Elapsed) returns (slice: u64)
    ensures slice == ClosestSlice(numCores, elapsed)
    ensures IsClosestSlice(numCores, elapsed, slice)
  {
    var shortestTime: u64 := SENTINEL_TIME;
    var shortestCpu: u64 := NO_SLICE;
    var probeCpu := 0;
    // The loop counter is a C `int`; the bound on CoreCount keeps `+ 2` in range.
    while probeCpu < numCores
      invariant 0 <= probeCpu && probeCpu % 2 == 0
      invariant shortestCpu == NO_SLICE || IsProbeCpu(numCores, shortestCpu)
      invariant BestBelow(numCores, elapsed, probeCpu, shortestTime, shortestCpu)
      invariant Sweep(numCores, elapsed, probeCpu, shortestTime, shortestCpu) == ClosestSlice(numCores, elapsed)
      decreases numCores - probeCpu
    {
      BestBelowStep(numCores, elapsed, probeCpu, shortestTime, shortestCpu);
      if elapsed(probeCpu) < shortestTime {
        shortestTime := elapsed(probeCpu);
        shortestCpu := probeCpu;
      }
      probeCpu := probeCpu + 2;
    }
    BestBelowComplete(numCores, elapsed, probeCpu, shortestTime, shortestCpu);
    slice := shortestCpu;
  }

  // ---------------------------------------------------------------------------
  // Agreement of two runs

  /** The slices designated by the two runs of retry `i`. */
  function FirstOfPair(numCores: CoreCount, trials: seq<Elapsed>, i: nat): u64
    requires 2 * i + 1 < |trials|
  {
    ClosestSlice(numCores, trials[2 * i])
  }

  function SecondOfPair(numCores: CoreCount, trials: seq<Elapsed>, i: nat): u64
    requires 2 * i + 1 < |trials|
  {
    ClosestSlice(numCores, trials[2 * i + 1])
  }

  /**
   * `get_cache_slice_index`: run the race twice and return the slice when
   * both runs agree, otherwise retry. `trials` holds the runs the retries
   * can draw on, in order; None when they run out without agreement.
   */
  function AgreedSlice(numCores: CoreCount, trials: seq<Elapsed>): (r: Option<u64>)
    ensures r.Some? ==> r.value == NO_SLICE || IsProbeCpu(numCores, r.value)
    decreases |trials|
  {
    if |trials| < 2 then None
    else if ClosestSlice(numCores, trials[0]) == ClosestSlice(numCores, trials[1]) then
      Some(ClosestSlice(numCores, trials[0]))
    else
      AgreedSlice(numCores, trials[2..])
  }

  /** A located slice comes from the first retry whose two runs agree. */
  lemma {:induction false} AgreedSliceIsFirstAgreement(numCores: CoreCount, trials: seq<Elapsed>)
    requires AgreedSlice(numCores, trials).Some?
    ensures exists i: nat ::
              && 2 * i + 1 < |trials|
              && FirstOfPair(numCores, trials, i) == SecondOfPair(numCores, trials, i) == AgreedSlice(numCores, trials).value
              && forall j: nat :: j < i ==> FirstOfPair(numCores, trials, j) != SecondOfPair(numCores, trials, j)
    decreases |trials|
  {
    if ClosestSlice(numCores, trials[0]) == ClosestSlice(numCores, trials[1]) {
      assert FirstOfPair(numCores, trials, 0) == SecondOfPair(numCores, trials, 0);
    } else {
      var rest := trials[2..];
      AgreedSliceIsFirstAgreement(numCores, rest);
      var i: nat :| 2 * i + 1 < |rest|
        && FirstOfPair(numCores, rest, i) == SecondOfPair(numCores, rest, i) == AgreedSlice(numCores, rest).value
        && forall j: nat :: j < i ==> FirstOfPair(numCores, rest, j) != SecondOfPair(numCores, rest, j);
      assert FirstOfPair(numCores, trials, i + 1) == FirstOfPair(numCores, rest, i);
      assert SecondOfPair(numCores, trials, i + 1) == SecondOfPair(numCores, rest, i);
      forall j: nat | j < i + 1
        ensures FirstOfPair(numCores, trials, j) != SecondOfPair(numCores, trials, j)
      {
        if j > 0 {
          assert FirstOfPair(numCores, trials, j) == FirstOfPair(numCores, rest, j - 1);
          assert SecondOfPair(numCores, trials, j) == SecondOfPair(numCores, rest, j - 1);
        }
      }
    }
  }

  /** The first agreeing retry determines the located slice. */
  lemma {:induction false} FirstAgreementIsAgreedSlice(numCores: CoreCount, trials: seq<Elapsed>, i: nat)
    requires 2 * i + 1 < |trials|
    requires FirstOfPair(numCores, trials, i) == SecondOfPair(numCores, trials, i)
    requires forall j: nat :: j < i ==> FirstOfPair(numCores, trials, j) != SecondOfPair(numCores, trials, j)
    ensures AgreedSlice(numCores, trials) == Some(FirstOfPair(numCores, trials, i))
    decreases i
  {
    if i > 0 {
      var rest := trials[2..];
      assert FirstOfPair(numCores, trials, 0) != SecondOfPair(numCores, trials, 0);
      forall j: nat | j < i - 1
        ensures FirstOfPair(numCores, rest, j) != SecondOfPair(numCores, rest, j)
      {
        assert FirstOfPair(numCores, trials, j + 1) == FirstOfPair(numCores, rest, j);
        assert SecondOfPair(numCores, trials, j + 1) == SecondOfPair(numCores, rest, j);
      }
      assert FirstOfPair(numCores, trials, i) == FirstOfPair(numCores, rest, i - 1);
      assert SecondOfPair(numCores, trials, i) == SecondOfPair(numCores, rest, i - 1);
      FirstAgreementIsAgreedSlice(numCores, rest, i - 1);
    }
  }

  /** No slice is located exactly when no retry's two runs agree. */
  lemma {:induction false} NoAgreementNoSlice(numCores: CoreCount, trials: seq<Elapsed>)
    ensures AgreedSlice(numCores, trials).None?
        <==> forall i: nat :: 2 * i + 1 < |trials| ==> FirstOfPair(numCores, trials, i) != SecondOfPair(numCores, trials, i)
  {
    if AgreedSlice(numCores, trials).Some? {
      AgreedSliceIsFirstAgreement(numCores, trials);
    } else if exists i: nat :: 2 * i + 1 < |trials| && FirstOfPair(numCores, trials, i) == SecondOfPair(numCores, trials, i) {
      var i := FirstAgreeingPair(numCores, trials);
      FirstAgreementIsAgreedSlice(numCores, trials, i);
    }
  }

  /** The smallest retry whose runs agree, when there is one. */
  lemma FirstAgreeingPair(numCores: CoreCount, trials: seq<Elapsed>) returns (i: nat)
    requires exists i: nat :: 2 * i + 1 < |trials| && FirstOfPair(numCores, trials, i) == SecondOfPair(numCores, trials, i)
    ensures 2 * i + 1 < |trials| && FirstOfPair(numCores, trials, i) == SecondOfPair(numCores, trials, i)
    ensures forall j: nat :: j < i ==> FirstOfPair(numCores, trials, j) != SecondOfPair(numCores, trials, j)
  {
    var k: nat :| 2 * k + 1 < |trials| && FirstOfPair(numCores, trials, k) == SecondOfPair(numCores, trials, k);
    i := 0;
    while FirstOfPair(numCores, trials, i) != SecondOfPair(numCores, trials, i)
      invariant i <= k
      invariant forall j: nat :: j < i ==> FirstOfPair(numCores, trials, j) != SecondOfPair(numCores, trials, j)
      decreases k - i
    {
      i := i + 1;
    }
  }

  /**
   * When every run has the same clear winner, the first retry already
   * agrees and locates that slice.
   */
  lemma StableWinnerIsLocated(numCores: CoreCount, trials: seq<Elapsed>, s: int)
    requires |trials| >= 2 && IsProbeCpu(numCores, s)
    requires forall t :: t in trials ==> t(s) < SENTINEL_TIME
    requires forall t, p :: t in trials && IsProbeCpu(numCores, p) && p != s ==> t(s) < t(p)
    ensures AgreedSlice(numCores, trials) == Some(s)
  {
    ClearWinner(numCores, trials[0], s);
    ClearWinner(numCores, trials[1], s);
  }

  /** `get_cache_slice_index`: retries pairs of race runs until they agree. */
  method GetCacheSliceIndex(numCores: CoreCount, trials: seq<Elapsed>) returns (r: Option<u64>)
    ensures r == AgreedSlice(numCores, trials)
  {
    var i := 0;
    while i + 1 < |trials|
      invariant 0 <= i <= |trials|
      invariant AgreedSlice(numCores, trials[i..]) == AgreedSlice(numCores, trials)
      decreases |trials| - i
    {
      var t1 := FindClosestSlice(numCores, trials[i]);
      var t2 := FindClosestSlice(numCores, trials[i + 1]);
      if t1 == t2 {
        return Some(t1);
      }
      assert trials[i..][2..] == trials[i + 2..];
      i := i + 2;
    }
    r := None;
  }
}

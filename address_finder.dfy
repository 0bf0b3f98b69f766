/**
 * The address finder (`find_next_address_on_slice_and_set`): starting at a
 * virtual address, step one cache line at a time until the address both
 * falls into the desired last-level-cache set and is located on the desired
 * slice, and return the offset reached. The set is checked first; the slice,
 * which takes timed races, is only located for addresses on the desired set.
 *
 * The source loops without bound; the model scans `radius` candidates and
 * reports when none qualifies. Locating a slice retries until two runs
 * agree; each address comes with the runs its retries can draw on, and the
 * model reports when they run out.
 */
module AddressFinder {
  import opened Wrappers
  import opened Word
  import opened MachineConst
  import opened CacheSet
  import opened SliceLocator

  /** The race runs available for locating the slice of each address. */
  type Measurements = u64 -> seq<Elapsed>

  datatype SearchError =
    | NoCollisionFound               // no candidate within the radius qualifies
    | SliceNotDetermined(address: u64) // the runs for this candidate never agreed

  /** The offset of candidate `k`: `k` cache blocks, added up in `uint64_t`. */
  function Offset(c: Config, k: nat): u64
  {
    if k == 0 then 0 else Wrap(Offset(c, k - 1) + c.cacheBlockSize)
  }

  /** Candidate `k`: `(uint64_t)va + offset`. */
  function Candidate(c: Config, va: u64, k: nat): u64
  {
    Wrap(va + Offset(c, k))
  }

  predicate OnDesiredSet(c: Config, a: u64, desiredSet: u32)
  {
    GetCacheSetIndex(c, a, LLC) == Some(desiredSet)
  }

  /** The slice located for `a`, or None when its runs never agree. */
  function MeasuredSlice(c: Config, measure: Measurements, a: u64): Option<u64>
  {
    AgreedSlice(c.numCores, measure(a))
  }

  /** Candidate `k` is the address sought. */
  predicate Qualifies(c: Config, va: u64, desiredSlice: u8, desiredSet: u32, measure: Measurements, k: nat)
  {
    var a := Candidate(c, va, k);
    OnDesiredSet(c, a, desiredSet) && MeasuredSlice(c, measure, a) == Some(desiredSlice)
  }

  /** Candidate `k` is passed over: off the desired set, or located on another slice. */
  predicate PassedOver(c: Config, va: u64, desiredSlice: u8, desiredSet: u32, measure: Measurements, k: nat)
  {
    var a := Candidate(c, va, k);
    !OnDesiredSet(c, a, desiredSet)
    || (MeasuredSlice(c, measure, a).Some? && MeasuredSlice(c, measure, a).value != desiredSlice)
  }

  /** What the loop condition decides about one candidate: move on to the
      next, or stop with a result. */
  datatype Verdict = Continue | Stop(result: Result<u64, SearchError>)

  /** The loop condition on candidate `k`: the set is compared first, and the
      slice is located only for an address on the desired set. */
  function Examine(c: Config, va: u64, desiredSlice: u8, desiredSet: u32, measure: Measurements, k: nat): Verdict
  {
    var a := Candidate(c, va, k);
    if !OnDesiredSet(c, a, desiredSet) then Continue
    else match MeasuredSlice(c, measure, a)
      case None => Stop(Failure(SliceNotDetermined(a)))
      case Some(s) => if s == desiredSlice then Stop(Success(Offset(c, k))) else Continue
  }

  /** The search over candidates `k` up to, not including, `end`. */
  function Scan(c: Config, va: u64, desiredSlice: u8, desiredSet: u32, measure: Measurements, k: nat, end: nat)
    : Result<u64, SearchError>
    decreases end - k
  {
    if k >= end then Failure(NoCollisionFound)
    else match Examine(c, va, desiredSlice, desiredSet, measure, k)
      case Continue => Scan(c, va, desiredSlice, desiredSet, measure, k + 1, end)
      case Stop(r) => r
  }

  // ---------------------------------------------------------------------------
  // Properties of the search

  /** The loop moves on from a candidate exactly when it is passed over, and
      stops with its offset exactly when it qualifies. */
  lemma ExamineCases(c: Config, va: u64, desiredSlice: u8, desiredSet: u32, measure: Measurements, k: nat)
    ensures Examine(c, va, desiredSlice, desiredSet, measure, k) == Continue
        <==> PassedOver(c, va, desiredSlice, desiredSet, measure, k)
    ensures Examine(c, va, desiredSlice, desiredSet, measure, k) == Stop(Success(Offset(c, k)))
        <==> Qualifies(c, va, desiredSlice, desiredSet, measure, k)
    ensures Examine(c, va, desiredSlice, desiredSet, measure, k).Stop? ==>
              Examine(c, va, desiredSlice, desiredSet, measure, k).result.Success?
              || Examine(c, va, desiredSlice, desiredSet, measure, k).result == Failure(SliceNotDetermined(Candidate(c, va, k)))
  {
  }

  /** A found offset belongs to the first qualifying candidate, `j`. */
  lemma {:induction false} ScanFoundFirst(c: Config, va: u64, desiredSlice: u8, desiredSet: u32, measure: Measurements, k: nat, end: nat)
    returns (j: nat)
    requires Scan(c, va, desiredSlice, desiredSet, measure, k, end).Success?
    ensures k <= j < end
    ensures Scan(c, va, desiredSlice, desiredSet, measure, k, end).value == Offset(c, j)
    ensures Qualifies(c, va, desiredSlice, desiredSet, measure, j)
    ensures forall i: nat :: k <= i < j ==> PassedOver(c, va, desiredSlice, desiredSet, measure, i)
    decreases end - k
  {
    ExamineCases(c, va, desiredSlice, desiredSet, measure, k);
    if Examine(c, va, desiredSlice, desiredSet, measure, k) == Continue {
      j := ScanFoundFirst(c, va, desiredSlice, desiredSet, measure, k + 1, end);
    } else {
      j := k;
    }
  }

  /** Failing with NoCollisionFound means every scanned candidate was passed over. */
  lemma {:induction false} ScanExhausted(c: Config, va: u64, desiredSlice: u8, desiredSet: u32, measure: Measurements, k: nat, end: nat)
    requires Scan(c, va, desiredSlice, desiredSet, measure, k, end) == Failure(NoCollisionFound)
    ensures forall i: nat :: k <= i < end ==> PassedOver(c, va, desiredSlice, desiredSet, measure, i)
    decreases end - k
  {
    if k < end {
      ExamineCases(c, va, desiredSlice, desiredSet, measure, k);
      ScanExhausted(c, va, desiredSlice, desiredSet, measure, k + 1, end);
    }
  }

  /** A slice that cannot be located stops the search at the first candidate,
      `j`, on the desired set whose runs never agree. */
  lemma {:induction false} ScanUndetermined(c: Config, va: u64, desiredSlice: u8, desiredSet: u32, measure: Measurements, k: nat, end: nat, a: u64)
    returns (j: nat)
    requires Scan(c, va, desiredSlice, desiredSet, measure, k, end) == Failure(SliceNotDetermined(a))
    ensures k <= j < end && a == Candidate(c, va, j)
    ensures OnDesiredSet(c, a, desiredSet) && MeasuredSlice(c, measure, a).None?
    ensures forall i: nat :: k <= i < j ==> PassedOver(c, va, desiredSlice, desiredSet, measure, i)
    decreases end - k
  {
    ExamineCases(c, va, desiredSlice, desiredSet, measure, k);
    if Examine(c, va, desiredSlice, desiredSet, measure, k) == Continue {
      j := ScanUndetermined(c, va, desiredSlice, desiredSet, measure, k + 1, end, a);
    } else {
      j := k;
    }
  }

  /** A qualifying candidate within reach, preceded only by passed-over ones, is found. */
  lemma {:induction false} ScanFindsQualifying(c: Config, va: u64, desiredSlice: u8, desiredSet: u32, measure: Measurements, k: nat, end: nat, j: nat)
    requires k <= j < end
    requires Qualifies(c, va, desiredSlice, desiredSet, measure, j)
    requires forall i: nat :: k <= i < j ==> PassedOver(c, va, desiredSlice, desiredSet, measure, i)
    ensures Scan(c, va, desiredSlice, desiredSet, measure, k, end) == Success(Offset(c, j))
    decreases end - k
  {
    ExamineCases(c, va, desiredSlice, desiredSet, measure, k);
    if k < j {
      ScanFindsQualifying(c, va, desiredSlice, desiredSet, measure, k + 1, end, j);
    }
  }

  /**
   * Slices are probe cores, which are even and below the core count: a
   * search for any other slice never succeeds.
   */
  lemma UnreachableSliceNeverFound(c: Config, va: u64, desiredSlice: u8, desiredSet: u32, measure: Measurements, k: nat, end: nat)
    requires desiredSlice % 2 == 1 || desiredSlice >= c.numCores
    ensures !Scan(c, va, desiredSlice, desiredSet, measure, k, end).Success?
  {
    if Scan(c, va, desiredSlice, desiredSet, measure, k, end).Success? {
      var j := ScanFoundFirst(c, va, desiredSlice, desiredSet, measure, k, end);
      assert false;
    }
  }

  lemma WrapAdd(x: int, y: int)
    ensures Wrap(Wrap(x) + y) == Wrap(x + y)
  {
  }

  /** Candidate offsets are whole numbers of cache blocks, modulo 2^64. */
  lemma {:induction false} OffsetIsBlockMultiple(c: Config, k: nat)
    ensures Offset(c, k) == Wrap(k * c.cacheBlockSize)
  {
    if k > 0 {
      var bs := c.cacheBlockSize;
      OffsetIsBlockMultiple(c, k - 1);
      assert k * bs == (k - 1) * bs + bs;
      WrapAdd((k - 1) * bs, bs);
    }
  }

  /** Candidate `k` lies `k` cache blocks past `va`, modulo 2^64. */
  lemma CandidateIsBlocksPastVa(c: Config, va: u64, k: nat)
    ensures Candidate(c, va, k) == Wrap(va + k * c.cacheBlockSize)
  {
    OffsetIsBlockMultiple(c, k);
    WrapAdd(k * c.cacheBlockSize, va);
  }

  /**
   * The slice-location service the search calls (`get_cache_slice_index`),
   * drawing on the race runs of each address. `queried` records, in order,
   * every address whose slice it was asked to locate.
   */
  class SliceOracle {
    const measure: Measurements
    ghost var queried: seq<u64>

    constructor (measure: Measurements)
      ensures this.measure == measure && queried == []
    {
      this.measure := measure;
      queried := [];
    }

    /** Locates the slice of `a` and records the query. */
    method Locate(c: Config, a: u64) returns (r: Option<u64>)
      modifies this
      ensures r == MeasuredSlice(c, measure, a)
      ensures queried == old(queried) + [a]
    {
      r := GetCacheSliceIndex(c.numCores, measure(a));
      queried := queried + [a];
    }
  }

  /**
   * The loop condition of the source on the candidate at `offset`: its set
   * is compared first, and its slice is located only when the set matches,
   * so the oracle is queried for that candidate exactly when it lies on
   * the desired set.
   */
  method ExamineCandidate(c: Config, va: u64, desiredSlice: u8, desiredSet: u32, oracle: SliceOracle, k: nat, offset: u64)
    returns (v: Verdict)
    requires offset == Offset(c, k)
    modifies oracle
    ensures v == Examine(c, va, desiredSlice, desiredSet, oracle.measure, k)
    ensures oracle.queried == old(oracle.queried)
              + if OnDesiredSet(c, Candidate(c, va, k), desiredSet) then [Candidate(c, va, k)] else []
  {
    var a := Wrap(va + offset);
    if GetCacheSetIndex(c, a, LLC) != Some(desiredSet as u64) {
      return Continue;
    }
    var slice := oracle.Locate(c, a);
    if slice.None? {
      v := Stop(Failure(SliceNotDetermined(a)));
    } else if slice.value != desiredSlice as u64 {
      v := Continue;
    } else {
      v := Stop(Success(offset));
    }
  }

  /** One turn of the search loop: examines candidate `k` and keeps the
      record of queries an extension of `before` by on-set addresses only. */
  method SearchStep(c: Config, va: u64, desiredSlice: u8, desiredSet: u32, oracle: SliceOracle, k: nat, offset: u64,
                    ghost before: seq<u64>)
    returns (v: Verdict)
    requires offset == Offset(c, k)
    requires |before| <= |oracle.queried| && oracle.queried[..|before|] == before
    requires forall i :: |before| <= i < |oracle.queried| ==> OnDesiredSet(c, oracle.queried[i], desiredSet)
    modifies oracle
    ensures v == Examine(c, va, desiredSlice, desiredSet, oracle.measure, k)
    ensures |before| <= |oracle.queried| && oracle.queried[..|before|] == before
    ensures forall i :: |before| <= i < |oracle.queried| ==> OnDesiredSet(c, oracle.queried[i], desiredSet)
  {
    v := ExamineCandidate(c, va, desiredSlice, desiredSet, oracle, k, offset);
  }

  /**
   * `find_next_address_on_slice_and_set` over the first `radius` candidates.
   * Every slice it has located is that of an address on the desired set.
   */
  method FindNextAddressOnSliceAndSet(c: Config, va: u64, desiredSlice: u8, desiredSet: u32, oracle: SliceOracle, radius: nat)
    returns (r: Result<u64, SearchError>)
    modifies oracle
    ensures r == Scan(c, va, desiredSlice, desiredSet, oracle.measure, 0, radius)
    ensures |old(oracle.queried)| <= |oracle.queried| && oracle.queried[..|old(oracle.queried)|] == old(oracle.queried)
    ensures forall i :: |old(oracle.queried)| <= i < |oracle.queried| ==> OnDesiredSet(c, oracle.queried[i], desiredSet)
  {
    ghost var before := oracle.queried;
    var offset: u64 := 0;
    var k: nat := 0;
    while k < radius
      invariant k <= radius
      invariant offset == Offset(c, k)
      invariant Scan(c, va, desiredSlice, desiredSet, oracle.measure, k, radius)
             == Scan(c, va, desiredSlice, desiredSet, oracle.measure, 0, radius)
      invariant |before| <= |oracle.queried| && oracle.queried[..|before|] == before
      invariant forall i :: |before| <= i < |oracle.queried| ==> OnDesiredSet(c, oracle.queried[i], desiredSet)
    {
      var v := SearchStep(c, va, desiredSlice, desiredSet, oracle, k, offset, before);
      if v.Stop? {
        return v.result;
      }
      offset := Wrap(offset + c.cacheBlockSize);
      k := k + 1;
    }
    r := Failure(NoCollisionFound);
  }
}

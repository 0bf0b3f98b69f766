/**
 * The cache set-index calculator (`get_cache_set_index`): the set an address
 * falls into at cache level 1 (L1), 2 (L2) or 3 (the last-level cache, per
 * slice) is the address under that level's mask, shifted down by the
 * cache-line size exponent.
 */
module CacheSet {
  import opened Wrappers
  import opened Word
  import opened MachineConst

  /** The integers by which the source names the cache levels. */
  const L1: int := 1
  const L2: int := 2
  const LLC: int := 3

  /** The set-index mask of a level; None for a level the source does not know. */
  function SetIndexMask(c: Config, level: int): (m: Option<u64>)
    ensures m.Some? <==> L1 <= level <= LLC
    ensures level == L1 ==> m == Some(c.l1SetIndexMask)
    ensures level == L2 ==> m == Some(c.l2SetIndexMask)
    ensures level == LLC ==> m == Some(c.llcSetIndexPerSliceMask)
  {
    if level == L1 then Some(c.l1SetIndexMask)
    else if level == L2 then Some(c.l2SetIndexMask)
    else if level == LLC then Some(c.llcSetIndexPerSliceMask)
    else None
  }

  /**
   * The set index of `addr` at `level`. None stands for the process exit
   * the source takes on any other level. The index never exceeds the
   * level's mask shifted down by the line-size exponent.
   */
  function GetCacheSetIndex(c: Config, addr: u64, level: int): (r: Option<u64>)
    ensures r.Some? <==> L1 <= level <= LLC
    ensures r.Some? ==> r.value <= ShiftRight(SetIndexMask(c, level).value, c.cacheBlockSizeLog)
  {
    match SetIndexMask(c, level)
    case None => None
    case Some(mask) =>
      ShiftRightMono(And(addr, mask), mask, c.cacheBlockSizeLog);
      Some(ShiftRight(And(addr, mask), c.cacheBlockSizeLog))
  }

  /** The set index reads only the bits under the level's mask. */
  lemma SetIndexDependsOnlyOnMaskedBits(c: Config, a: u64, b: u64, level: int)
    requires L1 <= level <= LLC
    requires And(a, SetIndexMask(c, level).value) == And(b, SetIndexMask(c, level).value)
    ensures GetCacheSetIndex(c, a, level) == GetCacheSetIndex(c, b, level)
  {
  }

  /**
   * Address translation keeps the low `pageBits` bits of an address (12 on
   * 4 KB pages, 21 on 2 MB pages). When a level's mask lies below bit
   * `pageBits`, a virtual address gives the same set index as its physical
   * address.
   */
  lemma SetIndexKeptByTranslation(c: Config, va: u64, pa: u64, level: int, pageBits: nat)
    requires L1 <= level <= LLC
    requires SetIndexMask(c, level).value < Pow2(pageBits)
    requires va % Pow2(pageBits) == pa % Pow2(pageBits)
    ensures GetCacheSetIndex(c, va, level) == GetCacheSetIndex(c, pa, level)
  {
    AndAgreesBelow(va, pa, SetIndexMask(c, level).value, pageBits);
  }

  /**
   * A mask made of `k` consecutive bits starting at the line-size exponent
   * turns the index into the line number modulo 2^k: the address selects
   * one of 2^k sets, and consecutive lines fall into consecutive sets.
   */
  lemma SetIndexOfContiguousMask(c: Config, addr: u64, level: int, k: nat)
    requires L1 <= level <= LLC
    requires SetIndexMask(c, level).value == ShiftLeft(Pow2(k) - 1, c.cacheBlockSizeLog)
    ensures GetCacheSetIndex(c, addr, level) == Some(ShiftRight(addr, c.cacheBlockSizeLog) % Pow2(k))
    ensures GetCacheSetIndex(c, addr, level).value < Pow2(k)
  {
    MaskedField(addr, k, c.cacheBlockSizeLog);
  }

  /**
   * Conversely, when a level's index bits reach above the low `pageBits`
   * bits, two addresses that agree on those bits can lie in different sets:
   * 2^pageBits and 0 do. The virtual address then does not give the
   * physical set index.
   */
  lemma SetIndexNotKeptAbovePageOffset(c: Config, level: int, k: nat, pageBits: nat)
    requires L1 <= level <= LLC
    requires SetIndexMask(c, level).value == ShiftLeft(Pow2(k) - 1, c.cacheBlockSizeLog)
    requires c.cacheBlockSizeLog <= pageBits < c.cacheBlockSizeLog + k && pageBits < 64
    ensures Pow2(pageBits) < WORD_LIMIT
    ensures Pow2(pageBits) % Pow2(pageBits) == 0 % Pow2(pageBits)
    ensures GetCacheSetIndex(c, Pow2(pageBits), level) != GetCacheSetIndex(c, 0, level)
  {
    var s := c.cacheBlockSizeLog;
    var d := pageBits - s;
    Pow2BelowWord(pageBits);
    var high: u64 := Pow2(pageBits);
    var pd := Pow2(d);
    assert GetCacheSetIndex(c, high, level) == Some(pd % Pow2(k)) by {
      SetIndexOfContiguousMask(c, high, level, k);
      ShiftRightPow2(s, d);
    }
    assert pd % Pow2(k) == pd by {
      Pow2Mono(d + 1, k);
      assert Pow2(d + 1) == 2 * pd;
      DivModUnique(pd, Pow2(k), 0, pd);
    }
    assert GetCacheSetIndex(c, 0, level) == Some(0) by {
      SetIndexOfContiguousMask(c, 0, level, k);
      ShiftRightIsDiv(0, s);
    }
  }
}

/**
 * Virtual-to-physical translation through the process's pagemap file
 * (`get_page_frame_number_of_address`, `get_physical_address`). Each virtual
 * page has an 8-byte entry at offset (page number * entry length); bit 63 of
 * the entry says whether the page is present, bit 62 whether it is swapped,
 * and bits 0-54 hold the page frame number.
 */
module PhysicalAddress {
  import opened Word
  import opened MachineConst
  import opened CacheSet

  const PRESENT_BIT: Shift := 63
  const SWAPPED_BIT: Shift := 62

  /** Bits 0-54 of an entry. */
  const FRAME_NUMBER_MASK: u64 := 0x7F_FFFF_FFFF_FFFF

  /** The pagemap file as the process reads it: the 8-byte entry found at
      each byte offset the file holds. */
  type Pagemap = map<u64, u64>

  /** `GET_BIT(X, Y)`, that is `(X & (1 << Y)) >> Y`: bit Y of X. */
  function GetBit(x: u64, y: Shift): (b: nat)
    ensures b == (x / Pow2(y)) % 2
  {
    var line := ShiftRight(x, y);
    AndShifted(x, 1, y);
    assert Pow2(1) == 2;
    AndLowMask(line, 1);
    ShiftLeftPlusLow(line % 2, 0, y);
    ShiftRightIsDiv(x, y);
    ShiftRight(And(x, ShiftLeft(1, y)), y)
  }

  /** The offset of the entry for the page holding `addr`, computed in
      `uint64_t` arithmetic. */
  function PagemapOffset(c: Config, addr: u64): (offset: u64)
    ensures offset == (addr / Pow2(c.pageShift)) * c.pagemapLength % WORD_LIMIT
  {
    ShiftRightIsDiv(addr, c.pageShift);
    Wrap(ShiftRight(addr, c.pageShift) * c.pagemapLength)
  }

  /**
   * The entry read at `offset`. The read buffer starts out as 0 and a read
   * that finds no bytes leaves it so; the source's failure test compares an
   * unsigned count with 0 and never fires, so a short read is not an error.
   */
  function ReadPagemapEntry(pagemap: Pagemap, offset: u64): (entry: u64)
    ensures offset !in pagemap ==> entry == 0
    ensures offset in pagemap ==> entry == pagemap[offset]
  {
    if offset in pagemap then pagemap[offset] else 0
  }

  /** The entry describing the page that holds `addr`. */
  function PagemapEntryOf(c: Config, pagemap: Pagemap, addr: u64): u64
  {
    ReadPagemapEntry(pagemap, PagemapOffset(c, addr))
  }

  /** The two flag bits the source tests, in terms of the entry's value. */
  lemma FlagBits(x: u64)
    ensures GetBit(x, PRESENT_BIT) == 1 <==> x >= 0x8000_0000_0000_0000
    ensures x < 0x8000_0000_0000_0000 ==> (GetBit(x, SWAPPED_BIT) == 1 <==> x >= 0x4000_0000_0000_0000)
  {
    Pow2Values();
    QuotientParity(x, 0x8000_0000_0000_0000);
    if x < 0x8000_0000_0000_0000 {
      QuotientParity(x, 0x4000_0000_0000_0000);
    }
  }

  /** Below 2d, the quotient by d is odd exactly from d on. */
  lemma QuotientParity(x: nat, d: nat)
    requires 0 < d && x < 2 * d
    ensures (x / d) % 2 == 1 <==> x >= d
  {
    if x >= d {
      DivModUnique(x, d, 1, x - d);
    } else {
      DivModUnique(x, d, 0, x);
    }
  }

  /** What the source reports about an entry. */
  datatype PageState = Present | NotPresent | NotPresentSwapped

  /** The diagnostics printed for an entry: present pages are silent, other
      pages are reported as not present, and also as swapped when bit 62 is set. */
  function Diagnose(entry: u64): (s: PageState)
    ensures s == Present <==> entry >= 0x8000_0000_0000_0000
    ensures s == NotPresentSwapped <==> 0x4000_0000_0000_0000 <= entry < 0x8000_0000_0000_0000
  {
    FlagBits(entry);
    if GetBit(entry, PRESENT_BIT) != 0 then Present
    else if GetBit(entry, SWAPPED_BIT) != 0 then NotPresentSwapped
    else NotPresent
  }

  /** The page frame number of an entry: its bits 0-54 when the page is
      present, and 0 otherwise. */
  function DecodePagemapEntry(entry: u64): (pfn: u64)
    ensures entry >= 0x8000_0000_0000_0000 ==> pfn == entry % 0x80_0000_0000_0000
    ensures entry < 0x8000_0000_0000_0000 ==> pfn == 0
  {
    FlagBits(entry);
    Pow2Values();
    AndLowMask(entry, 55);
    if GetBit(entry, PRESENT_BIT) != 0 then And(entry, FRAME_NUMBER_MASK) else 0
  }

  /** `get_page_frame_number_of_address`: the frame number of the page that
      holds `addr`; 0 for a page that is not present. */
  function GetPageFrameNumberOfAddress(c: Config, pagemap: Pagemap, addr: u64): (pfn: u64)
    ensures pfn < 0x80_0000_0000_0000
    ensures Diagnose(PagemapEntryOf(c, pagemap, addr)) != Present ==> pfn == 0
  {
    DecodePagemapEntry(PagemapEntryOf(c, pagemap, addr))
  }

  /** The frame number narrowed to an `unsigned int`, shifted up by the page
      shift, plus the distance from the page boundary, in `uint64_t`. */
  /**
   * Below 32 bits of page shift, an in-page distance and the narrowed frame
   * do not wrap around and split back into both. A frame with no low 32 bits
   * contributes nothing.
   */
  function ComposeAddress(frame: u64, distance: u64, pageShift: Shift): (r: u64)
    ensures pageShift <= 32 && distance < Pow2(pageShift) ==>
              r % Pow2(pageShift) == distance && ShiftRight(r, pageShift) == frame % 0x1_0000_0000
    ensures frame % 0x1_0000_0000 == 0 ==> r == distance
  {
    var narrowed: u32 := frame % 0x1_0000_0000;
    ComposeLaws(narrowed, distance, pageShift);
    Wrap(Wrap(ShiftLeft(narrowed, pageShift)) + distance)
  }

  lemma ComposeLaws(narrowed: nat, distance: u64, s: Shift)
    requires narrowed < 0x1_0000_0000
    ensures s <= 32 && distance < Pow2(s) ==>
              var r := Wrap(Wrap(ShiftLeft(narrowed, s)) + distance);
              r % Pow2(s) == distance && ShiftRight(r, s) == narrowed
    ensures narrowed == 0 ==> Wrap(Wrap(ShiftLeft(narrowed, s)) + distance) == distance
  {
    if s <= 32 && distance < Pow2(s) {
      ComposeSplits(narrowed, distance, s);
    }
    if narrowed == 0 {
      ShiftLeftZero(s);
    }
  }

  lemma ComposeSplits(narrowed: nat, distance: u64, s: Shift)
    requires narrowed < 0x1_0000_0000 && s <= 32 && distance < Pow2(s)
    ensures Wrap(Wrap(ShiftLeft(narrowed, s)) + distance) == ShiftLeft(narrowed, s) + distance
    ensures (ShiftLeft(narrowed, s) + distance) % Pow2(s) == distance
    ensures ShiftRight(ShiftLeft(narrowed, s) + distance, s) == narrowed
  {
    var high := ShiftLeft(narrowed, s);
    assert high + distance < WORD_LIMIT by {
      NoWrap(narrowed, distance, s);
    }
    assert Wrap(Wrap(high) + distance) == high + distance;
    ShiftLeftPlusLow(narrowed, distance, s);
  }

  /**
   * `get_physical_address`: the frame of the page holding `addr` combined
   * with the distance of `addr` from its page boundary. When the page size
   * is 2^pageShift and a 32-bit frame fits above the offset, the result keeps
   * the offset of `addr` within its page and carries the narrowed frame
   * number above it; a page that is not present yields just that offset.
   */
  function GetPhysicalAddress(c: Config, pagemap: Pagemap, pageSize: PageSize, addr: u64): (pa: u64)
    ensures pageSize == Pow2(c.pageShift) && c.pageShift <= 32 ==>
              && pa % pageSize == addr % pageSize
              && ShiftRight(pa, c.pageShift) == GetPageFrameNumberOfAddress(c, pagemap, addr) % 0x1_0000_0000
    ensures Diagnose(PagemapEntryOf(c, pagemap, addr)) != Present ==> pa == addr % pageSize
  {
    ComposeAddress(GetPageFrameNumberOfAddress(c, pagemap, addr), addr % pageSize, c.pageShift)
  }

  // ---------------------------------------------------------------------------
  // Properties

  /** Addresses on the same page read the same entry. */
  lemma SamePageSameEntry(c: Config, pagemap: Pagemap, a: u64, b: u64)
    requires a / Pow2(c.pageShift) == b / Pow2(c.pageShift)
    ensures PagemapEntryOf(c, pagemap, a) == PagemapEntryOf(c, pagemap, b)
    ensures GetPageFrameNumberOfAddress(c, pagemap, a) == GetPageFrameNumberOfAddress(c, pagemap, b)
  {
    ShiftRightIsDiv(a, c.pageShift);
    ShiftRightIsDiv(b, c.pageShift);
  }

  lemma OffsetsApart(p: nat, q: nat, len: nat)
    requires p < q && q * len < WORD_LIMIT
    ensures Wrap(q * len) == q * len
    ensures Wrap(p * len) + len <= Wrap(q * len)
  {
    assert q * len == p * len + (q - p) * len;
    if len > 0 {
      MulAtLeast(q - p, len);
    }
  }

  /**
   * While the offsets do not wrap around, the entry of a page sits at page
   * number * entry length, and the entries of two different pages do not
   * overlap.
   */
  lemma PagemapEntriesDisjoint(c: Config, a: u64, b: u64)
    requires a / Pow2(c.pageShift) < b / Pow2(c.pageShift)
    requires (b / Pow2(c.pageShift)) * c.pagemapLength < WORD_LIMIT
    ensures PagemapOffset(c, b) == (b / Pow2(c.pageShift)) * c.pagemapLength
    ensures PagemapOffset(c, a) + c.pagemapLength <= PagemapOffset(c, b)
  {
    ShiftRightIsDiv(a, c.pageShift);
    ShiftRightIsDiv(b, c.pageShift);
    OffsetsApart(ShiftRight(a, c.pageShift), ShiftRight(b, c.pageShift), c.pagemapLength);
  }

  lemma NoWrap(narrowed: nat, distance: nat, s: nat)
    requires narrowed < 0x1_0000_0000 && s <= 32 && distance < Pow2(s)
    ensures ShiftLeft(narrowed, s) + distance < WORD_LIMIT
  {
    Pow2Values();
    ShiftLeftBound(narrowed, 32, s);
    Pow2Mono(32 + s, 64);
  }

  /**
   * The frame number passes through an `unsigned int`: frames that agree
   * in their low 32 bits give the same physical address.
   */
  lemma PhysicalAddressSeesLow32FrameBits(c: Config, m1: Pagemap, m2: Pagemap, pageSize: PageSize, addr: u64)
    requires GetPageFrameNumberOfAddress(c, m1, addr) % 0x1_0000_0000
          == GetPageFrameNumberOfAddress(c, m2, addr) % 0x1_0000_0000
    ensures GetPhysicalAddress(c, m1, pageSize, addr) == GetPhysicalAddress(c, m2, pageSize, addr)
  {
    ComposeSeesNarrowedFrame(GetPageFrameNumberOfAddress(c, m1, addr), GetPageFrameNumberOfAddress(c, m2, addr),
                             addr % pageSize, c.pageShift);
  }

  lemma ComposeSeesNarrowedFrame(f1: u64, f2: u64, distance: u64, s: Shift)
    requires f1 % 0x1_0000_0000 == f2 % 0x1_0000_0000
    ensures ComposeAddress(f1, distance, s) == ComposeAddress(f2, distance, s)
  {
  }

  /**
   * The set index of the physical address equals that of the virtual
   * address whenever the level's mask lies inside the page offset.
   */
  lemma PhysicalSetIndexMatchesVirtual(c: Config, pagemap: Pagemap, pageSize: PageSize, addr: u64, level: int)
    requires pageSize == Pow2(c.pageShift) && c.pageShift <= 32
    requires L1 <= level <= LLC
    requires SetIndexMask(c, level).value < pageSize
    ensures GetCacheSetIndex(c, GetPhysicalAddress(c, pagemap, pageSize, addr), level)
         == GetCacheSetIndex(c, addr, level)
  {
    SetIndexKeptByTranslation(c, GetPhysicalAddress(c, pagemap, pageSize, addr), addr, level, c.pageShift);
  }
}

# Cache-geometry utilities of dont-mesh-around (ARM), modelled in Dafny

This project models the decision logic of `util/util.cpp`. These are the
helpers the experiments use to place memory on chosen cache sets and
last-level-cache (LLC) slices:

- **Set index** (`get_cache_set_index`): the set an address falls into at
  level 1 (L1), 2 (L2) or 3 (LLC, per slice). It is the address under the
  level's mask, shifted down by the line-size exponent. Any other level is a
  fatal error.
- **Physical address** (`get_page_frame_number_of_address`,
  `get_physical_address`): the pagemap entry of the page is located at page
  number × entry length. Bit 63 says the page is present and bits 0-54 hold
  the frame number. The frame number is narrowed to an `unsigned int`,
  shifted up by the page shift, and the page offset is added.
- **Slice location** (`find_closest_slice`, `get_cache_slice_index`): a race
  between a probe thread on each even core and a load thread on its odd
  neighbour. The probe core with the smallest time below a sentinel of
  10^9 cycles is the slice; ties go to the lower core. The answer is
  `(uint64_t)-1` when no probe beats the sentinel. Two runs must agree
  before a slice is returned.
- **Colliding-address search** (`find_next_address_on_slice_and_set`): step
  one cache line at a time from a virtual address. Stop at the first
  address on the desired LLC set whose located slice is the desired one.
  The set is compared first; the slice is located only when the set matches.
- **Address list** (`struct Node`, `append_string_to_linked_list`): a
  singly linked list of addresses with an append at the tail.

The machine constants (the masks, `CACHE_BLOCK_SIZE_LOG`,
`CACHE_BLOCK_SIZE`, `PAGE_SHIFT`, `PAGEMAP_LENGTH`, `NUM_CORES`) come from
a header that is not part of this model. They are one `Config` parameter.
The timings of each race and the contents of the pagemap file are
parameters too.

Modules, one file each:

- `word.dfy` (`Word`): `uint64_t` words as bounded integers, with `&`, `<<`,
  `>>` and wrap-around defined arithmetically, and their laws.
- `wrappers.dfy` (`Wrappers`): `Option` and `Result`.
- `machine_const.dfy` (`MachineConst`): the configuration record.
- `cache_set.dfy` (`CacheSet`): the set index.
- `physical_address.dfy` (`PhysicalAddress`): pagemap decoding and
  physical-address composition.
- `slice_locator.dfy` (`SliceLocator`): the race loop and the agreement
  retry, as methods proved against specification functions.
- `address_finder.dfy` (`AddressFinder`): the search loop, as a method
  proved against a specification function, calling a slice-location
  service that records which addresses it was asked about.
- `address_list.dfy` (`AddressList`): the `Node` class and the in-place
  append.

## Model

| member | source | states |
|---|---|---|
| CacheSet.GetCacheSetIndex | util/util.cpp:96-114 | An index exists exactly for levels 1-3. It never exceeds the level's mask shifted down by the line-size exponent. |
| CacheSet.SetIndexDependsOnlyOnMaskedBits | util/util.cpp:100-113 | Two addresses that agree under the level's mask get the same set index. |
| CacheSet.SetIndexKeptByTranslation | util/util.cpp:75-95 | When a level's mask lies below bit p, addresses that agree in their low p bits get the same index. So a virtual address gives the set of its physical address, as the comment argues for L1 on 4 KB pages and for L2/LLC on 2 MB pages. |
| CacheSet.SetIndexNotKeptAbovePageOffset | util/util.cpp:87-91 | When a contiguous mask reaches above bit p, 2^p and 0 agree in their low p bits yet get different indices. There the virtual address does not give the physical set. |
| CacheSet.SetIndexOfContiguousMask | util/util.cpp:96-114 | For a mask of k consecutive bits at the line-size exponent, the index is the line number modulo 2^k, hence below 2^k. |
| PhysicalAddress.GetBit | util/util.cpp:137 | `GET_BIT(X, Y)` is bit Y of X: (X / 2^Y) mod 2. |
| PhysicalAddress.PagemapOffset | util/util.cpp:149 | The seek offset is the page number (the address divided by 2^PAGE_SHIFT) times the entry length, modulo 2^64. |
| PhysicalAddress.SamePageSameEntry | util/util.cpp:148-149 | Addresses on the same page read the same entry and get the same frame number. |
| PhysicalAddress.PagemapEntriesDisjoint | util/util.cpp:148-149 | Without wrap-around, the seek offset is page number × entry length, and the entries of different pages do not overlap. |
| PhysicalAddress.FlagBits | util/util.cpp:165-169 | Bit 63 is set exactly when the entry is at least 2^63. Below that, bit 62 is set exactly when the entry is at least 2^62. |
| PhysicalAddress.Diagnose | util/util.cpp:164-172 | An entry is reported present exactly when bit 63 is set. It is reported not present and swapped exactly when bit 63 is clear and bit 62 is set. |
| PhysicalAddress.DecodePagemapEntry | util/util.cpp:164-174 | A present entry yields its bits 0-54 (the entry mod 2^55); any other entry yields 0. |
| PhysicalAddress.GetPageFrameNumberOfAddress | util/util.cpp:138-175 | The frame number is below 2^55, and it is 0 for a page that is not present. |
| PhysicalAddress.ComposeAddress | util/util.cpp:183-189 | With a page shift of at most 32 and an in-page distance, the sum does not wrap. It splits back into the distance (the low bits) and the 32-bit narrowed frame (above the shift). A frame whose low 32 bits are 0 contributes nothing. |
| PhysicalAddress.GetPhysicalAddress | util/util.cpp:180-192 | When the page size is 2^PAGE_SHIFT (at most 2^32), the physical address keeps the in-page offset of the virtual address and carries the narrowed frame number above it. For a page that is not present it is just the offset within the page. |
| PhysicalAddress.PhysicalAddressSeesLow32FrameBits | util/util.cpp:183 | The frame number passes through an `unsigned int`: frames that agree in their low 32 bits give the same physical address. |
| PhysicalAddress.PhysicalSetIndexMatchesVirtual | util/util.cpp:75-95 | When a level's mask lies inside the page offset, the physical address has the same set index as the virtual one. |
| SliceLocator.Sweep | util/util.cpp:272-299 | The rest of the race loop returns `(uint64_t)-1` or a probe core (even, below NUM_CORES). |
| SliceLocator.ClosestSlice | util/util.cpp:267-302 | The slice one run designates is `(uint64_t)-1` or a probe core (even, below NUM_CORES). |
| SliceLocator.SweepIsClosestSlice | util/util.cpp:272-299 | Started from a state that summarises the probe cores already seen, the loop ends on the first fastest probe core below the sentinel, or `-1` when none is below. |
| SliceLocator.ClosestSliceIsFirstFastest | util/util.cpp:269-301 | A run designates a probe core with time below 10^9 that is no slower than any probe core and strictly faster than every lower one. With no time below 10^9 it designates `-1`. |
| SliceLocator.ClosestSliceUnique | util/util.cpp:269-301 | At most one value fits that description, so the description fixes the result. |
| SliceLocator.ClearWinner | util/util.cpp:295-298 | A probe core below the sentinel and strictly faster than every other probe core is the result. |
| SliceLocator.NoProbeCpuNoSlice | util/util.cpp:269-272 | With NUM_CORES ≤ 0 the result is `(uint64_t)-1`. |
| SliceLocator.FindClosestSlice | util/util.cpp:267-302 | The loop returns the value of the specification, and that value satisfies the first-fastest description. |
| SliceLocator.AgreedSlice | util/util.cpp:304-314 | A located slice is `-1` or a probe core. |
| SliceLocator.AgreedSliceIsFirstAgreement | util/util.cpp:306-312 | A located slice is the common value of the first retry whose two runs agree. Every earlier retry disagreed. |
| SliceLocator.FirstAgreementIsAgreedSlice | util/util.cpp:306-312 | The first retry whose two runs agree determines the located slice. |
| SliceLocator.NoAgreementNoSlice | util/util.cpp:306-313 | No slice is located exactly when no retry's two runs agree. |
| SliceLocator.StableWinnerIsLocated | util/util.cpp:304-314 | When every run has the same clear winner, that core is located. |
| SliceLocator.GetCacheSliceIndex | util/util.cpp:304-314 | The retry loop returns the value of the specification. |
| AddressFinder.Offset | util/util.cpp:118-128 | The offset of candidate k: `offset` starts at 0 and grows by CACHE_BLOCK_SIZE per step in `uint64_t`. Its closed form is stated by `OffsetIsBlockMultiple`. |
| AddressFinder.Candidate | util/util.cpp:125-126 | Candidate k is `(uint64_t)va + offset`. Its closed form is stated by `CandidateIsBlocksPastVa`. |
| AddressFinder.CandidateIsBlocksPastVa | util/util.cpp:125-128 | Candidate k lies k × CACHE_BLOCK_SIZE bytes past `va`, modulo 2^64. |
| AddressFinder.Examine | util/util.cpp:125-128 | One evaluation of the loop condition: compare the set, then locate the slice only on the desired set. What it decides is stated by `ExamineCases`. |
| AddressFinder.Scan | util/util.cpp:116-131 | The loop over the candidates up to the radius. Its outcomes are stated by `ScanFoundFirst`, `ScanExhausted`, `ScanUndetermined` and `ScanFindsQualifying`. |
| AddressFinder.ExamineCases | util/util.cpp:125-126 | The loop moves on from a candidate exactly when it is off the desired set or located on another slice. It stops with that candidate's offset exactly when the candidate qualifies. Any other stop reports that candidate's undetermined slice. |
| AddressFinder.OffsetIsBlockMultiple | util/util.cpp:118-128 | Candidate k sits k × CACHE_BLOCK_SIZE bytes on, modulo 2^64. |
| AddressFinder.ScanFoundFirst | util/util.cpp:125-130 | A found offset is that of a qualifying candidate. Every earlier candidate was passed over, so no smaller offset qualifies. |
| AddressFinder.ScanExhausted | util/util.cpp:125-129 | Reporting NoCollisionFound means every candidate in the radius was passed over. |
| AddressFinder.ScanUndetermined | util/util.cpp:125-126 | An undetermined slice is reported for the first candidate on the desired set whose runs never agree. |
| AddressFinder.ScanFindsQualifying | util/util.cpp:125-130 | A qualifying candidate within the radius, preceded only by passed-over ones, is found. |
| AddressFinder.UnreachableSliceNeverFound | util/util.cpp:125-126 | A desired slice that is odd or not below NUM_CORES is never found, because located slices are probe cores. |
| AddressFinder.SliceOracle.constructor | util/util.cpp:126 | A fresh slice-location service draws on the given runs and has been asked nothing yet. |
| AddressFinder.SliceOracle.Locate | util/util.cpp:126 | Locating a slice returns the value the agreement retry specifies for the runs of that address, and records the address as queried. |
| AddressFinder.ExamineCandidate | util/util.cpp:125-128 | One evaluation of the loop condition agrees with the specification. The slice service is queried for the candidate exactly when the candidate lies on the desired set, and for nothing else. |
| AddressFinder.SearchStep | util/util.cpp:125-128 | One turn of the search loop agrees with the specification. It extends the record of queries only by addresses on the desired set. |
| AddressFinder.FindNextAddressOnSliceAndSet | util/util.cpp:116-131 | The search loop returns the value of the specification over the first `radius` candidates. It only appends to the service's record of queries, and every address it asked about lies on the desired set. |
| AddressList.Node.constructor | util/util.cpp:58-60 | A new node holds the address and has no successor. |
| AddressList.NodesDistinct | util/util.h:46-49 | A list linked through `next` up to a null tail never visits a node twice. |
| AddressList.OnlyTailEndsList | util/util.cpp:66-67 | The walk stops at a node exactly when that node is the tail, because only the tail links to null. |
| AddressList.ListDetermined | util/util.h:46-49 | The links from the head determine the whole sequence of nodes. |
| AddressList.AppendToLinkedList | util/util.cpp:53-73 | Afterwards the list is the old list with one fresh node for `addr` at the tail. An empty list's head becomes that node, and a non-empty head stays. Only the old tail's fields may change, and the addresses read from the list are the old ones plus `addr`. |

## Left out

- The race itself is not modelled: the probe and load threads, their pinning to cores, the `keep_running` and `load_thread_started` flags, the mutex/condition-variable handshake and the cycle-counter reads. Each run is an input giving the elapsed cycles per probe core, because the race is concurrency and timing noise.
- The cycle-counter helpers, `wait_cycles`, `maccess`, `pin_cpu` and `flush_l1i` are not modelled. They are inline assembly or operating-system calls with no decision logic.
- The pagemap file I/O (`fopen`, `fseek`, `fread`, `fclose`) and the `exit` taken when opening or seeking fails are not modelled. The file is a map from offsets to entries, and an offset with no entry reads as 0, as the unchecked short read leaves it.
- `printf`/`perror` output is not modelled. The page-present/swapped report is kept as `PhysicalAddress.Diagnose`; the mismatch message of the slice retry is left out.
- The headers holding the masks, `CACHE_BLOCK_SIZE_LOG`, `CACHE_BLOCK_SIZE`, `PAGE_SHIFT`, `PAGEMAP_LENGTH` and `NUM_CORES` are not part of this model. These constants are fields of `Config`, so every property holds for any values of them.
- Words are unbounded integers in the range of their C type. Wrap-around of `uint64_t` is written out where the source can overflow: the seek offset, the candidate offset and address, and the physical-address sum. The narrowing of the frame number to `unsigned int` is written out too.
- A page that is not present yields frame number 0, and its physical address is the in-page offset. The code returns 0 rather than failing; the model follows the code.
- `malloc` failing is not modelled: `new` always yields a node.
- AddressFinder.FindNextAddressOnSliceAndSet: the source scans without bound. The model scans at most `radius` candidates and reports NoCollisionFound beyond them.
- SliceLocator.GetCacheSliceIndex: the source retries forever until two runs agree. The model draws the runs from a finite sequence and returns None when it runs out without agreement.
- SliceLocator.AgreedSlice: the same retry budget as `GetCacheSliceIndex`; None stands for a budget exhausted without agreement.
- AddressFinder.SliceOracle.Locate: each address comes with one fixed list of runs (`Measurements`). A candidate address met twice therefore replays the same runs, where the source races again. This happens when CACHE_BLOCK_SIZE is 0 or the offset wraps around 2^64; `Config` allows both.
- AddressList.AppendToLinkedList: the source writes the new head through `struct Node **head`. The method returns the new value of `*head` to its caller instead.

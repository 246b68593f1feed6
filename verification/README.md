# Set-associative cache simulator: a Dafny model

This project models the core of a trace-driven cache simulator, `Cache.cpp`.
The simulator is given three things: a cache geometry (associativity, line size and total size in bytes), and a trace of read and write records, each with a hexadecimal address.
It replays the trace through a set-associative cache with write-back and write-allocate, and records a hit or a miss for each read and write.

The model has five modules:

- `Bits` (`bits.dfy`): integer stand-ins for `pow(2, i)` and `(size_t)std::log2(n)`, and the division facts the decoder uses.
- `BinString` (`bin_string.dfy`): `binStringToInt` and `std::string::substr`.
- `CacheLine` (`cache_line.dfy`): the `Access` record. It is both a trace entry and, copied by value, a cache slot.
- `AddressDecoder` (`address_decoder.dfy`): `Access::setAddress`, `parseHex`, the geometry the constructor derives (`calcNumSets` and the three bit widths), and `calcOffset`, `calcIndex` and `calcTag`.
   - These are pure functions.
   - Their contracts relate each field to the numeric value of the address.
- `CacheSet` (`cache_set.dfy`): a value-level specification of one set. It covers aging, lookup, the first free slot, the oldest slot, and the effect of one read or write (`AccessSet`). It also covers a run of records on one set (`RunSet`) and the invariants such runs keep.
- `CacheModel` (`cache_model.dfy`): the whole cache.
   - `Step` and `Replay` specify the replay loop of `operator()` as a fold over the trace.
   - The class `Cache` holds `cache_`, `trace_`, `hitMiss_`, `hits_` and `accesses_` as fields. Its methods (`AddAge`, `IsFull`, `GetOldest`, `Insert`, `Read`, `Write` and the replay loop) update them in place.
   - Each method is proved against the specification functions.

The model keeps three behaviours of the source exactly as written:

- **The tag overlaps the index field.** `indexBits_ = log2(cacheSize)` is the log of the whole cache size, not of the number of sets, and `tagBits_ = 32 - indexBits_ + log2(setSize)`. The tag therefore takes in the leading log2(setSize) + offsetBits bits of the unreduced index field, the indexBits bits that `calcIndex` cuts before reducing them modulo the number of sets. It never reaches the offset. With power-of-two sizes the reduced index is exactly the bits between the offset and the tag.
- **A hit does not reset the matched line's age.** Every valid line in the set gets one older on every access to that set. The "oldest" line is therefore the one inserted first, so replacement is FIFO, not LRU.
- **A miss stores a copy of the trace record.** The copy is valid, clean and of age 0, and this holds for a write miss too.

The derived facts are proved:

- A valid line's age equals the number of accesses to its set since the miss that brought it in (`CacheSet.AgeSinceInsertion`).
- The ages of the valid lines of a set are pairwise distinct, and so are their tags (`CacheSet.AccessSetKeepsConsistent`, `CacheModel.ReplayKeepsConsistent`).

Two consequences worth stating plainly; the model follows the code:

- The file header (`Cache.cpp:9`) names the replacement algorithm LRU. The code evicts in insertion order, as explained above.
- A write miss stores the trace record, which is clean, so the line it brings in is clean. It becomes dirty only on a later write hit (`Cache.cpp:487-500`).

## Model

| member | source | states |
|---|---|---|
| Bits.Pow2 | Cache.cpp:294 | The integer stand-in for `pow(2, i)`: at least 1. |
| Bits.FloorLog2 | Cache.cpp:144-146 | The integer stand-in for `(size_t)std::log2(n)` is the exponent k with 2^k <= n < 2^(k+1). |
| Bits.FloorLog2OfPow2 | Cache.cpp:144-146 | On a power of two it is exact: log2(2^k) == k. |
| BinString.BinStringToInt | Cache.cpp:283-298 | Reading a string of n characters as binary gives a value below 2^n. |
| BinString.BinStringToIntConcat | Cache.cpp:283-298 | value(a + b) == value(a) * 2^\|b\| + value(b): each character is weighted by its distance from the end. |
| BinString.BinField | Cache.cpp:248-252 | The characters [pos, pos + len) of a bit string read as (value / 2^(bits after them)) mod 2^len. |
| BinString.BinSuffix | Cache.cpp:270-273 | The last len characters hold the value mod 2^len. |
| BinString.BinPrefix | Cache.cpp:261-263 | The first len characters hold the value shifted right by the remaining bits. |
| BinString.Substr | Cache.cpp:250 | `substr(pos, count)` gives min(count, \|s\| - pos) characters of s, starting at pos. |
| CacheLine.Fresh | Cache.cpp:559-562 | The state `Access(op)` gives a trace record: valid, clean, age 0. `DecodeEntry` builds records in this state. |
| AddressDecoder.PadAddress | Cache.cpp:567-582 | The padded address has exactly 8 characters. For a hex input it is a hex address with the same numeric value. |
| AddressDecoder.LeadingZerosKeepValue | Cache.cpp:574-579 | Prepending '0' characters does not change the hex value. |
| AddressDecoder.DigitBits | Cache.cpp:305-375 | Each lowercase hex digit becomes 4 characters of '0'/'1'. Any other character contributes nothing. |
| AddressDecoder.DigitBitsValue | Cache.cpp:311-374 | The 4-character group of a hex digit, read as binary, is that digit's value. |
| AddressDecoder.ParseHex | Cache.cpp:301-378 | The expansion is a bit string of at most 4\|s\| characters, and exactly 4\|s\| for a hex string. |
| AddressDecoder.ParseHexDigitAt | Cache.cpp:301-378 | Digit i of a hex string occupies characters [4i, 4i+4) of its expansion. |
| AddressDecoder.ParseHexValue | Cache.cpp:301-378 | Reading the expansion of a hex string as binary gives back its hex value. |
| AddressDecoder.GeometryBlocks | Cache.cpp:140-141 | When setSize * lineSize divides cacheSize: numSets * setSize * lineSize == cacheSize, and numBlocks == cacheSize / lineSize. |
| AddressDecoder.SetSizeFits | Cache.cpp:144-146 | log2(setSize) <= indexBits in any usable geometry. |
| AddressDecoder.Geometry.NumSets | Cache.cpp:277-280 | `calcNumSets` is the number of whole sets that fit: n * (setSize * lineSize) <= cacheSize < (n + 1) * (setSize * lineSize). |
| AddressDecoder.Geometry.OffsetBits | Cache.cpp:145 | offsetBits is log2(lineSize) rounded down: 2^b <= lineSize < 2^(b+1). |
| AddressDecoder.Geometry.IndexBits | Cache.cpp:144 | indexBits is log2 of the whole cache size, rounded down: 2^b <= cacheSize < 2^(b+1). |
| AddressDecoder.Geometry.TagBits | Cache.cpp:146 | tagBits is 32 - indexBits + log2(setSize) taken modulo 2^64, as `size_t` arithmetic does; it equals that sum whenever the sum lies in [0, 2^64). |
| AddressDecoder.SetBytesFit | Cache.cpp:140-146 | One set's worth of bytes fits in the cache, so log2(setSize) + offsetBits <= indexBits. |
| AddressDecoder.TagWidth | Cache.cpp:146 | tagBits == 32 - indexBits + log2(setSize) <= 32, with no `size_t` wrap-around. The tag is log2(setSize) + offsetBits bits wider than the 32 - offsetBits - indexBits bits above the index field, so it takes in that many leading bits of the index field. tagBits <= 32 - offsetBits: it never reaches the offset. |
| AddressDecoder.IndexField | Cache.cpp:248-252 | Before the reduction, the index is bits [32 - ob - ib, 32 - ob) of the address: (value / 2^ob) mod 2^ib. |
| AddressDecoder.CalcOffset | Cache.cpp:266-274 | offset < 2^offsetBits. For an 8-digit address it is the value mod 2^offsetBits. |
| AddressDecoder.CalcIndex | Cache.cpp:244-255 | index < numSets. For an 8-digit address it is ((value / 2^ob) mod 2^ib) mod numSets. |
| AddressDecoder.CalcTag | Cache.cpp:257-264 | For an 8-digit address: the top tagBits bits (value / 2^(32 - tagBits)), or the whole value when tagBits > 32. |
| AddressDecoder.FieldsReassemble | Cache.cpp:244-274 | The bits above the index, the unreduced index and the offset put back together give the whole address value. The decoded tag shifted right by log2(setSize) + offsetBits is exactly the part above the index field. |
| AddressDecoder.TagAboveIndex | Cache.cpp:257-264 | The decoded tag shifted right by log2(setSize) + offsetBits is the address shifted right past the index field. |
| AddressDecoder.PowerOfTwoGeometry | Cache.cpp:140-146 | With setSize = 2^a, lineSize = 2^b, cacheSize = 2^c: the log2 values are a, b and c, a + b <= c, numSets = 2^(c-a-b) and tagBits = 32 - (c - a). |
| AddressDecoder.IndexOfPowerOfTwo | Cache.cpp:244-255 | With power-of-two sizes, the index is the c - a - b bits just above the offset. |
| AddressDecoder.PowerOfTwoFields | Cache.cpp:244-274 | With power-of-two sizes the three fields are adjacent bit ranges: offset = value mod 2^b, index = (value / 2^b) mod 2^(c-a-b), tag = value / 2^(c - a), and 32 - tagBits = b + (c - a - b). |
| AddressDecoder.DecodeEntry | Cache.cpp:193-208 | A decoded trace record is fresh (valid, clean, age 0), has the given operation and the padded address, and has index < numSets. For hex input, its offset, index and tag are the arithmetic fields of the address value. |
| CacheSet.AgeLine | Cache.cpp:101 | `Access::addAge` makes a valid slot one access older; `Cache::addAge` leaves an invalid slot as it is. |
| CacheSet.Aged | Cache.cpp:396-405 | Each valid slot is exactly one older. Invalid slots are unchanged. Nothing else about any slot changes. |
| CacheSet.AgedKeepsLookups | Cache.cpp:396-405 | Aging changes neither which slot holds a tag nor whether the set is full, nor its first free slot. |
| CacheSet.FindLine | Cache.cpp:440-448 | None exactly when no valid slot holds the tag. Otherwise it is the lowest such slot. |
| CacheSet.Full | Cache.cpp:407-418 | `isFull`: every slot of the set is valid. `Cache.IsFull` is proved equal to it, and aging keeps it (`AgedKeepsLookups`). |
| CacheSet.FirstFree | Cache.cpp:407-431 | None exactly when every slot is valid (`isFull`). Otherwise it is the lowest invalid slot. |
| CacheSet.Inserted | Cache.cpp:420-431 | Succeeds exactly when the set is not full. It then writes the record into one invalid slot, the lowest, and leaves the rest alone. On failure the set is unchanged. |
| CacheSet.MaxValidAge | Cache.cpp:380-395 | The largest age of a valid slot: an upper bound that some valid slot attains, or 0. |
| CacheSet.FirstValidOfAge | Cache.cpp:380-395 | The lowest valid slot with the given age. |
| CacheSet.OldestSlot | Cache.cpp:380-395 | When some valid slot has a positive age, this is the lowest valid slot of maximal age. |
| CacheSet.OldestIsUnique | Cache.cpp:380-395 | At most one slot is the oldest in that sense. |
| CacheSet.Placement | Cache.cpp:450-463 | The slot a miss fills: None exactly on a hit, and a slot of the set otherwise. |
| CacheSet.HitEffect | Cache.cpp:438-448 | On a hit, the matched slot is aged. Only a write also sets its dirty bit. Its tag and validity stay. |
| CacheSet.HitKeepsOthers | Cache.cpp:438-448 | On a hit, every other slot is only aged. |
| CacheSet.HitSlotAfter | Cache.cpp:476-484 | On a write hit the matched line is dirty afterwards. On a read hit its dirty bit is unchanged. |
| CacheSet.MissEffect | Cache.cpp:450-463 | On a miss, exactly one slot becomes the record (valid, age 0, clean if the record is clean), and every other slot is only aged. With a free slot it is the first free slot; in a full set it is the oldest slot after aging. |
| CacheSet.AccessSet | Cache.cpp:433-505 | One read or write on a set keeps its size; what it does to each slot is stated by `HitEffect`, `MissEffect` and `SlotValueAfterAccess`. |
| CacheSet.SlotValueAfterAccess | Cache.cpp:433-505 | After one read or write, slot j holds the record made valid if the access placed it there. Otherwise it holds its old content aged, and also dirtied if it is the slot a write hit. |
| CacheSet.SlotAfterAccess | Cache.cpp:433-505 | A slot the access does not place the record into keeps its tag and validity and ages as `addAge` ages it. |
| CacheSet.HitSlot | Cache.cpp:440-448 | The first slot i of the aged set that matches the tag is the hit. After a read the set is the aged set; after a write it is the aged set with slot i dirtied. |
| CacheSet.MissScan | Cache.cpp:440-450 | If no slot of the aged set matches, the access is a miss. |
| CacheSet.MissSlot | Cache.cpp:455-463 | Filling the oldest slot of a full aged set, or else its first free slot, is exactly what the access does on a miss. |
| CacheSet.AccessSetKeepsConsistent | Cache.cpp:433-505 | If the valid lines of a set have pairwise distinct ages and tags, they still do after a read or write of a fresh record. |
| CacheSet.AgeCountsAccesses | Cache.cpp:433-505 | After a run of records, a valid slot either was last filled by record k and is \|xs\| - 1 - k old with that record's tag, or was never refilled and is its old age plus \|xs\|. |
| CacheSet.AgeSinceInsertion | Cache.cpp:438-463 | Starting from an empty set, a valid line was placed by some miss, and its age is the number of accesses since that miss. |
| CacheSet.FillNext | Cache.cpp:420-431 | One more miss of a new tag on a partly filled set takes the next free slot and ages the earlier lines. |
| CacheSet.FillsInOrder | Cache.cpp:420-431 | Records with distinct tags fill an empty set in slot order. The i-th of p is \|p\| - 1 - i accesses old. |
| CacheSet.EvictFirst | Cache.cpp:455-458 | A miss on a set full in insertion order replaces slot 0, the first line inserted. |
| CacheSet.EvictsFirstInserted | Cache.cpp:455-458 | n + 1 distinct records on an empty n-way set: the last one evicts the first, and the others stay with their ages. |
| CacheSet.RunSetAppend | Cache.cpp:212-240 | A run of records on one set followed by one more record is one more access after that run. |
| CacheSet.TwoFilled | Cache.cpp:420-431 | Two fresh records on an empty 2-way set: the first is in slot 0 with age 1, the second in slot 1 with age 0. |
| CacheSet.ReadHitAgesBoth | Cache.cpp:438-448 | A read hit on a 2-way set ages both lines, the matched one included. |
| CacheSet.MissEvictsOlder | Cache.cpp:455-458 | A miss on a full 2-way set replaces the older line and ages the other. |
| CacheSet.HitDoesNotProtectLine | Cache.cpp:438-458 | Reading a, then b, then a (a hit), then c on a 2-way set evicts a, not b: the hit does not make a younger. |
| CacheModel.Step | Cache.cpp:214-239 | One record of the replay loop: a read or write appends whether the tag was in its set and replaces that set by `AccessSet`; every other set stays. Any other record changes nothing. |
| CacheModel.HitsAtMostAccesses | Cache.cpp:216-239 | The number of hits is at most the number of reads and writes. |
| CacheModel.Replay | Cache.cpp:212-240 | Replaying keeps the number of sets and each set's size. It adds exactly one outcome per read or write record, and keeps the earlier outcomes. |
| CacheModel.ReplayStep | Cache.cpp:212-240 | Replaying the first i + 1 records is replaying the first i and then one step. |
| CacheModel.ReplayIsPerSet | Cache.cpp:212-240 | Sets do not interact: set t after a replay is set t run through the reads and writes that name t, in trace order. |
| CacheModel.ReplayKeepsConsistent | Cache.cpp:212-240 | Replaying fresh records keeps the ages and the tags of the valid lines of every set pairwise distinct. |
| CacheModel.ReadHitStore | Cache.cpp:438-448 | A read that finds its tag in the aged set is a hit, and the aged set is the set after the access. |
| CacheModel.WriteHitStore | Cache.cpp:474-484 | A write that finds its tag at slot i of the aged set is a hit. Dirtying slot i gives the set after the access. |
| CacheModel.MissStore | Cache.cpp:450-463 | A read or write whose tag is in no slot of the aged set is a miss. Storing the record in the oldest or first free slot gives the set after the access. |
| CacheModel.EmptyCache | Cache.cpp:142-152 | The cache the constructor builds: numSets sets, each of setSize invalid slots. |
| CacheModel.Cache.constructor | Cache.cpp:134-155 | Sets the geometry, numSets_, numBlocks_ and the three bit widths. The cache is numSets empty sets of setSize slots. The trace and counters are empty. |
| CacheModel.Cache.AddAge | Cache.cpp:396-405 | Set t becomes its aged form. Every other set, the trace and the counters are unchanged. |
| CacheModel.Cache.IsFull | Cache.cpp:407-418 | True exactly when every slot of set t is valid. |
| CacheModel.Cache.GetOldest | Cache.cpp:380-395 | When some valid slot of set t has a positive age, returns the lowest valid slot of maximal age. |
| CacheModel.Cache.Insert | Cache.cpp:420-431 | Returns true exactly when set t has an invalid slot. The record then goes into the lowest invalid slot; otherwise the set is unchanged. |
| CacheModel.Cache.Miss | Cache.cpp:450-463 | Appends a miss to `hitMiss_` and writes the line into one slot of set t: the oldest if the set is full, the first free slot otherwise. |
| CacheModel.Cache.SetDirty | Cache.cpp:480 | Only the dirty bit of slot i of set t changes. |
| CacheModel.Cache.Lookup | Cache.cpp:440-448 | Returns the first slot of set t that is valid with the tag, or the set size if there is none. |
| CacheModel.Cache.Read | Cache.cpp:433-467 | Reports a hit exactly when set `index` held the tag in a valid slot. Set `index` becomes `AccessSet(old set, r, false)`. One flag is appended to `hitMiss_`, and nothing else changes. |
| CacheModel.Cache.Write | Cache.cpp:468-505 | As for `Read`, with `AccessSet(old set, w, true)`: a hit also dirties the matched line. |
| CacheModel.Cache.ReplayRecord | Cache.cpp:214-239 | One iteration of the replay loop is one `Step`. `hits_` goes up on a hit. `accesses_` goes up on every read or write. Other records change nothing. |
| CacheModel.Cache.ReplayTrace | Cache.cpp:212-240 | The loop leaves the cache and `hitMiss_` as `Replay` of the whole trace. It adds to `hits_` the hits it records, and to `accesses_` the outcomes it records. |
| CacheModel.Cache.Simulate | Cache.cpp:208-240 | Appends the records to the trace and replays the whole trace: the cache and `hitMiss_` become `Replay` of the trace, with one more flag per read or write. `hits_` grows by the hits among the new flags and `accesses_` by the number of new flags. If the counters matched `hitMiss_` before, then afterwards accesses_ == \|hitMiss_\|, hits_ is the number of hits, and hits_ <= accesses_. Distinct ages and tags per set are kept for fresh records. |

## Left out

- File input: the stream reads in the constructor (`Cache.cpp:136-138`, 154) and the trace reading and tokenizing in `operator()` (`Cache.cpp:162-192`) are not modelled. The configuration is given as a `Geometry` value, and the trace as a sequence of `Access` records (`DecodeEntry` builds one from an operation and an address string).
- The `refSize_` string is not modelled. It is stored but never used by the logic.
- `Display`, the hit and miss rates (floating point), and `main` are not modelled: console output and a program entry point.
- `pow(2, i)` and `std::log2` are floating-point calls. They are modelled as the integers `Pow2` and `FloorLog2`. For lengths up to 64, `pow(2, i)` is exact. `log2` is assumed to round to the floor, which is exact on powers of two.
- Overflow of `size_t` ages and counters is not modelled (they are unbounded here). `tagBits_` is written out with an explicit modulus 2^64. The products `s * l` in `calcNumSets` (`Cache.cpp:279`) and `numSets_ * setSize_` (`Cache.cpp:141`) could also wrap for sizes near 2^64; the model computes them unbounded.
- AddressDecoder.PadAddress: requires at most 8 characters. For a longer address, `8 - length` wraps around in `size_t` and the loop would run about 2^64 times.
- AddressDecoder.CalcOffset, AddressDecoder.CalcIndex, AddressDecoder.IndexField: each requires the substring start to lie within the expansion. When it does not, `substr` throws `std::out_of_range`, and the model does not follow that exception.
- AddressDecoder.DecodeEntry: requires the geometry to be `Decodable`: no zero sizes, at least one set, and offsetBits + indexBits <= 32. With zero sizes the source divides by zero (`calcNumSets`, `calcIndex`) or takes `log2(0)`.
- CacheModel.Cache.GetOldest: requires a valid slot with a positive age. Otherwise the source returns an uninitialised variable. The source only calls it on a full set just after aging, where every age is at least 1.
- CacheModel.Cache.Read, CacheModel.Cache.Write: take the record by value. The source's `setValid()` on the caller's trace entry is not modelled. It has no effect, because every trace entry is built valid.
- CacheModel.Cache.Simulate: only promises distinct ages and tags when the cache starts with distinct ages and tags and every trace record is fresh. That is the case for the constructor's cache and for decoded records.

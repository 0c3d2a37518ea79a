# Verified core of the PCSX2 support code in the PCEE2 libretro core

Dafny models of the pieces of the emulator whose correctness is not visible from reading one
function: two lock-free protocols and a lock-free ring, the EE data cache, the TLB side index and
the lookup that reads it, the request table of the downloader, the wildcard matcher, streaming MD5, the LRU cache, path and
UTF-8 handling, the 24-bit BMP format and the index bits of BC7 blocks.

`dafny verify dfyconfig.toml` checks everything.

| module | what is in it |
|---|---|
| `WorkSema`, `UserspaceSemaphore`, `SpscRing`, `HttpRequests` | state machines: every atomic operation (or, for the request table, every stretch under the lock) is one step, an execution is any interleaving, an inductive invariant gives the theorems about all executions |
| `DataCache`, `TlbIndex`, `LruCache`, `Md5Digest` | classes with the program's fields, whose methods are proved against a simpler model: memory of single bytes, a bag of entries, a recency list, the padded message |
| `TlbLookup` | what a row of the side index means in terms of the registers, and `CheckCache` |
| `Rfc1321` | MD5 as section 3 of RFC 1321 words it, with shifts, constants and register orders of its own |
| `Md5Transform` | the 64 steps of the block transform as they are written in the code, against `Rfc1321` |
| `Md5Suite` | known answers from section A.5 of RFC 1321, step by step |
| `Wildcard`, `Paths`, `Utf8`, `Bmp`, `Bc7Index` | the loops as methods, each against a declarative function or predicate, and laws about those |
| `PathPlaces`, `PathSchemes` | what a path leads to, and when canonicalizing keeps it; which prefixes are URI schemes |
| `Utf8Form` | the octet sequences of RFC 3629, and what becomes of each character of a file name |
| `BmpSaver`, `BmpBounds` | the BMP writer, and when the writer and the reader stay inside their buffers (`Bmp` has the format and the reader) |
| `BmpLayout` | the places of the header fields, which way up the rows are, and a whole small file |
| `Bc7Modes`, `Bc7Partitions` | the mode table of the specification; the partition tables that the anchors belong to |
| `Arithmetic`, `Wrappers` | bytes and words, 32-bit wrap-around, little-endian bytes, division facts, `Option` |

How to read the state machines: `Next(s, a)` is the only definition of what a thread can do;
`IsExecution(states, actions)` says that `states` is what `actions` do from the initial state. The
program counters name the places between two atomic operations, and a failed compare-exchange,
spurious or not, is a step of its own. Counters such as `sleeps` or `popped` are history that no
step reads.

Places where the code does not do what its names, comments or callers would have one expect. The
model follows the code; for each there is a concrete input and a statement of exactly when it
happens:

- `Canonicalize` does not always name the same place: a second `..` takes a kept `..` away
  (`../..` becomes the empty path), and `..` can take the root away (`/../a` becomes `a`).
  `CanonicalizeKeepsPlaceIff`; `TwoLevelsUp`, `AboveRoot`, `BesideRoot`, `RootAlone`.
- `BMPBufferLoader` computes the end of the data and the row starts in 32 bits, so it accepts
  files whose rows lie outside the buffer. `AcceptedReadsInsideIff`, `ReadsInsideIff`,
  `ImageIsTheFilesIff`; `WrappingExample`. `BMPBufferSaver` computes the size of its buffer in 32
  bits too. `WritesInsideIff`; `WritingExample`.
- `LRUCache::Insert` makes room before it looks for the key, so overwriting a key in a full cache
  can evict another entry; and it does so whatever `m_manual_evict` says.
  `OverwriteKeepsOthersIff`, and of the class `Insert`; `OverwriteExample`.
- `UnmapTLB` looks for a row of `cachedTlbs` by its page frames and page mask only, so replacing
  an uncached entry can take away the row of a cached one, and replacing a cached one the row of
  another with different flags. `StaysExactIff`, `StaysSameRowsIff`; `SharingExample`,
  `MixingExample`.
- `CheckCache` takes the rows of `cachedTlbs` four at a time with the address in the first lane
  only, with signed comparisons, and with the end of the second half for both halves. It finds just
  the addresses that the rows cover if and only if there are fewer than four rows.
  `CheckCacheRightIff`; `FramesMissed`.
- A page mask with a gap in it makes `ConvertPageMask` give a range that is not the page of the
  entry. `RangeIsPageIff`.
- The branch of `WildcardMatch` taken for `case_sensitive` is the one that compares with
  `tolower`, so it decides otherwise than an exact comparison for some subject as soon as the mask
  has a letter in it. `CaseSensitiveIff`; `FoldingExample`.
- `WorkSema` loses a wake-up once 2^29 notifications come between two writes of the worker.
  `NoLostWork`; `BoundIsExact`.
- The UTF-8 decoder takes overlong forms, does not look at the top bits of continuation octets, and
  neither it nor the encoder refuses surrogates, which section 3 of RFC 3629 rules out.
  `DecodeGivesUpIff` states all that is refused.
- A line of a page that does not exist is dropped when it is written back, as the comment in
  `Cache.cpp` says it should be; `EvictedLineReadsAs` states what is read afterwards in both cases.

## Model

| member | source | states |
|---|---|---|
| WorkSema.NoLostWork | common/Semaphore.cpp:18-92 | In every state of every execution with fewer than 2^29 notifications between worker writes: a worker blocked on `m_sema` with no token and no poster on its way has processed every notified item; `m_sema` holds at most one token; sleeps, posts and wakes match one to one |
| WorkSema.BoundIsExact | common/Threading.h:168-208 | With 2^29 notifications there is an execution that puts the worker to sleep on notified items with no token and no poster under way, so the bound of NoLostWork cannot be raised |
| WorkSema.NotifiedWorkIsDone | common/Semaphore.cpp:18-92 | From every state of every such execution in which the worker is alive and an item is notified and not processed, steps of the worker and posts already due process it: nothing more has to be notified |
| WorkSema.StuckUntilNotified | common/Threading.h:197-208 | From there no step of any thread other than a further notification wakes the worker |
| WorkSema.WaitForEmptySound | common/Semaphore.cpp:94-126 | When a call of WaitForEmpty or WaitForEmptyWithSpin has returned true, every item notified before that call has been processed |
| WorkSema.WaitForEmptyAnswers | common/Semaphore.cpp:94-126 | A false answer means that the worker is dead, and a call made when it is dead answers false; so with the worker alive the answer is true |
| WorkSema.WaitForEmptyReturns | common/Semaphore.cpp:94-126 | Once the worker sleeps, spins or is dead, steps of the waiting thread and a post already due take the call to its answer |
| WorkSema.WaiterNeverStranded | common/Semaphore.cpp:43-133 | Exactly one of "flag set", "worker about to post", "token present" holds while a thread waits on `m_empty_sema`, and none otherwise; so with the worker sleeping, spinning or dead the waiter has a token or one on its way |
| WorkSema.AssertionsHold | common/Semaphore.cpp:18-126 | The assertions of the code hold in every execution: the worker never finds the word dead when it asks for work, the waiter never finds the flag already set |
| WorkSema.StepInv | common/Threading.h:168-208 | Each of the 21 atomic steps keeps the invariant that ties the state word to the program counters, the two token counts and the set of unprocessed items |
| UserspaceSemaphore.Balance | common/Threading.h:231-259 | Threads needing a kernel token = max(0, -counter) + kernel count + posters about to post, in every interleaving |
| UserspaceSemaphore.WaitsNeverExceedPosts | common/Threading.h:240-258 | Completed waits plus what is still to be had equal the finished posts, so waits never exceed posts, TryWait included |
| UserspaceSemaphore.NoLostWakeup | common/Threading.h:240-250 | With a non-negative counter every blocked thread has a token there or a poster about to bring it; a thread is stuck only while posts are fewer than claims |
| UserspaceSemaphore.TryWaitIsRight | common/Threading.h:252-258 | TryWait takes a token only where posts exceed claims, and gives up only if its last look at the counter found posts not to exceed claims |
| UserspaceSemaphore.TryWaitAlone | common/Threading.h:252-258 | With a token there and no thread in between TryWait takes it |
| UserspaceSemaphore.Drain | common/Threading.h:240-250 | From every reachable state the pending kernel posts and waits alone let every wait return but as many as claims exceed posts |
| SpscRing.Fifo | common/boost_spsc_queue.hpp:103-162 | In every interleaving: popped is a prefix of pushed, the rest of pushed lies in the ring in order from the read index, and `size()` of the two indices is how many there are |
| SpscRing.SlotsNeverClash | common/boost_spsc_queue.hpp:103-162 | The producer constructs only in a vacant slot that the consumer is not using; the consumer reads and destroys only the live object that is next in order |
| SpscRing.PushFailsIffFull | common/boost_spsc_queue.hpp:103-116 | push fails if and only if the ring held max_size - 1 elements when it read the read index |
| SpscRing.PopFailsIffEmpty | common/boost_spsc_queue.hpp:118-131 | pop (and consume_one) fails if and only if the ring was empty when it read the write index |
| SpscRing.CallsGoOn | common/boost_spsc_queue.hpp:103-162 | In every interleaving a push or pop that has begun always has its next step to take and needs at most three, or four, more of its own |
| SpscRing.PushAlone | common/boost_spsc_queue.hpp:103-116 | A push on a ring that is not full ends with the item at the end of what was pushed |
| SpscRing.PopAlone | common/boost_spsc_queue.hpp:118-131 | A pop on a ring that is not empty ends with the oldest item popped |
| SpscRing.SizeFromIndices | common/boost_spsc_queue.hpp:194-203 | `size()` recovers the number of elements from the wrapped indices |
| DataCache.Cache.Run | pcsx2/Cache.cpp:181-324 | Any run of reads, writes, evictions, DHWBIN, DHWOIN, DXWBIN, DXLTG and write-backs changes the bytes seen through the cache as a memory of single bytes would change, and every read of an existing page returns the bytes at its host addresses |
| DataCache.Cache.WriteBackAll | pcsx2/Cache.cpp:181-190 | Afterwards memory is the view from before and no line is dirty |
| DataCache.Cache.WriteBackIfNeeded | pcsx2/Cache.cpp:113-124 | Writes a dirty valid line of an existing page to memory, leaves it clean, and changes no view |
| DataCache.Cache.GetFreeCache | pcsx2/Cache.cpp:205-262 | Returns a line that matches and holds what the address reads as; on a miss the line of the victim way was written back and replaced; nothing seen through the cache changes |
| DataCache.Cache.Read | pcsx2/Cache.cpp:308-324 | The n bytes at host address 4096 * page + aligned offset, as memory is seen through the cache, which does not change |
| DataCache.Cache.Write | pcsx2/Cache.cpp:264-284 | Changes the bytes at host address 4096 * page + aligned offset and no others |
| DataCache.PlaceIsHostAddress | pcsx2/Cache.cpp:264-274 | Page, set index and place in the line of an access add up to its host address, 4096 * vmap(vaddr / 4096) + the aligned offset in the page |
| DataCache.LinesReadBytes | pcsx2/Cache.cpp:264-274 | Reading n bytes of a line at its place is reading the n bytes at the host address |
| DataCache.LinesWriteBytes | pcsx2/Cache.cpp:264-284 | Writing them changes the bytes of memory at the host address and no others |
| DataCache.Cache.HitOp | pcsx2/Cache.cpp:357-409 | After DHWBIN or DHWOIN memory itself holds what the line reads as, after DHWBIN the line is not in the cache, a miss changes nothing, no view changes |
| DataCache.Cache.IndexWriteBackInvalidate | pcsx2/Cache.cpp:479-489 | The named way is written back and empty, no view changes |
| DataCache.Cache.IndexLoadTag | pcsx2/Cache.cpp:435-451 | Bits 6, 5, 4 and 3 of TagLo are the dirty, valid, LRF and lock flags of the tag after its line was written back, the others are zero; no view changes |
| DataCache.AccessKeepsView | pcsx2/Cache.cpp:192-262 | One access, hit or miss: the set stays consistent with no page twice, the line found holds the view of the address, no page that exists reads differently |
| DataCache.EvictedLineReadsAs | pcsx2/Cache.cpp:113-143 | After two misses in its set a line reads as before if its page exists and as zeros if it does not |
| DataCache.TwoMissesReplaceBoth | pcsx2/Cache.cpp:240-258 | The least-recently-filled bits make two misses in a row replace both ways |
| DataCache.CleanMeansFlat | pcsx2/Cache.cpp:126-143 | With no dirty line, memory is what is seen through the cache |
| Wildcard.WildcardMatch | common/StringUtil.cpp:54-148 | Returns true if and only if the mask matches the subject declaratively, under the comparison of the branch taken |
| Wildcard.MatchesIffPieces | common/StringUtil.cpp:54-148 | The declarative meaning: the subject can be cut into one piece for each character of the mask, any text for `*`, one character for `?`, one that compares equal for any other |
| Wildcard.CaseSensitiveIff | common/StringUtil.cpp:54-148 | For every mask: the branch for `case_sensitive` decides what the exact branch decides, for all subjects, if and only if the mask has no letter |
| Wildcard.FoldedIsLowered | common/StringUtil.cpp:56-101 | The branch for `case_sensitive` decides whether the mask in lower case matches the subject in lower case |
| Wildcard.FoldingExample | common/StringUtil.cpp:56-101 | That branch matches `a` with the mask `A`, the other does not |
| Wildcard.MatchWith | common/StringUtil.cpp:61-101 | The same for every character comparison that the terminator fails; terminates on all strings |
| Wildcard.MatchFromStar | common/StringUtil.cpp:71-101 | The two later loops decide the match of what is left of mask and subject |
| Wildcard.EarlierStarIsMoot | common/StringUtil.cpp:91-95 | Once the text between two stars is placed as early as possible, any match with a later placement is also one with this placement, so backtracking to the latest star loses none |
| Md5Digest.Md5 | common/MD5Digest.cpp:126-210 | For every way of cutting a message into Updates, the digest is that of RFC 1321 for the whole message, padding and 64-bit length included |
| Md5Suite.EmptyDigest | common/MD5Digest.cpp:107-210 | The digest of the empty message is d41d8cd98f00b204e9800998ecf8427e (section A.5 of RFC 1321) |
| Md5Suite.AbcDigest | common/MD5Digest.cpp:107-210 | The digest of `abc` is 900150983cd24fb0d6963f7d28e17f72 |
| Md5Digest.Digest.Update | common/MD5Digest.cpp:126-170 | Keeps `buf`, `bits` and the live prefix of `in` equal to what the bytes so far determine |
| Md5Digest.Digest.CountBytes | common/MD5Digest.cpp:133-136 | `bits` goes on being 8 times the length modulo 2^64 |
| Md5Digest.Digest.Final | common/MD5Digest.cpp:172-210 | Folds the transform over the padded message in the one-block and in the two-block case |
| Md5Digest.ChunkingIsInvisible | common/MD5Digest.cpp:126-170 | Two digests given the same bytes in different chunks agree on `buf`, `bits` and the live prefix of `in` |
| Md5Digest.CountAdded | common/MD5Digest.cpp:133-136 | The two-word addition with carry counts 8 times the length modulo 2^64 for every length |
| Md5Digest.OneBlockPadding | common/MD5Digest.cpp:195-208 | With room for the length, one more block hashes the padded message |
| Md5Digest.TwoBlockPadding | common/MD5Digest.cpp:186-208 | Without it, two more blocks do |
| Md5Transform.TransformIsRfc | common/MD5Digest.cpp:12-106 | The 64 MD5STEP calls as written are the four rounds of section 3.4 of RFC 1321, assignment by assignment, with the shifts, constants, word order and register orders of the RFC |
| Md5Transform.StepIsOperation | common/MD5Digest.cpp:12-18 | One MD5STEP with the optimised round function is the assignment a = b + ((a + F(b,c,d) + X[k] + T[i]) <<< s) |
| Md5Transform.F1 | common/MD5Digest.cpp:12-12 | The optimised form is (x & y) \| (~x & z) for all words |
| Md5Transform.F2 | common/MD5Digest.cpp:13-13 | It is (x & z) \| (y & ~z) for all words |
| LruCache.Cache.DoAll | common/LRUCache.h:34-116 | Any run of operations (short of overflowing the counter) gives the results and the contents of the recency-list model, and the size never exceeds max(capacity, 1) |
| LruCache.Cache.Evict | common/LRUCache.h:75-85 | Drops exactly the `count` least recently touched entries: each that is left has a later stamp than each that went, and no item changes |
| LruCache.Cache.Insert | common/LRUCache.h:54-73 | Room is made first, then the key becomes the most recent with the new value; for a key that was there, all other entries are as before if and only if there was room for one more or the key had the least stamp |
| LruCache.Cache.Lookup | common/LRUCache.h:43-52 | Returns the value and gives the key a later stamp than every other, whose items do not change; or null and no change |
| LruCache.Cache.ShrinkForNewItem | common/LRUCache.h:110-116 | Leaves at most capacity - 1 entries, none for capacity 0 where the subtraction wraps |
| LruCache.Cache.SetMaxCapacity | common/LRUCache.h:36-41 | Drops the oldest entries over the new capacity |
| LruCache.Cache.ManualEvict | common/LRUCache.h:102-107 | Drops the oldest entries over capacity |
| LruCache.OrderIsRecency | common/LRUCache.h:75-85 | Stamps are distinct, and an entry stands before another in the list if and only if it was last touched earlier |
| LruCache.RunInOrderOfTouch | common/LRUCache.h:43-73 | After any run from an empty cache the entries stand in the order in which their keys were last inserted, or looked up and found, and each holds the value inserted last |
| LruCache.EvictDropsLeastRecent | common/LRUCache.h:75-85 | After any run Evict drops those whose last insertion or found lookup lies furthest back |
| LruCache.RunStaysWithinCapacity | common/LRUCache.h:36-116 | The model never outgrows max(capacity, 1) under any operations |
| LruCache.OverwriteKeepsOthersIff | common/LRUCache.h:54-73 | Inserting a key that is present leaves all other entries in place if and only if there was room for one more or the key was the least recently touched |
| LruCache.OverwriteExample | common/LRUCache.h:54-73 | In a full cache of two, writing the newer key again loses the older one |
| LruCache.Lowest | common/LRUCache.h:79-81 | The key with the least stamp |
| Paths.CanonicalizeIsIdempotent | common/FileSystem.cpp:541-579 | For every string canonicalizing twice is canonicalizing once, and a URI scheme prefix is kept to the letter |
| PathPlaces.CanonicalizeKeepsPlaceIff | common/FileSystem.cpp:541-579 | For every path, after its scheme: the canonical path leads to the same place as the path, from everywhere, if and only if an absolute path never goes above the root and does not end at it, or a relative one never goes more than one level above its start; and it is absolute if and only if the path is and meets this |
| PathPlaces.RelativeKeepsFoldIff | common/FileSystem.cpp:551-572 | The same for relative components in terms of the component fold onto any base deep enough |
| PathPlaces.FoldFromRoot | common/FileSystem.cpp:551-572 | While a path stays at or below the root the fold keeps the root and the names of the place; once it has been above, the root is gone |
| PathPlaces.TwoLevelsUp | common/FileSystem.cpp:559-566 | `../..` becomes the empty path, which leads elsewhere |
| PathPlaces.AboveRoot | common/FileSystem.cpp:559-566 | `/..` becomes the empty path, which leads elsewhere |
| PathPlaces.BesideRoot | common/FileSystem.cpp:559-566 | `/../a` becomes `a`, which leads elsewhere |
| PathPlaces.RootAlone | common/FileSystem.cpp:551-574 | `/` becomes the empty path, which leads elsewhere |
| Paths.RelativeIsUndone | common/FileSystem.cpp:586-631 | For absolute paths without dot components, folding the components of the base and of the relative path gives the components of the path |
| Paths.RelativeResolves | common/FileSystem.cpp:541-631 | As strings: base, slash, relative path canonicalizes to what the path canonicalizes to |
| Paths.SplitJoin | common/FileSystem.cpp:827-864 | Split inverts Join on every list of proper components except the root alone, which comes back empty |
| Paths.JoinHasNoDoubleSlash | common/StringUtil.h:225-236 | Join never makes `//` out of proper components |
| Paths.SchemeIsStable | common/FileSystem.cpp:113-134 | The scheme found does not depend on what follows it |
| PathSchemes.SchemeLengthIff | common/FileSystem.cpp:113-134 | A prefix is set aside if and only if the path begins with a scheme of section 3.1 of RFC 3986, of two or more characters, and `://` |
| PathSchemes.CanonicalizeAfterScheme | common/FileSystem.cpp:541-579 | What follows a scheme and `://` is made canonical by itself |
| Paths.FoldKeeps | common/FileSystem.cpp:551-572 | The component fold leaves a canonical list alone |
| Paths.SplitNativePath | common/FileSystem.cpp:827-859 | The maximal runs without a slash, after an empty component for an absolute path |
| Paths.JoinNativePath | common/FileSystem.cpp:861-864 | The components with one slash between neighbours |
| Paths.GetURISchemeLength | common/FileSystem.cpp:113-134 | The length of a `scheme://` prefix whose scheme follows section 3.1 of RFC 3986 and has two characters or more, else zero |
| Paths.Canonicalize | common/FileSystem.cpp:541-579 | Computes the function that the laws are about |
| Paths.MakeRelative | common/FileSystem.cpp:586-631 | Likewise: up from the base to the longest common prefix, then down |
| Utf8.RoundTrip | common/StringUtil.cpp:362-432 | Decoding the concatenated encodings of code points up to 0x10FFFF gives them back in order |
| Utf8.DecodeEncode | common/StringUtil.cpp:362-432 | One code point is found again with its exact length, whatever bytes follow |
| Utf8Form.EncodeIff | common/StringUtil.cpp:362-391 | The bytes written for a code point are its octet sequence of section 3 of RFC 3629, and no other bytes are |
| Utf8Form.BeyondIsReplacement | common/StringUtil.cpp:385-391 | Anything beyond U+10FFFF is written as U+FFFD |
| Utf8Form.DecodeFindsOctets | common/StringUtil.cpp:393-432 | Every such sequence is decoded to its code point and length, whatever follows |
| Utf8Form.DecodeGivesUpIff | common/StringUtil.cpp:393-432 | The decoder gives up, on one byte, if and only if the byte announces no sequence or the announced one is cut off |
| Utf8.SanitizeIsIdempotent | common/FileSystem.cpp:190-211 | Sanitising twice is sanitising once, on arbitrary bytes |
| Utf8.SanitizedIsSafe | common/FileSystem.cpp:77-105 | The output has no `*` byte, and no `/` byte when slashes are stripped |
| Utf8Form.SanitizedCharacters | common/FileSystem.cpp:77-211 | Character by character: `*`, and `/` when stripped, become `_`, what is no code point becomes U+FFFD, every other character stays |
| Utf8Form.SanitizeKeepsIff | common/FileSystem.cpp:190-211 | A name is left as it is, byte for byte, if and only if it is well-formed and has no character to replace |
| Utf8.SanitizeFileName | common/FileSystem.cpp:190-211 | The loop terminates on arbitrary bytes and computes the function that the two laws are about |
| TlbIndex.RunContained | pcsx2/COP0.cpp:292-390 | After every run of TLBWI and TLBWR from an empty TLB the bag of (PFN0, PFN1, PageMask) in `cachedTlbs` is contained in that of the non-SPR entries with a valid cached half, so the count never exceeds 48 |
| TlbIndex.RunSameRows | pcsx2/COP0.cpp:292-390 | While no such entry shares its triple with another non-SPR entry, the rows are exactly those of these entries, cache-enable flags included |
| TlbLookup.IndexMeansRegisters | pcsx2/vtlb.cpp:147-155 | After any run in which no triple is shared, the rows cover an address if and only if the registers last written to some slot are not SPR, have a valid cached half, and have a half with cache mode 3 whose range takes it in; the range is stated from the bits of the registers |
| TlbLookup.RowMeansRegisters | pcsx2/COP0.cpp:284-387 | An entry has a row exactly when its registers map cached memory, and the row covers the addresses that the registers say |
| TlbLookup.RangeIsPageIff | pcsx2/COP0.cpp:284-290 | The range of a half is the page of its frame, for all frames and addresses, if and only if the ones of PageMask run without a gap from bit 13 to no further than bit 24 |
| TlbLookup.PopCountIsOnes | pcsx2/COP0.cpp:284-290 | The population count is the number of places with a one |
| TlbLookup.CheckCache | pcsx2/vtlb.cpp:114-158 | Accepts an address if bit 16 of Config is set and one of the rows taken in fours, by the comparisons of the lanes, or one of the remaining rows, as intended, accepts it |
| TlbLookup.CheckCacheRightIff | pcsx2/vtlb.cpp:114-158 | With n rows, whatever was written, CheckCache finds just the addresses that the rows cover if and only if n < 4 |
| TlbLookup.FramesMissed | pcsx2/vtlb.cpp:127-145 | With page frame i + 1 in slot i for four slots or more, an address of the second row is not found |
| TlbIndex.StaysExactIff | pcsx2/COP0.cpp:334-351 | A write keeps the index exact if and only if the entry it replaces is not an uncached one whose triple has a row |
| TlbIndex.StaysSameRowsIff | pcsx2/COP0.cpp:334-351 | A write keeps the rows right, flags included, if and only if the first row with the triple of the entry it replaces is that entry's own |
| TlbIndex.SharedKeyMixesFlags | pcsx2/COP0.cpp:334-351 | Replacing a cached entry whose triple has another's row first keeps the triples right and the flags not |
| TlbIndex.MixingIsReachable | pcsx2/COP0.cpp:421-455 | Any two cached entries with one triple and different flags, written to an empty TLB and the second overwritten, leave the right triple with the wrong flags |
| TlbIndex.MixingExample | pcsx2/COP0.cpp:421-455 | Three concrete register writes that do |
| TlbIndex.SharedKeyLosesRow | pcsx2/COP0.cpp:334-351 | Two entries that share a triple, one of them uncached: replacing that one loses the other's row |
| TlbIndex.SharingExample | pcsx2/COP0.cpp:421-455 | Three concrete register writes after which a cached entry has no row |
| TlbIndex.RoomForRow | pcsx2/COP0.cpp:378-387 | After UnmapTLB there is always a free row, so WriteTLB stays inside the array |
| TlbIndex.Tlb.UnmapTLB | pcsx2/COP0.cpp:334-351 | Takes out the first row with the triple of the entry and closes the gap, nothing for SPR |
| TlbIndex.Tlb.CloseGap | pcsx2/COP0.cpp:338-345 | The shift-down loop removes one row and keeps the order of the others |
| TlbIndex.Tlb.WriteTLB | pcsx2/COP0.cpp:354-387 | Puts the entry in its slot and appends a row if it qualifies |
| TlbIndex.Tlb.TLBWI | pcsx2/COP0.cpp:421-437 | Replaces the slot named by Index, keeps the containment, refuses slots above 47 |
| TlbIndex.Tlb.TLBWR | pcsx2/COP0.cpp:439-455 | The same with Random |
| TlbIndex.NewEntry | pcsx2/COP0.cpp:356-376 | SPR entries become cached, others never keep a reserved cache mode |
| HttpRequests.CallbackExactlyOnce | common/HTTPDownloader.cpp:54-206 | In every interleaving of creators, network and one poller, each request created is either listed once, in the poller's hand, or has had its callback exactly once |
| HttpRequests.PassCallsBackComplete | common/HTTPDownloader.cpp:95-184 | A pass of the poller that has ended has run the callback of every request that was complete when it began: no request is stepped over when others are erased or added while the lock is dropped |
| HttpRequests.PassCallsBackExpired | common/HTTPDownloader.cpp:95-149 | So it has for every request that was active when it began and that its scan finds to have timed out or been cancelled |
| HttpRequests.PassComesToEnd | common/HTTPDownloader.cpp:106-205 | In the middle of a pass the poller always has a step to take, and each step leaves fewer to the end |
| HttpRequests.CallbackReason | common/HTTPDownloader.cpp:95-206 | A callback runs only for a request that is complete, or was cancelled in the scan, or failed to start |
| HttpRequests.CancelledByScan | common/HTTPDownloader.cpp:116-143 | A request is cancelled only while active and by a scan that finds it to have timed out or been cancelled |
| HttpRequests.PassStartsPending | common/HTTPDownloader.cpp:111-205 | A pass that ends leaves no listed request Pending, unless the poller's count of active requests has reached the limit |
| HttpRequests.NoStrayCallback | common/HTTPDownloader.cpp:54-206 | A request that was never created is not listed and gets no callback |
| HttpRequests.ActiveWithinLimit | common/HTTPDownloader.cpp:95-239 | The number of places in the list with a request that is Started or Receiving never exceeds the limit |
| Bmp.SaveLoad | common/Image.cpp:1288-1346 | For every image with a file size below 2^32, loading what was saved gives the same size and RGB with alpha 0xFF if both dimensions are below 65536, whatever lies behind the buffer, and is rejected otherwise |
| BmpSaver.Save | common/Image.cpp:1288-1346 | An empty image is refused; if every write, at its place in 32 bits, falls inside the buffer, the buffer is the two headers and the padded rows, bottom row first, blue before green before red; otherwise a write outside is met |
| BmpSaver.WritesInsideIff | common/Image.cpp:1300-1343 | With sizes and places computed in 32 bits, every byte is written inside the buffer if and only if the size of the file is below 2^32 |
| BmpSaver.WritingExample | common/Image.cpp:1300-1304 | For 43690 by 32768 pixels the buffer has 54 bytes and the pixels are written outside it |
| Bmp.Load | common/Image.cpp:1099-1277 | For all data: decides as the header says, with the end of the data computed in 32 bits, and returns the pixels found in memory at the wrapped row starts, flipped for a positive height |
| BmpBounds.AcceptedReadsInsideIff | common/Image.cpp:1206-1213 | A file of less than 2^32 - 3 bytes that is accepted is read inside its buffer if and only if the end of the data given by its header is below 2^32 |
| BmpBounds.ReadsInsideIff | common/Image.cpp:826-831 | For buffers of any size: the file is read inside if and only if its farthest row, in 32 bits, ends in the buffer |
| BmpBounds.LastRowDecides | common/Image.cpp:826-831 | Unless row starts wrap, that is the last row |
| BmpBounds.ImageIsTheFilesIff | common/Image.cpp:822-918 | The image does not depend on what lies behind the buffer if and only if the reader stays inside |
| BmpBounds.WrappingExample | common/Image.cpp:1206-1213 | A header alone, for 43690 by 32768 pixels, is accepted and read outside the buffer |
| Bmp.LoadRows | common/Image.cpp:822-918 | The 24-bit row loop fills every pixel from its three bytes |
| Bmp.StridesAgree | common/Image.cpp:824-824 | The stride in bits of the reader is the stride in bytes of the writer and of the length check |
| Bmp.HeaderRoundTrip | common/Image.cpp:1110-1111 | Unpacking the packed headers gives every field back, whatever follows |
| BmpLayout.HeaderPlaces | common/Image.cpp:745-768 | Each of the sixteen header fields stands at its offset, least significant byte first |
| BmpLayout.RowsOfFile | common/Image.cpp:822-918 | The first row of the file is the bottom one for a positive height and the top one for a negative height; each pixel is blue, green, red |
| BmpLayout.NegativeHeightFlips | common/Image.cpp:822-918 | Negating the height in the header turns the loaded image upside down |
| BmpLayout.SmallHeader | common/Image.cpp:1306-1328 | The header fields of the file of one red pixel over one blue one |
| BmpLayout.SmallRows | common/Image.cpp:1330-1343 | The eight data bytes of that file, 255 0 0 0 and 0 0 255 0 |
| Bc7Index.InsertingIsReading | common/TextureDecompress.cpp:559-565 | For every word, width up to 4 and ascending anchors: inserting zero bits at the anchors and cutting fields of one width equals reading bits in sequence with one bit fewer at each anchor |
| Bc7Index.InsertAllBits | common/TextureDecompress.cpp:559-565 | Where every bit of the word goes when zeros are inserted in ascending order |
| Bc7Index.UnpackWeights | common/TextureDecompress.cpp:640-808 | In modes 0 to 3 and 7 the weights are what the sequential reader finds with the first index bit, index width, partition bits and subset count of the mode table of the specification |
| Bc7Index.UnpackDualWeights | common/TextureDecompress.cpp:842-914 | In modes 4 and 5 the same for both index sets, which change places when the mode has an index selection bit and it is set |
| Bc7Index.ModeSixIsReading | common/TextureDecompress.cpp:946-1062 | The bit fields of mode 6 are what the sequential reader finds |
| Bc7Index.CodeFollowsTable | common/TextureDecompress.cpp:640-808 | The offsets, widths, partition numbers and sorted anchors of the code read what those of the mode table read |
| Bc7Modes.PartsFillBlock | common/TextureDecompress.cpp:640-953 | In all eight modes the parts of the table fill 128 bits |
| Bc7Index.AnchorsAscend | common/TextureDecompress.cpp:527-537 | The anchors of every partition, in the order they are inserted, are ascending and distinct |
| Bc7Partitions.AnchorsLieInSubsets | common/TextureDecompress.cpp:503-537 | In all 64 partitions of either kind the anchor of each subset lies in that subset |
| Bc7Index.Straddle | common/TextureDecompress.cpp:880-880 | The chunk put together from both halves of the block is the block from bit 50 on |

## Left out

- Memory orders weaker than sequential consistency, spin timing, the kernel semaphore (a counter
  here) and thread creation.
- `WorkSema::Reset`, and several threads waiting for empty at once, which the code does not support.
- The two-step `front()` and `pop()` of the ring, `reset`, and its destructor.
- Cache lock bits in a run (they are modelled in `Access` but `Valid` has none set), DXSTG, DXSDT,
  DXLDT, and DHIN and DXIN, which discard data by design. Tags are records, not words; the vtlb is
  a function from virtual to host pages that does not change during a run, and so is `validPFN`.
- What the caller does with the answer of `CheckCache`, and the vector registers in it: a lane is a
  comparison of one row here.
- The page maps of `MapTLB` and `UnmapTLB`, TLBR, TLBP, performance counters and the rest of COP0.
  `cachedTlbs` is one array of rows instead of five parallel arrays.
- Several pollers of the request table, changing the limit while requests run, a null from
  `InternalCreateRequest`, the status codes given to callbacks, and curl itself; a failing start is
  taken to run the callback, as `common/HTTPDownloaderCurl.cpp` lines 186-194 do.
- Overflow of the 64-bit access counter of the LRU cache; pointers into it are values here.
- `MD5Digest::Reset` on a used object. `memcpy` of words assumes a little-endian machine, as the
  code does.
- Windows branches of the path functions, `RealPath`, `ToNativePath`, URL coding, and the in-place
  `SanitizeFileName` and `IsValidFileName`.
- BMP files with palettes, 16 or 32 bits, bit fields or run lengths (`OtherFormat`), and PNG, JPEG
  and WebP. What the program does once the BMP writer has left its buffer (`WroteOutside`).
- BC7 endpoints and interpolation, and the table that finds the mode of a block; BC1 to BC5.
- Settings, logging, GUI, dynamic libraries, directory and file I/O: they would add easy members only.

# Verification of ObjectScript's allocators, multipart parser, regular-expression core and Base64 decoder

This project models five pieces of the ObjectScript repository in Dafny and proves what they promise:

* **The three-tier heap** (`src/os-heap.cpp`). The medium tier carves pages into blocks, keeps a circular block list in
  address order and a circular free ring in descending size order, serves the best fit, coalesces on both sides and gives
  a fifth wholly free page back. The small tier bumps through pages and keeps one list per size slot. The large tier is a
  ring over system allocations. Each tier exists twice: as a value with step functions and an invariant, and as a
  class over linked nodes whose methods are proved against those functions. An address is a page and an offset.
* **The older heap** (`src/os-heap-old.cpp`): pages of equal blocks for each size class, lists of cached blocks, bulk
  release of fully cached pages, and the byte counters. Page and block lists are sequences here, not linked nodes.
* **The multipart parser** (`3rdparty/MPFDParser-1.0`): a three-state loop over a collector that grows and is truncated,
  the reading of header blocks, and the loop of `os-fcgi.cpp` that feeds it a request.
* **A fragment of PCRE 8.12** (`3rdparty/pcrelib`): one-byte literals, alternation, non-capturing groups and greedy or
  lazy quantifiers. Modelled are the reading of counts, the sizing pass, the emitting pass (one buffer, a moving
  pointer, links patched in place), the backtracking matcher, and the table of group names with its binary search. The
  meaning of a pattern is given independently, as the ordered list of end positions that direct repetition tries.
* **The Base64 decoder** (`src/ext-base64/cdecode.cpp`), a loop that leaves and re-enters in the middle of a group.

| files | contents |
|---|---|
| `HeapLayout`, `MediumSpec`, `MediumProofs`, `MediumTheorems`, `MediumJoins` | layout constants; the medium tier as a value; its invariant, steps and runs |
| `BlockRings`, `MediumHeap` | link operations and the medium tier over linked blocks |
| `SmallSpec`, `SmallProofs`, `SmallTheorems`, `SmallHeap`, `LargeSpec`, `LargeHeap`, `HeapManager` | the other tiers, and dispatch over all three |
| `OldSpec`, `OldProofs`, `OldTheorems`, `OldHeap` | the older heap |
| `MultipartSpec`, `MultipartProofs`, `MultipartCuts`, `MultipartHeaders`, `MultipartParser`, `MultipartPost` | the multipart parser; `MultipartCuts` says what every field holds for every way of cutting a body, `MultipartHeaders` what becomes of a form |
| `PcreSyntax`, `PcreCounts`, `PcreTries`, `PcreRun`, `PcreProofs`, `PcreStays`, `PcreSizing`, `PcreEmitter`, `PcreMatcher` | the PCRE compiler and matcher |
| `NameSpec`, `NameTable` | the PCRE name table |
| `Base64Spec`, `Base64Decoder` | the Base64 decoder |

`dafny verify dfyconfig.toml` checks everything.

## Hypotheses

* The heap is the 64-bit release build with the switches at `src/os-heap.cpp:17-18` on. The older heap has the record
  sizes of a 32-bit build, the one on which the tag read by `free` stands where `stdAlloc` wrote it.
* System `malloc` succeeds where an old-heap page is needed. In the other heap every refusal is modelled as it is: for
  the medium and the large tier it changes nothing, and for the small tier `SmallTheorems.RefusedPage` says exactly when
  it breaks the invariant. Only those harmful refusals are kept out of the runs (`SmallSpec.Harmless`,
  `HeapManager.Served`).
* A medium page id stays below the dummy's id 0xFFFF (`MediumProofs.PageIdLeft`).
* Byte and event counters of the heaps are unbounded integers, and a subject is shorter than INT_MAX.
* The directory for temporary files is set, and the files can be opened and written.
* `char` is signed and has 8 bits; overflow of `int` in the repeat counts wraps.
* `pcre_exec` runs without its start optimizations, as under PCRE_NO_START_OPTIMIZE. Anchoring, the first-line option,
  the newline convention and the flag for an explicit CR or LF in the pattern are parameters.

## Where the code does less than its own text says

* **A refused small page.** The tail of the bump page is listed as a free block but still bumped from;
  `RefusedPage` gives the exact condition, `TailServedTwice` what follows from it, and `RefusedPageOverlap` a run of
  `malloc` calls at whose end two live pointers share bytes.
* **Text fields.** Storing a piece never advances the length, so a text field holds only its last piece. `TextFieldRight`
  gives the exact condition, for every body and every way of cutting it into calls: a text part is stored right iff no
  call ends behind the first |boundary| + 2 bytes that follow its blank line and before the end of its delimiter.
  `TextFieldLost` is a body that loses a byte when it is cut there.
* **The close delimiter.** It is never recognised: behind it the parser waits for another header block. Every part has
  arrived by then, but the body ends without an error and without a further part iff no blank line follows the last
  delimiter (`RoundTripEnds`, `TailInPieces`). `CloseDelimiterRefused` and `CloseDelimiterMatters`: an empty line behind
  the close delimiter has its two hyphens read as headers, and the whole request is refused.
* **Names of fields.** A text field whose name ends in `filename=` is taken for a file without an end quote and refused,
  and among names without quotes those are the only ones (`TextLineRead`). Of several parts with one name the map of fields holds the last
  (`FieldAfterBody`).
* **Names of groups.** "Different names for the same number are not permitted" is checked for new names only:
  `OneNameBroken` gives the exact condition, `OneNameWithoutDuplicates` the patterns that are safe, and
  `TwoNamesForOneNumber` a pattern with two names for one group.
* **Repeat counts.** Overflow is looked for by sign; `NumberChecked` says which numbers get through and
  `OverflowAccepted` shows that {4294967297} is read as {1}.

## Model

| member | source | states |
|---|---|---|
| HeapLayout.CeilPowerOfTwo | src/os-heap.cpp:97-107 | the result is the least power of two not below the argument |
| MediumTheorems.BlocksDisjoint | src/os-heap.cpp:973-1079 | in every good state two blocks of a page never overlap and lie inside the page |
| MediumTheorems.PageTiled | src/os-heap.cpp:973-1079 | the sizes of a page's blocks sum to the page size exactly |
| MediumTheorems.PageContiguous | src/os-heap.cpp:377-418 | a page's blocks are contiguous in the block list, in address order, each starting where the one before ends |
| MediumTheorems.MaximallyCoalesced | src/os-heap.cpp:465-495 | two blocks that touch on a page are never both free |
| MediumTheorems.FourFreePages | src/os-heap.cpp:520-554 | at most four wholly free pages are kept |
| MediumTheorems.AllocGrants | src/os-heap.cpp:347-440 | a smallest free block that fits serves the request: whole iff less than 128 bytes are left over, or less than 256 and the block ends its page; else its tail of exactly the rounded size, and the rest stays free. A page is added iff none fits; the hit count says which; exactly the grant becomes live |
| MediumTheorems.AllocRefuses | src/os-heap.cpp:354-376 | null only when the system refuses; handed to the large tier iff the rounded request exceeds half a page and no free block fits; a refusal changes nothing |
| MediumTheorems.FreeDrops | src/os-heap.cpp:442-500 | freeing ends exactly one live block; a page given back never holds another live one |
| MediumTheorems.FreeCounts | src/os-heap.cpp:465-495 | a free joins the block with each free block that touches it, and counts the joins |
| MediumTheorems.FifthPageReleased | src/os-heap.cpp:520-554 | one wholly free page goes back to the system iff the free makes a fifth, and it is one of the other four; else the list is just the joined one |
| MediumTheorems.AllocThenFree | src/os-heap.cpp:377-500 | allocating without a new page and freeing the result restores the block list, the multiset of free entries and the byte counts, and releases no page |
| MediumTheorems.EveryRunChecks | src/os-heap.cpp:973-1079 | what checkMemory asserts holds after every run: counters are the sums over the blocks, pages are tiled, the ring holds exactly the free blocks, data <= used <= allocated |
| MediumTheorems.EmptyInv | src/os-heap.cpp:652-722 | the freshly constructed tier satisfies the invariant |
| MediumProofs.AllocKeeps | src/os-heap.cpp:347-440 | every allocation keeps tiling, order, coalescing, ring order, page bound and accounting |
| MediumProofs.FreeKeeps | src/os-heap.cpp:442-500 | every free keeps them too |
| MediumProofs.ReleaseKeeps | src/os-heap.cpp:527-546 | giving a surplus page back keeps them |
| BlockRings.Block.InsertBefore | src/os-heap.cpp:311-317 | on a circular list, inserting before a node puts the block at exactly that place of the sequence and leaves a circular list |
| BlockRings.Block.RemoveLink | src/os-heap.cpp:297-301 | unlinking removes exactly one entry of the sequence |
| BlockRings.Block.InsertBeforeFreeLink | src/os-heap.cpp:339-345 | the same for the free ring |
| BlockRings.Block.RemoveFreeLink | src/os-heap.cpp:325-329 | the same for the free ring |
| MediumHeap.MediumTier.AllocMedium | src/os-heap.cpp:347-440 | the pointer code computes the specified allocation and keeps both rings well linked |
| MediumHeap.MediumTier.FreeMedium | src/os-heap.cpp:442-500 | the pointer code computes the specified free |
| MediumHeap.MediumTier.InsertFreeBlock | src/os-heap.cpp:520-554 | sorted insertion and the fifth-page release on the linked ring |
| MediumHeap.MediumTier.FindBestFit | src/os-heap.cpp:377-386 | the walk ends at the last ring entry that still fits |
| MediumHeap.MediumTier.CarveBlock | src/os-heap.cpp:387-418 | whole-block grant or tail split, with the ring entry moved |
| SmallTheorems.SmallGrant | src/os-heap.cpp:148-231 | an answered request gets enough bytes, less than ALIGN too many, in a block that was not live, with its slot below the slot count |
| SmallTheorems.SmallSource | src/os-heap.cpp:148-231 | a granted block is the head of the list of its slot if there is one, else the next bytes of the page in use if it has room, and only else the first of a new page |
| SmallTheorems.SmallFreedIsNext | src/os-heap.cpp:148-266 | a freed block is what the next request of its size gets, without a new page |
| SmallTheorems.SmallPartition | src/os-heap.cpp:148-266 | each page is its header, its blocks and the unbumped tail; a retired page gives up at most 2 * ALIGN bytes; each block is live or on the list of its slot, not both |
| SmallTheorems.SmallRunChecks | src/os-heap.cpp:67-95 | after every run without a harmful refusal data <= used <= allocated and the partition holds |
| SmallTheorems.RefusedPage | src/os-heap.cpp:165-184 | a refused page keeps the invariant iff the tail was not worth listing |
| SmallTheorems.ListedTailReused | src/os-heap.cpp:165-184 | after a refusal that listed the tail, a smaller request is served from the listed bytes |
| SmallTheorems.TailServedTwice | src/os-heap.cpp:165-184 | after such a refusal a smaller request and one for exactly the tail get two live blocks that start at the same byte |
| HeapManager.RefusedPageOverlap | src/os-heap.cpp:792-802 | 248 requests of 255 bytes, one more that is refused, then 8 and 40 bytes: two live pointers share bytes |
| SmallHeap.SmallTier.AllocSmall | src/os-heap.cpp:148-231 | the code over linked lists computes the specified allocation, refusals included, and keeps the invariant unless a refusal is harmful |
| SmallHeap.SmallTier.FreeSmall | src/os-heap.cpp:233-266 | the code over linked lists computes the specified free |
| LargeSpec.AllocLargeKeeps | src/os-heap.cpp:556-579 | blocks keep different addresses and their headers, and the counters stay the sums over the blocks |
| LargeSpec.FreeLargeKeeps | src/os-heap.cpp:602-632 | so they do when a block is freed, and exactly that block leaves |
| LargeHeap.LargeTier.AllocLarge | src/os-heap.cpp:556-600 | the ring code computes the specified allocation: the new block first and accounted for; a refusal changes nothing |
| LargeHeap.LargeTier.FreeLarge | src/os-heap.cpp:602-632 | the ring code computes the specified free |
| HeapManager.MallocServes | src/os-heap.cpp:792-826 | the pointer is new and large enough, no other live pointer is affected, and null means a size below one or a refusal; the invariant survives iff it was not a refused page while the tail of the page in use is worth listing |
| HeapManager.MallocTier | src/os-heap.cpp:792-826 | which tier answers: the small one below 256 bytes; the medium one below 32768 iff a free block holds the request or it fits half a page and the system answers; the large one iff the system answers and the size is at least 32768 or more than half a page with no block for it; the other tiers do not change |
| HeapManager.SizeAnswered | src/os-heap.cpp:938-955 | getSize of the answer is the request and less than 8 bytes more, and in the medium tier less than 264 |
| HeapManager.FreeEnds | src/os-heap.cpp:828-877 | free ends exactly the pointer it is given |
| HeapManager.LiveApart | src/os-heap.cpp:148-632 | the bytes behind two live pointers never meet |
| HeapManager.CachedNeverNegative | src/os-heap.cpp:909-936 | used bytes never exceed allocated bytes |
| HeapManager.ByteTotals | src/os-heap.cpp:909-936 | used bytes are the sizes of the live pointers, each counted once; allocated bytes are the pages and the large blocks; cached bytes are the difference |
| HeapManager.LiveUntilFreed | src/os-heap.cpp:792-877 | over every run a pointer stays live, with its size, until it is freed |
| HeapManager.EmptyHeapInv | src/os-heap.cpp:652-722 | the empty heap satisfies the invariant of all tiers |
| OldTheorems.BulkRelease | src/os-heap-old.cpp:242-287 | freeCachedMemory releases only fully cached pages, leaves no entry into them, keeps the order of the rest and all live blocks, and ends with the cache small enough or no fully cached page |
| OldTheorems.ReleaseStops | src/os-heap-old.cpp:242-287 | the release works from the largest class down and stops at the first class that brings the cache down to the target: the classes below are untouched, and without that one the cache would still be above it |
| OldProofs.FullMeansIdle | src/os-heap-old.cpp:252-268 | a page's counter equals its blocks on the list, so it is full iff none of its blocks is handed out |
| OldProofs.TakeKeeps | src/os-heap-old.cpp:130-173 | taking a cached block keeps lists, counters and byte sums |
| OldProofs.AddPageKeeps | src/os-heap-old.cpp:182-202 | so does adding a page |
| OldProofs.PutKeeps | src/os-heap-old.cpp:207-240 | so does giving a block back |
| OldTheorems.MallocKeeps | src/os-heap-old.cpp:361-390 | a request gets a block of the least class that holds it, or a piece of its own iff none does; exactly that pointer becomes held |
| OldTheorems.MallocUsesCache | src/os-heap-old.cpp:175-205 | a request takes the first cached block of its least class, and then no page is added; a page is added iff there is none, and the system is asked for its bytes |
| OldTheorems.LargeCosts | src/os-heap-old.cpp:289-328 | a request no class holds costs its size rounded up to 8 and a header, and leaves pages and cache alone |
| OldTheorems.FreeKeeps | src/os-heap-old.cpp:392-414 | free, its bulk release included, gives up exactly the given pointer |
| OldTheorems.FreePuts | src/os-heap-old.cpp:207-240 | what a free does before a trim: the block heads the list of its class and the counters move by one block |
| OldTheorems.FreedIsNext | src/os-heap-old.cpp:207-240 | a block freed without a trim is what the next request of its class gets |
| OldTheorems.FreeTrims | src/os-heap-old.cpp:392-414 | the cache is trimmed iff this is a 1024th free and more than half of what the system gave is cached; then down to half of the cache |
| OldTheorems.Conservation | src/os-heap-old.cpp:167-239 | cached bytes are the bytes of all pages less the live blocks with their headers |
| OldTheorems.CachedWithinAllocated | src/os-heap-old.cpp:264-359 | 0 <= cached bytes <= allocated bytes |
| OldTheorems.EveryRun | src/os-heap-old.cpp:361-414 | over every run the counters are these sums, and a pointer lives until it is freed |
| OldHeap.Heap.FreeCachedMemory | src/os-heap-old.cpp:242-287 | the two walks over the lists of each class compute the specified release |
| OldHeap.Heap.UnlinkBlocks | src/os-heap-old.cpp:246-263 | the walk takes exactly the blocks of fully cached pages off the list, a sequence, in order, and reports whether there were any |
| OldHeap.Heap.ReleasePages | src/os-heap-old.cpp:264-280 | the walk takes exactly the fully cached pages off the list, a sequence, and settles the counters |
| OldHeap.Heap.AllocFromPageType | src/os-heap-old.cpp:175-205 | a cached block, or the first of a new page |
| OldHeap.Heap.FreeMemBlock | src/os-heap-old.cpp:207-240 | the block goes in front of its list |
| OldHeap.Heap.StdAlloc | src/os-heap-old.cpp:289-328 | size rounded to 8, header recorded, counters raised, the maximum kept |
| OldHeap.Heap.StdFree | src/os-heap-old.cpp:330-359 | counters lowered by what the header says |
| OldHeap.Heap.LookUp | src/os-heap-old.cpp:366-378 | the memo always answers the least class |
| OldHeap.Heap.Malloc | src/os-heap-old.cpp:361-390 | malloc computes the specified allocation |
| OldHeap.Heap.Free | src/os-heap-old.cpp:392-414 | free computes the specified release, the 1024th-free trigger included |
| MultipartProofs.ChunkingIndependence | 3rdparty/MPFDParser-1.0/Parser.cpp:50-74 | however a body is cut, every part is handed the same bytes, with the same outcome and the same rest |
| MultipartProofs.Resume | 3rdparty/MPFDParser-1.0/Parser.cpp:100-174 | processing now and again when more bytes have come is processing once |
| MultipartProofs.WithinLimit | 3rdparty/MPFDParser-1.0/Parser.cpp:66-68 | a body within the limit never meets it, however it is cut |
| MultipartProofs.RoundTrip | 3rdparty/MPFDParser-1.0/Parser.cpp:100-174 | a body laid out as in section 5.1.1 of RFC 2046, whatever follows its close delimiter, delivers and stores every content exactly, in order, empty ones included; then the parser goes on with what follows |
| MultipartProofs.RoundTripEnds | 3rdparty/MPFDParser-1.0/Parser.cpp:108-120 | no error and no further part iff there is no blank line behind the last delimiter |
| MultipartProofs.TailIsRead | 3rdparty/MPFDParser-1.0/Parser.cpp:156-174 | what is behind the last delimiter makes the parser wait, refuse the body, or open a part nobody sent, by the first block in it |
| MultipartProofs.RoundTripInPieces | 3rdparty/MPFDParser-1.0/Parser.cpp:50-174 | the same body cut anywhere hands every part its content exactly, and treats what follows alike |
| MultipartProofs.DelimiterFound | 3rdparty/MPFDParser-1.0/Parser.cpp:260-280 | behind a content without the delimiter the first one found is the one after CRLF |
| MultipartProofs.BlankFound | 3rdparty/MPFDParser-1.0/Parser.cpp:156-174 | the blank line found is the one that ends the header block |
| MultipartSpec.CStringEnds | 3rdparty/MPFDParser-1.0/Parser.cpp:159-164 | the header text handed on ends at its first NUL byte, or is the whole block |
| MultipartProofs.FeedKeepsFiles | 3rdparty/MPFDParser-1.0/Field.cpp:82-160 | a file, in memory or temporary, stores exactly what it was handed |
| MultipartCuts.CutAnywhere | 3rdparty/MPFDParser-1.0/Parser.cpp:50-174 | for every body and every way of cutting it, exactly what the parser holds behind the last delimiter: every part, in order, with the bytes handed over and the bytes stored; the calls that remain are read from there |
| MultipartCuts.TailInPieces | 3rdparty/MPFDParser-1.0/Parser.cpp:108-174 | what becomes of the bytes behind the last delimiter, however the body is cut |
| MultipartCuts.TextFieldRight | 3rdparty/MPFDParser-1.0/Field.cpp:73-81 | a text part gets all its bytes, and stores them right iff no call ends between the place the delimiter's length and two bytes behind its blank line and the end of its delimiter |
| MultipartCuts.CutBetweenMeans | 3rdparty/MPFDParser-1.0/Parser.cpp:50-74 | a call ends between two places iff some prefix of the calls has a length between them |
| MultipartCuts.TextFieldLost | 3rdparty/MPFDParser-1.0/Field.cpp:73-81 | one body whose text field holds "ab" when it comes in one call and "b" when it comes in two |
| MultipartProofs.TextPiece | 3rdparty/MPFDParser-1.0/Field.cpp:73-81 | a text field is right after a piece iff it was the first one |
| MultipartParser.Field.AcceptSomeData | 3rdparty/MPFDParser-1.0/Field.cpp:72-164 | one piece: text at offset 0, a file in memory or in a temporary file behind what is there |
| MultipartParser.Parser.BoundaryPosition | 3rdparty/MPFDParser-1.0/Parser.cpp:260-280 | the nested loops find the first occurrence or none |
| MultipartParser.Parser.WaitForHeaders | 3rdparty/MPFDParser-1.0/Parser.cpp:156-174 | the header round: wait, refuse, refuse with a field set up, or open a field |
| MultipartParser.Parser.ProcessContent | 3rdparty/MPFDParser-1.0/Parser.cpp:132-154 | the content round hands over exactly the bytes that are certain |
| MultipartParser.Parser.ProcessData | 3rdparty/MPFDParser-1.0/Parser.cpp:100-130 | the state loop ends, on buffer length then state, in the specified state |
| MultipartParser.Parser.AcceptSomeData | 3rdparty/MPFDParser-1.0/Parser.cpp:50-74 | one call: append, limit, loop |
| MultipartHeaders.BadIff | 3rdparty/MPFDParser-1.0/Parser.cpp:184-204 | a header block is refused outright iff it has no Content-Disposition: form-data; or no name=", or no quote behind the first name=" |
| MultipartHeaders.BlockRead | 3rdparty/MPFDParser-1.0/Parser.cpp:198-217 | any other block names what stands between the first name=" and the next quote: a text field if it has no filename=", else a file, refused iff no quote follows the first filename=" |
| MultipartHeaders.TextLineRead | 3rdparty/MPFDParser-1.0/Parser.cpp:184-235 | the header of a text field is read back as written, unless its name ends in filename=; then it is refused |
| MultipartHeaders.FileLineRead | 3rdparty/MPFDParser-1.0/Parser.cpp:184-235 | the header of a file is read back as written |
| MultipartHeaders.ItemRead | 3rdparty/MPFDParser-1.0/Parser.cpp:156-235 | a well-formed field of a form is read as sent iff it is a file or its name does not end in filename= |
| MultipartHeaders.FormDelivered | 3rdparty/MPFDParser-1.0/Parser.cpp:50-235 | a form is delivered: every field, in order, with its name, kind and content, however its body is cut |
| MultipartHeaders.CloseDelimiterRefused | 3rdparty/MPFDParser-1.0/Parser.cpp:108-188 | every body whose close delimiter is followed by an empty line is refused, however it is cut |
| MultipartHeaders.CloseDelimiterMatters | 3rdparty/MPFDParser-1.0/Parser.cpp:108-188 | one form that is read with one line end behind the close delimiter and refused with two |
| MultipartPost.ReadPost | os-fcgi.cpp:408-432 | the pieces of a request go to the parser in turn, and the first refusal makes it invalid |
| MultipartPost.FieldAfterBody | os-fcgi.cpp:435-442 | after a body a part is found under its name, with all its bytes, iff no later part bears the name |
| PcreCounts.CountedRepeatIff | 3rdparty/pcrelib/pcre_compile.c:1013-1026 | a text is a counted repeat iff it begins with digits that are followed by a closing brace, by a comma and a brace, or by a comma, digits and a brace |
| PcreCounts.CountsRead | 3rdparty/pcrelib/pcre_compile.c:1047-1092 | for every counted repeat: ERR5 iff a number fails the range check, ERR4 iff both pass and the second is smaller, else the counts and the place of the closing brace |
| PcreCounts.SpelledIsRead | 3rdparty/pcrelib/pcre_compile.c:1013-1094 | every {n}, {n,} and {n,m} in range is recognised and read back as written |
| PcreCounts.AcceptedCounts | 3rdparty/pcrelib/pcre_compile.c:1059-1092 | accepted counts are in range and in order |
| PcreCounts.NumberChecked | 3rdparty/pcrelib/pcre_compile.c:1056-1079 | a number passes the check iff its low 32 bits do, and is then right iff it is within the limit |
| PcreCounts.OverflowAccepted | 3rdparty/pcrelib/pcre_compile.c:1056-1063 | a concrete count that is misread |
| PcreCode.LiteralCodes | 3rdparty/pcrelib/pcre_compile.c:4247-4400 | the bytes of a quantified literal, one case for each way of writing it |
| PcreCode.GroupCodes | 3rdparty/pcrelib/pcre_compile.c:4482-4678 | the bytes of a quantified group: skipped, optional, copied and nested |
| PcreProofs.PatternMatches | 3rdparty/pcrelib/pcre_compile.c:4247-4678 | for every pattern of the fragment the compiled code tries the same end positions in the same order as direct repetition and alternation |
| PcreProofs.LitMatches | 3rdparty/pcrelib/pcre_compile.c:4247-4400 | lowering a repeated literal to EXACT, UPTO, STAR, PLUS and QUERY keeps the order of tries |
| PcreProofs.NestedMatches | 3rdparty/pcrelib/pcre_compile.c:4618-4678 | nested optional copies try what a bounded repetition tries |
| PcreProofs.GroupMatches | 3rdparty/pcrelib/pcre_compile.c:4482-4678 | copies and nested optional copies together are {n,m} repetition of the group |
| PcreProofs.BracketMatches | 3rdparty/pcrelib/pcre_exec.c:859-891 | running a bracket tries its alternatives in turn, each followed by the rest |
| PcreStays.PatternStays | 3rdparty/pcrelib/pcre_exec.c:1502-1540 | running compiled code, on any subject, reads only bytes of that code and known opcodes |
| PcreSizing.TwoPassSizing | 3rdparty/pcrelib/pcre_compile.c:7134-7134 | the real pass writes no more than the pre-compile pass reserved, and exactly that iff no literal is repeated {0} |
| PcreSizing.PreItemPass | 3rdparty/pcrelib/pcre_compile.c:3059-3111 | the length bookkeeping counts each item exactly once |
| PcreSizing.PreQuantifyGroup | 3rdparty/pcrelib/pcre_compile.c:4557-4640 | the length added for a quantified group |
| PcreSizing.PreBracketPass | 3rdparty/pcrelib/pcre_compile.c:6255-6506 | the pre-compile pass computes the specified length |
| PcreEmitter.Emitter.EmitLiteral | 3rdparty/pcrelib/pcre_compile.c:4247-4400 | the overwritten and appended bytes are the specified code |
| PcreEmitter.Emitter.QuantifyGroup | 3rdparty/pcrelib/pcre_compile.c:4482-4678 | moving up, copying, opening and closing brackets leave the specified code |
| PcreEmitter.Emitter.CloseCopies | 3rdparty/pcrelib/pcre_compile.c:4656-4670 | following the chain of open brackets closes each one with matching links |
| PcreEmitter.Emitter.ReverseChain | 3rdparty/pcrelib/pcre_compile.c:6413-6427 | the backward links of the alternatives are turned into forward ones |
| PcreEmitter.Emitter.CompileBracket | 3rdparty/pcrelib/pcre_compile.c:6255-6506 | the real pass appends the specified bracket and stays in the buffer |
| PcreEmitter.CompilePattern | 3rdparty/pcrelib/pcre_compile.c:7041-7135 | too large iff the sized length exceeds the limit, else the specified code, written inside the sized block |
| PcreMatcher.Match | 3rdparty/pcrelib/pcre_exec.c:1512-3075 | the recursive matcher returns the first end position that is not refused |
| PcreMatcher.MatchGreedily | 3rdparty/pcrelib/pcre_exec.c:3050-3072 | maximizing tries from the most bytes down |
| PcreMatcher.MatchLazily | 3rdparty/pcrelib/pcre_exec.c:3034-3048 | minimizing tries from the fewest bytes up |
| PcreMatcher.MatchBracket | 3rdparty/pcrelib/pcre_exec.c:859-891 | alternatives one by one, the last one by tail call |
| PcreMatcher.FirstMeans | 3rdparty/pcrelib/pcre_exec.c:1157-1190 | an attempt fails iff nothing is tried or, with empty matches barred (always, or at the first start), nothing but the empty match; else it answers the first end position tried or, if barred, the first one that is not the start |
| PcreMatcher.Exec | 3rdparty/pcrelib/pcre_exec.c:5895-6182 | over a whole subject: the answer is the first allowed end position that direct repetition tries at the answered start, and at every tried start before it, or at all of them if there is no match, nothing allowed is tried |
| PcreMatcher.NextTried | 3rdparty/pcrelib/pcre_exec.c:6149-6178 | the next start is the next place that is not ruled out: by the anchor, by a first line that has ended, or as the LF of a CRLF |
| PcreMatcher.TriedMeans | 3rdparty/pcrelib/pcre_exec.c:6149-6178 | an anchored pattern is tried at the first start only; otherwise, without the first-line option, every place is tried but, where the newline convention has CRLF and the pattern names neither, the LF of a CRLF |
| PcreMatcher.FirstLineMeans | 3rdparty/pcrelib/pcre_exec.c:6149-6178 | with the first-line option a start is tried iff no newline of the convention begins in front of it |
| NameSpec.InsertRefuses | 3rdparty/pcrelib/pcre_compile.c:5295-5354 | ERR43 iff the name has another number without DUPNAMES; ERR65 iff a new name meets a used number |
| NameSpec.InsertAllSorts | 3rdparty/pcrelib/pcre_compile.c:5295-5359 | every accepted sequence of definitions leaves a sorted table with exactly its entries |
| NameSpec.InsertedIffDefined | 3rdparty/pcrelib/pcre_compile.c:5295-5359 | an entry is in the table iff the pattern defined it |
| NameSpec.NamesContiguous | 3rdparty/pcrelib/pcre_compile.c:5295-5359 | duplicate names are contiguous |
| NameSpec.InsertAscends | 3rdparty/pcrelib/pcre_compile.c:5320-5333 | duplicates stay in the order of their numbers |
| NameSpec.OneNameBroken | 3rdparty/pcrelib/pcre_compile.c:5335-5354 | an insertion is accepted and gives a number a second name iff duplicates are allowed, the name is not new, and the number has another name |
| NameSpec.OneNameWithoutDuplicates | 3rdparty/pcrelib/pcre_compile.c:5295-5354 | without DUPNAMES every accepted pattern has one name per number |
| NameSpec.TwoNamesForOneNumber | 3rdparty/pcrelib/pcre_compile.c:5335-5354 | an accepted pattern with two names for one number |
| NameTable.Table.Add | 3rdparty/pcrelib/pcre_compile.c:5295-5359 | the byte table after the search, the memmove and the copy is the specified one; after ERR43 it is unchanged, after ERR65 the old entries stand around the gap |
| NameTable.Table.StringNumber | 3rdparty/pcrelib/pcre_get.c:65-96 | the binary search answers a number of the name, or NOSUBSTRING iff the name is absent |
| NameTable.Table.StringTableEntries | 3rdparty/pcrelib/pcre_get.c:118-164 | the answer is exactly the run of the name |
| Base64Spec.DecodesLetters | src/ext-base64/cdecode.cpp:10-17 | with the wrapped signed subtraction a byte decodes to a value iff it is that value's letter |
| Base64Spec.OrIsSum | src/ext-base64/cdecode.cpp:53-84 | the bits that the compound or joins never meet, so the bitwise or is the sum |
| Base64Spec.DecodeInvertsEncode | src/ext-base64/cdecode.cpp:25-87 | the decoder inverts the encoding of section 4 of RFC 4648, with anything strewn between the letters |
| Base64Spec.DecodedCount | src/ext-base64/cdecode.cpp:25-87 | k letters give floor(3k/4) bytes and leave the decoder at step k mod 4 |
| Base64Spec.Resumable | src/ext-base64/cdecode.cpp:31-86 | decoding in two calls with the carried state is decoding at once |
| Base64Decoder.DecodeBlock | src/ext-base64/cdecode.cpp:25-87 | the loop writes exactly the decoded bytes, carries step and begun byte, and touches nothing behind the begun byte |

## Left out

- One object holding the three tiers of the heap: the tiers are classes, the dispatch of `malloc`, `free` and `getSize` over them is on values.
- Debug marks, file and line records, dumps, statistics printing, destructors and the heap-saving build.
- The 16-bit page id running out, and the 32-bit width of the counters.
- The bytes of block headers: type tags and overlaid links are fields, system memory is a fresh address.
- Registration of the old heap's size classes: their sizes and counts are a parameter, sorted and positive.
- OldHeap.Heap.UnlinkBlocks: the list of cached blocks is a sequence; the relinking of `next` is not modelled.
- OldHeap.Heap.ReleasePages: the list of pages is a sequence; the relinking of `next_page` is not modelled.
- OldHeap.Heap.StdAlloc: the system has the memory; the retry after a release of the cache is not modelled.
- `SetContentType`, `SetExternalDataBuffer` and `FinishData` of the multipart parser.
- The file names, content types and temporary file names that fields carry beside their bytes.
- The content a text field reports ends at its first NUL byte; the model compares the stored bytes.
- PCRE: parsing of the pattern text other than counts, capturing groups, unlimited repeats of groups (KETRMAX, KETRMIN), classes, assertions, back references, recursion, verbs, callouts, UTF-8, caseless and partial matching, and match limits.
- PCRE auto-possessification; the matcher is the caseful one-byte path.
- PcreMatcher.Exec: the start optimizations (first byte, start line, study data, required byte) are not modelled.
- ERR20 raised inside the sizing pass, which fires only for lengths the final check refuses as well.
- PcreEmitter.CompilePattern: allocates the code block only; the header record and the name table in front of it are not part of this model, nor is the workspace check (ERR52).
- Base64Decoder.DecodeBlock: the begun byte carried at step A is whatever stands in the output there and is not specified.
- The Base64 encoder, and all of the interpreter.

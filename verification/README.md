# Oronyx kernel: memory management, console and keyboard

A Dafny model of four stateful parts of the Oronyx kernel, with proofs about single calls, whole
runs and all interleavings.

* **Physical memory manager** (`mm/pmm.cpp`): a 64-slot sorted array of regions. `RegionTable` says
  what a request and a release do to the table as a value, `RegionLaws` what they mean,
  `AllocatorRuns` what holds in every run, `DrainLaws` when a run that frees everything restores the
  boot table, `MemoryMap` what boot must produce. `Pmm` holds the object that does it all in place
  and is proved against those functions.
* **Page-table mapper** (`arch/x86_64/src/mem_impl.cpp`): `PageWalk` defines the hardware walk of
  4-level paging (section 4.5 of the Intel SDM, volume 3A) over a memory of 64-bit words.
  `PageMapping` proves that the 4 KiB branch of `map_page` is a point update of that walk,
  `CallSteps` says what a call with any flags does to the walk, also where it meets large pages or
  malformed entries, `MapConditions` states exactly when each branch keeps its promise,
  `CallWords` what every word of memory is after a call, `TlbFlush` what the flush at its end leaves
  cached, `Mmu` is the code with its direct-map pointers, and `KernelMemory` puts allocator clients,
  the steps of `map_page` and a TLB that fills at any moment into one transition system.
* **Framebuffer console** (`drivers/graphics.cpp`): `Utf8` is the decoder with the encoder of
  section 3 of RFC 3629 as its partner, `Transcript` the unbounded, eagerly wrapped text,
  `Console` the cursor and the flat pixel buffer that is drawn into and scrolled in place.
* **Keyboard driver** (`drivers/keyboard.cpp`): `Keyboard` is the driver object, `KeyboardRuns`
  its consumer loop, one statement at a time, with interrupts between any two statements.

`Witnesses` holds an input for each condition below that the code fails somewhere.

## Conventions

Machine words are naturals below 2^64; masks, shifts and ORs are written as division, remainder and
sum; `Bits` proves that the functions of the model are the code's expressions, with the bitwise
operators that `Bitwise` defines bit by bit. Where the code can wrap, the wrap is written
out: the page count times 4096, the rounded start and the end of a memory-map entry, the merge
index that passes through 2^64 - 1, direct-map addresses, the first row that `scroll` clears.
Entries of the region table are unbounded naturals, and a valid table keeps every end below 2^64, so
no stored sum wraps. Physical memory is an array of words, and the processor has 52 physical address
bits. Inputs that come from outside are
parameters: the memory map, the direct-map offset, the root of the page tables, the font (as a
function of code point and row), scancode bytes.

What callers must guarantee, and why:

* Boot runs once and needs at least one accepted entry: with none, `region_count - 1` wraps and the
  sort runs past the array. The table is the canonical description of the map if usable entries
  are disjoint and their rounded sums stay below 2^64.
* `map_page` follows whatever frame a present entry names, with or without the page-size bit, so those
  frames must lie in memory, and a frame that it follows from a large page must not be a page table.
* The boot page tables are a tree of distinct frames outside the usable memory, and entries that
  refer to tables use only address bits below 52.
* A screen must be at least one text row high for the picture to be that of the transcript: a lower
  one does not scroll. Drawing stays inside the buffer without this.

Findings, where the code does less than its names or comments suggest:

* `free_pages` merges table neighbours without asking whether they touch (mm/pmm.cpp:132,140),
  though `init` does ask. A release keeps the described memory exactly when the free neighbours
  touch. A merge across a hole hands out the hole and loses as many bytes at the right end: in
  `HoleIsHandedOut` page 0x2000, which nobody described, becomes free and page 0x3000 is lost. No
  later release repairs this, so a run drains to the boot table exactly when it never happened. A
  page table in a hole becomes free memory in the same way (`RootBecomesFree`).
* A request for zero pages (also after wrap-around) is granted as an empty entry (`EmptyRequest`).
* A block at physical address 0 is reported as a failure and lost (`PageZeroIsLost`).
* The 2 MiB branch works exactly when both upper tables exist: it gives new ones the HUGE bit. The
  processor takes such an entry as malformed (at the root, and at the second level unless the frame is
  one of the first two of a GiB) or as a 1 GiB page. A malformed root entry stays: no later 2 MiB call
  below it changes any translation, though both tables now seem to be there (`HugeCallFails`).
* A mapping has the rights that its flags ask for exactly when every table entry already present above
  it has them; the code does not widen those entries (`RightsWithheld`).
* The single flush of the 2 MiB branch is enough exactly when no other page of the block was mapped by
  a 4 KiB entry; otherwise those pages may stay cached as they were (`FlushMissesPage`).
* Neither branch sees that an entry above its leaf is a large page or malformed: nothing is mapped, and
  a word of the large page is overwritten (`CoveredPageIsNotMapped`).
* On a screen that does not consist of whole text rows (the height is 201 inside `onx`), a line written in
  the last row shows only the pixel rows that fit there, also after it has scrolled up.
* A line feed in the overlong form C0 8A is decoded but drawn as a character, because `write` looks for
  the byte (`OverlongLineFeed`).
* The two headers give different font heights (201 and 20), so the height is a parameter.

Every lemma switches Dafny's automatic induction off, so that each proof rests on its body alone.

## Model

| member | source | states |
|---|---|---|
| Words.DirectMapWord | mm/pmm.cpp:110-112 | stepping through the direct map reaches the words of the physical block even where the virtual address wraps |
| Words.PageCount | mm/pmm.cpp:74 | a request is for 4096 bytes times the page count modulo 2^52 |
| RegionTable.FirstFitFrom | mm/pmm.cpp:75-77 | the entry found is free and large enough, and none before it is |
| RegionTable.FindFrom | mm/pmm.cpp:126-128 | the entry found has exactly this base and size, and none before it has |
| RegionTable.TakenBytes | mm/pmm.cpp:80-102 | a granted request moves exactly its bytes from free to used |
| RegionTable.FreeBytes | mm/pmm.cpp:123-152 | free plus used bytes never change; free bytes grow by the size only if a used entry matched |
| RegionTable.AllocValidIff | mm/pmm.cpp:71-121 | alignment, order, disjointness and the table bound survive a request exactly when it is not a granted request for zero bytes |
| RegionTable.FreeValid | mm/pmm.cpp:123-152 | they survive every release, also one that coalesces across a hole |
| RegionLaws.AllocExact | mm/pmm.cpp:73-102 | the block is at the front of the lowest fit; exactly its bytes stop being free; no byte enters or leaves the table |
| RegionLaws.AllocUsed | mm/pmm.cpp:80-102 | a granted request adds exactly one live block, new, the one returned |
| RegionLaws.AllocFailure | mm/pmm.cpp:75-120 | a request fails exactly when nothing fits or the table is full and the lowest fit is longer; 0 is returned exactly then or for a block at address 0 |
| RegionLaws.ReleaseTouching | mm/pmm.cpp:128-146 | where free neighbours touch, a release frees exactly the bytes of the block |
| RegionLaws.ReleaseCoverageIff | mm/pmm.cpp:130-146 | a release keeps the table inside the memory it described if and only if the free neighbours touch |
| RegionLaws.ReleaseFrees | mm/pmm.cpp:130-146 | a release makes the whole merged entry free, and no byte outside it |
| RegionLaws.FreeUsed | mm/pmm.cpp:123-152 | after a release of any arguments the named block is not live and every other live block still is |
| RegionLaws.FreeMemoryIsCount | mm/pmm.cpp:171-180 | the sum of the free lengths is the number of free bytes |
| RegionLaws.UsedDisjoint | mm/pmm.cpp:71-152 | two live blocks share no byte and no live byte is free |
| RegionLaws.AllocThenFree | mm/pmm.cpp:80-148 | request then release restores the table entry for entry exactly when no free neighbour can swallow the block |
| RegionLaws.TableBound | mm/pmm.cpp:86-91 | entries number at most twice the used ones plus adjacent free pairs plus one for a free front |
| RegionLaws.AllocPairs | mm/pmm.cpp:80-102 | a request creates no new pair of adjacent free entries |
| RegionLaws.FreePairsKept | mm/pmm.cpp:130-147 | neither does a release |
| AllocatorRuns.RunSafety | mm/pmm.cpp:71-152 | in every run: valid table, used entries are exactly the blocks returned and not yet freed, live blocks disjoint from each other and from free memory, bytes conserved |
| AllocatorRuns.RunTableBound | mm/pmm.cpp:86-101 | in every run at most 2 times the live blocks plus the boot entries; below 64 a request fails only for want of a fit |
| AllocatorRuns.FreeMemoryAccount | mm/pmm.cpp:171-180 | in every reachable state free memory falls by a granted request, rises by a release of a live block, and stays otherwise |
| AllocatorRuns.CanonicalUnique | mm/pmm.cpp:40-65 | a table of separated free runs is determined by the bytes it covers |
| DrainLaws.RunSpread | mm/pmm.cpp:71-152 | in every run the sum of the addresses described never rises, and stays exactly as long as no release merges across a hole |
| DrainLaws.DrainIff | mm/pmm.cpp:71-152 | once all blocks are freed, in any order, the table is the boot table exactly when every release found its free neighbours touching |
| DrainLaws.OneRegionDrain | mm/pmm.cpp:71-152 | from a one-region map every run drains to the boot table, and request then release is the identity in every reachable state |
| DrainLaws.HoleShift | mm/pmm.cpp:132-146 | a merge covers the swallowed entry's length from the left entry's end on instead of the swallowed entry, and nothing else changes |
| DrainLaws.HoleIsHandedOut | mm/pmm.cpp:140-146 | with two regions, one request and its release make a page of the hole free and lose the last page |
| MemoryMap.AcceptedPages | mm/pmm.cpp:26-36 | the region of an entry covers exactly the whole pages inside the entry |
| MemoryMap.AcceptedPagesIff | mm/pmm.cpp:26-36 | for any entry this holds exactly when the 64-bit sums do not wrap, or wrap to less than a page |
| MemoryMap.CollectedScattered | mm/pmm.cpp:21-38 | collected regions are page-aligned, free and disjoint |
| MemoryMap.TableCoversMap | mm/pmm.cpp:21-65 | the boot table covers exactly the whole pages of single usable entries |
| MemoryMap.OrderOfMapIsIrrelevant | mm/pmm.cpp:21-65 | any permutation of a memory map that fits gives the identical table |
| MemoryMap.MergeStep | mm/pmm.cpp:58-62 | merging touching entries keeps order, coverage and bytes, also where entries overlap |
| Pmm.PhysicalMemoryManager.CollectEntries | mm/pmm.cpp:21-38 | the loop fills the array with the accepted entries while there is room |
| Pmm.PhysicalMemoryManager.BubblePass | mm/pmm.cpp:44-52 | one pass brings the largest base to its end and permutes the entries |
| Pmm.PhysicalMemoryManager.SortByBase | mm/pmm.cpp:42-53 | the result is sorted by base and a permutation of the input |
| Pmm.PhysicalMemoryManager.MergeAdjacent | mm/pmm.cpp:56-65 | the merge pass, with its wrapping index, ends with no entry touching the next, in order, and with the same coverage and bytes |
| Pmm.PhysicalMemoryManager.Init | mm/pmm.cpp:12-69 | without a response nothing happens; else the table holds the collected bytes in order, with no entry touching the next, and for disjoint maps it is their canonical description |
| Pmm.PhysicalMemoryManager.ShiftLeft | mm/pmm.cpp:135-137 | the shifting loop deletes one entry |
| Pmm.PhysicalMemoryManager.ShiftRight | mm/pmm.cpp:92-93 | the shifting loop opens one slot and keeps all entries |
| Pmm.PhysicalMemoryManager.SplitEntry | mm/pmm.cpp:92-101 | the entry becomes a used front and a free rest |
| Pmm.PhysicalMemoryManager.ClearBlock | mm/pmm.cpp:110-112 | exactly the words of the block become zero |
| Pmm.PhysicalMemoryManager.FindFit | mm/pmm.cpp:75-77 | the search loop finds the first fit |
| Pmm.AllocClears | mm/pmm.cpp:110-112 | a granted request clears every word of the block taken, and no other |
| Pmm.PhysicalMemoryManager.AllocPages | mm/pmm.cpp:71-121 | for every count, address and table are those of a request for the wrapped byte count; each word is zero now if it lies in the block taken and otherwise as before |
| Pmm.PhysicalMemoryManager.ReleaseEntry | mm/pmm.cpp:130-146 | marking free and both merges give the released table |
| Pmm.PhysicalMemoryManager.FreePages | mm/pmm.cpp:123-152 | the table is that of a release of these arguments, and stays valid |
| Pmm.PhysicalMemoryManager.GetFreeMemory | mm/pmm.cpp:171-180 | the number of free bytes, by a sum of lengths that does not wrap |
| PageWalk.PathInjective | arch/x86_64/src/mem_impl.cpp:70-73 | the four nine-bit indices determine the page number |
| PageWalk.SameWalk | arch/x86_64/src/mem_impl.cpp:113-155 | memory that agrees on the tables gives the same translations |
| PageWalk.WalkKept | arch/x86_64/src/mem_impl.cpp:154 | a written entry changes no walk that does not use it |
| PageWalk.LeafTree | arch/x86_64/src/mem_impl.cpp:154 | a leaf write keeps the tree of tables |
| PageWalk.LeafWalk | arch/x86_64/src/mem_impl.cpp:154 | the walk through a written leaf ends there, with the rights of all entries above it |
| PageWalk.LinkTree | arch/x86_64/src/mem_impl.cpp:117-123 | linking a zeroed frame adds one table to the tree and nothing else |
| PageWalk.LinkWalk | arch/x86_64/src/mem_impl.cpp:117-123 | linking a zeroed frame changes no translation |
| PageMapping.IndexDigit | arch/x86_64/src/mem_impl.cpp:70-73 | the extracted indices are the digits of the 36-bit page number |
| PageMapping.EntryBits | arch/x86_64/src/mem_impl.cpp:146-154 | an entry made of an address and flags has the low flag bits and the address frame |
| PageMapping.TakePageKeeps | arch/x86_64/src/mem_impl.cpp:13-23 | a page from the allocator is zero, is no table, was free, and taking it disturbs no table |
| PageMapping.EnsureLevel | arch/x86_64/src/mem_impl.cpp:117-127 | following or creating a table keeps the invariant and every translation |
| PageMapping.LeafLevel | arch/x86_64/src/mem_impl.cpp:153-154 | exactly the pages under the written leaf get the new translation |
| PageMapping.MapSmallRefines | arch/x86_64/src/mem_impl.cpp:113-155 | the 4 KiB branch is a point update of the walk, succeeds exactly when the missing tables are granted, and on failure changes no translation |
| PageMapping.FrameExact | arch/x86_64/src/mem_impl.cpp:154 | the mapped frame is that of the physical address exactly when it fits in 52 bits |
| PageMapping.RightsBound | arch/x86_64/src/mem_impl.cpp:117-154 | rights never exceed the flags, and equal them exactly when every table entry already present above the leaf grants them |
| MapConditions.FailedCall | arch/x86_64/src/mem_impl.cpp:83-151 | a call of either branch, with any flags, that runs out of memory midway changes no translation |
| CallWords.LevelWords | arch/x86_64/src/mem_impl.cpp:83-105 | one level, word by word: a present slot is followed and nothing changes; otherwise the slot holds the address of the page granted and the low twelve flag bits, that page is clear, and no other word changes |
| CallWords.MapCallWords | arch/x86_64/src/mem_impl.cpp:68-156 | every word after a call with any flags, if the frames followed are in use: each slot that got a table holds the next page granted and the low twelve flag bits, the leaf slot holds the address and these bits, the new pages are clear otherwise, and no other word changes |
| CallWords.TreeCallWords | arch/x86_64/src/mem_impl.cpp:68-156 | on a path without large pages, moreover, every slot that was present keeps its word |
| MapConditions.CallKeepsOthers | arch/x86_64/src/mem_impl.cpp:68-156 | a call with any flags keeps every mapping outside its page or block; without HUGE it changes no other page at all |
| MapConditions.MapSmallIff | arch/x86_64/src/mem_impl.cpp:113-155 | a completed 4 KiB call maps its page, with rights as far as the upper tables allow, and nothing else exactly when the flags contain PRESENT and no entry with the page-size bit is in the way |
| MapConditions.MapSmallAskedIff | arch/x86_64/src/mem_impl.cpp:113-155 | it does so with the rights of the flags exactly when, besides, every table entry already present grants them |
| CallSteps.AnyStep | arch/x86_64/src/mem_impl.cpp:81-151 | one level of a call with any flags, in the tree or off it, keeps the invariant and every translation, unless it makes a 1 GiB page of an unmapped GiB |
| CallSteps.AnyLeaf | arch/x86_64/src/mem_impl.cpp:107-154 | the leaf write changes only pages under the leaf, and none if the call has left the tree |
| MapConditions.LargePageHidesMapping | arch/x86_64/src/mem_impl.cpp:141-154 | under an existing 2 MiB page the call overwrites one word of that page; if it is no page table, no translation changes and the mapping is not made |
| MapConditions.LargeEntryHides | arch/x86_64/src/mem_impl.cpp:81-154 | below a large page of any size or a malformed root entry a call of either branch changes no translation and does not map its page |
| MapConditions.MapHugeRefines | arch/x86_64/src/mem_impl.cpp:79-111 | with both upper tables present, all 512 pages of the block get the frames and flags asked for, with rights as far as the tables allow, and no other page changes |
| MapConditions.MissingRootEntry | arch/x86_64/src/mem_impl.cpp:83-89 | where the root entry is missing, the block faults after a completed 2 MiB call |
| MapConditions.MissingSecondEntry | arch/x86_64/src/mem_impl.cpp:96-101 | where the second table is missing, pages outside the block become mapped if the new frame is one of the first two of its GiB, and otherwise the block faults |
| MapConditions.GibLinked | arch/x86_64/src/mem_impl.cpp:96-101 | in the first case every page of the GiB was unmapped and becomes mapped by a 1 GiB page |
| MapConditions.MalformedRootStays | arch/x86_64/src/mem_impl.cpp:79-111 | after a completed 2 MiB call on a missing root entry no 2 MiB call below that entry changes a translation, though no table seems to be missing |
| MapConditions.MapHugeIff | arch/x86_64/src/mem_impl.cpp:79-111 | a completed 2 MiB call does this exactly when the flags contain PRESENT and both upper tables existed, with no page-size bit in their entries |
| MapConditions.MapHugeAskedIff | arch/x86_64/src/mem_impl.cpp:79-111 | it does so with the rights of the flags exactly when, besides, both entries grant them |
| TlbFlush.HugeFlushIff | arch/x86_64/src/mem_impl.cpp:107-110 | the single flush leaves every coherent TLB coherent exactly when no other page of the block was mapped by a 4 KiB entry before the call |
| TlbFlush.HugeFlushServesIff | arch/x86_64/src/mem_impl.cpp:107-110 | it leaves every coherent TLB with the right frames, flags and rights exactly when any such page already had its new ones |
| TlbFlush.SmallFlush | arch/x86_64/src/mem_impl.cpp:153-155 | the flush of a 4 KiB call with any flags leaves every coherent TLB coherent |
| Mmu.PageMapper.AllocPage | arch/x86_64/src/mem_impl.cpp:13-23 | null exactly on failure, else the direct-map pointer of the zeroed page |
| Mmu.PageMapper.NextTable | arch/x86_64/src/mem_impl.cpp:117-127 | through pointers, one level as specified, with a pointer to the next table; a slot filled holds its physical address and the low twelve flag bits |
| Mmu.PageMapper.MapPage | arch/x86_64/src/mem_impl.cpp:68-156 | memory and table after the call are those of the specified branch, for all flags, if the frames that it follows lie in memory |
| Mmu.CallInBounds | arch/x86_64/src/mem_impl.cpp:68-156 | they do in every state that satisfies the invariant, on a path without large pages |
| KernelMemory.BootSafe | arch/x86_64/src/mem_impl.cpp:30-44 | boot establishes the invariant of the whole system |
| KernelMemory.ClientAllocStep | mm/pmm.cpp:71-121 | a client's allocation, with its clearing loop, changes no translation and keeps the invariant |
| KernelMemory.ClientFreeIff | mm/pmm.cpp:123-152 | a client's release of a block it holds keeps the invariant exactly if no page table meets the merged entry |
| KernelMemory.TouchingFree | mm/pmm.cpp:130-146 | no page table meets it where the free neighbours touch the block |
| KernelMemory.ClientWriteStep | mm/pmm.cpp:71-121 | a client's write into a block it holds changes no translation |
| KernelMemory.AdvanceStep | arch/x86_64/src/mem_impl.cpp:68-156 | each step of a call with any flags keeps the invariant; only a leaf write in the tree, or a 1 GiB page made of an unmapped GiB, changes a translation, and only below it |
| KernelMemory.RunSafe | arch/x86_64/src/mem_impl.cpp:68-156 | in every run, also of calls that meet large pages or malformed entries, page tables are a tree of distinct frames, disjoint from free memory and from live blocks |
| KernelMemory.RunTranslations | arch/x86_64/src/mem_impl.cpp:68-156 | in every run a page translates alike until a leaf above it is written, or it is unmapped and a 2 MiB call makes a 1 GiB page above it |
| KernelMemory.RunLeafWrite | arch/x86_64/src/mem_impl.cpp:107-154 | in every run the leaf write gives each page under it the translation of a 4 KiB or 2 MiB mapping |
| KernelMemory.RunHugeLink | arch/x86_64/src/mem_impl.cpp:96-101 | in every run a page below such a 1 GiB page was unmapped and is mapped by it |
| KernelMemory.RunCoherent | arch/x86_64/src/mem_impl.cpp:25-28 | in runs whose 2 MiB calls start on blocks without other pages mapped by 4 KiB entries, a cached translation is stale only under the leaf between its write and its flush, and the flush drops it; for 4 KiB calls that is the page alone |
| KernelMemory.StepsAreMapCall | arch/x86_64/src/mem_impl.cpp:68-156 | the steps of a call, run to the end, are `map_page` |
| Utf8.DecodeOne | drivers/graphics.cpp:42-85 | a step consumes at least one byte and none after the terminator |
| Utf8.DecodeEncoded | drivers/graphics.cpp:42-85 | the encoding of a scalar value decodes to it, whatever follows |
| Utf8.RoundTrip | drivers/graphics.cpp:42-85 | stepping the decoder through an encoded text without NUL gives the text back, and the text holds no zero byte |
| Transcript.ItemsOfText | drivers/graphics.cpp:195-206 | for encoded text `write` sees its characters, line feeds as line breaks |
| Transcript.ItemsDecode | drivers/graphics.cpp:195-206 | for any bytes `write` sees the code points of the decoder, in order |
| Transcript.ItemsLocal | drivers/graphics.cpp:73-81 | whatever bytes come before, text that starts outside a sequence is written as on its own |
| Transcript.TruncatedItems | drivers/graphics.cpp:73-81 | a truncated sequence is written as one replacement character per stray byte, and the text after it is unharmed |
| Transcript.TranscriptWrapped | drivers/graphics.cpp:197-209 | the transcript is a wrapping of the text: each line but the last holds the next characters of the text and is full or followed by a line feed there, and the last holds the rest |
| Transcript.WrappingUnique | drivers/graphics.cpp:197-209 | this determines the lines |
| Transcript.WrittenText | drivers/graphics.cpp:193-211 | for any bytes, the lines of the transcript are the wrapping of what the decoder sees, and no other |
| Transcript.PutCell | drivers/graphics.cpp:87-114 | a character changes one cell of the visible grid |
| Transcript.BreakCell | drivers/graphics.cpp:134-140 | a line break moves the cursor down, or the grid up at the bottom |
| Console.Screen.constructor | drivers/graphics.cpp:143-159 | the fresh screen keeps its buffer, font, colours and size, is all background, and shows the empty transcript |
| Console.Screen.Clear | drivers/graphics.cpp:161-170 | every visible pixel is background, padding is untouched |
| Console.Screen.Scroll | drivers/graphics.cpp:116-132 | the overlapping copy is a simultaneous shift by one text row; padding is untouched; a low screen does not move |
| Console.Screen.NewLine | drivers/graphics.cpp:134-140 | the cursor stays on screen and the transcript gains a line break |
| Console.Screen.InkIsMask | drivers/graphics.cpp:98-109 | a glyph pixel is foreground exactly if its bit of the bitmap row is set, bit 7 at the left, each bit twice in a wide glyph |
| Console.WidthByBlock | drivers/graphics.cpp:29-40 | glyphs are 16 pixels wide in the CJK, kana and full-width blocks and 8 elsewhere |
| Console.Screen.PutGlyph | drivers/graphics.cpp:87-114 | exactly the pixels of the clipped glyph box change, to those of the glyph, for both widths; a narrow glyph extends the transcript |
| Console.Screen.PictureIsMask | drivers/graphics.cpp:87-132 | the picture of a transcript: which line, character and bit of the font each visible pixel shows |
| Console.Screen.ColsCover | drivers/graphics.cpp:199-204 | the columns are the fewest that cover the width |
| Console.Screen.GridRows | drivers/graphics.cpp:134-140 | the text rows just cover the height |
| Transcript.ReturnOverwrites | drivers/graphics.cpp:178-180 | after a carriage return a character replaces the first cell of the same line |
| Console.CharCodes | drivers/graphics.cpp:172-187 | line feed is 10, carriage return 13, any other byte a character by sign extension to 32 bits |
| Console.Screen.PutChar | drivers/graphics.cpp:172-191 | line feed, carriage return and other bytes act on the transcript; a carriage return moves the cursor to column 0 of its row and changes no pixel; the closing scroll is never needed |
| Console.Screen.DecodeUtf8 | drivers/graphics.cpp:42-85 | the loop computes the specified decoding and reads nothing after the terminator |
| Console.Screen.Write | drivers/graphics.cpp:193-211 | on a screen of any height from one text row on, a single-width string extends the transcript, and pixels and cursor are those of its last rows, with lines cut that were written in a cut row |
| Console.Screen.WriteLine | drivers/graphics.cpp:213-217 | the same, followed by a line break |
| Keyboard.EnqueueAppends | drivers/keyboard.cpp:47-55 | an event is appended and no waiting event is overwritten, also when the size lags by one |
| Keyboard.MoveHead | drivers/keyboard.cpp:81-82 | moving the head removes exactly the oldest event |
| Keyboard.KeyCharacters | drivers/keyboard.cpp:31-63 | the characters of the US keys by scancode, upper ones with exactly one of shift and caps lock, none for other codes |
| Keyboard.EchoIsText | drivers/keyboard.cpp:90-95 | the echo consists, in order, of the characters of exactly the pressed events that have one |
| Keyboard.Driver.KeyboardHandler | drivers/keyboard.cpp:99-135 | a press of any key but shift, caps lock and backspace sets the last key and, while fewer than 64 wait, queues an event with its code and character; the rest of the state is that of the specified handler |
| Keyboard.Driver.DequeueEvent | drivers/keyboard.cpp:76-85 | the oldest event is returned and the others stay in order |
| Keyboard.Driver.ProcessInput | drivers/keyboard.cpp:87-97 | without interrupts the loop empties the ring and echoes the characters of the waiting events, in order, skipping those without one |
| KeyboardRuns.InterruptStep | drivers/keyboard.cpp:99-135 | an interrupt between any two consumer statements keeps the ring invariant |
| KeyboardRuns.ConsumerStep | drivers/keyboard.cpp:76-97 | every consumer statement keeps it |
| KeyboardRuns.RunDelivers | drivers/keyboard.cpp:47-135 | under every interleaving delivered events are a prefix, in order, of the accepted presses, and the rest is exactly in flight or in the ring |
| KeyboardRuns.RunDeliversCodes | drivers/keyboard.cpp:47-135 | under every interleaving the i-th delivered event reports the i-th accepted byte, with its code and the character that shift and caps lock give it; a byte is accepted exactly if it is a press of an ordinary key and there is room |
| KeyboardRuns.KeysReflectCodes | drivers/keyboard.cpp:57-74 | after any scancodes each key and shift shows its last byte, and caps lock its number of presses |
| KeyboardRuns.CharacterTyped | drivers/keyboard.cpp:57-64 | after any scancodes a key yields its shifted character exactly if holding shift and the parity of caps lock presses say so |
| KeyboardRuns.LastKeyTyped | drivers/keyboard.cpp:66-69 | after any scancodes the last key is the character of the last offered press as it was typed |
| KeyboardRuns.TornShrinkIff | drivers/keyboard.cpp:83 | if the size decrement were split by an interrupt, the ring would stay right exactly when that interrupt accepts nothing |
| Witnesses.EmptyRequest | mm/pmm.cpp:71-80 | a request for no pages, or for 2^52, is granted and breaks the table |
| Witnesses.PageZeroIsLost | mm/pmm.cpp:104-120 | a granted block at address 0 is reported as a failure and its page is no longer free |
| Witnesses.HugeCallFails | arch/x86_64/src/mem_impl.cpp:83-101 | a 2 MiB call on empty tables completes without mapping its block, and so does a second one that finds both upper entries present |
| Witnesses.FlushMissesPage | arch/x86_64/src/mem_impl.cpp:107-110 | a page of the block that was mapped and cached stays cached as it was |
| Witnesses.CoveredPageIsNotMapped | arch/x86_64/src/mem_impl.cpp:141-154 | a 4 KiB call under a 2 MiB page maps nothing and overwrites a word of that page |
| Witnesses.RightsWithheld | arch/x86_64/src/mem_impl.cpp:113-154 | a USER page mapped below a supervisor-only root entry is not accessible to users |
| Witnesses.RootBecomesFree | mm/pmm.cpp:130-146 | from a boot table one request and its release next to a hole that holds the root table break the invariant |
| Bits.AlignIsMask | mm/pmm.cpp:27-28 | rounding down to a page is the mask of the code |
| Bits.IndexIsMask | arch/x86_64/src/mem_impl.cpp:70-73 | the index of a level is the code's shift and nine-bit mask |
| Bits.EntryIsMask | arch/x86_64/src/mem_impl.cpp:154 | a 4 KiB entry is the code's masks and OR |
| Bits.HugeEntryIsMask | arch/x86_64/src/mem_impl.cpp:108 | a 2 MiB entry is the code's masks and ORs |
| Bits.FlagIsMask | arch/x86_64/src/mem_impl.cpp:79-83 | the tests of PRESENT and HUGE are the code's |
| Bits.ByteTests | drivers/graphics.cpp:45-77 | the byte classes of the decoder are the code's mask tests |
| Bits.PayloadBits | drivers/graphics.cpp:55-81 | payload bits and their accumulation are the code's masks, shift and OR |
| Bits.DecodeIsMasks | drivers/graphics.cpp:42-85 | a decoding step, for any bytes, in the code's masks and shifts, U+FFFD for every malformed one |
| Bits.GlyphBitIsMask | drivers/graphics.cpp:108-109 | the test of a glyph pixel is the code's mask with a shifted bit |
| Bits.ScancodeBits | drivers/keyboard.cpp:103-104 | release bit and key of a scancode are the code's masks |

## Left out

- Pmm.PhysicalMemoryManager.Init: needs one accepted entry; with none the code's loop bounds wrap and it leaves the region array, which has no meaning here.
- MapConditions.LargePageHidesMapping: where the frame of the large page is itself a page table, it says only which word the call changes.
- KernelMemory.RunCoherent: assumes of each 2 MiB call that its block holds no other page mapped by a 4 KiB entry; without that the flush need not be enough, as `HugeFlushIff` says.
- KernelMemory.RunSafe: leaves out releases whose merged entry meets a page table, because they break the invariant, as `ClientFreeIff` says, and calls that follow a frame outside memory or, from a large page, a frame that is a page table.
- Console.Screen.Write: the picture is claimed for single-width characters, one pair of colours and a height of at least one text row; drawing inside the buffer and the cursor bound hold for all strings.
- The accessed and dirty bits that the hardware sets, paging-structure caches, global pages and the NX bit, which `map_page` drops.
- Page tables on other processors, unmapping, 1 GiB pages and 5-level paging: not in `map_page`.
- CR0, EFER and CR3 setup and the one page that memory initialisation takes and drops.
- Double-width layout of text, the font data, `get_glyph`, `setcolor` and `setcursor`.
- The backspace that the interrupt handler draws, and a console call interrupted by another.
- Tearing of multi-byte fields when an event is copied out of the ring: its slot cannot be reused before the size shrinks.
- Messages printed by the memory manager, and `print_regions`.
- Descriptor tables, APIC and port programming, the aarch64 port, the runtime library and boot glue: no logic of the kind proved here.

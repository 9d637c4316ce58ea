# Ganoid verification model

Ganoid is a small i386 teaching kernel. This project models its four stateful
parts in Dafny and proves what they promise over whole runs:

- the physical page allocator with `kmalloc` (`mm/page.c`, `mm/heap.c`) and the
  boot allocator (`mm/bootmem.c`), down to the bits of their packed bitmaps;
- the keyboard pipeline: interrupt ring, scan-code decoder, key maps
  (`arch/i386/kernel/kbd-handler.c`);
- the number printer and parsers of `lib/libc/vsprintf.c` and
  `lib/libc/stdlib.c`;
- the round-robin scheduler and thread creation (`kernel/sched.c`,
  `kernel/process.c`), with the register frame of `vectors.S` and the registers each
  thread comes back with.

Each part has the same shape. Classes and methods follow the C code statement by
statement, over arrays, linked nodes and indices, and are proved equal to
functions on values (a set of busy frames, a queue of bytes, a string, a queue of
tasks). The lemmas then state the properties of those functions.

## What holds, and what does not

- **Run search.** Both allocators resume a failed search at the last free frame of
  the short run instead of past the busy frame that ended it. The model keeps that
  step. Every answer it gives is the first fit (or a correct refusal), and it loops
  for ever exactly under `StallCondition`, a test on the first free run alone. A
  call that never returns is a result of its own (`Stalls`, `NeverReturns`). The
  step that was meant is modelled beside it and proved to be first fit exactly.
  `KernelAboveFrameZero` gives boot maps on which the page allocator hangs,
  `OneFreeStalls` three calls after which the boot allocator does. Until something
  is freed the boot heap is safe: `AllocationsAloneNeverStall`.
- **Run search, probe.** The probe of the page allocator has no bound. It leaves the
  bitmap exactly when the first free run is too short and reaches the top frame
  (`ProbeOverruns`); the result is then `Undefined`. The top frame is busy, and the
  probe safe, exactly when no region of the memory map ends in that frame.
- **bm_free inside page 0.** While a node is unused, a pointer 1..4095 finds it, a
  (0, 0) node, and breaks the count; with no node unused it stops in the assertion.
  In every other case the accounts stay exact.
- **Boot allocator test.** The loop of testcases/t_bootmem.c:105 ends with NULL, so the
  test frees NULL and its last `bm_malloc` fails; `OnePageComesBack` proves what its
  comment means to check. A `while (1)` at line 100 stops the test before that.
- **bm_malloc sizes.** Size 0 and sizes above 0xFFFFF000 round to no pages in 32 bits;
  the call then hangs as soon as a node and a heap frame are free.
- **Frame 0.** A block at frame 0 comes back as NULL. Only a pointer inside page 0,
  which no call returns, frees the frame again, so with page-aligned pointers this
  happens at most once in a run.
- **Boot map.** A map of non-empty regions below the top of memory is exact if and only
  if each region either shares no frame with the kernel, or holds it with its first
  byte on a page boundary (or on the first byte of the region). A region that reaches
  the top, or whose kernel reaches the top frame, has kernel frames freed. An empty
  region inside a page frees that page, the one at address 0 all memory, and a region
  that wraps past the top one page at most; `BootMapExactlyWhen` covers them all.
- **Thread table.** The `_ASSERT` in `get_free_task_struct` expands to
  `!index < max` and stops every thread of a table of ten. `KernelThread` has the
  bound check as meant; `AssertAgreesExactlyWhen` says where the two differ.
- **Run queue.** A task added twice does not make the list cyclic: its next pointer is
  cleared, which cuts off every task behind it.
- **Decoder.** One basic key stroke brings the decoder home from any state, and the
  words `c F0 d` are the shortest that do. A prefix that cannot come takes the byte
  behind it along in silence. Of two keys held at once the second release is never
  noticed; a basic key pressed under an extended one is not noticed at all, and an
  extended one under a basic one is read as the basic key of its code, after a key
  0xE0 (`OverlapDecodes`): an arrow with shift held reads as a keypad digit.
- **read_key.** It returns 0 exactly when the first make among the bytes waiting is of
  a listed key, and -1 otherwise, with the buffer empty too. For a key not listed it
  sets `*key` from an uninitialised local. Left control (0x14) has no entry.
- **Key maps.** `KeyLayout` gives the keys of the maps by rows of the keyboard. The 51
  characters and 32 other basic keys named there are all 83 of the basic map, and the
  38 extended keys all of the other.
- **itoa.** In base 2 the leading divisor of a number with the top bit set overflows
  the `long`, and a 1 and 31 zeros are printed: right up to 2^31, wrong above. Bases
  10 and 16, the only ones the kernel uses, are right for every number.
- **strtoull.** Section 7.20.1.4 of ISO C99 prescribes another value for six kinds of
  numbers: with base 0 decimal numbers, which are not read at all, and numbers behind
  two prefixes (`0x0x12` is 18); with base 0 or 16 those behind `0X`, which are not read
  either; numbers behind white space other than ' '; numbers with digits the code does
  not know, lower-case letters and the letters of bases other than 16; and numbers of
  2^64 or more, which wrap where the standard has ULLONG_MAX. `ReadAsStandard` is the
  exact condition, `EndsAsStandard` the one for the end pointer.
- **Comments.** mm/page.c:108 says that `from` is never zero, but the search starts
  there. arch/i386/kernel/kbd-handler.c:336 says that a key is sent on its break; the
  code sends it on its make.
- **Runs of threads.** The runs of `ContextRuns` are over an abstract machine;
  `ContextSwitch` proves that the run queue, the stacks and the registers take its
  steps: the interrupt stub with `schedule_pending`, `kernel_thread`, `init_schedular`.

Conventions: unsigned arithmetic wraps explicitly (`ToU32`, `ToU64`), and signed
overflow, undefined in C, is taken to wrap as on the i386. A C string is the
characters before its terminator. Critical sections are atomic steps. The byte read
by the keyboard interrupt, the interrupted frame pointer, the memory map, the
kernel's extent and the content of an uninitialised local are parameters.

## Model

| member | source | states |
|---|---|---|
| Words.MaskTest | mm/page.c:76-82 | the C test of a word against `1 << k` is nonzero exactly when bit k is set |
| Words.WithBit | mm/page.c:60-66 | or-ing the mask in sets that bit and no other |
| Words.WithoutBit | mm/page.c:68-74 | and-ing the complemented mask clears that bit and no other |
| Words.MaskWalk | mm/bootmem.c:230-241 | the mask of the search loops visits each bit and is zero exactly past the top one |
| FrameBitmap.BitmapExtensional | mm/bootmem.c:51 | the set of busy frames determines every word of the bitmap |
| FrameBitmap.SetBit | mm/bootmem.c:181-194 | exactly one frame becomes busy |
| FrameBitmap.ClearBit | mm/bootmem.c:196-206 | exactly one frame becomes free |
| FrameBitmap.GetBit | mm/bootmem.c:208-214 | true exactly for busy frames |
| FrameBitmap.SetBitRange | mm/page.c:87-92 | exactly the frames from start through end become busy |
| FrameBitmap.ClearBitRange | mm/page.c:97-105 | exactly the frames from start through end become free |
| FrameSearch.StallsExactly | mm/page.c:153-171 | the loop with the source's resume step runs for ever if and only if the first free run is too short and the request would still fit from its end; otherwise it is done within two passes |
| FrameSearch.ResumeIsFixed | mm/page.c:170 | after one short run the resume point never moves again |
| FrameSearch.AsWrittenAnswers | mm/page.c:146-177 | every start returned is the first fit, and a refusal means no run fits |
| FrameSearch.IntendedIsFirstFit | mm/page.c:137-145 | the search with the intended step returns s if and only if s is the lowest start of `count` free frames, and fails if and only if there is none |
| FrameSearch.AsWrittenAgrees | mm/page.c:146-177 | source and intended search agree wherever the source's returns |
| FrameSearch.SingleFrameNeverStalls | mm/page.c:158-166 | one-frame requests always return |
| PageAllocator.PageAllocator.FindFirstFree | mm/page.c:112-135 | the word and mask loops find the first free frame at or after `from` |
| PageAllocator.PageAllocator.Probe | mm/page.c:158-162 | counts the free frames after a free one up to the wanted number, and leaves the bitmap exactly when the run is shorter and reaches the top frame |
| PageAllocator.PageAllocator.ScanRun | mm/page.c:155-166 | one pass finds the first free frame and measures its run, or leaves the bitmap |
| PageAllocator.PageAllocator.FindFreeBitsRange | mm/page.c:146-177 | the loops compute the search as written, stalls and overruns included, for every bitmap and count |
| PageAllocator.PageAllocator.FindFreeBitsRangeIntended | mm/page.c:137-145 | the same loops with the resume step as meant, and a probe that ends with memory, terminate and compute first fit, for every bitmap and count |
| PageAllocator.PageAllocator.InitPageAllocator | mm/page.c:210-258 | all frames are busy except those the memory map frees |
| BootMap.RegionExact | mm/page.c:231-258 | any region, empty and wrapping ones included: it frees exactly the frames it stands for outside the kernel, or else a frame of the kernel |
| BootMap.BootMapExactlyWhen | mm/page.c:210-258 | for every map whatever: free means some byte in RAM and none in the kernel, if and only if the kernel is apart from each region or handled inside it, the page of an empty region is RAM, and the pages of a region past the top of memory are seen to by others |
| BootMap.BootMapExact | mm/page.c:233-251 | disjoint aligned regions below the top of memory with an aligned kernel inside one of them give an exact map, and their frames lie in them whole |
| BootMap.TopFrameStaysBusyExactlyWhen | mm/page.c:231-257 | for every map: the top frame stays busy if and only if no region has its last byte, as computed in 32 bits, in that frame |
| BootMap.EmptyRegionFreesAll | mm/page.c:255-256 | a region of length 0 at address 0 frees every frame |
| PageAllocator.PageAllocator.GetFreePages | mm/page.c:265-285 | takes exactly the frames found and returns their address, or changes nothing |
| PageAllocator.PageAllocator.FreePage | mm/page.c:287-292 | frees the frame of the pointer; NULL is ignored |
| PageAllocator.PageAllocator.Kmalloc | mm/heap.c:16-21 | get_free_pages of size / 4096 + 1 pages |
| PageAllocator.PageAllocator.DumpFreeInfo | mm/page.c:179-202 | the lines printed are a run-length encoding of frames 0..LAST_BIT_NO-1 |
| FrameRuns.EncodingUnique | mm/page.c:186-200 | there is only one such encoding |
| FrameRuns.EncodingBytes | mm/page.c:195-196 | the sizes printed add up to LAST_BIT_NO pages |
| PageRuns.BootStateInvExactlyWhen | mm/page.c:210-258 | the boot state satisfies the invariant of the runs if and only if no region ends in the top frame |
| PageRuns.RunKeepsInv | mm/page.c:265-292 | over every run, free, held and reserved frames partition memory, reserved never changes, no frame has two owners |
| PageRuns.AllocateKeepsInv | mm/page.c:265-285 | an allocation keeps the partition |
| PageRuns.ReleaseKeepsInv | mm/page.c:287-292 | free_page of any address in a held frame, or of NULL, keeps the partition and frees no reserved frame |
| PageRuns.KmallocExceedsRequest | mm/heap.c:18 | a kmalloc block is larger than the request by at most a page |
| PageRuns.IntactBlocksApart | mm/heap.c:16-21 | blocks not given back share no byte |
| PageRuns.FrameZeroBalance | mm/page.c:284-291 | over every run frame 0 is claimed as often as it is freed, plus or minus the change between start and end |
| PageRuns.ZeroReleasedBy | mm/page.c:287-292 | frame 0 is freed if and only if a pointer 1..4095 is given back |
| PageRuns.FrameZeroClaimedOnce | mm/page.c:284-291 | with page-aligned pointers frame 0 goes from free to busy at most once in a run, and never back |
| PageRuns.NullKeepsFramesExactlyWhen | mm/page.c:284 | NULL is returned for a block that was taken if and only if a long enough run starts at frame 0 |
| PageRuns.NullExactlyWhen | mm/page.c:269-285 | all cases in which get_free_pages returns NULL, for every bitmap |
| PageRuns.HangsExactlyWhen | mm/page.c:146-171 | get_free_pages hangs if and only if the first run of free frames is too short and the request would fit from its last frame on |
| PageRuns.OverrunsExactlyWhen | mm/page.c:153-162 | it leaves the bitmap if and only if that run ends with the top frame and the request is for no more than all of memory |
| PageRuns.PointerIsBlock | mm/page.c:265-285 | the pointer returned is the first byte of the new block, the requested bytes lie in memory behind it, and exactly free frames became busy |
| PageRuns.TopFrameStopsProbe | mm/page.c:158-162 | with the top frame busy no request leaves the bitmap |
| PageRuns.OverrunWitness | mm/page.c:146-285 | booted with RAM in the top frame alone, a request for two frames leaves the bitmap |
| PageRuns.KernelAboveFrameZero | mm/page.c:146-285 | with the kernel in frames 1..last and RAM around it, a request for one frame returns NULL and keeps frame 0, and one for two frames hangs though it fits |
| BootAllocator.BootAllocator.FindFirstFree | mm/bootmem.c:216-248 | the bounded word and mask loops find the first free frame of the heap at or after `from` |
| BootAllocator.BootAllocator.FindFreeBitsRange | mm/bootmem.c:251-296 | the loops, with their stale locals and wrapped counter, compute the heap search |
| BootAllocator.BootAllocator.SearchBitInAcnt | mm/bootmem.c:406-431 | the first node whose range has the bit |
| BootAllocator.BootAllocator.SearchFreeAcntNode | mm/bootmem.c:435-441 | the first node whose range has bit 0 |
| BootAllocator.BootAllocator.BmMalloc | mm/bootmem.c:341-378 | bitmap, table and counter change exactly as specified, or not at all |
| BootAllocator.BootAllocator.BmFree | mm/bootmem.c:381-401 | the block of the node found is given back; an unknown pointer stops in the assertion |
| BootSpec.RunKeepsInv | mm/bootmem.c:341-401 | over every run the live ranges lie in the heap, are disjoint, and with the reserved frames are exactly the busy ones; unused nodes are (0,0); acnt_i counts the live ones |
| BootSpec.SetupInv | mm/bootmem.c:148-170 | the empty table with any frames reserved satisfies the invariant runs start from |
| BootAllocator.BootAllocator.constructor | mm/bootmem.c:51-70 | the state set up is that one |
| BootSpec.MallocKeepsInv | mm/bootmem.c:341-378 | bm_malloc keeps that invariant for every size |
| BootSpec.FreeKeepsInvExactlyWhen | mm/bootmem.c:381-401 | bm_free keeps it if and only if the pointer is not inside page 0 with a node unused |
| BootSpec.FreeStopsExactlyWhen | mm/bootmem.c:381-401 | bm_free stops in its assertion if and only if the pointer is not NULL, in no block handed out, and not inside page 0 with a node unused; it has then changed nothing |
| BootSpec.PageZeroWitness | mm/bootmem.c:381-401 | bm_free of the pointer 1 on an empty table makes acnt_i 0xFFFFFFFF |
| BootSpec.MallocThenFree | mm/bootmem.c:341-401 | bm_free of any address in a new block undoes bm_malloc completely |
| BootSpec.FreedRoomIsFound | testcases/t_bootmem.c:101-111 | the intent of the comment, for any block: after a block is freed a request for no more pages is never refused: the intended search finds it room, the source's finds it or stalls |
| BootSpec.OnePageComesBack | testcases/t_bootmem.c:101-111 | what the comment means to check: a freed page can be had again, with the search as it is |
| BootSpec.TestFreesNull | testcases/t_bootmem.c:101-111 | what the lines do: from every state the loop ends, NULL is freed, and the last bm_malloc gives NULL |
| BootSpec.PagesForExactlyWhen | mm/bootmem.c:347-348 | sizes 1..0xFFFFF000 ask for just enough pages, all others for none |
| BootSpec.OddSizeHangsExactlyWhen | mm/bootmem.c:251-296 | bm_malloc of such another size hangs if and only if a node and a heap frame are free |
| BootSpec.RefusalMeansFull | mm/bootmem.c:352-365 | bm_malloc gives NULL only without a node or without room |
| BootSpec.MallocAnswers | mm/bootmem.c:341-378 | for every size that asks for pages: bm_malloc hangs exactly with a node left under the stall condition, gives NULL exactly without a node or, not stalling, without room, and else the first fit |
| BootSpec.AllocationsAloneNeverStall | mm/bootmem.c:341-378 | from a heap whose free frames are its last, any sequence of allocations returns the addresses of blocks laid end to end, and NULL exactly for requests without node or room |
| BootSpec.OneFreeStalls | mm/bootmem.c:287 | two pages taken from an empty heap and the first given back, and a request for two hangs though it fits |
| KeyDecoder.KeyboardRoundTrip | arch/i386/kernel/kbd-handler.c:413-546 | decoding the bytes of any strokes gives their makes and breaks in order and ends in STATE_INIT |
| KeyDecoder.TwoReleasesReset | arch/i386/kernel/kbd-handler.c:431-542 | F0 c F0 d brings the decoder to STATE_INIT from every state |
| KeyDecoder.DecodesAfterReset | arch/i386/kernel/kbd-handler.c:413-546 | after any bytes and that word, strokes decode exactly |
| KeyDecoder.ShortestResets | arch/i386/kernel/kbd-handler.c:431-542 | the words of at most three bytes that reset every state are exactly c F0 d |
| KeyDecoder.BasicStrokeResets | arch/i386/kernel/kbd-handler.c:431-542 | one basic stroke resets the decoder whatever came before |
| KeyDecoder.UnexpectedPrefix | arch/i386/kernel/kbd-handler.c:431-542 | in each state, an E0 or F0 that cannot come and the byte behind it, whichever, report nothing, and strokes behind them decode exactly |
| KeyDecoder.LoneRelease | arch/i386/kernel/kbd-handler.c:413-546 | the release of a key whose press was not seen reports nothing, and strokes behind it decode exactly |
| KeyDecoder.BasicUnderExtended | arch/i386/kernel/kbd-handler.c:491-502 | a basic press while an extended key is held reports nothing and brings the decoder to STATE_INIT |
| KeyDecoder.ExtendedUnderBasic | arch/i386/kernel/kbd-handler.c:448-460 | an extended press or release while a basic key is held is read as basic keys, E0 among them |
| KeyDecoder.OverlapDecodes | arch/i386/kernel/kbd-handler.c:413-546 | exactly what two overlapping strokes of either kind report, in either order of release, ending in STATE_INIT |
| KeyMaps.BasicMapIncreasing | arch/i386/kernel/kbd-handler.c:67-152 | the basic map is sorted by scan code without repeats |
| KeyMaps.ExtendedMapIncreasing | arch/i386/kernel/kbd-handler.c:202-241 | so is the extended map |
| KeyMaps.MapValues | arch/i386/kernel/kbd-handler.c:29-65 | basic values lie below 0x200 and extended ones in 0x200..0x2FF |
| KeyMaps.BinarySearchKey | arch/i386/kernel/kbd-handler.c:548-598 | terminates inside any sorted non-empty map and returns 0 with the value listed, or -1 if none is |
| KeyMaps.LookupMeaning | arch/i386/kernel/kbd-handler.c:548-598 | a value is found if and only if the map lists the code, and it is the one listed |
| KeyLayout.DigitRow | arch/i386/kernel/kbd-handler.c:67-152 | the scan codes of the digit row give its characters |
| KeyLayout.TopRow | arch/i386/kernel/kbd-handler.c:67-152 | those of tab and the upper letter row theirs |
| KeyLayout.HomeRow | arch/i386/kernel/kbd-handler.c:67-152 | those of the home row and enter theirs |
| KeyLayout.BottomRow | arch/i386/kernel/kbd-handler.c:67-152 | those of the bottom row and space theirs |
| KeyLayout.FunctionKeys | arch/i386/kernel/kbd-handler.c:29-40 | F1 to F12 give 0x100 plus their scan code |
| KeyLayout.Keypad | arch/i386/kernel/kbd-handler.c:49-63 | so do the keys of the keypad |
| KeyLayout.OtherKeys | arch/i386/kernel/kbd-handler.c:42-65 | and the modifiers, escape and num lock |
| KeyLayout.Modifiers | arch/i386/kernel/kbd-handler.c:184-200 | the extended modifiers and keypad keys give 0x200 plus their scan code |
| KeyLayout.Navigation | arch/i386/kernel/kbd-handler.c:189-198 | so do the keys of the navigation block |
| KeyLayout.Multimedia | arch/i386/kernel/kbd-handler.c:161-182 | and the multimedia and power keys |
| KeyLayout.KeyValues | arch/i386/kernel/kbd-handler.c:67-241 | the maps have 83 and 38 keys, no two of one map with the same value, and what is no character is the flag plus the scan code |
| KeyLayout.LeftControlUnlisted | arch/i386/kernel/kbd-handler.c:82 | left control is not in the basic map |
| Keyboard.RingPush | arch/i386/kernel/kbd-handler.c:262-274 | writing at head appends, and drops the oldest byte exactly when nine are unread |
| Keyboard.KeyboardDriver.KbdIsr | arch/i386/kernel/kbd-handler.c:260-285 | the ring keeps the newest nine bytes; indices stay in 0..9 |
| Keyboard.KeyboardDriver.FlushKbdBuffer | arch/i386/kernel/kbd-handler.c:287-295 | nothing is unread afterwards |
| Keyboard.KeyboardDriver.KeyboardStateMachine | arch/i386/kernel/kbd-handler.c:413-546 | the switch computes the decoder function the lemmas are about |
| Keyboard.KeyboardDriver.ParseLoop | arch/i386/kernel/kbd-handler.c:324-344 | consumes up to and including the first byte that makes a key |
| Keyboard.KeyboardDriver.ReadKey | arch/i386/kernel/kbd-handler.c:297-392 | reports that key from the key maps, or -1; for a code not listed the uninitialised local is stored |
| Keyboard.ReportKey | arch/i386/kernel/kbd-handler.c:348-388 | the two map searches and flag tests give the report specified |
| KeyboardRuns.ReportMeaning | arch/i386/kernel/kbd-handler.c:350-388 | a key is reported if and only if its map lists the code, and is printable if and only if its value is a character; otherwise the result is -1 |
| KeyboardRuns.ReadAnswers | arch/i386/kernel/kbd-handler.c:297-392 | read_key returns 0 if and only if the first make among the outputs for the unread bytes is of a listed key, and -1 in every other case, the empty buffer included |
| KeyboardRuns.ParseTakesFirst | arch/i386/kernel/kbd-handler.c:324-344 | the key taken is the first make among those outputs, if there is one |
| KeyboardRuns.FlushedReadsNothing | arch/i386/kernel/kbd-handler.c:287-295 | after a flush the buffer is empty, the decoder as it was, and a read answers -1 |
| KeyboardRuns.ParseConsumes | arch/i386/kernel/kbd-handler.c:324-344 | a read delivers exactly the makes among the bytes it consumes |
| KeyboardRuns.RunKeepsInv | arch/i386/kernel/kbd-handler.c:260-344 | over every run of interrupts, reads and flushes the bytes decoded are received bytes in order, the keys delivered are those of decoding them, read_key has answered each as its map says, and -1 for all other reads |
| KeyboardRuns.RingKeepsNewest | arch/i386/kernel/kbd-handler.c:260-285 | interrupts between two reads leave the newest nine unread bytes, in order |
| KeyboardRuns.DeliveredIsWholeStream | arch/i386/kernel/kbd-handler.c:260-344 | without loss, any interleaving delivers the makes of the whole stream |
| KeyboardRuns.StrokesDelivered | arch/i386/kernel/kbd-handler.c:260-392 | each press and repeat of the strokes sent is delivered once, in order, and answered by read_key with the value its map lists, or with -1 |
| KeyboardRuns.RunTypes | arch/i386/kernel/clib.c:36-49 | over every run getc is handed exactly the characters listed for the keys made among the bytes read |
| KeyboardRuns.TextTyped | arch/i386/kernel/clib.c:36-49 | without loss, the keys of a text typed one after another give that text |
| Numerals.CanonicalNumeral | lib/libc/vsprintf.c:50-76 | length and value single out the canonical digits of a number |
| NumberPrinter.CountDigits | lib/libc/vsprintf.c:50-54 | the division loop counts the digits |
| NumberPrinter.PutDigits | lib/libc/vsprintf.c:67-76 | the descending-divisor loop writes the digit text, in every base from 2 to 16 |
| NumberPrinter.PutFill | lib/libc/vsprintf.c:56-65 | the padding loop writes exactly the missing fill characters |
| NumberPrinter.Itoa | lib/libc/vsprintf.c:21-92 | the buffer gets sign, zeros, digits, dots and NUL, and nothing else changes, in every base from 2 to 16 |
| NumberPrinter.RenderedLength | lib/libc/vsprintf.c:56-87 | the length is the sign plus the larger of field width and digit count, in bases 10 and 16 and wherever the divisor fits |
| PrintedNumbers.RenderedIs | lib/libc/vsprintf.c:21-92 | in every base from 2 to 16 whose divisor fits, always in 10 and 16: the text has a sign exactly for a negative integer, its digits make that integer, zeros in front widen it to a positive width and dots behind it to a negative one; the integer is the value, or its bit pattern for an unsigned conversion or base 2 or 16 |
| PrintedNumbers.PrintedOnce | lib/libc/vsprintf.c:21-92 | there is only one such text |
| PrintedNumbers.PrintedDenotes | lib/libc/vsprintf.c:21-92 | read as an integer, such a text is the integer it is the text of |
| DigitLoop.DivisorFitsTen | lib/libc/vsprintf.c:67-70 | the leading divisor never overflows in base 10 |
| DigitLoop.DivisorFitsSixteen | lib/libc/vsprintf.c:67-70 | nor in base 16 |
| DigitLoop.DivisorFitsTwoExactlyWhen | lib/libc/vsprintf.c:67-70 | in base 2 it overflows exactly when the top bit is set |
| DigitLoop.LeadingDivisor | lib/libc/vsprintf.c:67-70 | the divisor loop computes base to one less than the digit count, wrapped to a 32-bit `long` |
| DigitLoop.NextDigit | lib/libc/vsprintf.c:72-76 | a round of the digit loop: digit, remainder, next divisor |
| DigitLoop.LoopPath | lib/libc/vsprintf.c:67-76 | from the leading divisor the rounds end and print the digit text |
| DigitLoop.DigitsRightExactlyWhen | lib/libc/vsprintf.c:67-76 | the digit text is the canonical numeral if and only if the divisor fits a `long`, or is 2^31 and the number itself |
| DigitLoop.BinaryRightExactlyWhen | lib/libc/vsprintf.c:67-76 | base 2 is right if and only if the number is at most 2^31; from there on a 1 and 31 zeros are printed |
| NumberPrinter.RealizeString | lib/libc/vsprintf.c:142-200 | the arms d, u, x and p append the formatted number to the output buffer |
| PrintedNumbers.FormattedIs | lib/libc/vsprintf.c:164-180 | d prints the value in base 10 with its sign; u its bit pattern in base 10, x in base 16, and p in base 16 behind 0x |
| NumberParser.SumDigits | lib/libc/stdlib.c:34-45 | the right-to-left sum is the number mod 2^32, and its hang branch is dead |
| NumberParser.Atoi | lib/libc/stdlib.c:7-54 | the value of the signed digit prefix as a 32-bit int |
| NumberParser.GetValue | lib/libc/vsprintf.c:245-276 | the value of the digit prefix, and the pointer after it |
| NumberParser.GobbleZeros | lib/libc/stdlib.c:163-166 | leading zeros leave value and end of the number alone |
| NumberParser.HornerDigits | lib/libc/stdlib.c:168-183 | the left-to-right loop is the number mod 2^64 |
| NumberParser.HexProcess | lib/libc/stdlib.c:87-108 | what follows an optional 0x, or a 0, if it is a hex digit |
| NumberParser.SimpleStrtoull | lib/libc/stdlib.c:132-195 | value and end pointer for every base and string, NULL included, with and without an end pointer |
| NumberParser.SimpleStrtoul | lib/libc/stdlib.c:197-200 | the same reduced to 32 bits |
| NumberParser.InvalidBase | lib/libc/stdlib.c:137-138 | base 1, a negative base and one above 36 give 0 and leave the end pointer alone |
| StandardStrtoull.Numbers | lib/libc/stdlib.c:110-183 | the digits the code reads make the standard's number, or a smaller one exactly where a letter digit it does not know stops it |
| StandardStrtoull.Magnitudes | lib/libc/stdlib.c:57-183 | what is read against the number section 7.20.1.4 of ISO C99 has there, in each of the three cases where prefix or first digit set them apart, and in all others |
| StandardStrtoull.StandardExactlyWhen | lib/libc/stdlib.c:57-195 | for every string, in base 0 and 2..36, the value is the one the standard prescribes, by its own white space, digits and range, if and only if the string is none of the six kinds or both values still are the same |
| StandardStrtoull.EndExactlyWhen | lib/libc/stdlib.c:132-195 | the end pointer is set, and to where the standard says, if and only if the code accepts the number and reads all its digits, or finds none where there are none |
| StandardStrtoull.DecimalDifference | lib/libc/stdlib.c:56-82 | 12 in base 0 gives 0 |
| StandardStrtoull.UpperPrefixDifference | lib/libc/stdlib.c:87-108 | 0X12 in base 16 gives 0, where the standard has 18 |
| StandardStrtoull.TwoPrefixesDifference | lib/libc/stdlib.c:57-161 | behind two prefixes, as in 0x0x12, the digits are read where the standard has 0 |
| StandardStrtoull.LetterDifference | lib/libc/stdlib.c:110-129 | ff in base 16 gives 0 |
| StandardStrtoull.WhiteDifference | lib/libc/stdlib.c:139-150 | 12 behind a tab gives 0 |
| StandardStrtoull.RangeDifference | lib/libc/stdlib.c:168-195 | 2^64 gives 0, where the standard has ULLONG_MAX |
| NumberRoundTrips.DecimalRoundTrip | lib/libc/vsprintf.c:21-92 | atoi of what itoa prints in base 10 is the value, at every width, signed or unsigned |
| NumberRoundTrips.DecimalRoundTripWide | lib/libc/stdlib.c:132-195 | strtoull in base 10 of the same text is the value in 64 bits, sign included, or the bit pattern for an unsigned conversion |
| NumberRoundTrips.ParsersAgreeExactlyWhen | lib/libc/stdlib.c:7-54 | atoi and strtoull in base 10 agree mod 2^32 on every string, save those that start with a space and a number that is not 0 mod 2^32 |
| NumberRoundTrips.HexRoundTrip | lib/libc/vsprintf.c:173-176 | strtoull in base 16 of %x is the value; the end pointer is set except for a lone 0 |
| NumberRoundTrips.PointerRoundTrip | lib/libc/vsprintf.c:168-172 | strtoull in base 16 of %p is the value; the end pointer is left at the padding |
| NumberRoundTrips.PointerRoundTripBaseZero | lib/libc/stdlib.c:152-161 | so it is in base 0, with the end pointer left alone for a lone 0 |
| RoundRobin.RunWellFormed | kernel/sched.c:47-133 | over every run the queue only grows at its tail, has no task twice and holds the running task |
| RoundRobin.FullRound | kernel/sched.c:47-54 | the turns between two turns of a task go once round the queue in order |
| RoundRobin.FairRotation | kernel/sched.c:63-103 | between two turns of a task every other task queued at the first has exactly one turn, whatever is created meanwhile |
| RoundRobin.StraightRun | kernel/sched.c:47-54 | until the end of the queue each switch advances by one |
| RoundRobin.NewTaskWaits | kernel/sched.c:112-133 | a new task first runs at the switch numbered queue length less cursor |
| RoundRobin.SavedContexts | kernel/sched.c:72-102 | the saved stack pointer of every task is the one of its last switch out, or the one it was created with |
| RoundRobin.ResumedContext | kernel/sched.c:84-102 | and that is the one returned when it is switched to |
| RoundRobin.FirstTaskResumed | kernel/idle.c:14-18 | the stack pointer the idle task is resumed with is the one recorded when it was last switched out, never its placeholder |
| Scheduler.RunQueue.InitSchedular | kernel/sched.c:105-110 | the queue is the idle task alone, running |
| Scheduler.RunQueue.AddIdleTaskToRunQueue | kernel/sched.c:33-45 | the task added is the queue and idle_task_s runs, so the state is sound if and only if they are the same; or a hang if there is a queue |
| Scheduler.RunQueue.GetNextTask | kernel/sched.c:47-54 | the task after any queued one, going round |
| Scheduler.RunQueue.SchedulePending | kernel/sched.c:63-103 | saves the frame pointer, moves on, keeps the links, returns the saved pointer |
| Scheduler.RunQueue.AddTaskToRunQueue | kernel/sched.c:112-133 | the walk to the tail links a new task in last and keeps the list well formed; a task already queued cuts the list off behind it |
| InterruptFrame.EntryBuildsFrame | arch/i386/include/isr.h:17-22 | the pushes on interrupt entry lay out isr_registers_t; a selector word holds the selector under the upper half of eax |
| InterruptFrame.InterruptSavesContext | arch/i386/kernel/vectors.S:61-96 | leaving an interrupt restores every register it saved and the stack above, whatever its handler did below the frame |
| Process.AssertAgreesExactlyWhen | include/kdebug.h:99-103 | where the bound check as expanded and as meant agree |
| Process.AssertStopsEveryThread | kernel/process.c:55-56 | with a table of ten the check as expanded stops every thread |
| Process.BuildStack | kernel/process.c:74-120 | the frame, return address and argument are written, and nothing below them |
| Process.FirstSwitchEntersThread | kernel/process.c:74-120 | the first switch to a thread enters its function with its argument, to return to hello, with the kernel's segments and all other registers zero |
| Process.ProcessTable.GetFreeTaskStruct | kernel/process.c:49-58 | the next structure of the table, while there is one |
| Process.ProcessTable.KernelThread | kernel/process.c:64-124 | the new task, named X, joins the tail of the queue with the frame built for it, and the stacks of all other threads stay as they are |
| ContextRuns.StartInv | kernel/sched.c:105-110 | the idle task alone, running, satisfies the invariant of the runs |
| ContextRuns.RunKeepsInv | kernel/sched.c:63-133 | over every run of threads computing, interrupts, switches and thread creations, each queued task but the running one has a saved frame in its stack |
| ContextRuns.InterruptedTaskComesBack | arch/i386/kernel/vectors.S:61-96 | a task stopped by a timer interrupt has, at its next turn, every register and its stack as they were, whatever happened meanwhile |
| ContextRuns.NewTaskStarts | kernel/process.c:64-124 | at its first turn a new thread has the registers laid out for it: it enters its function with the argument and the return address on its stack |
| ContextRuns.DeviceUnnoticed | arch/i386/kernel/vectors.S:61-96 | an interrupt without a switch leaves registers and stack of the running task as they were |
| ContextSwitch.PushWords | arch/i386/kernel/vectors.S:61-77 | the pushes of the stub lay the words out as the frame lemmas have it |
| ContextSwitch.TimerInterrupt | arch/i386/kernel/vectors.S:61-96 | the stub with a switch pending, on the run queue and the stacks themselves, is the timer step of the runs |
| ContextSwitch.DeviceInterrupt | arch/i386/kernel/vectors.S:61-96 | without one it is the device step |
| ContextSwitch.SwitchIs | kernel/sched.c:63-103 | that step, split at the call of schedule_pending |
| ContextSwitch.CreateThread | kernel/process.c:64-124 | kernel_thread is the create step of the runs, or leaves the machine as it is |
| ContextSwitch.StartScheduling | kernel/sched.c:105-110 | init_schedular starts a run: the machine it makes satisfies their invariant |

## Left out

- `mm/free-pages.c`, `mm/slab.c`, `mm/pgfault.c`: unfinished drafts.
- `init_bootmem_allocator` and `find_free_bits_range_from`: the code stops in an endless loop at mm/bootmem.c:122; the model starts from a heap and table as they would be set up, with any frames reserved.
- The debug page fills in `bm_setbit` and `bm_clearbit`: they touch page contents only.
- PageRuns.RunKeepsInv: the runs are those whose calls all return; clients free only frames they hold, or NULL.
- BootSpec.RunKeepsInv: the runs are those whose calls all return and free no pointer inside page 0.
- NumberPrinter.Itoa: bases 0, 1 and above 16, for which the C code divides by zero, loops or leaves its table of digits, are excluded; the buffer must be large enough.
- StandardStrtoull.StandardExactlyWhen: `errno` and locales other than "C" are not modelled, and bases 1 and above 36 are excluded.
- Process.ProcessTable.GetFreeTaskStruct: the bound check is the one meant, not the one the macro expands to, which never gives a structure.
- Process.ProcessTable.KernelThread: the same bound check; the critical section and printing are left out.
- ContextSwitch.TimerInterrupt: the pushes and pops of the stub are atomic with the call between them.
- ContextRuns.RunKeepsInv: a thread writes no stack but its own, and an interrupt finds room for its frame.
- `getc` itself: it polls `read_key` for ever; `Typed` is what it is handed.
- The format driver of `vsprintf` (flags, width and precision parsing, varargs), `%s` and `%c`, and `printk`.
- `lib/libc/string.c`, `bubble_sort`, `print_human_readable_size`, multiboot printing: plain loops or output.
- Device programming, paging registers, interrupt dispatch, the ACPI headers and library.

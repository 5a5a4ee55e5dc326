# Littlevisor, modelled and proved in Dafny

Littlevisor is a hobby kernel and hypervisor. This project models the six parts of it whose correctness rests
on invariants over mutable state, in the form the source gives them: arrays, fields and loops that change them in
place, each tied to a function or relation about which the properties are proved.

| file | source | what it holds |
|---|---|---|
| `Common.dfy` | | word sizes and stock helpers |
| `PageAllocator.dfy` | `src/pmm.cpp` | the bitmap allocator of physical pages, and all runs of its three calls |
| `PageTables.dfy` | `src/mm/npaging.cpp` | 4-level page tables over words of physical memory, built from the allocator |
| `AddressSpaces.dfy` | `src/mm/npaging.cpp`, `src/mm/paging.cpp` | range mapping, the direct map, the shared higher half |
| `Framebuffer.dfy` | `src/flanterm/backends/fb.c` | grid, queue and cell index as one logical screen |
| `Printing.dfy`, `Typing.dfy` | `src/flanterm/backends/fb.c`, `src/flanterm/flanterm.c` | what a printed text looks like, without line feeds and with them |
| `Parser.dfy`, `Decoder.dfy` | `src/flanterm/flanterm.c` | the byte-stream parser as a state machine, and its fields that refine it |
| `Colours.dfy` | `src/flanterm/flanterm.c`, `src/flanterm/backends/fb.c` | text attributes and the colours they stand for |
| `Editing.dfy`, `Terminal.dfy` | `src/flanterm/flanterm.c` | the commands as functions on the screen, and the terminal that refines them |
| `Scheduler.dfy` | `src/scheduler/scheduler.cpp` | round robin with delays |
| `Heap.dfy` | `src/kheap.cpp` | the kernel heap's chunk list |
| `Disk.dfy` | `src/drivers/ahci.cpp` | byte access over whole sectors |
| `FatChains.dfy`, `Fat.dfy`, `FileReading.dfy` | `src/fs/fat32.cpp` | cluster chains, FAT entries on the disk, file slices |

How the layers are seen. A page-table word is a frame number and twelve low bits; `Machine` keeps a ghost label for
every table frame, the indexes that lead to it, and this labelling is what makes the tables a tree. The screen's
`plot_char` is an assignment to a displayed cell. The heap's memory is the set of headers that stand intact in it,
so a write destroys every header it overlaps. Fixed-width arithmetic (`uint32_t`, `size_t`, 64-bit addresses) is
written out where the source relies on it or is caught by it.

## Where the code does less than intended

Each of these is modelled as the code has it, with the exact condition under which the intended property holds.

- `init_pmm` neither clears the memory it takes for the bitmap nor has bits for the last pages: the free pages are the released ones and the counter is right exactly when no other page's bit was set before and no released page lies past the truncated bitmap (`FrameAllocator.Init`).
- `kpalloc_contignious` multiplies in 32 bits: the address returned is the page's exactly below page 2^20 (`ContiguousStep`); it finds runs only inside one bitmap byte.
- `kpfree` of a page that is free already, and nothing else, breaks the counter (`FrameAllocator.KpFree`).
- `mapPage` without the present flag maps the page exactly when no level was missing (`Machine.MapPage`).
- `create_clean_virtual_space` does not zero its page: it is empty exactly when no stale word has the present bit (`EmptyExactlyWhen`).
- `init_mappings` maps one page more than an entry's length holds, which reaches every byte of the entry exactly when the parts of a page before its base and at its end make up no more than a page (`CoversExactlyWhen`). The low twelve bits of an entry's base go into the flags of all its words (`DirectWord`).
- `full_refresh` keeps the store consistent exactly when the cursor cell has nothing queued and the cursor has not moved since the last flush, or is not drawn, or its colours are equal (`Screen.FullRefresh`).
- `raw_putchar` clamps the row against the number of columns: every text prints as expected exactly on screens with at most as many rows as columns, without line feeds (`PrintsRight`) and with them (`TypesRight`). Below the region it wraps without scrolling: the row leaves the screen exactly when a line wraps on the last row, below the region, of a screen with more columns than rows (`RowLeaves`).
- CAN inside `ESC [ ?` leaves the private flag set for the next sequence (`StalePrivateFlag`, `CsiRoundTrip`). An operating system command ends with the first byte that is neither ESC nor part of a UTF-8 sequence, so that the text of one is printed from its second character on (`OscEnds`, `TitlePrinted`).
- Moving down from the row just below the scroll region moves up (`DownStaysInside`). A tab goes to the last column from every place past the last stop, unless the screen has 2^31 columns or more and the stop's number has bit 31 set (`TabStops`).
- Erasing the rest of the line erases that line's rest exactly when no wrap is pending and the cursor is on the screen, or on a screen of one column that sends the wrap back (`ErasesTheRest`); erasing the rest of the display, exactly when a run of blanks from there reaches the last row (`ErasesToTheEnd`), and from its start, exactly when a run from the first row reaches the cursor's (`ErasesFromTheStart`): such runs stop at the bottom margin. Erasing characters runs on into the next line (`ErasingStaysInLine`).
- Deleting characters blanks the last n columns even before the cursor (`DeletingSparesTheStart`), and the next line too when more than 2^31 too many are asked for (`NextLineDeleted`); inserting zero characters erases the rest of the line (`TextInserted`).
- A change of brightness in reverse video gives a default colour the other side's default, and codes 90 to 107 choose a bright colour without setting the bright attribute: a code leaves the colours as the attributes describe them exactly when neither applies (`DescribedExactlyWhen`). A colour selected by 38;5 is lost at the next such change (`IndexedForgotten`), and an unfinished 38 takes a reset for its number (`ResetSwallowed`). ESC c clears the attributes and keeps the colours (`ReinitDescribed`).
- `init_heap` sets neither the first chunk's state nor the sentinel's link: the list is well formed exactly when stale memory holds FREE and 0 (`KernelHeap.constructor`).
- `kmalloc` asks for room for one header where it needs two: an accepted request leaves a well-formed heap exactly when two fit (`KernelHeap.Kmalloc`). In a new heap requests of 16337 to 16352 bytes are accepted wrongly, and so are the sixteen sizes below 2^64, which wrap around (`FirstRequest`).
- `kfree` of the first block, when other chunks exist and the sentinel reads FREE, never returns; every other call keeps the heap well formed (`FreeingFirstNeverEnds`, `KernelHeap.Kfree`). One kmalloc(16) in zeroed memory and kfree of its block is enough (`FirstFreeOfFirstBlock`).
- A task that is alone ready to run gets only every other slice: the idle task runs in between (`AloneAlternates`).
- `allocate_cluster` on a full volume hands out cluster 0 or one past the last data cluster, since it scans as many entries as the disk has sectors: an append keeps the table well formed exactly when a data cluster was free, and a run of appends exactly when it makes no more of them than there are free data clusters (`AppendOutcome`, `RunStaysWellFormed`).
- `readFile` rereads one sector of each cluster, and cuts the size to the file's length whatever the position. Whatever bytes the data clusters hold, the buffer gets the file's own bytes and zeros past its end exactly in two cases: the request is fetched whole (clusters are one sector, or it stays in a cluster's first sector, or it starts past that sector and its clusters are adjacent) and ends within the file or the file fills its last cluster; or the file ends with the first sector of its last cluster, where the request begins (`FileReadsRight`). Otherwise slack or a repeated sector shows: 100 bytes from byte 50 of a file of 100 end in byte 149 of its cluster (`SlackRead`). A request right at the chain's end fails exactly when the end mark is 0x0FFFFFF8; with any other mark the walk goes on from it as from a cluster (`SkipAlong`).

## Model

| member | source | states |
|---|---|---|
| `PageAllocator.FrameAllocator.Init` | src/pmm.cpp:15-56 | the bitmap goes to the first large enough usable region; afterwards a page's bit is set exactly when it was set in that memory before or the page was released, and over clean memory exactly when bytes 0x1000*p up to 0x1000*(p+1) lie inside one usable region other than the bitmap's; the counter is off by the released pages past the truncated bitmap less the bits left over; the free pages are the released ones and the invariant of the runs below holds exactly when no bit was left over and no page lies past |
| `PageAllocator.FrameAllocator.HighestAddress` | src/pmm.cpp:16-24 | every usable region ends at or below it, and it is 0 or the end of a usable region |
| `PageAllocator.FrameAllocator.ReleaseEntry` | src/pmm.cpp:45-51 | one region's pages, those that lie inside it, become free and nothing else does; the counter goes up by all of them, those without a bit included |
| `PageAllocator.HoldsBytes` | src/pmm.cpp:45-51 | the pages of a region are exactly those whose bytes lie inside it |
| `PageAllocator.ReleasedBytes` | src/pmm.cpp:39-52 | the pages released are exactly those that lie inside one usable region other than the bitmap's |
| `PageAllocator.FreedApart` | src/pmm.cpp:39-52 | with regions disjoint in bytes no freed page has a byte in a region that is not usable or in the bitmap's |
| `PageAllocator.BitmapReach` | src/pmm.cpp:15-30 | the bitmap has one bit a page up to the highest usable address, rounded down to whole bytes |
| `PageAllocator.FrameAllocator.KpAlloc` | src/pmm.cpp:58-83 | takes the least free page from the rotating start on, else the least free page of all; 0 only when no bit is set or page 0 was free; the counter follows the bits |
| `PageAllocator.NextFreeRotated` | src/pmm.cpp:58-83 | of the bits turned so that the byte of the last allocation comes first, the page taken is the first one set |
| `PageAllocator.ScanGoesOn` | src/pmm.cpp:58-83 | the next page handed out is the least free one above the page just taken, as long as there is one |
| `PageAllocator.FreeUndoesAlloc` | src/pmm.cpp:58-117 | freeing the page just allocated gives the bits and the counter back |
| `PageAllocator.FrameAllocator.KpAllocContiguous` | src/pmm.cpp:85-110 | takes the lowest run of free pages inside one byte, and fails exactly when no byte holds one; its address is cut to 32 bits |
| `PageAllocator.FrameAllocator.FindRun` | src/pmm.cpp:86-107 | finds the lowest such run, or shows there is none |
| `PageAllocator.RunInByte` | src/pmm.cpp:88-99 | bits make a run exactly when there are 1 to 8 of them, all set and none past their byte |
| `PageAllocator.FrameAllocator.KpFree` | src/pmm.cpp:112-117 | sets the page's bit; the counter stays right exactly when the page was not free |
| `PageAllocator.FrameAllocator.GiveBack` | src/pmm.cpp:112-117 | freeing an allocation page by page sets exactly its bits and raises the counter by its pages |
| `PageAllocator.GrantKeeps` | src/pmm.cpp:58-110 | handing out free pages keeps live allocations apart from each other and from free pages, and held plus free pages constant |
| `PageAllocator.ReturnKeeps` | src/pmm.cpp:112-117 | so does giving an allocation back; the counter goes on agreeing with the bits |
| `PageAllocator.StepKeeps` | src/pmm.cpp:58-117 | every call keeps the allocation invariant, the counter's agreement with the bits among it, and the sum of held and free pages |
| `PageAllocator.RunKeeps` | src/pmm.cpp:15-117 | over every run of allocations and returns live allocations stay pairwise disjoint, the counter, moved as the code moves it, equals the set bits, and no page is lost |
| `PageTables.Machine.MapPage` | src/mm/npaging.cpp:11-51 | maps exactly the page asked for, its whole leaf word and the flags on every level for user mappings; changes no bit of the leaf word of any other page or, in the lower half, of any other space; leaves every present entry above the leaves as it is but for the flags that a user mapping adds on its own way; uses exactly the missing levels' number of free pages; keeps the tables labelled trees of taken frames |
| `PageTables.WayStays` | src/mm/npaging.cpp:26-46 | after any mapping every address still leads through the same tables, from every root, and with all the flags that its way had before |
| `PageTables.KernelMappingKeepsWords` | src/mm/npaging.cpp:24-46 | a mapping without the user flag changes no present word of any table but the leaf it writes |
| `PageTables.Machine.FindLeaf` | src/mm/npaging.cpp:26-44 | the loop over the upper levels arrives at the leaf table of the address without changing any leaf word; off the way of the address no word changes |
| `PageTables.Machine.Grow` | src/mm/npaging.cpp:27-36 | a missing level becomes a fresh, taken, zeroed table, linked from the entry |
| `PageTables.Machine.Follow` | src/mm/npaging.cpp:37-43 | a present entry is followed; user mappings add their flags to it and keep its link and its flags, others leave it as it is; every other word stays |
| `PageTables.Machine.Finish` | src/mm/npaging.cpp:46-46 | the leaf write maps the page, flags included, and nothing else |
| `PageTables.Machine.WalkTable` | src/mm/npaging.cpp:53-75 | the translation of the address, or 0 when a level is missing; an unmapped leaf yields the page offset |
| `PageTables.Machine.CreateCleanVirtualSpace` | src/mm/npaging.cpp:95-97 | takes the page that kpalloc chooses; it is an empty address space when no stale word in it is present |
| `PageTables.EmptyExactlyWhen` | src/mm/npaging.cpp:95-97 | a frame translates nothing exactly when none of its words has the present bit |
| `PageTables.Machine.FreePage` | src/pmm.cpp:112-117 | freeing a taken page that holds no table keeps all tables |
| `PageTables.SamePageIndexes` | src/mm/npaging.cpp:16-20 | two addresses select the same four indexes exactly when bits 12..47 agree |
| `PageTables.IndexDigits` | src/mm/npaging.cpp:16-20 | the four indexes are the base-512 digits of the page number, the highest first |
| `PageTables.TablesFormTree` | src/mm/npaging.cpp:26-44 | a table frame is reached on one level and by one path only |
| `PageTables.GrowKeeps` | src/mm/npaging.cpp:27-36 | creating a table changes no leaf word of any root |
| `PageTables.GrowLabels` | src/mm/npaging.cpp:27-36 | creating a table keeps the labelling closed |
| `PageTables.LeafWrite` | src/mm/npaging.cpp:46-46 | a leaf write changes exactly the leaf words whose walk ends at that entry |
| `PageTables.FinishOther` | src/mm/npaging.cpp:46-46 | no other page's leaf word changes through any root |
| `PageTables.FinishMaps` | src/mm/npaging.cpp:46-46 | the page asked for gets the leaf word asked for when the way to it is linked |
| `AddressSpaces.MapRange` | src/mm/npaging.cpp:110-119 | every address gets the word, flags included, of the last page of the range that lies at it, and keeps its own outside the range; through other roots nothing changes but in the higher half of the range |
| `AddressSpaces.HitUnique` | src/mm/npaging.cpp:110-119 | a range of at most 2^36 pages meets an address at most once |
| `AddressSpaces.DirectHit` | src/mm/paging.cpp:67-71 | an entry's range meets the higher-half address of a page exactly for the entry's pages and one extra |
| `AddressSpaces.AlignedCovers` | src/mm/paging.cpp:63-73 | every byte of a page-aligned entry lies on a covered page |
| `AddressSpaces.CoversExactlyWhen` | src/mm/paging.cpp:64-73 | every byte of any entry does exactly when the parts of a page before its base and at its end make up no more than a page |
| `AddressSpaces.AlignedWord` | src/mm/paging.cpp:63-73 | with entries that begin at pages, a covered page gets its own number and the flags present and writable |
| `AddressSpaces.HigherHalfNumber` | src/mm/paging.cpp:64-73 | the higher half begins 0xffff800000000000 bytes up: what lies below 2^47 is moved there as it is |
| `AddressSpaces.HigherHalfTop` | src/mm/paging.cpp:64-84 | and is found through entries 256 to 511 of a top-level table |
| `AddressSpaces.KernelByte` | src/mm/paging.cpp:39-47 | every byte of the kernel lies on a page that the kernel range maps, when the parts of a page at both ends make up no more than a page |
| `AddressSpaces.MapEntry` | src/mm/paging.cpp:64-73 | mapping one more entry keeps the words of all earlier ones although their ranges overlap by a page, and changes no address outside its range |
| `AddressSpaces.MapEntries` | src/mm/paging.cpp:63-73 | after the loop every page has the word of the last entry that covers it, and no address outside the entries' ranges has changed |
| `AddressSpaces.InitMappings` | src/mm/paging.cpp:39-80 | every page has from the higher half the word, flags included, of the last entry that covers it, unless the kernel range takes its address; the kernel range is mapped as asked, present and writable; no other address changes its leaf word, through any root |
| `AddressSpaces.AllocatePage` | src/mm/paging.cpp:21-29 | the next free page is mapped with the flags given at its higher-half address in the space given, 0 standing for the host's; with no page left, page 0 is; without the present flag only when no level was missing; no other address changes its leaf word, through any root, and no present word off its way changes |
| `AddressSpaces.InitUserMappings` | src/mm/paging.cpp:82-84 | entries 256 to 511 of the user root become the host's, flags included, and no other word changes; user and host agree on the higher half; no other leaf word changes |
| `AddressSpaces.AgreeTranslates` | src/mm/paging.cpp:82-84 | roots that agree reach the same leaf word for every higher-half address |
| `AddressSpaces.MapKeepsAgreement` | src/mm/npaging.cpp:11-51 | a mapping through one of two agreeing roots keeps them in agreement exactly when it creates no top-level entry of the higher half |
| `AddressSpaces.LowerHalfIsPrivate` | src/mm/npaging.cpp:11-51 | a lower-half mapping changes no leaf word of another space |
| `Framebuffer.Screen.constructor` | src/flanterm/backends/fb.c:1116-1192 | an empty screen of blanks with nothing queued |
| `Framebuffer.Screen.SlotLeft` | src/flanterm/backends/fb.c:585-593 | because queue slots and non-null cells are in bijection, a cell without a slot finds one free: the queue never overflows |
| `Framebuffer.Screen.Push` | src/flanterm/backends/fb.c:574-596 | changes exactly one cell of the logical screen, and none off the screen; keeps the bijection |
| `Framebuffer.Screen.Scroll` | src/flanterm/backends/fb.c:626-649 | the logical screen is scrolled, for any margins and any queue |
| `Framebuffer.Screen.RevScroll` | src/flanterm/backends/fb.c:598-624 | the logical screen is scrolled back, with the size_t guard for a region at the top |
| `Framebuffer.ScrolledRow` | src/flanterm/backends/fb.c:626-649 | the region's rows move up by one over a blank last row; other rows stay |
| `Framebuffer.RevScrolledRow` | src/flanterm/backends/fb.c:598-624 | the region's rows move down by one under a blank first row; other rows stay |
| `Framebuffer.Screen.ShiftUp` | src/flanterm/backends/fb.c:629-639 | ascending order never reads a cell already overwritten |
| `Framebuffer.Screen.ShiftDown` | src/flanterm/backends/fb.c:601-614 | descending order never reads a cell already overwritten |
| `Framebuffer.Screen.Clear` | src/flanterm/backends/fb.c:651-666 | every logical cell is blank |
| `Framebuffer.Screen.MoveCharacter` | src/flanterm/backends/fb.c:696-715 | one logical cell takes another's content when both are on the screen |
| `Framebuffer.Screen.RawPutchar` | src/flanterm/backends/fb.c:833-853 | the character appears at the cursor after a pending wrap |
| `Framebuffer.CharacterLands` | src/flanterm/backends/fb.c:833-853 | the character goes to the cursor's cell and no other; after a full line to the first cell of the next row, or of the bottom margin's once the region has scrolled; with scrolling off it is lost there |
| `Framebuffer.RowLeaves` | src/flanterm/backends/fb.c:833-853 | the cursor's row leaves the screen exactly when a line wraps on the last row below the region of a screen with more columns than rows |
| `Framebuffer.Screen.DrawCursor` | src/flanterm/backends/fb.c:777-801 | shows the cursor cell with swapped colours and moves a queued character of that cell to the grid |
| `Framebuffer.Screen.Flush` | src/flanterm/backends/fb.c:803-831 | the display shows the logical screen with the cursor over it, the previous cursor cell restored; the grid holds all of it; nothing is queued |
| `Framebuffer.Screen.DisplayCell` | src/flanterm/backends/fb.c:777-801 | the display shows every cell as it is but the enabled cursor's, where the colours of character and background are exchanged |
| `Framebuffer.DrainStep` | src/flanterm/backends/fb.c:810-819 | each queue slot is drained once, whatever the cursor took before |
| `Framebuffer.Screen.FullRefresh` | src/flanterm/backends/fb.c:870-880 | shows the grid, with the cursor cell's logical content inverted when the cursor is drawn; keeps the store consistent exactly under the stated condition |
| `Framebuffer.Screen.SetCursorPos` | src/flanterm/backends/fb.c:668-687 | clamps each coordinate to the screen, to 0 when bit 31 is set |
| `Framebuffer.Screen.GetCursorPos` | src/flanterm/backends/fb.c:689-694 | a cursor past an edge counts as on it |
| `Printing.PrintedIsExpected` | src/flanterm/backends/fb.c:833-853 | a text shows as its last rows, cut into lines and blank-padded, cursor after the last character, wrap deferred, as long as no row number reaches the number of columns |
| `Printing.PictureCell` | src/flanterm/backends/fb.c:833-853 | the picture cell by cell: row y shows line gone + y of the text |
| `Printing.PrintsWrong` | src/flanterm/backends/fb.c:843-845 | a text of cols*cols+1 characters lands on the wrong row of a screen with more rows than columns |
| `Printing.PrintsRight` | src/flanterm/backends/fb.c:833-853 | every text prints as expected exactly when rows <= cols |
| `Typing.TypedIsShown` | src/flanterm/backends/fb.c:833-853 | a text with line feeds shows as its last lines, blank-padded, cursor after the last character, wrap deferred, on screens with rows <= cols and for texts of at most cols lines on others |
| `Typing.TypesRight` | src/flanterm/backends/fb.c:833-853 | every such text does exactly when rows <= cols |
| `Typing.PiecesJoin` | src/flanterm/flanterm.c:1273-1282 | the pieces of the picture joined with line feeds are the text |
| `Typing.PiecesWithout` | src/flanterm/flanterm.c:1273-1282 | and no piece holds one |
| `Typing.CutLine` | src/flanterm/backends/fb.c:840-848 | line k of a piece is its characters from k*cols on |
| `Typing.CutFits` | src/flanterm/backends/fb.c:840-848 | no line is longer than the screen is wide |
| `Typing.CutCount` | src/flanterm/backends/fb.c:840-848 | a piece of n characters takes n/cols lines, rounded up, an empty one takes one |
| `Typing.FeedShown` | src/flanterm/flanterm.c:1273-1282 | a line feed on the picture begins a new line, scrolling when the last row is taken |
| `Parser.RunConcat` | src/flanterm/flanterm.c:90-98 | feeding two pieces of a stream is feeding their concatenation |
| `Parser.Utf8RoundTrip` | src/flanterm/flanterm.c:1195-1236 | decoding the encoding of any scalar value >= 0x80 (section 3 of RFC 3629) yields that value in exactly one decision and leaves the rest of the parser alone |
| `Parser.Utf8CutShort` | src/flanterm/flanterm.c:1195-1236 | a sequence cut short is dropped and the byte that cut it is handled as from the ground |
| `Parser.CsiRoundTrip` | src/flanterm/flanterm.c:461-513 | printing a control sequence with any 32-bit numbers and parsing it dispatches once with the first 16 numbers, then 0 for J, K and q and 1 for every other command, and returns to ground |
| `Parser.PrivateRoundTrip` | src/flanterm/flanterm.c:461-513 | so for a sequence after a question mark, which dispatches as a private one |
| `Parser.EscapeRead` | src/flanterm/flanterm.c:789-864 | ESC and a final byte dispatch once and return to ground; 7 and 8 save and restore the character set in use |
| `Parser.ResetRead` | src/flanterm/flanterm.c:56-86 | ESC c also designates the default and the line drawing set and puts the first in use |
| `Parser.CharsetDesignated` | src/flanterm/flanterm.c:1243-1253 | ESC ( and ) designate the first and the second set: 0 line drawing, B the default, other bytes neither |
| `Parser.CharsetShifted` | src/flanterm/flanterm.c:1295-1302 | shift out puts the second set in use, shift in the first |
| `Parser.OscEnds` | src/flanterm/flanterm.c:439-459 | an operating system command ends with the first byte that is neither ESC nor the start of a UTF-8 sequence, terminator or not |
| `Parser.TitlePrinted` | src/flanterm/flanterm.c:439-459 | so ESC ] 0 ; prints the semicolon |
| `Parser.Cancelled` | src/flanterm/flanterm.c:1184-1193 | CAN and SUB bring any parser back to ground without any effect |
| `Parser.FunctionKeyDropped` | src/flanterm/flanterm.c:462-466 | after ESC [ [ one more byte is read and dropped |
| `Parser.FeedDigits` | src/flanterm/flanterm.c:473-481 | the decimal digits of a number collect to it; beyond 16 numbers they are ignored |
| `Parser.StalePrivateFlag` | src/flanterm/flanterm.c:369-370 | a cancelled private sequence leaves its flag set |
| `Parser.Step` | src/flanterm/flanterm.c:1183-1290 | on every byte esc_values_i stays <= 16, and < 16 while a number is open |
| `Decoder.Decoder.Putchar` | src/flanterm/flanterm.c:1183-1290 | the fields of the context step as the state machine does and yield its decision |
| `Decoder.Decoder.ControlSequenceByte` | src/flanterm/flanterm.c:461-513 | so for the control-sequence half |
| `Decoder.Decoder.EscapeByte` | src/flanterm/flanterm.c:789-864 | so for the escape half |
| `Decoder.Decoder.ReinitFields` | src/flanterm/flanterm.c:56-86 | so for the parser's part of reinit |
| `Editing.DownStaysInside` | src/flanterm/flanterm.c:539-558 | moving down never leaves the region from inside, and moves up from exactly one row |
| `Editing.RowCommands` | src/flanterm/flanterm.c:520-558 | A and F go up and B, e and E down by as many rows as asked for within the region, F and E to the first column |
| `Editing.RowsStop` | src/flanterm/flanterm.c:520-558 | from inside the region they stop at its edges, from outside at the screen's |
| `Editing.ColumnCommands` | src/flanterm/flanterm.c:559-568 | C and a go right and D left, within the line |
| `Editing.PlaceCommands` | src/flanterm/flanterm.c:574-586 | d names a row, G and the backquote a column, counted from 1 |
| `Editing.PositionCommands` | src/flanterm/flanterm.c:588-601 | H and f name a row and then a column, counted from 1; u goes to the saved position |
| `Editing.PositionsOutside` | src/flanterm/flanterm.c:588-601 | past an edge H stops at it, and 0 counts as 1 |
| `Editing.PlacesOutside` | src/flanterm/flanterm.c:574-586 | for d and G, 0 and all past the edge stand for the last row or column |
| `Editing.TabStops` | src/flanterm/flanterm.c:1266-1272 | a tab goes to the next stop or the last column exactly when the stop is on the screen or its number has bit 31 clear: on every screen of fewer than 2^31 - 8 columns |
| `Editing.Backspace` | src/flanterm/flanterm.c:1283-1285 | backspace moves left by one and stops at the first column |
| `Editing.BackAtTop` | src/flanterm/flanterm.c:843-851 | a reverse line feed outside the top margin moves up one row and stops at the first |
| `Editing.FeedScrolls` | src/flanterm/flanterm.c:1276-1278 | a line feed at the bottom margin gives each row of the region the row below it and blanks the last; the cursor stays in its row |
| `Editing.FeedMoves` | src/flanterm/flanterm.c:1279-1281 | in any other row the text stays and the cursor goes down one row, or stays in the last |
| `Editing.FeedBackScrolls` | src/flanterm/flanterm.c:843-848 | a reverse line feed at the top margin gives each row of the region the row above it and blanks the first |
| `Editing.ReturnsAndFeeds` | src/flanterm/flanterm.c:1273-1294 | carriage return goes to the first column, and so do line feeds when they are to; a bell moves nothing |
| `Editing.BlankRun` | src/flanterm/backends/fb.c:833-853 | a run of blanks from anywhere on the screen, scrolling off, blanks the cells in order to the end of its region and then, where the wrap clamps the row, the same row over and over |
| `Editing.InRowRun` | src/flanterm/backends/fb.c:833-853 | a run that fits its row blanks just those cells, scrolling or not |
| `Editing.PendingRun` | src/flanterm/backends/fb.c:833-853 | a run with a wrap pending is one from the row that the wrap leads to, or changes nothing |
| `Editing.LineErased` | src/flanterm/flanterm.c:705-727 | command K blanks from the cursor on, up to it, or the whole line; for K 0 while the cursor is on the screen with no wrap pending |
| `Editing.ErasesTheRest` | src/flanterm/flanterm.c:705-712 | K 0 blanks the rest of the cursor's line, whatever the screen holds, exactly under that condition, one-column screens that send the wrap back apart |
| `Editing.BelowErasesNothing` | src/flanterm/flanterm.c:705-712 | from below the screen K 0 erases nothing |
| `Editing.PendingWrapErasesElsewhere` | src/flanterm/flanterm.c:707-712 | with a wrap pending, K 0 blanks the first cell of the line that the wrap leads to, or nothing |
| `Editing.DisplayErased` | src/flanterm/flanterm.c:638-672 | command J blanks what a run of blanks reaches: from the cursor on while it is on the screen with no wrap pending, or from the start up to any cursor |
| `Editing.DisplayErasedElsewhere` | src/flanterm/flanterm.c:638-672 | with a wrap pending or the cursor below the screen, J 0 blanks a run from the next row, or nothing |
| `Editing.ErasesToTheEnd` | src/flanterm/flanterm.c:640-649 | J 0 erases from the cursor to the end, whatever the screen holds, exactly when no wrap is pending, the cursor is on the screen and the run in order ends on the last row |
| `Editing.ErasesFromTheStart` | src/flanterm/flanterm.c:650-664 | J 1 erases from the start up to the cursor, whatever the screen holds, exactly when the run in order from the first row reaches the cursor's |
| `Editing.TextInserted` | src/flanterm/flanterm.c:673-682 | command @ moves the text right over n blanks; with n = 0 it erases the rest of the line |
| `Editing.CharsDeleted` | src/flanterm/flanterm.c:683-694 | command P pulls the line left and blanks its last n columns, for every cursor, every screen and n from 1 to the number of columns |
| `Editing.WholeLineDeleted` | src/flanterm/flanterm.c:683-694 | more than that, up to 2^31 more, blanks the whole line |
| `Editing.NextLineDeleted` | src/flanterm/flanterm.c:683-694 | beyond, the last column is blanked and the run of blanks goes on into the next line |
| `Editing.NoneDeleted` | src/flanterm/flanterm.c:683-694 | n = 0 deletes nothing |
| `Editing.RoomMade` | src/flanterm/flanterm.c:1305-1312 | insert mode moves the text after the cursor's column right by one and loses the line's last character; no other row changes |
| `Editing.DeletingSparesTheStart` | src/flanterm/flanterm.c:683-694 | a column before the cursor survives P exactly when it is not among the last n, or was blank |
| `Editing.CharsErased` | src/flanterm/flanterm.c:688-695 | command X blanks what a run of at most a line of blanks reaches from the cursor |
| `Editing.ErasingStaysInLine` | src/flanterm/flanterm.c:688-695 | it stays in the cursor's line exactly when the line has that many cells left, or the row is not above the bottom margin's last, or it begins in the first column |
| `Editing.LinesDeleted` | src/flanterm/flanterm.c:602-608 | command M moves the region's rows up by n, row by row |
| `Editing.LinesInserted` | src/flanterm/flanterm.c:609-618 | command L moves the rows from the cursor's to the bottom margin down by n |
| `Editing.InsertBelowRegion` | src/flanterm/flanterm.c:609-618 | below the region L still blanks the cursor's row |
| `Editing.MarginsStayApart` | src/flanterm/flanterm.c:728-750 | command r always leaves top < bottom <= rows |
| `Editing.MarginsTaken` | src/flanterm/flanterm.c:728-750 | a first and a last row, counted from 1, are taken; without numbers the whole screen is |
| `Editing.TextCommands` | src/flanterm/flanterm.c:602-727 | which final byte makes which of these changes to the text |
| `Colours.Brush.Select` | src/flanterm/flanterm.c:100-367 | the loop of sgr gives the attributes and colours of the selection, 38 and 48 reading on |
| `Colours.Brush.Code` | src/flanterm/flanterm.c:109-313 | one code, with its swaps of the two colours in reverse video |
| `Colours.AttributeSet` | src/flanterm/flanterm.c:109-313 | which code sets which attribute, every other attribute staying: 1 and 22 bold, 5 and 25 the bright background, 7 and 27 reverse video, 30 and 90 on the colour, 40 and 100 on the background, 39 and 49 their defaults, 0 all |
| `Colours.ColourSet` | src/flanterm/flanterm.c:109-313 | which colour they set outside reverse video: normal, or bright for 90 and 100 on and where the side is bright; 7 exchanges the two |
| `Colours.ColourByNumber` | src/flanterm/flanterm.c:340-359 | 38;5 and 48;5 take colour n from the tables, a number past 255 nothing |
| `Colours.ColourByParts` | src/flanterm/flanterm.c:323-339 | 38;2 and 48;2 take a colour from red, green and blue |
| `Colours.OtherKindSkipped` | src/flanterm/flanterm.c:315-364 | any other number after 38 or 48 is passed over with it |
| `Colours.DescribedExactlyWhen` | src/flanterm/flanterm.c:124-296 | a code leaves the colours as the attributes describe them, whatever the palette, exactly when it is no change of brightness for a default colour in reverse and no bright colour without its attribute |
| `Colours.SelectionDescribed` | src/flanterm/flanterm.c:106-313 | so does every selection of such codes |
| `Colours.SelectConcat` | src/flanterm/flanterm.c:106-364 | a selection may be given in pieces, each but the last read to its end, 38 and 48 with all their numbers included |
| `Colours.ResetIsDefault` | src/flanterm/flanterm.c:109-122 | after any selection read to its end a reset gives the default colours and attributes |
| `Colours.ResetSwallowed` | src/flanterm/flanterm.c:340-359 | after 38;5 it does not: the 0 selects colour 0 |
| `Colours.IndexedForgotten` | src/flanterm/flanterm.c:340-359 | a colour selected by 38;5 is lost at the next change of brightness, or ends up on the other side in reverse video |
| `Colours.ReinitDescribed` | src/flanterm/flanterm.c:67-82 | reinit leaves colours that the attributes describe only if they were the defaults |
| `Terminal.Context.constructor` | src/flanterm/backends/fb.c:1116-1192 | a blank screen with full margins, the default colours and modes, zeroed saved state and the parser at rest |
| `Terminal.Context.Putchar` | src/flanterm/flanterm.c:1183-1330 | one byte is one step of the parser and exactly what its decision says of screen, settings, colours and modes; margins and store stay sound on every byte |
| `Terminal.Context.PrintByte` | src/flanterm/flanterm.c:1305-1329 | the byte's glyph in the active character set is put, in insert mode after making room |
| `Terminal.Context.ShiftRowRight` | src/flanterm/flanterm.c:1305-1312 | the rest of the line moves right by one |
| `Terminal.Context.ControlByte` | src/flanterm/flanterm.c:1266-1294 | tab, line feeds, backspace and carriage return |
| `Terminal.Context.LineFeed` | src/flanterm/flanterm.c:1273-1282 | down one row, scrolling at the bottom margin: row by row in FeedScrolls and FeedMoves |
| `Terminal.Context.EscapeFinal` | src/flanterm/flanterm.c:805-863 | save, restore, reset and the line feeds among the escapes, attributes included |
| `Terminal.Context.Reset` | src/flanterm/flanterm.c:823-826 | full margins, default modes, a blank screen |
| `Terminal.Context.ControlSequence` | src/flanterm/flanterm.c:501-764 | private sequences switch the cursor; others act with scrolling off and leave it as it was |
| `Terminal.Context.Dispatch` | src/flanterm/flanterm.c:520-760 | every final byte has the effect of its command on text, cursor, margins, colours and modes, and no other |
| `Terminal.Context.CursorUp` | src/flanterm/flanterm.c:520-538 | up, not out of the region from inside or below |
| `Terminal.Context.CursorDown` | src/flanterm/flanterm.c:539-558 | down, not out of the region from inside |
| `Terminal.Context.CursorTo` | src/flanterm/flanterm.c:588-601 | one-based position cut off at the edges |
| `Terminal.Context.InsertLines` | src/flanterm/flanterm.c:609-618 | scrolls back from the cursor's row and restores the top margin |
| `Terminal.Context.EraseDisplay` | src/flanterm/flanterm.c:638-672 | command J |
| `Terminal.Context.InsertBlanks` | src/flanterm/flanterm.c:673-682 | command @, its loop from the right |
| `Terminal.Context.DeleteCharacters` | src/flanterm/flanterm.c:683-694 | command P, its loop from the left |
| `Terminal.Context.EraseLine` | src/flanterm/flanterm.c:705-727 | command K |
| `Terminal.Context.SetMargins` | src/flanterm/flanterm.c:728-750 | the margins asked for when they leave two rows, else the whole screen |
| `Terminal.Context.ChangeSettings` | src/flanterm/flanterm.c:696-757 | margins, insert mode, saved cursor, attributes and colours change as their command says and nothing else does |
| `Terminal.Context.SelectGraphics` | src/flanterm/flanterm.c:696-698 | command m sets attributes and text colours as the selection of its numbers |
| `Terminal.Context.EditText` | src/flanterm/flanterm.c:602-727 | the text commands have their effect and leave every setting as it was |
| `Terminal.Context.Write` | src/flanterm/flanterm.c:90-98 | the terminal runs over the bytes one by one; with autoflush the result is on display; on a blank terminal with rows <= cols a plain text shows as the expected picture of its glyphs, and a text with line feeds as its last lines, split at line feeds and at the width |
| `Terminal.PlainTextPuts` | src/flanterm/flanterm.c:90-98 | a text of plain bytes changes the screen as the same run of raw_putchar calls, and nothing else |
| `Terminal.BlankTextShows` | src/flanterm/flanterm.c:90-98 | so on a blank terminal with rows <= cols it ends up as the expected picture |
| `Terminal.TypedTextTypes` | src/flanterm/flanterm.c:90-98 | a text with line feeds changes the screen key by key, and nothing else |
| `Terminal.BlankTypedShows` | src/flanterm/flanterm.c:90-98 | so on a blank terminal with rows <= cols it shows as its last lines |
| `Terminal.AsciiTyped` | src/flanterm/flanterm.c:1321-1329 | on a fresh terminal every text of printable ASCII and line feeds is one, typed as itself |
| `Terminal.LinesDrawn` | src/flanterm/flanterm.c:866-901 | the line drawing set draws q and x as lines and leaves upper-case letters |
| `Terminal.CodePointWidth` | src/flanterm/flanterm.c:1208-1219 | a code point that the code page lacks takes as many columns as it is wide, a replacement and blanks |
| `Terminal.RanOnce` | src/flanterm/flanterm.c:1183-1330 | bytes with one decision act once, as that decision says |
| `Terminal.SequenceRuns` | src/flanterm/flanterm.c:461-764 | a control sequence sent to an idle terminal is carried out once, with the numbers sent |
| `Terminal.PositionSent` | src/flanterm/flanterm.c:588-601 | ESC [ row ; column H goes there and touches nothing else |
| `Terminal.GraphicsSent` | src/flanterm/flanterm.c:696-698 | ESC [ numbers m sets colours and attributes as the selection of these numbers and touches nothing else |
| `Terminal.MarginsSent` | src/flanterm/flanterm.c:728-750 | ESC [ first ; last r sets the scroll region and goes home |
| `Terminal.CursorSwitched` | src/flanterm/flanterm.c:369-400 | ESC [ ? 25 h shows the cursor, ESC [ ? 25 l hides it, every other private sequence does nothing |
| `Terminal.FeedsSent` | src/flanterm/flanterm.c:827-851 | ESC D, E and M are a line feed, one to the first column, and a reverse one |
| `Terminal.ResetSent` | src/flanterm/flanterm.c:823-826 | ESC c leaves a blank terminal with default modes and attributes, in the colours it had |
| `Terminal.SavedAndRestored` | src/flanterm/flanterm.c:767-788 | what ESC 7 saves ESC 8 restores, cursor, pending wrap, colours and attributes, whatever came in between |
| `Terminal.PositionSaved` | src/flanterm/flanterm.c:699-704 | commands s and u do so for the position alone |
| `Terminal.InsertSwitched` | src/flanterm/flanterm.c:751-757 | 4 h switches insert mode on and 4 l off, and nothing else |
| `Scheduler.TaskTable.RoundRobinCall` | src/scheduler/scheduler.cpp:62-79 | counts the quantum and the delays down, and at its end switches to the next runnable task; nine calls keep the current task and the tenth switches (SliceKept, TenthCallSwitches) |
| `Scheduler.TaskTable.FindNextTask` | src/scheduler/scheduler.cpp:165-179 | the runnable task the fewest steps ahead on the ring, the idle task if there is none |
| `Scheduler.TaskTable.DecrementDelays` | src/scheduler/scheduler.cpp:54-60 | every live task's delay loses one tick down to 0 |
| `Scheduler.TaskTable.DelayTask` | src/scheduler/scheduler.cpp:186-190 | the current task sleeps and gives up its quantum |
| `Scheduler.TaskTable.CreateTask` | src/scheduler/scheduler.cpp:111-124 | the next slot comes alive undelayed |
| `Scheduler.StepKeepsInv` | src/scheduler/scheduler.cpp:54-124 | every event keeps the task table well formed |
| `Scheduler.SwitchNearer` | src/scheduler/scheduler.cpp:165-179 | a switch to another task brings a runnable task strictly nearer |
| `Scheduler.CallBringsNearer` | src/scheduler/scheduler.cpp:62-79 | every call brings a waiting task nearer to its turn |
| `Scheduler.SliceKept` | src/scheduler/scheduler.cpp:62-79 | in any run, from the beginning of a slice the current task stays current for nine calls unless it delays itself |
| `Scheduler.TenthCallSwitches` | src/scheduler/scheduler.cpp:70-78 | the tenth call ends the slice and chooses the next task |
| `Scheduler.SwitchBeginsSlice` | src/scheduler/scheduler.cpp:62-79 | every change of the current task begins a slice |
| `Scheduler.NextInOrder` | src/scheduler/scheduler.cpp:165-179 | the slots after the current one come first, then those before it, each in order; the idle task only when none is ready |
| `Scheduler.AloneAlternates` | src/scheduler/scheduler.cpp:165-179 | a task alone ready to run takes turns with the idle task |
| `Scheduler.BoundedWaiting` | src/scheduler/scheduler.cpp:54-79 | in any run a live task becomes current within its delay plus 10*99 calls, whatever other tasks do |
| `Scheduler.DelayHolds` | src/scheduler/scheduler.cpp:54-79 | a delayed task is not chosen before its delay has counted down, one tick a call |
| `Scheduler.DelayedStaysOff` | src/scheduler/scheduler.cpp:186-190 | a task that delays itself is off the processor at once and for fewer calls than its delay, the delaying one counted, is not chosen again |
| `Heap.KernelHeap.constructor` | src/kheap.cpp:21-31 | the list is well formed exactly when stale memory holds FREE and 0 |
| `Heap.KernelHeap.Kmalloc` | src/kheap.cpp:33-48 | rejected requests change nothing; accepted ones leave a well-formed heap exactly when two headers fit, and then the block is the caller's alone |
| `Heap.FirstRequest` | src/kheap.cpp:33-37 | a new heap has room for 16336 bytes; it accepts 16352, and sizes of which 16 more wrap around |
| `Heap.KmallocKeeps` | src/kheap.cpp:33-48 | the cut keeps the chain, the states, every live block and adds the new one |
| `Heap.CutBreaksList` | src/kheap.cpp:35-45 | a cut without that room leaves no well-formed list of any kind |
| `Heap.BlocksDisjoint` | src/kheap.cpp:33-48 | live blocks overlap neither each other nor a header and lie in the arena |
| `Heap.Ascending` | src/kheap.cpp:7-14 | chunks lie in ascending order without overlap |
| `Heap.SamePrefix` | src/kheap.cpp:33-103 | memory determines the chunks |
| `Heap.KernelHeap.Kfree` | src/kheap.cpp:61-78 | frees the block, merges it with its free neighbours, keeps every other live block and the well-formed list; an unknown address changes nothing |
| `Heap.KernelHeap.CheckConsolidate` | src/kheap.cpp:80-103 | swallows a free successor, is swallowed by a free predecessor, and takes the sentinel for the first chunk's predecessor |
| `Heap.KernelHeap.FindPrevious` | src/kheap.cpp:85-88 | the chunk before, or the sentinel for the first |
| `Heap.KernelHeap.UpdateLastFreeChunk` | src/kheap.cpp:50-59 | the last free chunk before the sentinel |
| `Heap.KfreeKeeps` | src/kheap.cpp:61-103 | after merging no two neighbours are free, the chain ends in a free chunk and the other blocks are live |
| `Heap.KfreeGivesBack` | src/kheap.cpp:61-103 | the bytes of a freed block and of its free neighbours make up one free chunk |
| `Heap.KfreeStates` | src/kheap.cpp:61-103 | the freed chunk becomes free and no other chunk changes its state |
| `Heap.FreeingFirstNeverEnds` | src/kheap.cpp:50-103 | in the excluded case the list has become a cycle: every step of the walk finds another link |
| `Heap.FirstFreeOfFirstBlock` | src/kheap.cpp:21-103 | one kmalloc(16) in an arena of zeroes and kfree of its block reach that case |
| `Disk.Ahci.ReadData` | src/drivers/ahci.cpp:352-389 | the buffer receives exactly bytes offset..offset+size of the disk |
| `Disk.Ahci.WriteData` | src/drivers/ahci.cpp:391-429 | exactly bytes offset..offset+size change, to the buffer's |
| `Disk.SpliceReadBack` | src/drivers/ahci.cpp:352-429 | a write reads back |
| `Disk.SpliceElsewhere` | src/drivers/ahci.cpp:391-429 | no byte outside a write changes |
| `Disk.SpliceInner` | src/drivers/ahci.cpp:397-405 | reading a sector, changing part of it and writing it back is one write of that part |
| `Fat.DecodeEncode` | src/fs/fat32.cpp:57-67 | an entry's four bytes, the lowest first, read back as its value |
| `Fat.EntryBytes` | src/fs/fat32.cpp:46-60 | an entry is four bytes at four times its number, the first byte the lowest |
| `Fat.Volume.TableBytes` | src/fs/fat32.cpp:46-60 | counted from the end of the reserved sectors of 512 bytes |
| `Fat.EntryWritten` | src/fs/fat32.cpp:62-68 | writing an entry's bytes changes that entry and no other |
| `Fat.Volume.GetEntry` | src/fs/fat32.cpp:46-60 | the entry of any 32-bit cluster number whose four bytes lie on the disk; for one of the table, the table's entry |
| `Fat.Volume.WriteEntry` | src/fs/fat32.cpp:62-68 | the table with that entry changed, and no other byte of the disk |
| `Fat.Volume.AllocateCluster` | src/fs/fat32.cpp:255-266 | the first free entry is marked as a chain's end; with none free entry 0 is |
| `Fat.Volume.LinkClusters` | src/fs/fat32.cpp:268-270 | one entry points at the other cluster |
| `Fat.Volume.GetLastCluster` | src/fs/fat32.cpp:272-285 | terminates on a chain and returns its last cluster |
| `Fat.Volume.TraverseClusterChain` | src/fs/fat32.cpp:287-297 | the n-th cluster of the chain, or its end marker |
| `Fat.Volume.AppendCluster` | src/fs/fat32.cpp:349-367 | get_last_cluster, allocate_cluster and link_clusters together lengthen the file by the allocated cluster; the table stays well formed exactly when a data cluster was free |
| `FatChains.ChainsMeet` | src/fs/fat32.cpp:272-285 | chains that meet go on together |
| `FatChains.Acyclic` | src/fs/fat32.cpp:272-285 | a chain that ends visits no cluster twice |
| `FatChains.OneCluster` | src/fs/fat32.cpp:272-285 | marks from 0x0ffffff8 on end a chain |
| `FatChains.FirstFreeIsFirst` | src/fs/fat32.cpp:257-262 | the search finds the first free entry, or shows there is none |
| `FatChains.FindsDataCluster` | src/fs/fat32.cpp:257-262 | what it finds is a data cluster exactly when one of those is free |
| `FatChains.AppendKeeps` | src/fs/fat32.cpp:255-270 | linking a free cluster lengthens one file, leaves every other identical and the table well formed |
| `FatChains.AppendOutcome` | src/fs/fat32.cpp:255-270 | the chain always grows by the entry found; the table stays well formed, over the volume's own data clusters, exactly when one of those was free |
| `FatChains.StepOutcome` | src/fs/fat32.cpp:255-285 | each append from a well-formed table moves one cluster from the free ones to a file, or, with none free, ends well-formedness |
| `FatChains.RunKeeps` | src/fs/fat32.cpp:255-285 | over any run of appends the table stays well formed while data clusters are free, and every cluster gained by a file was lost from the free ones |
| `FatChains.RunStaysWellFormed` | src/fs/fat32.cpp:255-285 | a whole run keeps the table well formed exactly when it makes no more appends than there are free data clusters |
| `FileReading.ReadFile` | src/fs/fat32.cpp:199-253 | the buffer holds what the loops fetch from the cluster that the walk finds, then zeros; the request fails exactly when the walk does; for every request whose reads stay on the disk; where a cluster lies is FirstCluster and NextCluster |
| `FileReading.FirstCluster` | src/fs/fat32.cpp:41-43 | data cluster 2 begins at the first data sector |
| `FileReading.NextCluster` | src/fs/fat32.cpp:41-43 | every other one begins where the one before it ends |
| `FileReading.ClustersDisjoint` | src/fs/fat32.cpp:41-43 | two data clusters share no byte |
| `FileReading.SectorOfCluster` | src/fs/fat32.cpp:41-43 | the 32-bit sector number computed for a cluster on the disk is that of the cluster's first sector |
| `FileReading.OthersDontMatter` | src/fs/fat32.cpp:199-253 | disks that differ only inside clusters outside the file's chain give every request fetched whole the same buffer |
| `FileReading.Skip` | src/fs/fat32.cpp:211-216 | the walk over the entries to the cluster of the first byte, stopped by the mark 0x0FFFFFF8 alone |
| `FileReading.SkipAlong` | src/fs/fat32.cpp:211-216 | along a chain that is its n-th cluster; right past its end the walk fails exactly when the end mark is 0x0FFFFFF8, and with any other mark it goes on from the mark |
| `FileReading.RequestsRead` | src/fs/fat32.cpp:199-253 | requests within a file's chain, and those past it that the end mark stops or that begin right at its end, are such requests |
| `FileReading.ReadFirst` | src/fs/fat32.cpp:218-227 | the first read takes the rest of a sector, or everything past the first sector of a cluster |
| `FileReading.ReadClusters` | src/fs/fat32.cpp:231-248 | the remaining clusters' bytes in order |
| `FileReading.ReadCluster` | src/fs/fat32.cpp:233-245 | the same sector again for every sector of the cluster |
| `FileReading.WholeIsRight` | src/fs/fat32.cpp:218-248 | a request fetched whole gets the slice of the concatenated clusters |
| `FileReading.RightExactlyWhen` | src/fs/fat32.cpp:218-248 | the buffer gets the file's own bytes, then zeros, for every content of the data clusters, byte for byte, exactly when the request is exact |
| `FileReading.WrongDisk` | src/fs/fat32.cpp:218-248 | where it is not, a disk of bytes, the same below the data clusters, on which the buffer comes out wrong |
| `FileReading.ClustersApart` | src/fs/fat32.cpp:41-43 | clusters of several sectors never begin one sector apart |
| `FileReading.FileReadsRight` | src/fs/fat32.cpp:199-253 | for a file of a volume and its length: on every disk that differs in the data clusters alone the chain stays the file's chain, and the request gets the file's own bytes and zeros past its end on all of them exactly when it is right |
| `FileReading.ChainOnDisk` | src/fs/fat32.cpp:46-60 | the table entries of data clusters stand before the data, so a chain does not depend on the data |
| `FileReading.SlackRead` | src/fs/fat32.cpp:199-253 | 100 bytes from byte 50 of a file of 100 bytes end in byte 149 of its cluster where a zero should be |
| `FileReading.ReadsTheFile` | src/fs/fat32.cpp:199-253 | a right request gets the file's own bytes pos.., for unaligned starts and partial last clusters, and zeros past its end |

## Left out

- `switch_context`'s saved register frames, `kill_task`, user task creation and the idle loop: no index, quantum or delay state.
- `Scheduler.TaskTable.CreateTask`: asks for a free slot, because the source has no bound check.
- `Terminal.Context.PutCodePoint`: the code page and the width table are parameters, and so is the colour palette (`Tables`); a width is any natural number, where the source turns -1 into 2^64 - 1.
- Terminal callbacks (bell, reports, LEDs, Linux private sequences), glyphs, pixels, fonts and the canvas.
- `Heap.KernelHeap.Kfree`: leaves out the one call that never returns; `Heap.FreeingFirstNeverEnds` shows that it does not.
- `init_heap`'s test of the allocation, which compares a higher-half address with 0 and so never fires: the heap is given its arena.
- `Fat.Volume.GetEntry`: does not model the scratch buffer's kmalloc or its failure, and asks that the entry lies on the disk, since a device read elsewhere has no result here.
- `Fat.Volume.GetLastCluster`: is asked only about chains that end; on others the source does not return or leaves the table.
- `FileReading.ReadFile`: asks that every sector it reads lies on the disk, since a device read elsewhere has no result here; and for disks of at most 4 GiB, since its byte positions have 32 bits.
- `findFile`, `writeFile`'s data path, `createFile`, `write_to_filedesc` and `encode_name`.
- `Disk.Ahci.ReadSector` and `Disk.Ahci.WriteSector`: the device is seen from outside, as one sector moved; commands, ports and their waiting loop are not modelled.
- `PageAllocator.FrameAllocator.Init`: takes the memory map as page-aligned and free of overlaps, as the boot protocol promises.
- `PageAllocator.FrameAllocator.KpFree`: is asked only about pages that the bitmap covers.
- `PageTables.Machine.WalkTable`: gives the page offset for an unmapped leaf, as the source does.
- TLB invalidation, huge pages, permission checks and `identity_map`, which is `map_range` onto itself.
- `AddressSpaces.InitMappings`: covers memory maps below 2^48 bytes, the reach of four levels.
- The ELF loader, the virtual ATA device, virtual machine set-up, NVMe, PCI, ACPI, PS/2, PIT, interrupt tables, the virtual file system, the RAM disk and the system call table.

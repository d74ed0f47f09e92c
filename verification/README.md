# GrainX in Dafny

A model of five components of GrainX, a small i386 kernel, and proofs about them. Pointers are indices into byte
arrays, 32-bit arithmetic wraps where the code relies on it, and each component is split in two: value-level
functions and lemmas that say what must hold, and classes or methods over mutable arrays whose contracts tie every
routine to those functions.

- **Memory and strings** (`Bytes`, `CString`): little-endian fields, range updates, and the byte-string routines.
- **Sentinel heap** (`HeapModel`, `HeapRuns`, `Allocator`): a byte is free when it is `$`. The model is a transition
  system over memory contents. Safety holds over every run as long as no block's data holds four `$` in a row; the
  three guard bytes buy exactly that, and one `$` more breaks it.
- **Terminal** (`Screen`, `Transcript`, `VgaConsole`, `Shell`): the 100-line scrolling buffer refines an unbounded
  transcript; the window and the cursor distance stay in range over every run of the command loop.
- **Keyboard and line editor** (`Keyboard`, `LineEditor`): the held-key table refines a set, the editor refines a
  stack whatever the index does, and the echo agrees with the terminal.
- **Numbers and printf** (`Numbers`, `Printf`): printing and parsing are inverses; the interpreter refines a
  character-by-character rendering.
- **ext2** (`Ext2Layout`, `Ext2Path`, `Ext2Walk`, `Ext2Files`, `Ext2ReadBack`, `Ext2Alloc`, `Ext2Runs`, `Ext2Driver`,
  `Ext2Example`): inode addressing, directory chains, path walk, listing, reading, allocation and writing on a
  well-formed image of 1 KiB blocks. In such an image the records of a directory block end in one with inode zero.
  `Ext2Example` is a small image that meets the assumptions and shows the failing inputs.

Where the code does less than its comments or its callers expect, the model follows the code and a lemma gives the
exact condition, for most with a concrete failing input beside it: `GuardsExact` (guards; `FourSentinelsExample`),
`InsideExactlyWhenFits` (no out-of-memory check; `PastEndExample`), `ScanLengthExactly` (32-bit scan length;
`HugeSizeExample`), `ClearSafeExactly` (clearing while scrolled up), `ReverseStopsExactly` (8-bit position),
`AtoiExact` (8-bit counter), `RoundTripExactly` (digit limit), `FirstBgdExact` (descriptor block), `FindExactly`
(paths below files and names in later blocks; `ThroughFile`, `ThroughBlockless`, `InLaterBlock`), `ReadCountExactly`
(multi-block count; `TwoBlockCount`), `AppendCoveredExactly` (block boundary; `AppendPastBlock`), `CountedExactly`
(number of block groups), `NextDiffersExactly` (a block handed out twice; `LaterGroupExample`, `UsedUpExample`),
`NextOnDiskExactly` (the last free block; `LastFreeBlock`), `FreshCoveredExactly` (no free block; `NoBlockFree`).

Inputs of the model that the code takes from hardware or callers: the scancode stream, the sectors of the disk, the
memory array and `kernel_end`, the cached superblock, and the arguments of `printf`.

`dafny verify dfyconfig.toml` checks the project.

## Model

| member | source | states |
|---|---|---|
| `CString.Memcpy` | libc/string/memcpy.c:9-29 | the odd-byte-then-pairs loop makes the destination exactly the old source bytes and leaves every other byte alone, also when the destination overlaps the source from below |
| `CString.Memset` | libc/string/memset.c:3-9 | exactly the given range is filled |
| `CString.Strlen` | libc/string/strlen.c:3-9 | the length of the text up to the first NUL |
| `CString.Strcmp` | libc/string/strcmp.c:3-10 | zero exactly when the two NUL-terminated texts are equal |
| `CString.Memcmp` | libc/string/memcmp.c:3-11 | 1 exactly when the compared prefix agrees, NULs included; it stops at the first difference |
| `HeapModel.InitValid` | kernel/arch/i386/malloc.c:7-16 | after initialisation markers, headers, disjointness and the all-'$' rest hold |
| `HeapModel.InitBytes` | kernel/arch/i386/malloc.c:7-16 | byte by byte: START_OF_HEAP, 25600 times '$', END_OF_HEAP, the rest as it was |
| `HeapModel.GuardsExact` | kernel/arch/i386/malloc.c:57-70 | a block carved out of a free run meets a live block exactly when the run's fourth byte is one of that block's data bytes |
| `HeapModel.FourSentinelsBreak` | kernel/arch/i386/malloc.c:67-71 | when a block's data ends in four '$' and the first fit starts there, the next malloc lands on live data |
| `HeapModel.FourSentinelsExample` | kernel/arch/i386/malloc.c:55-83 | from the initial heap, a four-byte block filled with "$$$$" and one more malloc: the new header lands on the first block's last data byte |
| `HeapModel.MallocFresh` | kernel/arch/i386/malloc.c:55-83 | malloc keeps the heap valid, returns a block that was not live and holds zeros only, and changes no header or data byte of another live block nor any byte outside the heap |
| `HeapModel.FreeSame` | kernel/arch/i386/malloc.c:85-94 | free changes no byte of another live block and nothing outside the heap |
| `HeapModel.FreeValid` | kernel/arch/i386/malloc.c:85-94 | free of a live block keeps the heap valid |
| `HeapModel.StoreValid` | kernel/arch/i386/malloc.c:55-94 | a write inside one block that leaves no four '$' in a row keeps the heap valid |
| `HeapRuns.EveryRunSafe` | kernel/arch/i386/malloc.c:7-94 | over every run of malloc, free of live blocks and such writes: markers survive, live blocks stay inside the heap and apart, headers keep their sizes, memory outside is untouched |
| `HeapRuns.UntouchedBlockPersists` | kernel/arch/i386/malloc.c:55-94 | a block the run neither frees nor writes keeps every header and data byte |
| `HeapRuns.AllFreedRestores` | kernel/arch/i386/malloc.c:85-94 | once every block is freed, in any order, memory is what it was |
| `HeapRuns.InitRestored` | kernel/arch/i386/malloc.c:7-16 | from the initial heap, freeing everything gives back exactly the initial heap |
| `HeapRuns.BorrowRestores` | kernel/arch/i386/malloc.c:55-94 | malloc, any bytes whatever left in the block, then free restores the heap byte for byte |
| `HeapRuns.BorrowWriteFree` | kernel/arch/i386/malloc.c:55-94 | the same for any sequence of writes into the block, four '$' in a row included |
| `HeapRuns.RunConserves` | kernel/arch/i386/malloc.c:55-94 | a run that leaves the older blocks alone changes memory only in new blocks that are still live: what it leaks is all that differs |
| `HeapRuns.RunRestores` | kernel/arch/i386/malloc.c:55-94 | a run that leaves the older blocks alone and frees every block of its own, in any order, restores the heap byte for byte |
| `HeapRuns.CountIsLiveBytes` | kernel/arch/i386/malloc.c:38-48 | the number of non-'$' bytes in the heap is the number of non-'$' bytes in live blocks |
| `HeapRuns.InsideExactlyWhenFits` | kernel/arch/i386/malloc.c:55-66 | the first fit lies inside the heap exactly when some fit does; otherwise it starts past the end marker |
| `HeapRuns.PastEndExample` | kernel/arch/i386/malloc.c:55-66 | a request for 25591 bytes on the initial heap is placed behind the end marker when memory there looks free |
| `HeapModel.ScanLengthExactly` | kernel/arch/i386/malloc.c:57-60 | the 32-bit scan length is the size and its guards exactly below 2^32 - 10; for the ten sizes above, the data would run past the end of the address space |
| `HeapModel.HugeSizeExample` | kernel/arch/i386/malloc.c:55-83 | with one four-byte block live, a request for 4294967286 bytes is given that very block |
| `Allocator.Mm.MmInit` | kernel/arch/i386/malloc.c:7-16 | memory becomes the model's initial heap |
| `Allocator.Mm.Scan` | kernel/arch/i386/malloc.c:55-66 | for every size the scan, with its wrapped length and inner index, ends at the least run of that length and reads nothing past it |
| `Allocator.Mm.FindBlock` | kernel/arch/i386/malloc.c:55-78 | the block starts 7 bytes past the least run of size + 10; its header reads as the size, its data are zeros, and no other byte of memory changes |
| `Allocator.Mm.Malloc` | kernel/arch/i386/malloc.c:80-83 | one placement step at the first stretch that fits anywhere, with zeroed data and nothing else changed; inside the heap exactly when one fits there, and then it is the model's malloc, otherwise past the end marker |
| `Allocator.Mm.Free` | kernel/arch/i386/malloc.c:85-94 | one free step of the model, with the length read from the header in memory: header and data become '$', no other byte changes |
| `Allocator.Mm.HeapUsed` | kernel/arch/i386/malloc.c:38-48 | the count is the number of non-'$' addresses inside live blocks, and the percentage, over the reals, is its whole percentage of the heap |
| `Screen.CellBytes` | kernel/arch/i386/vga_console.c:8-11 | a 16-bit cell lies in memory as character then colour |
| `Screen.InitCells` | kernel/arch/i386/vga_console.c:13-34 | the initialised terminal cell by cell: blank in green on black, cursor and window on line 75 |
| `Screen.ControlCharacters` | kernel/arch/i386/vga_console.c:113-134 | what newline, return and backspace do to the cursor, the window and, on the last line, to every cell |
| `Screen.OtherCharacter` | kernel/arch/i386/vga_console.c:136-144 | any other character is drawn in the cursor's cell and nowhere else, and the cursor moves on, at the edge to the next line |
| `Screen.PlainWrite` | kernel/arch/i386/vga_console.c:81-85 | text without control characters that ends before the edge is laid out in place on the cursor's line and touches nothing else |
| `Screen.ClearShape` | kernel/arch/i386/vga_console.c:43-54 | clearing leaves the window at the bottom and the cursor one line under the former window start |
| `Screen.ClearLines` | kernel/arch/i386/vga_console.c:43-54 | after clearing every cell is blank in the current colour, but for the thirteen message characters on the window's former first line |
| `Screen.ClearSafeExactly` | kernel/arch/i386/vga_console.c:43-54 | after a clear the unsigned row distance is non-negative exactly when the window was at the bottom |
| `Screen.ScrollWindow` | kernel/arch/i386/vga_console.c:99-109 | steps of +2, wrapped -2 and reset keep the window odd and in range; a step off either end resets it to the bottom |
| `Screen.ScrollExactly` | kernel/arch/i386/vga_console.c:99-107 | a step by any value: to that line, in 32 bits, if it is one of 1 to 75, else to 75 |
| `Screen.WindowSafe` | kernel/kernel/kernel.c:121-143 | in every run with no clear between a window step and the next newline the window is odd in 1..75, the cursor row is in 75..99 and the cursor word is the true distance |
| `Shell.LoopSafe` | kernel/kernel/kernel.c:121-237 | the same bounds over every run of the command loop (input line, newline, command, prompt), whatever is typed and printed |
| `Shell.SessionWindow` | kernel/arch/i386/tty.c:3-107 | typing a line, scroll keys included, keeps the window odd and in range |
| `Shell.LoopSafeFromBoot` | kernel/kernel/kernel.c:87-237 | the same from the initialised terminal |
| `Transcript.RunRefines` | kernel/arch/i386/vga_console.c:87-145 | after any characters, colour changes and window steps the 100-line buffer is the last 100 lines of an unbounded transcript, cursor included |
| `Transcript.FromInit` | kernel/arch/i386/vga_console.c:13-36 | the same from the initialised terminal |
| `Transcript.HistoryStable` | kernel/arch/i386/vga_console.c:87-145 | lines above the cursor never change and the cursor never moves up in the transcript |
| `VgaConsole.Console.constructor` | kernel/arch/i386/vga_console.c:13-34 | both buffers blank, window and cursor at the bottom, before the greeting |
| `Printf.VgaTermInit` | kernel/arch/i386/vga_console.c:13-36 | blank buffers and then the greeting, shown on the screen |
| `VgaConsole.Console.SetColor` | kernel/arch/i386/vga_console.c:38-41 | only the colour changes |
| `VgaConsole.Console.PutCAt` | kernel/arch/i386/vga_console.c:81-85 | exactly one cell of one line changes |
| `VgaConsole.Console.ScrollVirtual` | kernel/arch/i386/vga_console.c:87-97 | the in-place line copies drop the first line and append a blank one in the current colour |
| `VgaConsole.Console.WritePhysical` | kernel/arch/i386/vga_console.c:56-79 | physical rows 1..24 equal the window's rows, and row 0 is the window's first row with the status bar over its right end |
| `VgaConsole.Console.StatusBar` | kernel/arch/i386/vga_console.c:66-78 | the banner with the window's first line in decimal, its terminator included, between two stars in their colours; nothing else changes |
| `VgaConsole.BarReads` | kernel/arch/i386/vga_console.c:66-72 | the bar's text is the banner, digits that read back as the window's first line, and the terminator |
| `VgaConsole.BarCellsAre` | kernel/arch/i386/vga_console.c:73-77 | the bar cell by cell: star, characters in colours 1 to 7 in turn, star |
| `VgaConsole.BarPlace` | kernel/arch/i386/vga_console.c:73-77 | the bar ends where the row ends, and the rest of the row shows through |
| `VgaConsole.Console.UpdateCursor` | kernel/arch/i386/vga_console.c:154-162 | the cursor word with its wrapping subtraction |
| `Screen.CursorWordExactly` | kernel/arch/i386/vga_console.c:154-157 | the word is the distance in cells modulo 2^16, also for a row above the window |
| `VgaConsole.Console.Pos` | kernel/arch/i386/vga_console.c:99-109 | the window step with 32-bit wrap and the recursive reset, after which the screen shows the window |
| `VgaConsole.Console.PutC` | kernel/arch/i386/vga_console.c:111-145 | one character step of the terminal model |
| `VgaConsole.Console.Write` | kernel/arch/i386/vga_console.c:164-168 | the characters of the string, one step each |
| `VgaConsole.Console.Update` | kernel/arch/i386/vga_console.c:170-174 | the screen shows the window |
| `VgaConsole.Console.WriteStr` | kernel/arch/i386/vga_console.c:176-181 | the string is written and the screen shows the window |
| `VgaConsole.Console.Clear` | kernel/arch/i386/vga_console.c:43-54 | the clear step of the model, message included |
| `Keyboard.HeldExactly` | kernel/arch/i386/ps2.c:16-89 | after any scancode stream the held set is exactly the keys whose latest event is a press, and the shift flag is the latest shift event |
| `Keyboard.ReportsAreRisingEdges` | kernel/arch/i386/ps2.c:47-89 | the keys reported are exactly the presses of keys not already held, in order |
| `Keyboard.NextKeySplits` | kernel/arch/i386/ps2.c:47-89 | a reported key is the last byte consumed, and table and shift flag are as all the consumed bytes leave them |
| `Keyboard.FreeSlot` | kernel/arch/i386/ps2.c:49-79 | a table of distinct pressed codes always has a free slot |
| `Keyboard.Ps2.IsHeld` | kernel/arch/i386/ps2.c:63-68 | finds a code exactly when the table has it |
| `Keyboard.Ps2.Insert` | kernel/arch/i386/ps2.c:74-79 | exactly the new code joins the set; entries stay distinct |
| `Keyboard.Ps2.Release` | kernel/arch/i386/ps2.c:82-85 | exactly the released code leaves the set |
| `Keyboard.Ps2.GetScancode` | kernel/arch/i386/ps2.c:16-31 | the shift flag follows the scancode |
| `Keyboard.Ps2.KeyIn` | kernel/arch/i386/ps2.c:47-89 | the next rising edge of the stream, with table and shift flag as the set model says |
| `LineEditor.Names` | kernel/arch/i386/ps2.c:3-12 | every key name starts with a printable character, and each of the editor's name tests singles out one scancode |
| `LineEditor.KeyRows` | kernel/arch/i386/ps2.c:3-12 | the typing keys row by row |
| `LineEditor.OtherKeys` | kernel/arch/i386/ps2.c:3-12 | every other key's name starts with '<' or '(' |
| `LineEditor.ShiftRow` | kernel/arch/i386/tty.c:10-78 | with shift the signs above the digits and signs, capitals for letters, nothing else changed |
| `LineEditor.SessionKeys` | kernel/arch/i386/tty.c:5-104 | what each of the 85 keys does to the line, the screen and the keyboard |
| `LineEditor.SessionWaits` | kernel/arch/i386/ps2.c:47-89 | a stream without a new key leaves the line waiting |
| `LineEditor.EchoAgrees` | kernel/arch/i386/tty.c:80-92 | when the line fits, after every key the screen line from the start column on is exactly the edit buffer followed by blanks, on the same row |
| `LineEditor.EraseShows` | kernel/arch/i386/tty.c:91-92 | the erase sequence removes exactly the last character shown |
| `LineEditor.SpecialKey` | kernel/arch/i386/tty.c:86-103 | the terminal's reaction to a special key and the wrapped step of the index |
| `LineEditor.OneKey` | kernel/arch/i386/tty.c:5-103 | one key pushes, pops or leaves the stack held in the buffer, through the index wrap, and echoes as the model says |
| `LineEditor.OneTurn` | kernel/arch/i386/tty.c:5-104 | one turn of the loop moves the session on by one key |
| `LineEditor.GetUserInput` | kernel/arch/i386/tty.c:3-107 | for every scancode stream the buffer holds the NUL-terminated stack at enter or when buff_len - 1 characters are held; keyboard and terminal end as the session says |
| `Numbers.ReverseStopsExactly` | libc/string/str_reverse.c:5-12 | the positions the loop takes come to the middle exactly for fewer than 512 bytes; otherwise it never ends |
| `Numbers.StrReverse` | libc/string/str_reverse.c:3-14 | exactly the first len bytes are reversed |
| `Numbers.PrintedValue` | libc/string/u32_to_str.c:3-23 | the printed digits denote the argument modulo base^limit, for every argument and limit |
| `Numbers.PrintedCanonical` | libc/string/u32_to_str.c:3-23 | a number that fits is printed without leading zeros and reads back as itself |
| `Numbers.DigitChars` | libc/stdio/printf.c:55-62 | the digit characters are 0 to 9 and A to F |
| `Numbers.U32ToStr` | libc/string/u32_to_str.c:3-23 | the buffer holds the printed decimal text and its terminator, for every limit |
| `Numbers.Power` | libc/math/sqrt.c:3-10 | the integer power modulo 2^32, with the exponent the wrapped loop bound reaches |
| `Numbers.Atoi` | libc/string/atoi.c:3-17 | the digit sum with the weights the 8-bit position counter gives |
| `Numbers.AtoiExact` | libc/string/atoi.c:3-17 | the decimal value modulo 2^32 for up to 256 digits; beyond that exactly when the decimal values of the stretches of 256 digits before the last one add up to zero |
| `Numbers.RoundTripExactly` | libc/string/atoi.c:3-17 | parsing a printed number gives it back exactly when it has no more digits than the limit, for every limit |
| `Numbers.RoundTrip` | libc/string/u32_to_str.c:3-23 | every 32-bit number survives printing and parsing when the limit is at least ten |
| `Printf.DigitsReadBack` | libc/stdio/printf.c:41-76 | %d and %x text reads back in base 10 and 16 as the argument, without leading zeros |
| `Printf.RenderPieces` | libc/stdio/printf.c:12-40 | the rendering of a character, of a doubled percent sign, of %c and of %s |
| `Printf.RenderNumbers` | libc/stdio/printf.c:41-76 | %d and %x render as digits that read back as the argument, and then the rest |
| `Printf.RenderUnknown` | libc/stdio/printf.c:77-83 | an unknown conversion prints the rest of the format as it stands |
| `Printf.LiteralRun` | libc/stdio/printf.c:12-26 | a literal chunk, past a doubled '%', is what the rendering emits before the rest |
| `Printf.HexDigits` | libc/stdio/printf.c:49-74 | the hexadecimal text of the argument |
| `Printf.Piece` | libc/stdio/printf.c:10-84 | each turn of the loop emits a prefix of the rendering and continues with the rest |
| `Printf.Printf` | libc/stdio/printf.c:3-88 | the terminal receives exactly the rendered text, the result is its length modulo 2^32, and the screen is refreshed |
| `Ext2Layout.FirstBgdExact` | kernel/arch/i386/ext2.c:69-70 | the driver looks for the descriptors in the block after the superblock's exactly for 1 KiB blocks; for hints of 22 to 31 its 32-bit block size is zero |
| `Ext2Layout.CountedExactly` | kernel/arch/i386/ext2.c:60-66 | rounding down counts the block groups right exactly when there is one or at most one block is left over; otherwise the last group is missed |
| `Ext2Layout.InodeAtFlat` | kernel/arch/i386/ext2.c:92-101 | block offset and slot agree: records follow one another from the table's start and stay inside the table |
| `Ext2Layout.InodePlace` | kernel/arch/i386/ext2.c:79-101 | inode group * ipg + k + 1 is record k of its group's table, which bytes 8 to 11 of the group's descriptor locate |
| `Ext2Layout.InodeBytes` | kernel/arch/i386/ext2.c:103-137 | reading takes the 128 bytes there, writing changes those and no other |
| `Ext2Layout.FieldsOnDisk` | kernel/arch/i386/ext2.c:77-105 | type nibble, size and direct pointers of an inode by their bytes on the disk |
| `Ext2Layout.RecordsApart` | kernel/arch/i386/ext2.c:77-138 | different inodes have records that do not meet |
| `Ext2Layout.InodeStore` | kernel/arch/i386/ext2.c:77-138 | a record written is the record read, and every other inode reads as before |
| `Ext2Path.NameMatches` | kernel/arch/i386/ext2.c:147-152 | a record's copied-out name is compared exactly: equal precisely when the record's bytes are the component |
| `Ext2Path.BearsExactly` | kernel/arch/i386/ext2.c:143-147 | a record has a name exactly when its declared bytes are that name, up to their end or a NUL |
| `Ext2Path.EntriesAt` | kernel/arch/i386/ext2.c:143-158 | a block's records by its bytes: each record's size leads to the next, with its inode and the name it bears |
| `Ext2Path.ReadDirectory` | kernel/arch/i386/ext2.c:140-162 | the inode of the first record whose bytes bear the name, or zero when no record does |
| `Ext2Path.LookupBearing` | kernel/arch/i386/ext2.c:140-162 | looking a name up, read off the bytes of the block |
| `Ext2Path.Strsplit` | libc/string/strsplit.c:3-16 | the string is cut at every delimiter and the count is the number of components |
| `Ext2Path.SplitJoins` | libc/string/strsplit.c:3-16 | the components contain no delimiter, and joined with it they are the string |
| `Ext2Path.SplitLaid` | kernel/arch/i386/ext2.c:312-313 | stepping by strlen + 1 over the cut string visits exactly the components |
| `Ext2Walk.FindExactly` | kernel/arch/i386/ext2.c:261-335 | the driver's number is the lookup's (only directories contain names, in any of their direct blocks) exactly when the root has no block, or the walk neither answers past something that is not a directory with blocks, nor misses a name in a later block |
| `Ext2Walk.WalkFinds` | kernel/arch/i386/ext2.c:279-323 | the walk answers exactly when there is a trail of inodes, each first block naming the next by the next component, to the end of the path or an inode without a block, and it ends on the last of them |
| `Ext2Walk.ChildOnDisk` | kernel/arch/i386/ext2.c:283-323 | one step of the walk by the bytes on the disk: the first bearer of the name in the block the first pointer names |
| `Ext2Walk.ResolveConcat` | kernel/arch/i386/ext2.c:261-335 | looking up a two-part path is looking up the second part from where the first leads |
| `Ext2Walk.WalkConcat` | kernel/arch/i386/ext2.c:279-323 | the driver's walk along a two-part path is its walk along the second part from wherever the first ended, early ends included |
| `Ext2Walk.ListAgreesWithFind` | kernel/arch/i386/ext2.c:195-259 | listing shows exactly the inode finding returns (nothing at all when it has no first block), and reports an invalid path exactly when finding returns zero, unless the root itself has no block |
| `Ext2Walk.WalkKept` | kernel/arch/i386/ext2.c:279-323 | disks with the same directories give every walk through directories the same answer |
| `Ext2ReadBack.FindOnImage` | kernel/arch/i386/ext2.c:261-335 | on a well-formed image, for every path the driver can walk: finding is the lookup exactly when the root has no block or the walk neither trespasses nor overlooks; with a root that has one it then ends on the inode looked up |
| `Ext2ReadBack.FindThroughDirs` | kernel/arch/i386/ext2.c:261-335 | when directories have one block each, finding a path through directories is the lookup: the same inode, or nothing when a component is missing |
| `Ext2Example.ThroughFile` | kernel/arch/i386/ext2.c:279-323 | a well-formed image on which "/a/b" is found although "a" is a regular file |
| `Ext2Example.ThroughBlockless` | kernel/arch/i386/ext2.c:283-290 | and "/home/x" is found although "home" is an empty file |
| `Ext2Example.InLaterBlock` | kernel/arch/i386/ext2.c:283-323 | and "/z" is not found although the root has it in its second block |
| `Ext2Example.FindHome` | kernel/arch/i386/ext2.c:261-335 | "/home" is found by its whole name and "/hom" is not |
| `Ext2ReadBack.ReadCountExactly` | kernel/arch/i386/ext2.c:349-378 | the returned count is the file's size exactly when one block was copied |
| `Ext2Example.TwoBlockCount` | kernel/arch/i386/ext2.c:349-378 | reading a file of 1500 bytes in two blocks returns 3000 |
| `Ext2ReadBack.BlocksAreContent` | kernel/arch/i386/ext2.c:349-374 | the bytes copied start with exactly the file's contents |
| `Ext2ReadBack.AppendKeepsPaths` | kernel/arch/i386/ext2.c:527-552 | after an append every path through directories leads where it did |
| `Ext2ReadBack.AppendThenRead` | kernel/arch/i386/ext2.c:337-379 | for a one-block file, append then read by the same path returns the grown size and a buffer that starts with old contents and new bytes |
| `Ext2Files.AppendRecords` | kernel/arch/i386/ext2.c:544-547 | descriptors, superblock and every other inode record are unchanged; the file's own record differs by its size |
| `Ext2Files.AppendBytes` | kernel/arch/i386/ext2.c:527-547 | the whole disk after an append: the size field grows, the data lies behind the old last byte, every other byte of the disk, the rest of the record included, is as it was |
| `Ext2Files.AppendContent` | kernel/arch/i386/ext2.c:527-547 | the file's contents become exactly the old contents followed by the new bytes |
| `Ext2Files.AppendOthers` | kernel/arch/i386/ext2.c:527-547 | every other file and directory keeps its record, its blocks and its contents |
| `Ext2Files.AppendCoveredExactly` | kernel/arch/i386/ext2.c:527-547 | appending allocates nothing: afterwards the file has a block for every byte exactly when the new bytes fit behind the old ones in a block already begun |
| `Ext2Example.AppendPastBlock` | kernel/arch/i386/ext2.c:527-547 | 1010 more bytes behind a file of 20 leave it without a block for all of them |
| `Ext2Files.AppendWf` | kernel/arch/i386/ext2.c:527-552 | appending to a regular file keeps the image well formed |
| `Ext2Alloc.AllocFirstGroup` | kernel/arch/i386/ext2.c:427-439 | allocating from group 0 steps both counts down by one and touches no other byte |
| `Ext2Alloc.AllocBytes` | kernel/arch/i386/ext2.c:427-439 | the whole disk after an allocation: the descriptors copied with one count less, the superblock count one less, every other byte as it was |
| `Ext2Alloc.CountsOnDisk` | kernel/arch/i386/ext2.c:427-436 | both counts and the number handed out by their bytes on the disk |
| `Ext2Alloc.AllocManyDistinct` | kernel/arch/i386/ext2.c:417-443 | with one group, successive allocations return strictly increasing numbers, take their number from both counts, and change nothing else |
| `Ext2Alloc.NextDiffersExactly` | kernel/arch/i386/ext2.c:425-442 | two allocations in a row differ exactly when the first comes from group 0 and the second again from group 0 or, that being used up, from a group with more than one free block |
| `Ext2Alloc.LaterGroupExample` | kernel/arch/i386/ext2.c:425-442 | group 0 full, five blocks free in group 1: block 96 is handed out twice |
| `Ext2Alloc.UsedUpExample` | kernel/arch/i386/ext2.c:425-442 | one block free in each of two groups: block 100 is handed out twice |
| `Ext2Alloc.FreshCoveredExactly` | kernel/arch/i386/ext2.c:498-505 | after a first write the file has a block for its bytes exactly when some group had a free block |
| `Ext2Example.NoBlockFree` | kernel/arch/i386/ext2.c:498-505 | no block free: the number stays zero and the file has no block for its byte |
| `Ext2Alloc.FreshContent` | kernel/arch/i386/ext2.c:486-525 | when the block handed out is a free data block, after a first write of less than a block the contents are exactly the bytes written, and every owned block is unchanged |
| `Ext2Alloc.FreshBytes` | kernel/arch/i386/ext2.c:498-522 | the whole disk after a first write, from the disk after the allocation: size field, first pointer and data change, every other byte is as it was |
| `Ext2Runs.FreshWf` | kernel/arch/i386/ext2.c:486-525 | such a write keeps the image well formed |
| `Ext2Runs.FreshKeepsPaths` | kernel/arch/i386/ext2.c:486-525 | after such a write every path through directories leads where it did |
| `Ext2Runs.NextOnDiskExactly` | kernel/arch/i386/ext2.c:429 | on a disk of `blocks` blocks the number handed out is on the disk exactly when at least two blocks are free |
| `Ext2Example.LastFreeBlock` | kernel/arch/i386/ext2.c:429 | an image of ten blocks with one free: block 10 is handed out |
| `Ext2Runs.FreshFitsExactly` | kernel/arch/i386/ext2.c:417-443 | when blocks are owned below the frontier only, the block handed out is a free data block on the disk exactly while two are free |
| `Ext2Runs.FirstWrite` | kernel/arch/i386/ext2.c:486-525 | a first write then leaves exactly the bytes written, every owned block as it was, and the frontier one block further |
| `Ext2Runs.RunContents` | kernel/arch/i386/ext2.c:446-553 | after any run of such writes and appends, to any files, every regular file holds its old contents followed by exactly what was written to it, in order; of the allocator only the frontier of the first image is assumed |
| `Ext2Runs.RunKeepsPaths` | kernel/arch/i386/ext2.c:446-553 | after any run of writes every path through directories leads where it did |
| `Ext2Example.CanWriteHere` | kernel/arch/i386/ext2.c:446-553 | the small image meets the assumptions of such runs, for a first write and for an append |
| `Ext2Driver.Ext2.AtaRead` | kernel/arch/i386/ata.c:170-177 | the buffer holds exactly the sectors |
| `Ext2Driver.Ext2.AtaWrite` | kernel/arch/i386/ata.c:179-187 | exactly the sectors change, to the buffer |
| `Ext2Driver.Ext2.ReadBlock` | kernel/arch/i386/ext2.c:9-16 | the buffer is the block |
| `Ext2Driver.Ext2.WriteBlock` | kernel/arch/i386/ext2.c:18-24 | exactly the block changes, to the buffer |
| `Ext2Driver.Ext2.ReadInode` | kernel/arch/i386/ext2.c:77-105 | the buffer is the inode's record |
| `Ext2Driver.Ext2.WriteInode` | kernel/arch/i386/ext2.c:107-138 | exactly the inode's record changes on disk |
| `Ext2Driver.Ext2.WalkLoop` | kernel/arch/i386/ext2.c:279-323 | the countdown loop over the components performs the walk |
| `Ext2Driver.Ext2.ReadRootDirectory` | kernel/arch/i386/ext2.c:381-414 | true exactly when the root has the name in any of its direct blocks |
| `Ext2Driver.Ext2.FindFileInode` | kernel/arch/i386/ext2.c:261-335 | the number the walk gives, for absolute and relative paths, and the buffer is the inode it ends on |
| `Ext2Driver.Ext2.ListBlock` | kernel/arch/i386/ext2.c:164-193 | the lines of the block's records, hidden names left out |
| `Ext2Driver.Ext2.List` | kernel/arch/i386/ext2.c:195-259 | invalid, nothing at all, or the lines of the directory the path leads to |
| `Ext2Driver.ListedExactly` | kernel/arch/i386/ext2.c:164-193 | the lines are, in order and each once, the entries whose name does not start with '$', in the directory colour exactly for type nibble 4 |
| `Ext2Driver.ListedOne` | kernel/arch/i386/ext2.c:176-187 | one entry is one line, or none when its name starts with a dollar sign |
| `Ext2Driver.ListedConcat` | kernel/arch/i386/ext2.c:168-190 | two stretches of entries list one after the other |
| `Ext2Driver.BadPathExactly` | kernel/arch/i386/ext2.c:219-258 | the bad-path message comes exactly when finding returns zero, and no line at all exactly when it returns an inode without a first block |
| `Ext2Example.ListRoot` | kernel/arch/i386/ext2.c:164-217 | listing "/" of the small image shows "a" and "home" as files and "up" as a directory, and hides "$h" |
| `Ext2Driver.Ext2.ReadFile` | kernel/arch/i386/ext2.c:337-379 | zero when nothing is found; else byte by byte the direct blocks up to the first zero pointer at the start of the buffer, the rest of it as it was, and the size once for every block |
| `Ext2Driver.Ext2.AllocBlock` | kernel/arch/i386/ext2.c:417-443 | the number, from the bytes of the count, and the disk of the allocation model; zero and an unchanged disk when no group has room |
| `Ext2Driver.Ext2.AppendToFile` | kernel/arch/i386/ext2.c:527-552 | the disk becomes the appended image |
| `Ext2Driver.Ext2.StartFile` | kernel/arch/i386/ext2.c:498-522 | the disk becomes the image with the first write, also when no block was free and the number is zero |
| `Ext2Driver.Ext2.WriteFile` | kernel/arch/i386/ext2.c:446-553 | which of the branches runs, its result, and the whole new disk: an append changes the size field and the bytes appended only, a first write the two counts, the size field, the first pointer and the bytes written |
| `Ext2Driver.Ext2.WriteThenRead` | kernel/arch/i386/ext2.c:337-553 | writing to a one-block file and reading it back by the same path returns the grown size and a buffer that starts with old contents and new bytes |
| `Ext2Driver.RunIsWritable` | kernel/arch/i386/ext2.c:446-553 | a write of a run meets what writing needs of the file, and writing leaves the disk the run goes on with |
| `Ext2Driver.RunByPath` | kernel/arch/i386/ext2.c:446-553 | if the paths lead to their files on the first disk, every write of a run can be carried out by its path when its turn comes, and at the end each path still leads to its file |

## Left out

- Port I/O, ATA polling and IDENTIFY, boot code, ELF loading: hardware. A sector transfer and a non-zero scancode are
  primitives.
- What the shell's commands print and how they parse their line; `Shell` lets every command print anything.
- Allocator.Mm.HeapUsed: the percentage is over the reals; the double the code computes may round just below a whole
  number and then be truncated to one less.
- The double comparison `val > .9`: taken as `val >= 1`.
- Allocator.Mm.Malloc, like FindBlock: requires a run of size + 10 free bytes somewhere in memory. Without a run of the
  wrapped length the scan walks off the end of memory. The ten sizes from 2^32 - 10 up, for which the wrapped length is
  below ten, are covered by `Scan` only: clearing their data would run over the whole address space, the kernel included
  (`ScanLengthExactly`, `HugeSizeExample`).
- Allocator.Mm.FindBlock: the same sizes are left out.
- Debug prints of the ext2 driver and of the disk layer, and that its scratch buffers come from the kernel heap: the
  buffers are fresh arrays, so exhaustion, the record leaked when a file to read is not found, and the dangling global
  scratch pointer are not described. `RunConserves` says what any such run leaves behind.
- Printf.Printf: requires matching arguments, which C leaves undefined otherwise, and takes the count modulo 2^32.
- LineEditor.GetUserInput: requires scancodes within the 85-entry name table; other codes read past it.
- LineEditor.EchoAgrees: covers lines that fit their row, because a backspace does not move to the row above.
- First writes of 1024 bytes or more: the last copy takes the whole length again, so it reads past the data, and past
  1024 bytes it overruns the block buffer; only the branch that refuses more than twelve blocks is described for them.
- Ext2Files.AppendCoveredExactly: describes the record only; an append across a block boundary overruns the block
  buffer, and what it overwrites is not described.
- Ext2Driver.Ext2.FindFileInode: requires that the inodes the path walks through have record chains that name existing
  inodes, because otherwise the driver goes on reading past its block buffer; the empty path is left out likewise.
- Ext2ReadBack.FindThroughDirs: covers paths through directories of one block; `FindOnImage` covers the others.
- Ext2Driver.Ext2.List: requires the same of the inode listed; that it steps past the copied path once an inode has no
  block, and reads a length there, is not described.
- Ext2Driver.Ext2.WriteFile: requires a path that leads to a file and one of the cases above; on a path that is not
  found the driver goes on with inode 0, whose group number wraps.
- Ext2Alloc.FreshContent: requires that the block handed out is a free data block; `FreshFitsExactly` says when it is.
- The second read of a found entry's inode into a scratch record that is dropped.
- Block sizes above 1 KiB, indirect blocks and inode 0: outside the well-formed image (see `FirstBgdExact`).
- The probe's messages and signature check, and elf.c, read.c and the 16-bit copy: small, with no further state.

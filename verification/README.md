# Proofs about the emulator and its C library

This project models four parts of the repository in Dafny and proves what they are for.

- **The LZG codec and its sort** (`src/libc/lzg.c`, `src/libc/qsort.c`). The documented stream format is the reference
  meaning (`LzgFormat`). The decoder is the loop over two buffers (`LzgDecode`) and computes that meaning on arbitrary
  bytes. The encoder is the loop over buffers, hash chains and tables (`LzgSearch`, `LzgEncode`); the stream it writes is
  a function of the input (`LzgStream`) whose meaning is the input, and whose length is bounded with the help of the
  markers chosen by histogram and Shell sort (`LzgMarkers`, `Qsort`, `ShellSort`). The index of the match finder is
  proved to find what a scan of all earlier positions finds (`LzgMatch`), and that to be the best of the matches looked
  at, so that input that repeats itself is encoded short (`LzgSearchLaws`).
- **The heap** (`src/libc/malloc.c`, lines 82 to 275, growing upwards). The class `Heap.Allocator` works on a memory of
  words with real headers and list pointers. Its specification is the row of blocks that tiles the heap (`HeapTiles`,
  `HeapSpec`); the laws of whole runs of calls are proved about that row (`HeapLaws`) and the words of memory are tied to
  it (`HeapMemory`).
- **The ARM 2 processor** (`step.c`, `instructions.c`, `init.c`, `hw_manager.c`, `armv2.h`). The state is a value
  (`ArmState`, `ArmMemory`), an instruction word is decoded into an instruction (`ArmDecode`), each instruction and each
  turn of the main loop is a function on states (`ArmExecute`, `ArmStep`). The class `ArmMachine.Armv2` is struct armv2:
  r15 is a packed word in the array of registers, pins and flags are words, the page table, the devices and the
  coprocessor's registers are arrays, breakpoints and watchpoints are bitmasks (`ArmStops`). Its methods use the masks,
  shifts and loops of the source and are proved to do to the state they stand for what those functions say; the masks
  are dealt with in `ArmBits`, `ArmMacros`, `ArmDispatch`, `ArmOperand` and `ArmBytes`. About the functions are proved:
  the banking of registers (`ArmBanking`), the confinement of user mode (`ArmIsolation`), the transparency of interrupts
  (`ArmTransparency`, `ArmHandler`), the accounting of interrupts, waiting and RAM (`ArmFrame`, `ArmInterrupts`), block
  transfers (`ArmBlocks`) and when they are refused (`ArmAborts`), single ones and swaps (`ArmSingles`, `ArmTransfers`),
  the coprocessor and mapped devices (`ArmManager`), exceptions, their vectors and the return from them, and stops
  (`ArmTraps`), branches and calls (`ArmCalls`), arithmetic on numbers of several words and multiplication
  (`ArmArithmetic`), the operations of data processing (`ArmAlu`, `ArmData`), the barrel shifter (`ArmShifter`), and that
  the decoder takes apart what the encoders of the test suite put together (`ArmEncode`).
- **Numbers as text, and division** (`src/libc/xprintf.c`, `src/libc/div.c`). What a format means piece by piece
  (`FormatLaws`), and that the formatter and the parser undo each other (`NumberText`, `XPrintf`, `ZeroPadding`,
  `PrintRead`), on top of the shift-and-subtract divider (`Division`).

Conventions. Bytes and 32-bit words are integers in their range; every operation of the source that can wrap around is
written with `Wrap`. In the specification of the processor masks and shifts by constants are divisions and remainders
by powers of two and r15 is kept as its fields; the class works on the words. A device is an environment:
accesses to it are recorded, and its answers are a sequence over which every statement quantifies. Buffers are arrays
whose lengths stand for the sizes passed along with them; two buffers do not overlap when they are different arrays.

Where the code and its own documentation disagree, the model follows the code. The description of the LZG format at
src/libc/lzg.c:405-457 gives narrower ranges than the decoder accepts and the encoder uses: distant copies reach back
up to 526343 bytes, short copies have offsets 8 to 71, lengths start at 2. If markers of a stream are equal, the decoder
resolves them in the order 1 to 4. The comments at hw_manager.c:44 and 49 name cr0 for the number of devices and the
range from crm up to crn; the code writes the register named by crd and maps from crn up to crm.

Properties that fail for some inputs are stated with the exact condition under which they hold:

- the table of registers is right after a turn unless the emulator stops at a watchpoint in an instruction that changes
  the mode (`ArmBanking.StepKeepsBanked`; `UnbanksByInstruction` says which instructions, `WatchpointUnbanks` is an
  instance);
- a user program is confined unless it moves a word with other masks or mode bits from the coprocessor into r15
  (`ArmIsolation.ExecConfined`);
- a waiting processor is woken by the next interrupt exactly if its I mask is clear (`ArmInterrupts.WakesUnlessMasked`);
  that a masked one can come about is shown by `FastInterruptLosesWakeup`;
- a return from an exception by `subs pc, lr, #k` restores the flags unless the difference borrows from them, which it
  does only for the last instructions of the address space (`ArmTraps.TrapReturns`);
- an instruction that stops the emulator at a watchpoint has been carried out, and is fetched a second time
  (`ArmTraps.WatchpointStops`);
- the inverse block transfer finds the block again exactly if the base is read and written in the same place
  (`ArmBlocks.InverseFindsBlock`);
- `malloc` covers requests up to 0xfffffff8, above which its real size wraps around (`HeapSpec.RealSizeCovers`) and a
  pointer without room is returned (`Heap.Allocator.HugeRequest`);
- to base 16 the characters from `:` to `?` are digits as well (`FormatLaws.DigitsTaken`; `ColonIsTen` is an
  instance);
- a printed number is read back except that `%b` shows the low sixteen bits and that blanks behind a prefix hide the
  digits (`PrintRead.SurvivesExactly`), and a decimal number padded with zeros is read back only if there is no padding
  or it is below 8 (`ZeroPadding.ZeroPaddedRoundTrip`).

## Model

| member | source | states |
|---|---|---|
| Checksum.ClosedForm | src/libc/lzg.c:89-122 | the checksum is a = 1 + sum of the bytes and b = n + sum of (n - i) times byte i, both modulo 65536, for every length |
| Checksum.Calc | src/libc/lzg.c:94-122 | the loop unrolled by eight computes the byte-at-a-time fold |
| LzgFormat.GetPutUint32 | src/libc/lzg.c:172-177 | a 32-bit number written to four bytes is read back |
| LzgFormat.DecodedContainer | src/libc/lzg.c:405-420 | a container built around a payload decodes to the payload's meaning |
| LzgDecode.DecodeLutIsLengthOf | src/libc/lzg.c:166-170 | the decoder's length table is the documented length encoding |
| LzgDecode.CopyUnrolled | src/libc/lzg.c:335-356 | the loop for long lengths and the fall-through cases 29 to 1 together are the byte-by-byte overlapping copy, for every length and offset |
| LzgDecode.CopyCases | src/libc/lzg.c:335-356 | the cascade of cases, entered at any length, copies that many bytes, up to 29 of them |
| LzgDecode.DecodeSymbol | src/libc/lzg.c:281-364 | one turn of the decoder consumes one item and leaves the meaning of the whole unchanged; it fails exactly when no meaning fits |
| LzgDecode.Decompress | src/libc/lzg.c:278-365 | the main loop yields the reference meaning of the stream, or fails when that does not fit the output |
| LzgDecode.Decode | src/libc/lzg.c:203-373 | on arbitrary bytes: the decoded size and bytes when header, checksum and reference meaning are valid, else 0 |
| LzgMatch.QuantizeIsLargestExpressible | src/libc/lzg.c:478-489 | the quantisation table gives the largest length that can be expressed |
| LzgMatch.FindIsSound | src/libc/lzg.c:632-718 | a match found is a true match inside the input, 1 <= offset < window, worth at least a byte |
| LzgMatch.ChainIsNaive | src/libc/lzg.c:653-711 | following the chain of earlier positions with the same key is the naive scan of all earlier positions in the window |
| LzgSearchLaws.FindIsBest | src/libc/lzg.c:632-718 | no match at a position looked at saves more than the one found, unless that has a length that is good enough; if any saves a byte, one is found |
| LzgSearchLaws.LiteralOnlyIfNoMatch | src/libc/lzg.c:863-935 | where a position looked at has a match that is shorter as a reference, a reference is written |
| LzgSearch.SearchAccel.UpdateLastPos | src/libc/lzg.c:616-630 | every slot of the ring holds the entry of the one position inside the window that maps to it |
| LzgSearch.SearchAccel.SlotIsPredecessor | src/libc/lzg.c:616-630 | the slot of a position in the window holds the latest earlier position with its key, despite slots being reused |
| LzgSearch.SearchAccel.FindMatch | src/libc/lzg.c:632-718 | the walk along the chain ends, and finds what the naive scan finds |
| LzgStream.ParsePutReference | src/libc/lzg.c:878-915 | a reference of any expressible length and offset is read back as it was put |
| LzgStream.CopyBackMatch | src/libc/lzg.c:331-356 | copying back over a true match extends the output by the input's own bytes |
| LzgStream.EncodeMeansInput | src/libc/lzg.c:849-936 | the stream written means the input |
| LzgStream.PayloadMeansInput | src/libc/lzg.c:849-975 | so does the payload, the plain copy included |
| LzgStream.EncodeLength | src/libc/lzg.c:863-935 | a literal costs a byte, a marker two, and a reference no more than it replaces |
| LzgMarkers.LeastCommonAreRare | src/libc/lzg.c:559-587 | the four least common symbols make up at most a sixty-fourth of the input |
| LzgMarkers.DetermineMarkers | src/libc/lzg.c:559-587 | histogram and sort yield the four least common symbols of the input |
| LzgEncode.Compress | src/libc/lzg.c:834-936 | the main loop writes the stream, and gives up exactly when it does not fit |
| LzgEncode.EncodeFull | src/libc/lzg.c:775-983 | 0 and an untouched buffer if a plain copy does not fit, else the encoded input with the least common symbols as markers |
| LzgEncode.RoundTrip | src/libc/lzg.c:203-373 | decoding what was encoded gives the input back, for every input, level and room |
| LzgEncode.SizeBound | src/libc/lzg.c:732-735 | the payload is at most the input, a sixty-fourth of it and 4 bytes long; in a buffer of LZG_MaxEncodedSize at most the input |
| LzgEncode.RunEncodesShort | src/libc/lzg.c:502-512 | at every level a run of n equal bytes takes, behind the header and the markers, at most n / 64 + 12 bytes |
| LzgEncode.TuningGrows | src/libc/lzg.c:502-512 | a higher level never looks less far back or at fewer positions and is never content with less, and from level to level the window at least doubles |
| LzgEncode.EncodeThenDecode | src/libc/lzg.c:775-983 | encoding into one buffer and decoding it into another restores the input |
| ShellSort.NextGapIsExact | src/libc/qsort.c:88-89 | the division by 3 is exact and steps back in that sequence |
| ShellSort.PassKeepsOrder | src/libc/qsort.c:66-87 | a pass keeps the order at every other gap |
| ShellSort.SortSorts | src/libc/qsort.c:46-91 | for every total preorder the result is an ordered permutation |
| Qsort.QsortR | src/libc/qsort.c:46-91 | the byte loops sort the records, for every number and width |
| HeapTiles.Canonical | src/libc/malloc.c:218-274 | the row of blocks, free ones included, is determined by the live blocks and the end of the heap |
| HeapSpec.RealSizeCovers | src/libc/malloc.c:119-124 | the real size covers request and header exactly for requests up to 0xfffffff8 |
| HeapSpec.MallocGrants | src/libc/malloc.c:134-212 | malloc makes exactly one new block of sufficient size live, keeps the row well formed and grows the end within its limit |
| HeapSpec.MallocRefuses | src/libc/malloc.c:134-212 | malloc is refused exactly if no free block is large enough and what the free block at the end, if there is one, lacks is more than the heap may grow |
| HeapSpec.MallocReuses | src/libc/malloc.c:138-172 | if a free block is large enough the lowest one is used from its start on, the heap does not grow, and at most one word more than needed is given |
| HeapSpec.MallocExtends | src/libc/malloc.c:173-206 | if none is, the block is exactly as large as needed and lies at the end, over the free block there |
| HeapSpec.FreeWellFormed | src/libc/malloc.c:218-274 | after free no two neighbouring blocks are free and the end is where it was |
| HeapLaws.FreeOrderDoesNotMatter | src/libc/malloc.c:218-274 | freeing the same blocks in any order gives the same heap |
| HeapLaws.FreeEverything | src/libc/malloc.c:218-274 | freeing all blocks leaves one free block that covers the heap |
| HeapLaws.FreeUndoesMalloc | src/libc/malloc.c:134-274 | freeing what was just allocated restores the heap up to the growth of its end |
| HeapLaws.RunKeeps | src/libc/malloc.c:134-274 | over any run of calls the heap stays well formed and within its limit and no unreleased block is lost |
| Heap.Allocator.Free | src/libc/malloc.c:218-274 | free does to the words what the specification does to the row, and changes no word of another live block |
| Heap.Allocator.Malloc | src/libc/malloc.c:134-212 | malloc does to the words what the specification does to the row; it returns NULL exactly in an exhausted heap; the block returned has room for the request exactly when its real size did not wrap around, and a real size of 0 is answered with a pointer to nothing |
| Heap.Allocator.HugeRequest | src/libc/malloc.c:119-212 | a request for 0xfffffffc bytes is answered with a pointer whose header says there is no room |
| Division.UDivMod | src/libc/div.c:24-47 | the exact quotient and remainder; over zero the dividend as remainder and 0 or 1 as quotient |
| Division.TruncatedRoundsToZero | src/libc/div.c:57-78 | the signed quotient rounds towards zero |
| Division.IDiv | src/libc/div.c:57-78 | signed division truncates, with the one overflow wrapping around; over zero it gives 0, or 1 for zero itself |
| XPrintf.FieldRoundTrip | src/libc/xprintf.c:110-158 | what a decimal directive prints is read back |
| XPrintf.Printer.Xvprintf | src/libc/xprintf.c:84-159 | the loop over the format writes the specified text |
| XPrintf.Xsprintf | src/libc/xprintf.c:176-194 | the text and a terminating zero stand in the buffer |
| XPrintf.Xatoi | src/libc/xprintf.c:336-389 | success and value are those of the specified parse; the string pointer is left behind the number, or on failure at a character of it |
| ZeroPadding.ZeroPaddedRoundTrip | src/libc/xprintf.c:154-157 | a decimal number padded with zeros is read back exactly if there is no padding or it is below 8 |
| PrintRead.PlainFormat | src/libc/xprintf.c:126-157 | `0x%x`, `0%o`, `0b%b` and `%u` write the prefix of their base and the numeral |
| PrintRead.PrefixedReading | src/libc/xprintf.c:336-389 | for every field of every base: the value comes back, a binary one modulo 2^16, and zero if blanks stand between prefix and digits |
| PrintRead.SurvivesExactly | src/libc/xprintf.c:110-157 | exactly which values and fields survive printing and reading |
| PrintRead.PrintThenRead | src/libc/xprintf.c:336-389 | the same through memory: xsprintf with a prefixed format, then xatoi on the buffer |
| PrintRead.PrintedInTurn | src/libc/xprintf.c:325-334 | any number of printed numbers of mixed bases, separated by blanks, are read back one after the other |
| FormatLaws.SpelledParses | src/libc/xprintf.c:101-116 | flag, width, size prefix and conversion character, spelled one behind the other, are read as such whatever follows |
| FormatLaws.TextCopied | src/libc/xprintf.c:96-100 | text without `%` is written as it is, and then what the rest of the format writes |
| FormatLaws.StringPrinted | src/libc/xprintf.c:119-125 | `%s` writes the characters in front of the first zero byte, with `-` on the left of a field of the given width and without on the right, filled up with blanks |
| FormatLaws.CharPrinted | src/libc/xprintf.c:126-127 | `%c` writes the low byte of its argument, whatever the width |
| FormatLaws.NumberPrinted | src/libc/xprintf.c:128-157 | a number conversion writes the numeral, with a sign only for `%d`, in a field filled up with blanks or zeros on the side the flag says |
| FormatLaws.OtherPrinted | src/libc/xprintf.c:137-138 | any other character behind `%`, such as a second one, is written and takes no argument |
| FormatLaws.DigitsTaken | src/libc/xprintf.c:374-381 | which characters xatoi takes for digits of a base, and what they count; to base 16 also those from `:` to `?` |
| ArmMemory.MappingsDisjoint | init.c:330-341 | mappings that succeed are of disjoint ranges |
| ArmManager.MappedIff | init.c:301-341 | map_memory succeeds exactly if the device exists, the range is made of whole pages inside the address space above page zero, and none of them is there yet |
| ArmManager.MappedAccess | instructions.c:161-222 | every load and store in a range that has been mapped goes to the device at the distance from the start of the range |
| ArmEncode.DpImmDecodes | tests/encode.h:57-63 | data processing with an immediate, encoded from its fields, is decoded into them |
| ArmEncode.DpRegDecodes | tests/encode.h:65-71 | likewise with a register shifted by an amount; it is never taken for a multiplication or swap |
| ArmEncode.DpRegShiftDecodes | tests/encode.h:73-79 | likewise with a register shifted by a register |
| ArmEncode.MulDecodes | tests/encode.h:81-87 | likewise multiplications |
| ArmEncode.SwpDecodes | tests/encode.h:89-93 | likewise swaps |
| ArmEncode.SdtDecodes | tests/encode.h:95-102 | likewise LDR and STR with an immediate offset |
| ArmEncode.SdtRegisterDecodes | tests/encode.h:104-108 | likewise with a register offset |
| ArmEncode.MdtDecodes | tests/encode.h:110-116 | likewise LDM and STM |
| ArmEncode.BranchDecodes | tests/encode.h:118-124 | likewise branches with any 24-bit offset |
| ArmEncode.SwiDecodes | tests/encode.h:126-130 | likewise software interrupts |
| ArmEncode.CdpDecodes | tests/encode.h:132-138 | likewise coprocessor operations |
| ArmEncode.MrcMcrDecodes | tests/encode.h:140-146 | likewise coprocessor register transfers |
| ArmDispatch.ByMasksIsDecode | step.c:171-213 | for every 32-bit word the masks and shifts that choose the handler and take the word apart find what the decoding by four-bit pieces finds |
| ArmCalls.BranchLands | instructions.c:591-600 | a branch encoded for two addresses makes the next turn fetch from the second; BL leaves the address behind it with flags and mode in r14, and nothing else is written |
| ArmCalls.CallReturns | instructions.c:347-363 | `mov pc, lr` and `movs pc, lr` go back to the instruction behind the call, the latter with the flags and, outside user mode, the mode of the call |
| ArmTraps.SwiEnters | step.c:214-243 | a SWI leads to 0x8, with the r15 it saw in r14_svc, in supervisor mode with interrupts masked; comment 0xbeeeef stops the emulator at it instead |
| ArmTraps.FetchAborts | step.c:79-86 | a fetch from a missing page for which there is no RAM leads to 0xc in the same way |
| ArmTraps.SingleTraps | init.c:10-23 | LDR and STR lead to 0x14 for an address of more than 26 bits, and to 0x10 if the access is refused |
| ArmTraps.SwapTraps | init.c:10-23 | so does SWP |
| ArmTraps.BlockTraps | init.c:10-23 | so do LDM and STM |
| ArmTraps.FiqEnters | step.c:38-53 | a fast interrupt leads to 0x1c with both masks set and r14_fiq four bytes behind the instruction put off |
| ArmTraps.IrqEnters | step.c:54-77 | an interrupt leads to 0x18 with its pin lowered, a wait ended and r14_irq four bytes behind the instruction put off |
| ArmTraps.TrapReturns | instructions.c:347-363 | after any exception `subs pc, lr, #4` resumes behind the instruction and `#8` at it, in its mode; its flags come back exactly if the difference does not borrow from them, which it does only at the end of the address space |
| ArmTraps.SwiReturns | instructions.c:347-363 | so `subs pc, lr, #4` resumes behind a SWI with flags and mode restored |
| ArmTraps.FiqReturns | instructions.c:347-363 | and after a fast interrupt at the instruction put off |
| ArmTraps.ConditionSkips | step.c:94-168 | an instruction whose condition does not hold is skipped |
| ArmTraps.BreakpointStops | step.c:88-91 | at a breakpoint the emulator stops before the instruction and would fetch it again |
| ArmTraps.WatchpointStops | step.c:217-238 | a load or store that hits a watchpoint is carried out, stops the emulator, and would be fetched again |
| ArmTraps.Reset | init.c:25-124 | after init the first fetch is from 0, in supervisor mode with interrupts masked and its table of registers |
| ArmData.LogicExecutes | instructions.c:224-378 | executing MOV, MVN, AND, ORR, EOR, BIC, TST and TEQ: every bit of the destination, shifted operands included, N and Z of the result, the bit shifted out in C, V and everything else unchanged |
| ArmData.ArithmeticExecutes | instructions.c:224-378 | executing ADD, SUB, RSB, ADC, SBC, RSC, CMP and CMN: sum or difference in the destination, and then EQ, NE, CS, CC, MI, PL, VS and VC as facts about the exact result with and without sign |
| ArmData.IntoPc | instructions.c:347-363 | an operation with destination r15 continues at the address in its result, with S taking flags and, outside user mode, masks and mode from it |
| ArmAlu.ComputeAlu | instructions.c:252-346 | the switch over the sixteen opcodes |
| ArmAlu.ArithmeticMeans | instructions.c:263-329 | the eight arithmetic operations as numbers modulo 2^32, with carry or borrow |
| ArmAlu.LogicMeans | instructions.c:252-346 | the eight logical operations bit by bit, with the shifter's carry and V unchanged |
| ArmArithmetic.MultiplyMeans | instructions.c:380-429 | MUL and MLA leave the product, plus rn, modulo 2^32, of the unsigned as of the signed numbers; N and Z are its own, C, V and all other registers stay |
| ArmSingles.StoreThenLoadWord | instructions.c:438-589 | LDR gets back what STR stored, and no other word has changed |
| ArmSingles.StoreThenLoadByte | instructions.c:489-539 | LDRB gets back the low byte STRB stored, and the other bytes of the word stay |
| ArmSingles.BytesOfStoredWord | instructions.c:489-554 | LDRB at the k-th byte of a word STR stored gets its k-th lowest byte |
| ArmSingles.SwapExchanges | instructions.c:819-857 | SWP loads the word and stores the other register's old value in its place |
| ArmTransfers.OffsetIs | instructions.c:462-487 | a shifted register as an offset is the product or quotient with a power of two, modulo 2^32 |
| ArmTransfers.SingleOutcome | instructions.c:438-569 | exactly when LDR and STR raise an address exception or a data abort, and that nothing but a page paged in has changed then |
| ArmTransfers.SingleMoves | instructions.c:438-590 | LDR and STR not refused: access at the base, or at base plus or minus offset if pre-indexed; the base moved by it exactly if post-indexed or written back; the register loaded, the memory stored to, and nothing else changed |
| ArmTransfers.SingleJumps | instructions.c:570-589 | with r15 as a base that is written the program goes on at the moved base |
| ArmTransfers.SwapOutcome | instructions.c:786-863 | exactly when SWP raises which exception, and when it is undefined |
| ArmTransfers.SwapMoves | instructions.c:786-863 | SWP not refused, of words and bytes: register and memory get what the other had before, and nothing else changes |
| ArmSingles.MoveThereAndBack | hw_manager.c:114-149 | what MCR moves to the coprocessor MRC brings back, and nothing but the two registers is written |
| ArmManager.DevicesCounted | hw_manager.c:44-47 | NUM_DEVICES and then MRC: the number of devices is read from the register named, and nothing else changes |
| ArmManager.DeviceIdentified | hw_manager.c:58-73 | GET_DEVICE_ID: the id of the device is read from cr0; without such a device nothing has changed |
| ArmManager.InterruptIdentified | hw_manager.c:75-79 | INTERRUPT_DATA: id and code of the last interrupt accepted are read from cr0 and cr1 |
| ArmManager.TimeRead | hw_manager.c:88-91 | GETTIME: the two words read from cr0 and cr1 |
| ArmManager.OperationAnswered | hw_manager.c:93-106 | DEVICE_OPERATION: the device named is given the two words, its answer is read from the register that named it, and no other device is accessed |
| ArmManager.RangeMapped | hw_manager.c:49-56 | MAP_MEMORY: the device in crd is mapped from crn up to crm, or nothing changes |
| ArmManager.FlagsTransferred | hw_manager.c:130-136 | MRC into r15: flags and masks become those of the word, mode and address bits are or-ed in |
| ArmManager.Ignored | hw_manager.c:34-41 | a register that does not exist or another opcode does nothing |
| ArmManager.WaitStarts | hw_manager.c:81-86 | a wait starts exactly if neither interrupt is masked, and the next turn then waits exactly if none is pending |
| ArmShifter.LeftBits | instructions.c:71-88 | every bit and the carry of LSL, for every amount |
| ArmShifter.RightBits | instructions.c:90-110 | every bit and the carry of LSR; by a register, 0 places clear the carry |
| ArmShifter.SignedBits | instructions.c:112-128 | every bit and the carry of ASR |
| ArmShifter.RotatedBits | instructions.c:130-153 | every bit and the carry of ROR |
| ArmShifter.ExtendedBits | instructions.c:139-145 | rotation by one place through the carry |
| ArmOperand.ShiftOperand | instructions.c:70-153 | the switch over the kinds of shift with its shifts and masks is the barrel shifter, carry included |
| ArmBytes.ByteByMask | instructions.c:535-554 | masking a byte into a word replaces that byte |
| ArmArithmetic.AddInstructions | instructions.c:294-311 | executing ADDS and then ADCS on numbers of any number of words, the carry going through r15: exact sum in the registers, C its carry, V its signed overflow |
| ArmArithmetic.SubInstructions | instructions.c:263-320 | executing SUBS and then SBCS: exact difference, and CS, CC, GE, LT and VC then decide about the whole numbers |
| ArmArithmetic.CompareConditions | step.c:94-164 | after CMP all ten conditions are those of the two integers, and nothing but the flags has changed |
| ArmBanking.RebankedIsBank | step.c:245-276 | the loops at the end of a turn make the table of the old mode that of the new one |
| ArmBanking.StepKeepsBanked | step.c:214-276 | after a turn the table is that of the mode, except exactly when an instruction that changes the mode hits a watchpoint |
| ArmBanking.UnbanksByInstruction | step.c:217-237 | which instructions those are: a data operation with flags into r15 or an MRC into r15, exactly when it changes the mode with a watchpoint pending; an LDM only if it loads r15 with its flags and a watchpoint is pending or hit; no other |
| ArmBanking.BankedRun | init.c:95-102 | without watchpoints it is in every state of every run, whatever interrupts come |
| ArmBanking.WatchpointUnbanks | step.c:217-237 | an LDM of r15 with its flags from a watched word stops with the table of the mode just left |
| ArmFrame.ExecCalm | instructions.c:224-869 | no instruction but those of coprocessors changes the table, the pins, the wait, the last interrupt or the kind of a page |
| ArmIsolation.ExecConfined | instructions.c:347-375 | an instruction of a user program keeps masks, mode, other modes' registers and page zero exactly if it is no escalating MRC |
| ArmIsolation.UserTurn | step.c:16-278 | a turn of a user program leaves it confined, or masked at a vector with one link register written |
| ArmIsolation.UserRunConfined | step.c:314-319 | over any run that stays in user mode everything that is not the user's is unchanged, page zero even if it is paged in on the way |
| ArmInterrupts.InterruptsAccounted | init.c:393-407 | over any run, interrupts accepted and pending before equal interrupts taken and pending after |
| ArmInterrupts.DataIsThatOfTheCause | hw_manager.c:75-79 | INTERRUPT_DATA tells the interrupt that was accepted as long as it is pending or masked |
| ArmInterrupts.WakeableRun | hw_manager.c:81-86 | with the fast pin never raised, a waiting processor always has interrupts enabled |
| ArmInterrupts.InterruptWakes | step.c:54-77 | the next interrupt() is then accepted and the next turn enters its handler and ends the wait |
| ArmInterrupts.WakesUnlessMasked | step.c:24-77 | a waiting processor is woken by the next interrupt() exactly if the I mask is clear; if it is set, no turns and interrupts ever change anything |
| ArmInterrupts.FastInterruptLosesWakeup | step.c:39-53 | an instance: a fast interrupt whose pin falls before its handler has run leaves the processor waiting for ever |
| ArmInterrupts.PagingRun | step.c:284-333 | over any run, with mapping, paging in and new devices by the host, RAM is conserved and pages keep their kind |
| ArmInterrupts.RamConserved | init.c:60-61 | free RAM and pages of RAM always add up to the size at the start, and page zero is neither a device nor writable |
| ArmInterrupts.MappedRangesDisjoint | init.c:330-381 | ranges mapped successfully with any run in between are disjoint |
| ArmTransparency.ExecLike | instructions.c:224-869 | two user states that differ only in the link register and record of interrupts differ only in them after any instruction |
| ArmHandler.InterruptsTransparent | step.c:14-278 | every interleaving of turns and interrupt() keeps an interrupted run in step with the program by itself |
| ArmHandler.ProgramSeesNoInterrupts | step.c:54-77 | back in the program, registers, flags, place and memory are those of the program run without interrupts |
| ArmBlocks.BlockStored | instructions.c:646-780 | STM of n registers: the k-th lowest goes to base + 4k (IA), base + 4 + 4k (IB), base - 4n + 4 + 4k (DA) or base - 4n + 4k (DB), the base ends at base + 4n or base - 4n if written back, missing pages are paged in, a watched word stops the emulator, and nothing else changes; r15 and the base may be in the list |
| ArmBlocks.BlockLoaded | instructions.c:646-780 | LDM loads the words at those places, r15 with its flags if `^` says so, moves the base as said unless it is loaded, and changes nothing else |
| ArmBlocks.BanksUsed | instructions.c:630-652 | with `^` the registers of user mode are transferred unless r15 is loaded, without those of the current mode |
| ArmAborts.BlockOutcome | instructions.c:653-780 | exactly when LDM and STM raise an address exception or a data abort: by the start of the block, its alignment, the number of pages it lacks against the RAM that is free, and the permission of its words |
| ArmAborts.PagedIff | step.c:284-333 | a block can be paged in exactly if the pages it lacks need no more RAM than is free |
| ArmBlocks.InverseAddresses | instructions.c:655-665 | the inverse addressing mode has the same block and brings the base back |
| ArmBlocks.InverseFindsBlock | instructions.c:668-690 | the inverse transfer finds the block again exactly if the base was read and written in the same place, or the list is empty; `^` with a banked base fails |
| ArmBlocks.StoreThenLoad | instructions.c:608-783 | storing with one mode and loading with its inverse restores every listed register and the base, whatever happened to the registers in between |
| ArmStops.Bitmask.Set | armv2.h:70 | setting a bit marks that word and no other |
| ArmStops.Bitmask.Clear | armv2.h:71 | clearing a bit unmarks that word and no other |
| ArmWords.PackUnpack | armv2.h:46-54 | a word of r15 survives being taken apart into fields |
| ArmMacros.SetPcSets | armv2.h:46 | SETPC on the packed word sets the address and no flag, mask or mode bit |
| ArmMacros.FlagsPutSets | instructions.c:364-371 | the mask and the four flags or-ed in set N, Z, C and V of r15 and nothing else |
| ArmMacros.OverwrittenIsRestored | instructions.c:347-358 | r15 written whole, in user mode all but its protected bits |
| ArmMacros.TrappedIs | step.c:239-243 | the word an exception leaves in r15: the address, supervisor mode, interrupts masked |
| ArmMachine.Armv2.Init | init.c:25-124 | init refuses sizes above 64 MB and otherwise clears arrays and masks and leaves the initial state, in supervisor mode with its table |
| ArmMachine.Armv2.MapDevice | init.c:301-381 | the two loops over the page table map all of a free range or nothing |
| ArmMachine.Armv2.Bank | step.c:245-276 | the switch over the modes and its loops rebank as specified |
| ArmMachine.Armv2.AluInstruction | instructions.c:224-378 | data processing with the source's switch, masks and packed flags is the specified operation on the fields |
| ArmMachine.Armv2.SingleDataTransferInstruction | instructions.c:438-590 | LDR and STR with paging, permissions, watchpoints, exceptions and base update |
| ArmMachine.Armv2.SwapInstruction | instructions.c:786-863 | SWP and its exceptions |
| ArmMachine.Armv2.MultiDataTransferInstruction | instructions.c:608-783 | the loop over the registers does the specified transfer |
| ArmMachine.Armv2.TakeIrq | step.c:54-77 | entry of an interrupt |
| ArmMachine.Armv2.TakeFiq | step.c:39-53 | entry of a fast interrupt |
| ArmMachine.Armv2.FetchAndExecute | step.c:79-276 | fetch from the page table, breakpoint bitmask, condition, handler chosen by masks, watchpoint and exception |
| ArmMachine.Armv2.RunArmv2 | step.c:9-281 | the loop with a budget on packed words, arrays and bitmasks makes exactly the turns of the state machine about which everything above is proved, and reports why it stopped and what is left |
| ArmMachine.Armv2.SetBreakpoint | init.c:409-429 | set_breakpoint and unset_breakpoint mark and unmark one word of the bitmask that run_armv2 tests |

## Left out

- `drawing/`, `comms/`, `debugger.py`, `emulate.py`, `hardware.py`, `create.py`, `tapes.py` and the other Python files: user
  interface, sockets and file formats around the emulator.
- `realloc`, `memalign`, `calloc` and the rest of `src/libc/malloc.c` are not compiled in; the heap growing downwards is
  not used.
- `cleanup_armv2`, `load_rom` and the list `hw_mappings`, which keeps a pointer to a local variable of `map_memory`.
- `mmu.c` and the missing interrupt controller: coprocessors 2 and 3 do nothing that can be seen.
- Failure of `mmap`, `calloc` and of the encoder's own `malloc`, logging, and the progress callback of the encoder.
- Devices have all four access callbacks, and a callback does not call back into the processor; interrupts come between
  turns of the loop.
- Executing from a device page, swapping a byte on one, and a block transfer that runs past the page table are
  undefined in C: the model calls such a turn broken and claims nothing about it.
- A debugger changing registers.
- `src/libc/terminal.c`, `src/boot.S` and the other assembly.
- `LZG_WorkMemSize`, `LZG_Encode` and `LZG_DecodedSize`: easy wrappers.
- ArmBlocks.BlockStored: the base is not r15 and the block is RAM; what LDM and STM do on the pages of a device, and
  with r15 as base, is in the model but stated only as to when it is refused (`ArmAborts.BlockOutcome`).
- ArmMachine.Armv2.RunArmv2: negative budgets, with which the loop never ends by itself, are not part of it; with -1 a
  breakpoint is moreover taken as a software interrupt.
- ArmMachine.Armv2.PerformStore: the contents of a page are a value in the page table, so two pages sharing memory cannot
  be expressed.
- ArmMachine.Armv2.SetEntries: the table `effective` holds the numbers of registers where the source holds pointers.
- ArmMachine.Armv2.SetBreakpoint: the address is below 2^26; the source does not check it and would leave the bitmask.
- ArmHandler.InterruptsTransparent: the program executes no coprocessor instruction, since those can ask for the last
  interrupt and wait for the next, and nothing about runs after it has left user mode is claimed.
- ArmArithmetic.AddInstructions: between two instructions of the sequence anything may happen that leaves the flags
  alone; which loads and stores bring the words into registers is not part of it.
- Heap.Allocator.Malloc: the stack limit is a constant; what happens to the heap when a block without room is written to
  is not described, nor are requests above 0xfffffffc followed further than their real size.
- XPrintf.Printer.PutField: the counter of the padding loops does not wrap around, which only a width of 2^32 - 1 could
  make it do.
- XPrintf.Printer.Xvprintf: formats with a missing argument or one of the wrong kind are undefined in C and have no
  meaning here; output to the terminal is not modelled.

# TranbyOS: a verified model of its freestanding core

TranbyOS is a small i386 kernel that carries its own console, number printing, memory routines, random
numbers, line drawing, mouse decoding and task switching. This project models those pieces in Dafny and
proves what they are for. `dafny verify dfyconfig.toml` checks everything.

- `Console.dfy`, `Printers.dfy`, `Format.dfy`: the 80x25 text console over bytes of video memory, the
  printers that write through an `output_writer`, and `kwritef`. The screen always shows the last 25 rows of
  an unbounded terminal; formats write the concatenation of their pieces.
- `Division.dfy`, `Numerals.dfy`: the shift-and-subtract division and the texts of numbers. The guard
  `X < A/2` of the division is modelled as written. It misses the case of equality, so the division is wrong
  on one family of dividends and endless on a part of it; both sets are determined exactly.
- `Memory.dfy`, `MemChr.dfy`: overlapping copies and the word-at-a-time search.
- `Rand.dfy`: the linear congruential generator and its full period.
- `Lines.dfy`: Bresenham lines in closed form, lines drawn backwards, polygons.
- `ContextSwitch.dfy`, `TaskRuns.dfy`, `Tasks.dfy`: `switchTask` as a register and stack machine, whole runs
  of tasks that switch by it, and the ring of `next` links by which preemption gives every task its turn.
- `Mouse.dfy`: the PS/2 packet decoder. `Paging.dfy`: the identity page tables.
- `Types.dfy`: the integer widths, powers of two and division facts.

Conventions: u8 to u64, i16 and i32 are the i386 widths, and arithmetic that can leave them is reduced
explicitly. `|` and `<<` on disjoint bits appear as sums and products. An address is an index into one flat
memory. `ASSERT` in `div64_slow` only prints, so a zero divisor is one of the endless inputs. The comment on
the stack layout in `kernel.s` lists edx, ecx, ebx from esp + 24 up, while `pusha` leaves ebx, edx, ecx there;
the model follows the instruction (those three slots are not read).

## Model

| member | source | states |
|---|---|---|
| Console.RunShows | src/scrn.c:47-191 | Over any run of characters, colour changes and clears, the 80x25 screen equals the last 25 rows of an unbounded terminal, with the cursor at its pen. |
| Console.PutShows | src/scrn.c:131-191 | One character keeps screen and terminal in step, through backspace, tab, return, newline, wrap and scroll. |
| Console.ClearShows | src/scrn.c:96-116 | After a clear the screen shows a terminal with 25 fresh rows in the current attribute. |
| Console.HistoryIsFixed | src/scrn.c:47-70 | Rows that have scrolled off the screen never change again. |
| Console.PrintableTextIsContiguous | src/scrn.c:169-187 | Printable text lies on the paper without a gap, each cell with the character in its low and the attribute in its high byte, across wraps and scrolls, and disturbs nothing in front of it. |
| Console.Device.constructor | src/scrn.c:39-44 | A new device shows a blank screen: every even byte of video memory is a space, every odd one the initial attribute. |
| Console.Device.Cls | src/scrn.c:96-116 | Every even byte of video memory becomes a space and every odd one the current attribute; the cursor is at the origin. |
| Console.Device.SetTextColor | src/scrn.c:31-36 | The new attribute divided by 16 is the background, modulo 16 the low nibble of the foreground; nothing else changes. |
| Console.Device.KScroll | src/scrn.c:47-70 | Past the end, by however many rows, the bytes of the screen move up by that many rows, the row the code clears is blank, and the cursor is on the last row; otherwise nothing changes. |
| Console.ScrollRows | src/scrn.c:60-67 | The overlapping byte copy and the one-row fill, seen as cells: the rows from `temp` on move to the top, one blank row follows, and the last `temp - 1` rows stay as they were. |
| Console.MoveRows | src/scrn.c:63 | Moving the bytes of video memory up by whole rows moves the cells up by whole rows. |
| Console.KMemSetW | src/main.c:254-261 | In any memory, `count` cells from `dest` hold the low byte of the value at even and the high byte at odd addresses; no other byte changes. |
| Console.Device.KPutCh | src/scrn.c:131-191 | The state after one character is that of the character function `Put`. In bytes: a printable character stores itself and then the attribute at the cursor, other characters store nothing, and leaving the last row moves all bytes up by 160 over a blank row. |
| Console.PrintablePut | src/scrn.c:169-187 | Position, cell and counter after a printable character, with and without a scroll. |
| Console.ControlPut | src/scrn.c:136-168 | Backspace, tab, return and newline in plain arithmetic: tabs go to the next multiple of eight, or to a new row from column 72 on; every other control character does nothing. |
| Console.BytesOfCells | src/scrn.c:169-174 | Memory holds the character of each cell at an even and its attribute at the following odd address. |
| Console.Device.SerialWriteB | src/scrn.c:618-623 | The byte is appended to the serial output and the padding counter advances by one. |
| Console.Device.Write | src/scrn.c:618-623 | A call through the writer pointer has the effect of the chosen writer. |
| Division.Div64Slow | src/scrn.c:295-326 | On every halting input the result is a/b and a%b, except on trapped dividends, where it is a/b - 1 and a%b + b - b/2; no shift or sum leaves 64 bits. |
| Division.Modulo | src/scrn.c:276-292 | On every halting input `modulo` returns the remainder of `div64_slow`. |
| Division.EuclideanUnlessTrapped | src/scrn.c:295-326 | quotient*b + remainder is the dividend exactly when the dividend is not 2^j*b or 2^j*b + 1 with j >= 1, and short by b/2 on those; the remainder is always below b. |
| Division.TrappedIff | src/scrn.c:306 | For b >= 2 the trapped dividends are those whose quotient is a power of two from 2 on and whose remainder is at most 1. |
| Division.HaltsExactly | src/scrn.c:295-326 | The two loops end exactly when the divisor is nonzero and a trapped dividend leaves a remainder below half the divisor. |
| Division.RunsForever | src/scrn.c:313-320 | On every other input no number of steps leaves the loops. |
| Division.WideDivisorHalts | src/scrn.c:313-320 | Divisors from 4 on always halt. |
| Division.HaltsByDivisor | src/scrn.c:295-326 | The endless inputs divisor by divisor: always for 0; for 1 the dividends 2^j and 2^j + 1; for 2 and 3 the dividends 2^j*b + 1, j >= 1; never from 4 on. |
| Division.TwoByOneRunsForever | src/scrn.c:306-320 | The division of 2 by 1 never ends. |
| Numerals.DigitsReadBack | src/scrn.c:505-510 | Fixed-width digits in a base read back as the number modulo the base to that width. |
| Numerals.HexReadsBack | src/scrn.c:505-535 | The text after `0x` reads back as the number modulo 16^nibbles. |
| Numerals.HexAndBinaryAgree | src/scrn.c:527-586 | The hexadecimal and the binary text of a u32 both read back as that u32. |
| Numerals.HexCharacters | src/scrn.c:505-540 | The text is `0x` and, k places from the right, the character of "0123456789abcdef" for num / 16^k mod 16. |
| Numerals.BinaryCharacters | src/scrn.c:572-586 | The text is `0b` and 32 characters, k places from the right a 1 exactly when num / 2^k is odd. |
| Numerals.DecimalReadsBack | src/scrn.c:364-392 | Decimal text consists of digits, reads back as the number, and starts with zero only for zero. |
| Numerals.DecimalIsCanonical | src/scrn.c:364-392 | Any digit text without a leading zero is the decimal text of the number it denotes. |
| Numerals.DecimalAt | src/scrn.c:364-392 | k places from the right stands the digit character of num / 10^k mod 10. |
| Numerals.IntReadsBack | src/scrn.c:206-216 | Signed text reads back as the signed number, the minimum included; negative numbers are a minus sign and the decimal of the magnitude. |
| Numerals.IntLength | src/scrn.c:206-216 | 32-bit numbers take at most ten digits and a sign. |
| Numerals.SlowStep | src/scrn.c:342-345 | Dividing by ten with `div64_slow` always ends with a digit; on trapped numbers the digit is 5 or 6 and the value is short by 5. |
| Numerals.SlowDecimalFits | src/scrn.c:328-352 | Every u64 is printed as 1 to 20 digits whose value is the number less its deficit of 5 per trapped step. |
| Numerals.SlowDecimalCanonical | src/scrn.c:328-352 | The printed text is the canonical decimal exactly when no decimal prefix of the number is 10*2^j or 10*2^j + 1 with j >= 1. |
| Numerals.SlowDecimalOfLess | src/scrn.c:328-352 | What is printed is always the canonical decimal of some number, namely of the one asked for less its deficit, which is 0 exactly when no decimal prefix is trapped. |
| Numerals.TwentyPrintsFifteen | src/scrn.c:328-352 | The smallest wrong case: 20 is printed as 15. |
| Printers.WriteUInt | src/scrn.c:364-392 | Writes exactly the decimal text of the number through the writer. |
| Printers.FillDigits | src/scrn.c:366-384 | The buffer ends in the decimal digits and its index never underflows. |
| Printers.WriteInt | src/scrn.c:206-216 | Writes the signed text of every i32, negating with wrap-around. |
| Printers.WriteUInt64 | src/scrn.c:328-352 | Always ends and writes the digits that `div64_slow` delivers. |
| Printers.FillDigits64 | src/scrn.c:335-346 | The 20 possible digits fit the buffer; its index never underflows. |
| Printers.WriteHexDigit | src/scrn.c:537-540 | Writes the one digit character. |
| Printers.WriteHexBytes | src/scrn.c:505-510 | Writes `0x` and the low nibbles, most significant first. |
| Printers.WriteHex | src/scrn.c:527-530 | Writes all eight nibbles of a u32. |
| Printers.WriteAddr | src/scrn.c:512-515 | Writes the eight nibbles of a pointer; its sign extension to 64 bits does not show. |
| Printers.WriteBinary | src/scrn.c:572-586 | Writes `0b` and all 32 bits, most significant first. |
| Printers.KWriteS | src/scrn.c:659-664 | Writes the bytes in front of the terminator. |
| Printers.PrintedTextIsRun | src/scrn.c:659-664 | Text sent through the screen writer is a run of the console, so the terminal results hold for everything printed. |
| Format.KWriteF | src/scrn.c:668-750 | From any state, processing the format byte by byte ends in the state the format function gives, padding included; padding always ends. |
| Format.Convert | src/scrn.c:695-735 | Each conversion writes the text of its argument. |
| Format.RenderedReadsBack | src/scrn.c:695-735 | The text of every conversion reads back as its argument: `%d` as the number in the range of an int with the same 32 bits, `%u`, `%x`, `%p` and `%b` as the unsigned slot, `%s` as the string, `%q` as the 64-bit number less its deficit. |
| Format.AsIntIsSigned | src/scrn.c:700-704 | A slot read as an int is the number in [-2^31, 2^31) that is congruent to it modulo 2^32. |
| Format.ConversionLetters | src/scrn.c:694-743 | The letters that take an argument are b, d, f, u, p, q, s, x and the bar; which kind each takes. |
| Format.PadTo | src/scrn.c:737-742 | Spaces are written until the counter reaches the amount; the writer itself advances the counter. |
| Format.PadWritesSpaces | src/scrn.c:737-742 | On either writer, padding writes only spaces, none if the counter is already there and no more than needed to reach the amount. |
| Format.FormatConcatenates | src/scrn.c:668-750 | Without padding, what is written is the concatenation of the literals and the rendered arguments, on either writer; surplus arguments are ignored. |
| Format.FormatOnTerminal | src/scrn.c:668-750 | On a screen that shows a terminal, an unpadded format leaves visible the same terminal after it has printed the concatenated text, through wraps, control characters and scrolls. |
| Format.FormatsArePieces | src/scrn.c:680-696 | Every format that matches its arguments is the format of some list of pieces, so the results on pieces cover all of them. |
| Format.PieceMeans | src/scrn.c:680-750 | How a literal, `%%`, a conversion, padding and an unknown letter are written, what argument each takes, and what it prints. |
| Format.FormatsConcatenate | src/scrn.c:678-692 | The format of a list of pieces is the concatenation of theirs. |
| Format.ArgumentsConcatenate | src/scrn.c:678-692 | So is the list of arguments it consumes. |
| Format.TextsConcatenate | src/scrn.c:678-692 | So is the text it prints. |
| Format.FormattedPieces | src/scrn.c:680-750 | A format is processed piece by piece, whatever follows. |
| Format.PlayOnScreen | src/scrn.c:680-750 | One piece on the screen: a literal is one character and counts once more; a conversion is a console run of its text; an unknown letter does nothing. |
| Format.PlayOnSerial | src/scrn.c:680-750 | One piece on the serial line, bytes and counter: literals count twice, everything else once; padding reaches its amount, and negative amounts do nothing. |
| Format.SerialPlaysAll | src/scrn.c:680-742 | What any format, padding included, sends over the serial line is a fixed text of its pieces and the counter at its start. |
| Format.SerialTextUnpadded | src/scrn.c:680-742 | Without padding that text is the concatenation of the pieces, wherever the counter stands. |
| Format.TraceAligns | src/include/system.h:740 | On the serial line a trace message, padded itself or not, starts in column 26 exactly when len(file) + digits(line) + 8 <= 30, since each literal in front counts twice; otherwise four columns after name and number. |
| Format.TraceTexts | src/include/system.h:740 | The trace format is name, two colons, line, colon, space and padding to 30 in front of the message; name, number and punctuation come out in front of the spaces. |
| Memory.KMemMove | src/main.c:183-231 | For every overlap and alignment the n destination bytes are the old source bytes and every other byte is as before. |
| Memory.WordsAscending | src/main.c:196-207 | The aligned ascending part moves a prefix of the range, in bytes up to a word boundary and then in words. |
| Memory.AlignDescending | src/main.c:212-218 | The descending prologue moves a suffix of the range and stops aligned or with nothing left. |
| Memory.WordsDescending | src/main.c:219-222 | The descending word loop moves a further suffix, word by aligned word. |
| Memory.WordsApart | src/main.c:196-206 | Distinct addresses with equal residues modulo 4 are at least 4 apart, so copied words never overlap. |
| Memory.KMemCpyB | src/main.c:236-243 | For every overlap: from above the old source bytes arrive; from below each destination byte equals the source byte as the copy itself left it, so the bytes in between repeat. Nothing else changes. |
| Memory.ForwardCopyIsMove | src/main.c:236-243 | The forward copy is a move through a snapshot when no source byte is overwritten before it is read. |
| Memory.ForwardCopySmears | src/main.c:236-243 | Otherwise it is not, as soon as the first overwritten byte changes. |
| MemChr.KMemChr | src/main.c:155-169 | Returns the first address in the range holding the low byte of the argument, or null when there is none, for every alignment and length, reading only inside the range. |
| MemChr.WordTestExact | src/main.c:164-165 | The loop test is nonzero exactly when one of the four bytes is the byte searched for. |
| MemChr.HasZeroExact | src/include/system.h:71-73 | HASZERO is nonzero exactly when some byte of the word is zero. |
| MemChr.NoHitInWord | src/main.c:165 | The word loop passes over exactly the words without a hit. |
| Rand.Generator.KRand | src/main.c:273-279 | The state becomes state * 1103515245 + 12345 modulo 2^32, and bits 16 to 30 of it are returned. |
| Rand.Generator.SRand | src/main.c:281-284 | Seeding sets the state. |
| Rand.StateStep | src/main.c:273-284 | The states counted in the results below are those of successive calls from the seed. |
| Rand.LowBitsPeriod | src/main.c:277 | For every k up to 32, the low k bits of the state are back after n calls exactly when 2^k divides n. |
| Rand.StateReturns | src/main.c:277 | The state is back after n calls exactly when 2^32 divides n. |
| Rand.FullPeriod | src/main.c:273-284 | From any seed, every 32-bit state is reached exactly once in the first 2^32 calls. |
| Rand.OutputsAreEven | src/main.c:278 | Over one period every 15-bit output occurs exactly 2^17 times. |
| Lines.LineFast | src/vga.c:274-314 | Colours exactly the cells of the closed-form line and keeps every other byte, in every octant, with all intermediate values inside 32 bits. |
| Lines.LinePointExact | src/vga.c:274-314 | Pixel i in plain coordinates: the longer axis has advanced by i, and the other one is within half a pixel of the ideal line on the right side, halves going away from the start. |
| Lines.LineCellsAre | src/vga.c:261-314 | The cells of a line are 320*y + x of its pixels 0 to the longer of its two distances, and no others. |
| Lines.BoxFits | src/vga.c:274-314 | A line whose box has its far corner in the buffer fits the buffer. |
| Lines.PlotPixel | src/vga.c:261-269 | Colours the one byte 320*y + x and no other. |
| Lines.OffsetIsNearest | src/vga.c:289-296 | The minor coordinate at each step is nearest to the ideal line: off by at most half a pixel, and no other coordinate is nearer. |
| Lines.LineStep | src/vga.c:288-312 | Adding the minor distance to the accumulator and carrying at the major one steps the closed form; the accumulator stays below the major distance. |
| Lines.LineFromTo | src/vga.c:274-314 | The line starts at the first point, ends exactly at the second and stays in their box. |
| Lines.LineIsConnected | src/vga.c:288-312 | Consecutive pixels touch and every step advances the major coordinate by one. |
| Lines.ReversePoint | src/vga.c:274-314 | Column by column, the line drawn backwards has the same pixel exactly where 2*i*d is not an odd multiple of the major distance D. |
| Lines.SamePixelsBackwards | src/vga.c:274-314 | Both directions colour the same pixels exactly when the major distance has no more factors of two than the minor one, in particular whenever it is odd. |
| Lines.MoreTwosMeans | src/vga.c:274-314 | More factors of two: some power of two divides the major distance and not the minor one. |
| Lines.Polygon | src/vga.c:316-326 | Colours exactly the cells of the closed outline and keeps every other byte. |
| Lines.PolygonCellsAre | src/vga.c:316-326 | A cell is on the outline exactly when it is on a line between two consecutive vertices or on the closing one from the first vertex to the last. |
| Lines.PolygonInBox | src/vga.c:316-326 | Every coloured cell belongs to a point inside any box around the vertices. |
| Lines.CellInjective | src/vga.c:266 | Inside 320 columns different points have different cells. |
| ContextSwitch.Cpu.SwitchTask | src/asm/kernel.s:40-106 | Word by word: the eleven words of the previous record are the registers at the call, with esp past the return address and eip the return address; the registers are the eleven words of the next record, or the caller's own on a switch to itself; only that record, 48 bytes below the caller's stack pointer and one word below the new one change. |
| ContextSwitch.Cpu.SaveCaller | src/asm/kernel.s:43-76 | The first half stores each register of the caller at its place in the record. |
| ContextSwitch.Cpu.LoadNext | src/asm/kernel.s:78-106 | The second half loads each register from its place in the record. |
| TaskRuns.TaskResumes | src/asm/kernel.s:40-106 | In any run over tasks with disjoint records and stacks, a task that switched away goes on with every register equal to its own at the call, esp past the return address, eip the return address, and every word of its live stack as it left it. |
| TaskRuns.TaskStarts | src/asm/kernel.s:78-106 | A task that has not run starts with each register equal to the word put into its record. |
| TaskRuns.CallsAreSafe | src/asm/kernel.s:40-106 | In every world of such a run, any call with room for its frame meets the requirements of the switch. |
| TaskRuns.SuspendedUnchanged | src/asm/kernel.s:40-106 | While a task does not run, its record and its live stack stay as they are. |
| TaskRuns.RunSound | src/asm/kernel.s:40-106 | Every world of a run keeps the stack pointers of waiting tasks inside their stacks. |
| Tasks.Table.CreateTask | src/task.c:139-160 | Whether or not earlier tasks have run, the last task's `next` names the new one, which is active, has no `next`, the given entry, flags and directory, zeroed registers and the next page as stack; the other records are untouched. |
| Tasks.Table.constructor | src/task.c:94-135 | The table starts with the caller as its only, running task. |
| Tasks.Table.Advance | src/task.c:71-73 | The running task becomes the one that its `next` field names, null standing for the first; that is its successor in the ring. |
| Tasks.Table.RingVisitsEachOnce | src/task.c:71-73 | Following the `next` fields from any point on meets every created task exactly once per round and is then back where it was. |
| Tasks.EachOncePerRound | src/task.c:71-73 | In ring positions: from any point on, each round of switches runs every position exactly once and ends where it began. |
| Tasks.RingDecidesTurns | src/task.c:59-91 | In any run whose switches go to the task that the link word in memory names, every world is sound, the links stay as created, and the number of handovers decides which task runs. |
| Tasks.TurnsAreFair | src/task.c:59-91 | Of any n consecutive turns of a preemptive run of n tasks, each task has exactly one. |
| Tasks.PreemptionFollowsRing | src/task.c:71-84 | One step under preemption leaves all links intact, stack writes of the switch included, and runs the same task on or its ring successor. |
| Tasks.CreatedTasksSeparate | src/task.c:139-160 | Created tasks have pairwise disjoint stack pages and records, and their links lie outside all of these. |
| Tasks.CreatedWorldIsSound | src/task.c:154-155 | The stack pointers of created tasks make the run results hold from there on. |
| Mouse.Decoder.MouseHandler | src/kb.c:247-327 | One byte steps the decoder; over any byte stream the cycle stays in range for the mode and the buffer holds the most recent packets. A new packet moves each coordinate by its delta, stopping at 0 and at 600 or 400; without one the pointer stays. |
| Mouse.Decoder.AddPacket | src/kb.c:235-237 | The packet goes to the slot of its number modulo 256; the 256 most recent packets stay in place. |
| Mouse.Decoder.FinishPacket | src/kb.c:279-321 | A complete packet is dropped on overflow, otherwise decoded, stored, and added to the pointer up to the edge of the box. |
| Mouse.DecodingInvertsEncoding | src/kb.c:247-321 | In every mode, reports with stray bytes between them come out as exactly the packets meant, in order, with y negated; overflowing ones are dropped without losing framing. |
| Mouse.FeedInRange | src/kb.c:253-274 | Any byte stream keeps the cycle inside the packet and never takes a packet back. |
| Mouse.NoiseIsIgnored | src/kb.c:254-259 | Between packets, bytes without bit 3 produce nothing. |
| Mouse.BytesToPacket | src/kb.c:247-321 | One report as raw bytes: which bits of the first byte are buttons, signs and overflows, and the packet that comes out. |
| Mouse.PositionMoves | src/include/system.h:84-86 | Per packet and coordinate: old plus delta when that is in range, 0 when it is below, 600 or 400 when it is above. |
| Mouse.PositionIsSum | src/kb.c:313-315 | As long as all running sums of the deltas stay in the box, the pointer is the plain sum. |
| Paging.Tables.InitPageDirectory | src/mm.c:256-276 | The first directory entry is the table address plus 3, the others are 2, and table entry k is 4096*k + 3. |
| Paging.Tables.LookupJoins | src/mm.c:303-324 | Whatever the table holds, the lookup is the frame of the entry for bits 12 to 21 with the low twelve bits of the address. |
| Paging.Tables.IdentityBelowFourMiB | src/mm.c:303-324 | The lookup gives v mod 4 MiB; it agrees with the processor's own walk (32-bit paging, section 4.3 of Intel SDM Volume 3A) exactly below 4 MiB, and every address above faults. |
| Paging.IdPaging | src/mm.c:293-301 | Consecutive entries map consecutive pages from the page of the start address on to themselves, wrapping at 2^32; no other entry changes. |
| Paging.PagesCover | src/mm.c:295-300 | As many entries as cover the size, and not one more. |

## Left out

- Console.Device.KPutCh: the padding counter is an unbounded number; the C int overflows after 2^31 columns without a `kwritef`, which C leaves undefined.
- Console.Device.KScroll: rows from 50 on are excluded, since `25 - temp` wraps there and the copy leaves video memory; the console itself never goes beyond row 25.
- Division.Div64Slow: is stated for the inputs on which the loops end; `HaltsExactly` and `RunsForever` cover the others.
- Printers.WriteHexBytes: nibble counts above 16 shift by more than the width of the number, which C leaves undefined; the kernel uses 2, 4, 8 and 16.
- Format.KWriteF: formats that end in a dangling percent sign are excluded (the code reads past the terminator); arguments match their conversions; the text that `writeReal` prints for a `%f` argument is a parameter.
- Lines.LineFast: every cell the line draws lies in the buffer (the code writes outside it otherwise), and the distances keep the sums of the loop inside 32 bits.
- Lines.Polygon: every drawn edge fits in that sense; at least one vertex, since the loop bound wraps for none; the vertices are read from a sequence.
- ContextSwitch.Cpu.SwitchTask: one shared identity page directory; loading cr3 leaves flags and memory alone; flags after `add` are arbitrary.
- TaskRuns.TaskResumes: interrupts between the instructions of a switch are not modelled.
- Tasks.Table.CreateTask: called for the next free slot of the ten, as `initTasking` does.
- Tasks.RingDecidesTurns: the running task writes no link word; a task that writes another's link breaks the ring.
- Tasks.Table.Advance: the guard of `k_preempt` reads through a null pointer, so only the successor choice and the switch are modelled.
- Mouse.Decoder.MouseHandler: the mode is fixed after installation; the first and the read index of the packet buffer are not modelled, since the reader compares them across the wrap.
- Memory.KMemMove: `kmemcpy` is `rep movsb`, modelled as the forward byte copy.
- Port I/O, the hardware cursor, serial status, the PS/2 status read, PIT, PIC and VGA registers.
- How `writeReal` finds its digits, and `writeInt64`, which only it uses; the byte and word variants of the binary printer.
- The block allocator, the keyboard ring, real-time clock, timers, descriptor tables and interrupt dispatch, VBE and multiboot output.
- `map_page`, which writes through a window that the lookup never reads; `removeTask`, `fillrect`, `kmemcmp`, `kmemrchr` and `kstrlen` are not modelled.

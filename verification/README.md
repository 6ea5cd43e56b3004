# Verified model of the kernel's self-contained cores

This project models the parts of the kernel that carry real algorithms and proves what they
promise. It covers formatted printing, number and string conversion, the tokenizer, PCI discovery
and BAR sizing, the input event ring, the heap, the memory primitives, the pseudo-random generator
and the bit finders of the ACPI headers. Nothing here is executed; `dafny verify dfyconfig.toml` checks it.

Code that changes state step by step is modelled as methods over arrays and classes and proved
against specification functions; the laws are lemmas about those functions.

| file | subject |
|---|---|
| `Machine.dfy`, `Numerals.dfy` | wrap-around, two's complement, numerals in a base and their values |
| `PrintfSpec.dfy` | what a format, its argument slots and its flags denote |
| `Printf.dfy` | the formatter as it runs: digit buffer, cursors, output functions |
| `PrintfLaws.dfy` | the documented contract of `snprintf`, truncation, field widths, a bound on the output |
| `PrintfComposition.dfy`, `Directives.dfy` | formatting as a homomorphism from formats to texts, spelling and scanning of directives |
| `PrintfOutput.dfy` | what each directive prints, character by character, over formats as a caller writes them |
| `Kstrtol.dfy` | the number parser |
| `RoundTrip.dfy`, `AutoBase.dfy`, `HashRoundTrip.dfy`, `Formats.dfy` | printer and parser together, with base detection and with `#`; the PCI file names |
| `CStrings.dfy`, `Strtok.dfy`, `ToString.dfy` | C strings in memory, the tokenizer, number to string |
| `EventRing.dfy`, `EventRuns.dfy` | the drop-oldest ring, and all interleavings of its users |
| `KernelMemory.dfy` | `memcpy`, `memmove` and `memset` in every chunk width |
| `HeapChain.dfy`, `HeapCalls.dfy` | the segments of the heap, and runs of `malloc` and `free` |
| `HeapMemory.dfy`, `KernelHeap.dfy` | the heap's memory word by word, what is left of old headers, and the linked list in place |
| `PciTopology.dfy`, `PciTermination.dfy`, `PciEnumeration.dfy` | what discovery finds and in which order, when it ends, and the discovery itself |
| `PciBar.dfy`, `PciNames.dfy` | the BAR probe and mapping loop, configuration windows and file names |
| `Random.dfy` | the xorshift generator and the random hexadecimal strings |
| `BitFinders.dfy` | highest and lowest bit, rounding to powers of two |
| `Counterexamples.dfy` | a concrete call for each condition that an exact result below names |

## Where the code differs from what one would expect

These behaviours are modelled as they are. Each is either pinned down exactly by a result below or
excluded where the C code is undefined.

- The result of `snprintf` is an `int`. The documented reading of it fails exactly when the length
  of the output wraps around to a non-negative `int` (`PrintfLaws.ResultContract`);
  `Counterexamples.WrappedResult` is such a call.
- `kstrtol` accumulates in a `long`. Unsigned numbers and pointers from 2^63 on, among them every
  address in the higher half, are printed but cannot be read back (`RoundTrip.UnsignedRoundTrip`,
  `RoundTrip.PointerReads`, `Counterexamples.HigherHalfPointer`).
- A negative number loses its sign when zeros fill the 32-character buffer
  (`RoundTrip.DecimalRoundTrip`, `Counterexamples.SignGone`). The same limit caps zero padding
  (`PrintfLaws.IntegerWidth`).
- Zero padding makes base detection take a decimal number for octal
  (`AutoBase.DecimalAutoRoundTrip`, `Counterexamples.ZeroPaddingReadsOctal`).
- `#` removes digits when the padded length equals the width (`HashRoundTrip.HexRoundTrip`,
  `HashRoundTrip.OctalRoundTrip`, `Counterexamples.WidthTakesDigits`). With 31 padded digits there
  is room for the `x` of the prefix only, and nothing is read back
  (`Counterexamples.HalfPrefixFails`); with 32 there is no prefix at all.
- Base 2 stops at the `b` that `%#b` prints (`HashRoundTrip.BinaryRoundTrip`), and `%#p` removes
  digits of long pointers because of its fixed width of 16 (`HashRoundTrip.PointerRoundTrip`).
- The length that governs the padding of `%s` is an `unsigned int` (`PrintfLaws.StringWidth`).
- A format that ends inside a directive makes the loop step over the terminator. Such a call, a
  missing or mismatched argument, and printing the most negative `int` or `long` have no defined
  output: `PrintfSpec.Defined` is false for them.
- `memset_scalar` stores whole words and shifts its mask by bits instead of bytes. It fills with
  one byte exactly under the condition of `KernelMemory.ScalarFillIff`, and `memset` is the same on
  every processor exactly under that of `KernelMemory.MemsetPortable`.
- Discovery keeps no set of visited buses. It ends exactly when no chain of bridges meets a bus
  twice (`PciTermination.EndsIff`); a bridge that has not been configured keeps it going for ever
  (`PciTermination.UnconfiguredNeverEnds`). It lists every function once exactly when no two
  bridges lead to the same occupied bus (`PciTopology.OnceIff`,
  `Counterexamples.SharedBusTwice`). With ascending and distinct bus numbers both hold
  (`PciEnumeration.UsualNumbering`).
- `malloc` rounds its request up with wrap-around: within 15 bytes of the size of the address space
  it hands out a block of no use (`HeapCalls.FreshHolds`, `Counterexamples.HugeRequest`).
- `free` recognizes a pointer that was freed before by the flag in its old header. A later header may
  lie over part of that; then a second `free` gets past the checks. While the callers write nothing,
  `KernelHeap.Heap.StaleIff` says exactly when, and `Counterexamples.StaleFree` is a run that leads
  there.
- A reader copies its event after releasing the lock. `EventRuns.CopyWindow` says for every
  interleaving which event it delivers.
- The probe answers 0 for a region of 4 GiB or more, so nothing is mapped for it
  (`PciBar.RegionPages`).
- Rounding up to a power of two yields 0 when the power does not fit the type
  (`BitFinders.RoundUpIff`).
- The retry loop of `random_string` needs no more than five draws from any nonzero state
  (`Random.FiveDraws`), and four are not always enough (`Random.FourDrawsFail`).

## Model

| member | source | states |
|---|---|---|
| Numerals.DigitsValue | kernel/src/printf.c:296-302 | the digit loop leaves a numeral in the base whose value is the number modulo base to the buffer size |
| Numerals.DigitsStep | kernel/src/printf.c:297-301 | one turn of the loop moves a digit from the number to the text and keeps the denoted numeral |
| RoundTrip.DigitLoop | kernel/src/printf.c:286-302 | for 64-bit values in bases 8, 10 and 16 at most 22, 20 and 16 digits, value kept, first digit zero only for zero |
| RoundTrip.BinaryLoop | kernel/src/printf.c:286-302 | in base 2 the buffer keeps the value modulo 2^32 |
| Numerals.DigitsCase | kernel/src/printf.c:299 | letters among the digits come in the case asked for |
| Numerals.DigitCountIs | kernel/src/printf.c:296-302 | the number of digits of a value, by the powers of the base it lies between |
| Numerals.DigitOfIs | kernel/src/cstr.cpp:390-399 | the digits 0-9, A-Z and a-z have their place as their value, and no other character has one |
| Printf.Sink.Out | kernel/src/printf.c:137-170 | the three output functions: a bounded store, nothing, or delivery of every character but NUL |
| Printf.OutRev | kernel/src/printf.c:203-227 | the reversed buffer comes out in order with blanks on the side the flags choose |
| Printf.PushHash | kernel/src/printf.c:247-266 | dropped digits, prefix and index bound of the alternate form |
| Printf.PushBody | kernel/src/printf.c:231-278 | zeros, prefix and sign pushed within the 32 characters of the buffer |
| Printf.PushNumber | kernel/src/printf.c:290-302 | the buffer holds the reversed digits, none for zero with a precision |
| Printf.NtoaLong | kernel/src/printf.c:285-330 | the sink receives exactly the field text of the number |
| Printf.Atoi | kernel/src/printf.c:192-199 | a run of digits modulo 2^32 and the cursor behind it |
| Printf.ScanDirective | kernel/src/printf.c:605-684 | flags, width, precision and length as the grammar assigns them, cursors moving forward only |
| Printf.PrintInteger | kernel/src/printf.c:694-760 | the integer specifiers with the argument read in its C type |
| Printf.PutText | kernel/src/printf.c:813-815 | the loop outputs the first min(length, precision) characters of the string itself |
| Printf.PrintString | kernel/src/printf.c:800-824 | these characters, with blanks up to the width on the side the flags choose |
| Printf.PrintChar | kernel/src/printf.c:780-798 | the character of the low byte, with such blanks |
| Printf.PrintDirective | kernel/src/printf.c:686-853 | one specifier outputs its conversion and consumes its arguments |
| Printf.PrintAll | kernel/src/printf.c:591-854 | for every defined call the main loop ends and outputs exactly the denoted text |
| Printf.Terminate | kernel/src/printf.c:856-857 | the terminator goes behind the text, into the last position, or nowhere |
| Printf.Vsnprintf | kernel/src/printf.c:581-861 | result, memory and delivered characters depend only on the denoted text, whatever the output function |
| Printf.Snprintf | kernel/src/printf.c:887-907 | the buffer is the old one overlaid with the longest prefix that fits and one NUL; a null buffer or count 0 changes nothing |
| Printf.Fctprintf | kernel/src/printf.c:910-918 | the user function sees the same text without NUL characters |
| PrintfLaws.NonNulIs | kernel/src/printf.c:137-170 | what a user function sees of a text: all of it if it has no NUL, of a concatenation both parts in turn, of a NUL nothing |
| PrintfLaws.StoredPrefix | kernel/include/printf.h:74-87 | for every text the buffer holds its first min(length, count - 1) characters and a NUL, as a C string up to the first NUL of the text itself, and nothing at or behind count changes |
| PrintfLaws.CompleteIff | kernel/include/printf.h:80-82 | the stored C string is the whole text iff its length is less than count and it holds no NUL |
| PrintfLaws.ResultContract | kernel/include/printf.h:80-82 | for a call, the documented reading of its result is right for one count iff the length fits or does not wrap below it, and for every count iff the output is below 4 GiB or its length wraps to a negative int |
| PrintfLaws.OutputBounded | kernel/src/printf.c:581-861 | no output is longer than widths, string lengths and 33 for each directive add up to |
| PrintfLaws.ExactResult | kernel/include/printf.h:80-82 | while that sum is below 2 GiB the result is the exact length |
| PrintfLaws.IntegerWidth | kernel/src/printf.c:203-281 | without `#` a width stretches an integer field exactly iff zeros need not exceed the digit buffer |
| PrintfLaws.FieldLength | kernel/src/printf.c:231-281 | the exact length of every field without alternate form |
| PrintfLaws.StringWidth | kernel/src/printf.c:800-824 | `%s` fills its width iff its length, as an unsigned int, does not look too short |
| PrintfLaws.CharWidth | kernel/src/printf.c:780-798 | `%c` prints max(width, 1) characters |
| Directives.DirectiveSpelled | kernel/src/printf.c:605-684 | every flag set, width, precision, length and specifier has a spelling that is read back as exactly this directive, with the cursor at its specifier |
| Directives.SpelledPrints | kernel/src/printf.c:605-854 | a format that spells a directive prints the conversion of its argument |
| Directives.NumberReads | kernel/src/printf.c:192-199 | a run of digits is read as the number it denotes modulo 2^32 |
| Directives.FlagsGathered | kernel/src/printf.c:605-616 | flag characters in any order and number raise exactly the flags among them |
| Directives.FormPrints | kernel/src/printf.c:605-684 | with flags in any order, width and precision written as numbers or as `*` arguments and any length modifier, a directive prints the conversion of the argument behind those |
| PrintfOutput.FormIs | kernel/src/printf.c:605-684 | how a directive is written, part by part: a `*` width below 0 is its magnitude on the left side, a `*` precision below 0 is 0; `z`, `j` and `t` are `l` |
| PrintfOutput.StringOutput | kernel/src/printf.c:800-824 | `%s` however written prints n blanks, the first min(length, precision) characters of its argument and q blanks; n is 0 under `-`, else q is 0, and together they are the width less the length modulo 2^32 |
| PrintfOutput.PlainString | kernel/src/printf.c:800-824 | the format `%s` prints its string |
| PrintfOutput.CharOutput | kernel/src/printf.c:780-798 | `%c` however written prints the character of the low byte between such blanks |
| PrintfOutput.PlainChar | kernel/src/printf.c:780-798 | the format `%c` prints its character |
| PrintfOutput.StarWidth | kernel/src/printf.c:618-633 | the format `%*s` pads to the magnitude of the int in front of the string, on the side its sign chooses |
| PrintfOutput.StarPrecision | kernel/src/printf.c:635-647 | the format `%.*s` prints as many characters as the int says, none if it is negative |
| PrintfOutput.IntegerOutput | kernel/src/printf.c:203-281 | an integer without alternate form, however written: the count of blanks, the sign, the count of zeros and the digits from flags, width and precision alone |
| PrintfOutput.PlainInteger | kernel/src/printf.c:650-760 | for every integer specifier and every length modifier, `z`, `j` and `t` included, sign and numeral of the value of the C type the slot holds |
| PrintfOutput.PlainHash | kernel/src/printf.c:246-266 | with `#` the prefix `0x`, `0X`, `0b` or `0` in front of the digits of a positive number |
| PrintfOutput.PointerOutput | kernel/src/printf.c:826-842 | `%p` without alternate form, however written: sign, zeros, digits and blanks |
| PrintfOutput.PlainPointer | kernel/src/printf.c:826-842 | the format `%p` prints a numeral of exactly 16 upper-case digits |
| PrintfOutput.VerbatimOutput | kernel/src/printf.c:844-853 | a specifier that is none, `%` among them, prints itself and reads no argument |
| PrintfComposition.DirectiveEmbed | kernel/src/printf.c:605-684 | a directive inside a longer format, with its arguments inside a longer list, parses the same |
| PrintfComposition.RunEmbed | kernel/src/printf.c:591-854 | a loop that simulates another outputs its text and goes on behind it |
| PrintfComposition.PrintsConcat | kernel/src/printf.c:581-861 | printing a concatenated format with concatenated arguments is printing both parts in turn |
| Kstrtol.ReadDigits | kernel/src/cstr.cpp:434-441 | the digit loop accumulates the value of the longest run of digits without leaving `long` |
| Kstrtol.ReadBase | kernel/src/cstr.cpp:417-432 | base detection and the prefixes it skips |
| Kstrtol.Parse | kernel/src/cstr.cpp:401-445 | value and end position for every text whose magnitude fits |
| Kstrtol.LayoutReads | kernel/src/cstr.cpp:401-445 | blanks, sign, prefix and a maximal numeral are read as that numeral |
| Kstrtol.ReadsAsIff | kernel/src/cstr.cpp:433-444 | a text is read as a number iff it denotes it and the number is below 2^63, where `long` ends |
| RoundTrip.SurroundedReads | kernel/src/cstr.cpp:401-445 | a signed numeral between blanks reads as its value in its base |
| RoundTrip.FieldShape | kernel/src/printf.c:203-281 | every field without alternate form is blanks on the side the flags choose, a sign if it fits, zeros and the digits |
| RoundTrip.IntegerShape | kernel/src/printf.c:203-281 | every integer without alternate form is blanks, sign, zeros, digits and blanks |
| RoundTrip.SignFitsIff | kernel/src/printf.c:234-278 | the sign is printed iff zeros do not fill the buffer |
| RoundTrip.DecimalRoundTrip | kernel/src/printf.c:725-742 | for `%d` and `%i` with any flags, width, precision and length, base 10 reads the value back iff it is not negative or its sign was not lost |
| RoundTrip.UnsignedRoundTrip | kernel/src/printf.c:743-757 | the other integer specifiers without `#` and with any flags, width, precision and length read back in their own base iff the value is below 2^63, `%b` modulo 2^32 always |
| RoundTrip.PointerReads | kernel/src/printf.c:826-842 | `%p` without `#`, whatever the other flags and the precision, reads back in base 16 iff the pointer is below 2^63 |
| AutoBase.MistakenForOctal | kernel/src/cstr.cpp:417-432 | behind zeros, base detection reads digits as octal, which is right only for a single octal digit |
| AutoBase.DecimalAutoRoundTrip | kernel/src/printf.c:725-742 | for `%d` and `%i` with any flags, width, precision and length, base detection reads the value back iff it is zero, or no zero stands in front of the digits or there is one octal digit, and its sign was not lost |
| HashRoundTrip.HashedForm | kernel/src/printf.c:246-266 | for padded digits of any length in bases 2, 8 and 16, as much of the prefix as fits goes in front of what is kept |
| HashRoundTrip.HexRoundTrip | kernel/src/printf.c:246-266 | `%#x` and `%#X` with any flags, width, precision and length read back in base 16 iff the value is below 2^63 and neither digits nor half the prefix are lost, and with base detection iff besides the prefix fits or the value is below 8 |
| HashRoundTrip.OctalRoundTrip | kernel/src/printf.c:246-266 | `%#o` reads back, in base 8 and with base detection alike, iff the value is below 2^63 and no digit is lost |
| HashRoundTrip.BinaryRoundTrip | kernel/src/printf.c:246-266 | `%#b` reads back in base 2 iff the value is zero, or its digits fill the buffer and it is below 2^32 |
| HashRoundTrip.PointerRoundTrip | kernel/src/printf.c:826-842 | `%#p` reads back in base 16 and with base detection iff the pointer is below 2^63, the fixed width takes no digit, half the prefix is not lost and, for base detection, the prefix fits or the pointer is below 8 |
| Formats.LongSelfDescribing | kernel/src/printf.c:246-302 | the outputs of the formats `%#lx`, `%#lX` and `%#lo` read back with base 0 for every v below 2^63, zero included |
| Formats.LongDecimal | kernel/src/printf.c:725-742 | the output of the format `%ld` reads back with base 0 and base 10 for every long but the least |
| Formats.PathIs | kernel/src/pci.cpp:176 | the PCI path format denotes the fixed text with its three fields |
| Formats.PathReads | kernel/src/pci.cpp:176 | character by character: directory, two, two and one lower-case hexadecimal digits that denote bus, device and function |
| Formats.PathFits | kernel/src/pci.cpp:176 | the path fits its buffer |
| Formats.PathInjective | kernel/src/pci.cpp:176 | the path determines bus, device and function |
| CStrings.Strcat | kernel/src/cstr.cpp:220-233 | the concatenation in place, nothing behind its terminator changed |
| CStrings.Strstr | kernel/src/cstr.cpp:336-355 | the first occurrence, found iff there is one |
| Strtok.StrtokR | kernel/src/cstr.cpp:14-47 | token start, saved place and the single NUL of one call |
| Strtok.Tokenize | kernel/src/cstr.cpp:14-47 | iterating with a delimiter set per call yields the tokens of the original text and overwrites one delimiter behind each |
| Strtok.CutAt | kernel/src/cstr.cpp:42-43 | memory after the iteration differs only at the ends of tokens, which hold NUL |
| Strtok.TokenIs | kernel/src/cstr.cpp:23-37 | every token is a non-empty maximal stretch without delimiters, with only delimiters before it |
| Strtok.Ordered | kernel/src/cstr.cpp:39-44 | later tokens lie strictly behind earlier ones |
| Strtok.LeftoverIs | kernel/src/cstr.cpp:23-31 | when null is returned only delimiters are left |
| Strtok.StaysNull | kernel/src/cstr.cpp:28-31 | at the end every further call returns null |
| Strtok.TokensReadable | kernel/src/cstr.cpp:39-46 | after the iteration each token is a C string in place equal to its part of the original text |
| Strtok.SplitFields | kernel/src/cstr.cpp:14-47 | with one delimiter set the tokens are the fields found by a scan of single characters |
| ToString.FromUnsigned | kernel/src/cstr.cpp:64-83 | the buffer holds a decimal numeral of the value without superfluous zero |
| ToString.FromSigned | kernel/src/cstr.cpp:154-181 | the same with a minus sign for negative values |
| ToString.FromSignedReads | kernel/src/cstr.cpp:154-181 | the parser reads the result back in base 10 and with base detection |
| ToString.AgreesWithPrintf | kernel/src/cstr.cpp:154-181 | the text is the one `%ld` prints |
| ToString.FromByte | kernel/src/cstr.cpp:137-151 | the buffer holds two upper-case digits, a base-16 numeral of the byte |
| ToString.HexPairReads | kernel/src/cstr.cpp:401-445 | the parser reads them back in base 16 as the byte |
| EventRing.WriteQueues | kernel/src/events.cpp:36-45 | a write appends to the queue and drops the oldest of 255 events |
| EventRing.BoundedPush | kernel/src/events.cpp:36-45 | the ring is full with 255 events |
| EventRing.TakeQueues | kernel/src/events.cpp:76-77 | a take removes the oldest event, the one in the tail slot |
| EventRing.EventNode.Write | kernel/src/events.cpp:36-47 | the method performs that step in place |
| EventRing.EventNode.Take | kernel/src/events.cpp:57-79 | the critical section of a read |
| EventRing.EventNode.Read | kernel/src/events.cpp:52-87 | as many whole events as the count and the queue allow, oldest first, rest of the buffer unchanged; it blocks iff the queue is empty and the count has room for an event |
| EventRing.EventNode.EventWrite | kernel/src/events.cpp:13-22 | the queue ends as the last 255 of the old events and the written ones, and the result is their number of bytes as an int, for every length |
| EventRuns.RunCouples | kernel/src/events.cpp:36-87 | over every interleaving the ring is the drop-oldest queue of its history |
| EventRuns.Conservation | kernel/src/events.cpp:36-79 | every written event is taken, dropped or queued, and what is taken is an in-order selection of what was written |
| EventRuns.NothingLost | kernel/src/events.cpp:38-42 | taken and queued events are exactly the written ones iff no write met a full ring |
| EventRuns.CopyWindow | kernel/src/events.cpp:57-84 | a reader delivers what it dequeued while at most RING_SIZE - c writes intervene, and otherwise exactly the last write that reused its slot |
| KernelMemory.CopyForward | kernel/src/memory.cpp:51-61 | forward chunks of any width move the bytes also when the destination overlaps below the source |
| KernelMemory.CopyBackward | kernel/src/memory.cpp:71-79 | backward chunks do so when it overlaps above |
| KernelMemory.MoveChunked | kernel/src/memory.cpp:63-81 | every memmove form moves the bytes for every overlap |
| KernelMemory.Memmove | kernel/src/memory.cpp:303-317 | for all processor flags, lengths and overlaps the destination holds the old source and nothing else changes |
| KernelMemory.Memcpy | kernel/src/memory.cpp:290-301 | the same for regions that do not overlap or whose destination is below |
| KernelMemory.FillChunked | kernel/src/memory.cpp:135-151 | every vector memset is the byte fill |
| KernelMemory.LittleEndian | kernel/src/memory.cpp:85-88 | the four bytes of a stored word, the least significant first, and no others, add up to the value |
| KernelMemory.ScalarStoredIff | kernel/src/memory.cpp:83-94 | the bytes of the scalar form are exactly those whose whole words are the value and whose last up to three bytes are its low byte with no, one and two low bits cleared |
| KernelMemory.FillScalar | kernel/src/memory.cpp:83-94 | the region holds such bytes and nothing else changes |
| KernelMemory.Memset | kernel/src/memory.cpp:319-342 | with any vector flag every byte of the region is the value modulo 256, without one the region is as the scalar form leaves it; nothing else changes |
| KernelMemory.ScalarFillIff | kernel/src/memory.cpp:83-94 | the scalar form is the byte fill for a length iff the value meets that length's condition |
| KernelMemory.MemsetPortable | kernel/src/memory.cpp:319-342 | memset fills with the value modulo 256 on every processor and for every length iff the value is 0x01010101 times that byte and a multiple of 4 |
| HeapChain.TakeSound | kernel/src/memory/heap.cpp:56-85 | cutting a fitting segment keeps the heap tiled, coalesced and aligned and adds exactly one block |
| HeapChain.ReleaseSound | kernel/src/memory/heap.cpp:229-240 | releasing a segment and merging it both ways keeps all that and removes exactly its block |
| HeapChain.GrowSound | kernel/src/memory/heap.cpp:123-147 | expanding keeps all that and changes no block |
| HeapChain.Canonical | kernel/src/memory/heap.cpp:20-52 | the live blocks determine the chain: two heaps over the same bytes with the same blocks are equal |
| HeapChain.Accounting | kernel/src/memory/heap.cpp:9-10 | bytes in use, free bytes and headers add up to the size of the heap |
| HeapCalls.MallocGood | kernel/src/memory/heap.cpp:183-209 | malloc keeps the invariant and adds one block at an address no live block has, or none when it answers null |
| HeapCalls.FirstFitTaken | kernel/src/memory/heap.cpp:159-209 | with a free segment that has room, malloc answers with the first one, cut to the request rounded up to 16 unless no more than 48 bytes would be left |
| HeapCalls.Expanded | kernel/src/memory/heap.cpp:123-201 | without one the heap grows by the least number of pages for twice the request, as far as frames last, and the answer lies at its old end or in its last free segment, or is null |
| HeapCalls.FreshHolds | kernel/src/memory/heap.cpp:184-186 | the block has room for the request iff rounding it up does not wrap around, and at most 63 bytes more |
| HeapCalls.NullIff | kernel/src/memory/heap.cpp:183-201 | malloc answers null iff nothing is asked for, or no free segment has room and the frames left do not make room at the end |
| HeapCalls.Enough | kernel/src/memory/heap.cpp:192-195 | with frames for twice the rounded request malloc does not answer null |
| HeapCalls.FreeGood | kernel/src/memory/heap.cpp:212-243 | free of null or of a block that is held keeps the invariant and removes exactly that block |
| HeapCalls.FreeUndoes | kernel/src/memory/heap.cpp:183-243 | freeing a block at once gives back the heap that malloc found or expanded |
| HeapCalls.RunGood | kernel/src/memory/heap.cpp:183-243 | over every run whose frees name null or a block held at that moment, the invariant holds, the live blocks are those the callers hold, and no page is lost |
| HeapCalls.RunsAgree | kernel/src/memory/heap.cpp:183-243 | such runs that leave the callers with the same blocks leave the same heap, whatever the order of the calls |
| HeapCalls.AllFreed | kernel/src/memory/heap.cpp:234-240 | such a run that frees all it was given leaves a single free segment |
| HeapCalls.BlocksSafe | kernel/src/memory/heap.cpp:183-243 | in every such run the blocks held are disjoint, inside the heap and apart from every header |
| HeapMemory.HeaderWords | kernel/include/memory/heap.h:8-21 | a header in memory: "HEAP", the links at offsets 8 and 16, size and flag at 24 and 32 |
| HeapMemory.WritesHarmless | kernel/include/memory/heap.h:8-21 | whatever is written into a live block, all headers and links stay as they are |
| HeapMemory.CutStores | kernel/src/memory/heap.cpp:61-79 | the words of the new header, of the cut one and of the next one after all stores of a split, and no others changed |
| HeapMemory.CutLaid | kernel/src/memory/heap.cpp:56-85 | after them every segment of the split chain has its header, linked both ways |
| HeapMemory.MergeLaid | kernel/src/memory/heap.cpp:20-52 | so it has after the stores of a merge |
| HeapMemory.CutQuiet | kernel/src/memory/heap.cpp:61-67 | after a split, what passes the checks of free is still a segment in use or an old header under a newer one, and magic numbers are lost under headers only |
| HeapMemory.MergeQuiet | kernel/src/memory/heap.cpp:20-52 | the same after a merge, which loses no magic number |
| KernelHeap.Heap.constructor | kernel/src/memory/heap.cpp:88-119 | the heap begins as one free segment over the pages that could be mapped, with no other header in memory |
| KernelHeap.Heap.Split | kernel/src/memory/heap.cpp:56-85 | header, links both ways and the end of the list after a split |
| KernelHeap.Heap.MergeForwards | kernel/src/memory/heap.cpp:20-32 | the same after a merge with the next segment |
| KernelHeap.Heap.MergeBackwards | kernel/src/memory/heap.cpp:35-52 | the same after a merge into the previous segment |
| KernelHeap.Heap.ExpandHeap | kernel/src/memory/heap.cpp:123-147 | the loop over pages and the split of what a segment in use has gained |
| KernelHeap.Heap.FindFreeSegment | kernel/src/memory/heap.cpp:159-181 | the first free segment with room, cut to size, or null |
| KernelHeap.Heap.Malloc | kernel/src/memory/heap.cpp:183-209 | the list in memory makes the step of malloc and the answer is its pointer, heap_used included; the memory stays quiet |
| KernelHeap.Heap.HeldGenuine | kernel/src/memory/heap.cpp:215-218 | null and blocks that are held may always be freed |
| KernelHeap.Heap.Free | kernel/src/memory/heap.cpp:212-243 | unless bytes that are no header in use pass its checks, free makes its step on the list in memory, heap_used included, ignores what the checks reject, and ignores the same pointer right afterwards |
| KernelHeap.Heap.StaleIff | kernel/src/memory/heap.cpp:215-227 | while the callers write nothing, a pointer that is not held passes the checks iff an old header is in front of it, another lies over that 16 bytes further on, and the next pointer of that one ends in a zero byte |
| PciTopology.WalkFindsAll | kernel/src/pci.cpp:66-121 | a function is met iff its bus is reached, function 0 of its device is present, it is function 0 or the device is multi-function, and it is present |
| PciTopology.BridgeSlotIs | kernel/src/pci.cpp:66-115 | which bytes make a bridge that is entered: header type 0x01 or 0x81, identifiers besides 0 and 0xFFFF, bit 7 of function 0 for functions 1 to 7 |
| PciTopology.OnceIff | kernel/src/pci.cpp:82-86 | each function is met once iff no two reached bridges lead to the same occupied bus |
| PciTermination.EndsIff | kernel/src/pci.cpp:82-121 | the recursion ends iff no chain of bridges meets a bus twice, iff it ends within 256 levels |
| PciTermination.RankedIff | kernel/src/pci.cpp:82-121 | it ends iff the buses can be ranked with every bridge leading down, the assumption of the results about the order |
| PciTermination.UnconfiguredNeverEnds | kernel/src/pci.cpp:82-86 | a bridge on bus 0 with secondary bus 0 makes the recursion endless |
| PciTermination.AscendingSound | kernel/src/pci.cpp:82-86 | bridges that lead to higher bus numbers are ranked, whatever else the configuration space holds |
| PciTopology.BridgeOrder | kernel/src/pci.cpp:82-91 | at every visit of a bridge all that lies behind it follows at once in the list and has just passed in the driver calls |
| PciTopology.BridgeSide | kernel/src/pci.cpp:82-91 | without repetition a bridge stands before everything behind it in the list and after it in the driver calls |
| PciTopology.DepthFirst | kernel/src/pci.cpp:112-121 | in every visit of a bus a function and everything behind it come before the functions in later slots and everything behind those |
| PciTopology.SlotSide | kernel/src/pci.cpp:112-121 | without repetition this orders any two functions behind different slots of a bus |
| PciTopology.SameFunctions | kernel/src/pci.cpp:82-91 | list and driver calls are permutations of each other |
| PciEnumeration.Pci.CreateDeviceDescriptor | kernel/src/pci.cpp:47-64 | the descriptor is appended at the end of the linked list |
| PciEnumeration.Pci.EnumerateFunction | kernel/src/pci.cpp:66-92 | identifiers 0 and 0xFFFF are passed over; with header type 0x01 or 0x81 the walk of the secondary bus follows the function in the list and precedes it in the driver calls; any other function is recorded alone |
| PciEnumeration.Pci.EnumerateDevice | kernel/src/pci.cpp:94-115 | one or eight functions of a present device |
| PciEnumeration.Pci.EnumerateBus | kernel/src/pci.cpp:117-121 | list and driver calls grow by the two depth-first walks of the bus |
| PciEnumeration.EnumeratePci | kernel/src/pci.cpp:117-146 | discovery from bus 0 lists exactly the present functions on buses reached, each once iff no two bridges lead to the same occupied bus, and looks for a driver as often as it lists a function; membership and order also in terms of the bytes read |
| PciEnumeration.ListedRaw | kernel/src/pci.cpp:66-121 | a function is listed iff its bus is 0 or the secondary bus of a listed function with header type 0x01 or 0x81, its identifier is neither 0 nor 0xFFFF, and it is function 0 or function 0 of its device is listed with bit 7 set |
| PciEnumeration.WalkOrdered | kernel/src/pci.cpp:82-121 | without repetition the functions of a bus stand in order of device and function number, with the bridge to it before them in the list and behind them in the driver calls |
| PciEnumeration.UsualNumbering | kernel/src/pci.cpp:82-121 | ascending and distinct secondary bus numbers are enough for both |
| PciBar.LatchStable | kernel/src/pci.cpp:218-224 | writing back what was read restores the register |
| PciBar.ProbeAnswers | kernel/src/pci.cpp:218-230 | the answer of the probe for every register: 2^k bytes, or 0 from 4 GiB on |
| PciBar.MemorySize | kernel/src/pci.cpp:214-231 | the probe answers the number of bytes a 32-bit memory BAR decodes |
| PciBar.Device.BarSize | kernel/src/pci.cpp:214-231 | probe and restoration in place, all registers unchanged in the end |
| PciBar.PageTable.MapRegion | kernel/src/pci.cpp:253-256 | the mapping loop, its 32-bit counter included |
| PciBar.ProgrammedIff | kernel/src/pci.cpp:243-249 | every memory register holds exactly one base address: below 2^32 with its type bits, or with type 2 in two halves |
| PciBar.PageTable.GetDeviceBar | kernel/src/pci.cpp:233-259 | a port number, or, for the base address B programmed below 2^32 or 2^64, the address mmio_base + B with exactly the pages of B's region mapped there and no other mapping changed |
| PciBar.RegionPages | kernel/src/pci.cpp:253-256 | the number of pages mapped for every register |
| PciBar.RegionMapped | kernel/src/pci.cpp:253-256 | exactly the 2^k / 4096 pages of the region are mapped at a constant offset and no other mapping changes |
| PciBar.RegionIs | kernel/src/pci.cpp:253-256 | for every register what is mapped is the region it decodes, offset by offset, and nothing from 4 GiB on |
| PciNames.WindowsDisjoint | kernel/src/pci.cpp:39-42 | configuration windows of different functions are disjoint and within 256 MiB |
| PciNames.AddressDecodes | kernel/src/pci.cpp:39-42 | the offset of a window divided by 1 MiB, 32 KiB and 4 KiB gives back bus, device and function |
| PciNames.FormatPath | kernel/src/pci.cpp:176 | the buffer holds the whole path as a C string |
| PciNames.DevicePaths | kernel/src/pci.cpp:158-186 | the walk over the descriptor list formats the path of every function listed, in order |
| PciNames.PathsDistinctIff | kernel/src/pci.cpp:158-186 | the paths of all discovered functions differ iff no two bridges lead to the same occupied bus |
| Random.NextOneToOne | kernel/src/random.cpp:14-21 | different states have different successors |
| Random.NextOnto | kernel/src/random.cpp:14-21 | every state has a predecessor |
| Random.RunBegins | kernel/src/random.cpp:7-21 | a run starts with its seed, or with 1 for the seed 0, and every step is the three shifts |
| Random.NeverZero | kernel/src/random.cpp:7-21 | from any seed the state is never zero |
| Random.RunsCycle | kernel/src/random.cpp:14-21 | a run that repeats a state repeats its first one |
| Random.FiveDraws | kernel/src/random.cpp:33 | one of five consecutive draws has a nonzero low byte |
| Random.FourDrawsFail | kernel/src/random.cpp:33 | a state from which four draws do not suffice |
| Random.Generator.Draw | kernel/src/random.cpp:14-21 | the state advances in place and is returned |
| Random.Generator.DrawByte | kernel/src/random.cpp:32-33 | the retry loop ends with a nonzero byte |
| Random.Generator.RandomString | kernel/src/random.cpp:27-39 | for every length up to 255 the buffer of 257 holds the digits of the drawn bytes, cut to the length |
| Random.BytesAre | kernel/src/random.cpp:31-36 | the bytes drawn are the low bytes of successive draws that are not zero, none left out |
| Random.RandomTextReads | kernel/src/random.cpp:31-38 | each two digits denote one byte drawn in base 16, and an odd length ends with the high digit of the last one |
| Random.RandomTextIs | kernel/src/random.cpp:31-36 | exactly the length asked for, upper-case hexadecimal digits only |
| BitFinders.LastBitIs | kernel/include/acpica/acmacros.h:379-399 | the halving finder returns the position of the highest set bit, 0 for 0 |
| BitFinders.FirstBitIs | kernel/include/acpica/acmacros.h:401-421 | the same for the lowest set bit |
| BitFinders.RoundUpIff | kernel/include/acpica/acmacros.h:427-436 | the least power of two from the argument on iff it fits the type, else 0 |
| BitFinders.RoundDownIs | kernel/include/acpica/acmacros.h:429-438 | the greatest power of two up to the argument |
| Counterexamples.HalfPrefixFails | kernel/src/printf.c:254-265 | `%#.31x` of 1 reads 0 in base 16 and with base detection |
| Counterexamples.BinaryPrefixFails | kernel/src/printf.c:258-260 | `%#b` of 1 reads 0 in base 2 |
| Counterexamples.WidthTakesDigits | kernel/src/printf.c:247-253 | `%#2x` of 0x12 does not read back |
| Counterexamples.WidthTakesOctalDigit | kernel/src/printf.c:247-253 | `%#2o` of 8 does not read back |
| Counterexamples.ZeroPaddingReadsOctal | kernel/src/cstr.cpp:417-432 | `%05d` of 42 reads 34 with base detection |
| Counterexamples.SignGone | kernel/src/printf.c:268-278 | `%040d` of -1 loses its sign |
| Counterexamples.PointerTruncated | kernel/src/printf.c:247-253 | `%#p` of a pointer with 15 digits does not read back |
| Counterexamples.HigherHalfPointer | kernel/src/cstr.cpp:433-444 | `%p` of 0xFFFFFFFF80000000 does not read back |
| Counterexamples.LongStringPadded | kernel/src/printf.c:800-824 | a string of 2^32 characters is padded although it is longer than its width |
| Counterexamples.WrappedResult | kernel/include/printf.h:80-82 | `%4294967295sxx` of an empty string returns 1, so count 2 is taken for enough |
| Counterexamples.SharedBusTwice | kernel/src/pci.cpp:82-86 | with two bridges to one occupied bus discovery ends and lists a function twice |
| Counterexamples.HugeRequest | kernel/src/memory/heap.cpp:186 | asked for all but one byte of the address space, malloc answers with a block of no bytes |
| Counterexamples.StaleFree | kernel/src/memory/heap.cpp:215-240 | malloc(16) and malloc(16), both freed, then malloc(32): the second pointer would pass the checks again, with the magic number of the new header as its next segment |

## Left out

- Floating point: `%f`, `%e`, `%g`, `toString(double)` and `math.cpp`; they rest on IEEE rounding. A format that uses them is not `Defined`.
- printf_ and vprintf_: their output function ends in an empty stub; `sprintf_` is `snprintf_` with an unlimited count.
- Printf.PrintDirective: the floating-point specifiers are excluded, as is an argument of the wrong kind, which C leaves undefined.
- Printf.Snprintf: formats and texts are shorter than 2^64 characters, as they are in memory, and the variable argument list is a sequence of 64-bit slots or strings, as on x86-64.
- Printf.PrintAll: nothing is stated about calls C leaves undefined (a format that ends inside a directive, missing or mismatched arguments, the most negative `int` or `long`).
- Kstrtol.Parse: a magnitude beyond `long` overflows in the source, so it is required to fit.
- ToString.FromSigned: the most negative value is excluded, its negation overflows.
- The `toHString` overloads for 16, 32 and 64 bits run their loops over more bytes than the value has and index below their buffers.
- KernelMemory.Memcpy: regions that overlap with the destination above the source are excluded, as the C standard excludes them.
- KernelMemory.MoveChunked: the scalar, SSE, AVX and AVX-512 bodies differ only in the width of one load and store, which is a parameter; a load-store pair is one step.
- Strtok.Tokenize: pointers are indices into one array, and the delimiter sets do not lie in the string being cut.
- EventRing.EventNode.Read: what happens while a blocked reader waits is not modelled; the scheduler is not part of this model and no liveness is claimed. The critical sections under the lock are atomic steps.
- HeapCalls.RunGood: a run that frees a pointer that is neither null nor held is undefined in C and excluded; `KernelHeap.Heap.StaleIff` says which of them the code ignores.
- KernelHeap.Heap.Free: pointers are multiples of 16, as malloc returns them. When bytes pass the checks that are no header of a segment in use, an old header as in `Counterexamples.StaleFree` or a forgery in a caller's own block, nothing is stated about what follows.
- KernelHeap.Heap.constructor: a heap for which no page at all can be mapped is excluded; the source then stores a header at an address without memory, of size 0 - 48.
- KernelHeap.Heap.FindFreeSegment: the repair of links below HEAP_BASE (`fix_corrupted_stack`) is never entered, since no link of a chain points there; the magic number that the merges look for in a neighbour of the list is always there.
- KernelHeap.Heap.ExpandHeap: the frame allocator is the number of frames it has left, all of which would fit behind the heap; page tables and the lock, under which each call is one step, are not modelled.
- PciEnumeration.Pci.EnumerateBus: descriptors are recorded, as `CONFIG.h` configures; the configuration space does not change during discovery; the page mapping of each header and what drivers do when they are called are not modelled.
- Several MCFG allocations: each starts at bus 0 and descriptors carry no segment, so repetition between segments is not considered.
- PciBar.PageTable.MapRegion: the page table is a map; cache flags are not modelled.
- PciNames.DevicePaths: the file system, its directories, taken to be there, and the copy of the header are not part of this model.
- `memcmp`, `strcpy`, `strncpy`, `strncat`, `strchr`, `strdup`, `random(max)` and the character tests would only add easy members.
- Boot code, inline assembly, port I/O, ACPI tables and the rest of ACPICA: input and output, or declarations.

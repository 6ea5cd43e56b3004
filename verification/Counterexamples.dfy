/** Concrete calls on which the code does less than one would expect. Each lies outside the
    condition that the general result of its module gives. */
module Counterexamples {
  import opened Machine
  import opened Numerals
  import opened PrintfSpec
  import opened PrintfComposition
  import opened Directives
  import opened Kstrtol
  import opened RoundTrip
  import opened AutoBase
  import opened HashRoundTrip
  import HeapCalls
  import HeapChain
  import HeapMemory
  import KernelHeap
  import Printf
  import PciEnumeration
  import PciTopology
  import PciTermination
  import PrintfLaws

  // ---------------------------------------------------------------- spellings

  function Plain(conv: char): Directive {
    Directive(NO_FLAGS, 0, 0, IntLength, conv)
  }

  function Hash(conv: char): Directive {
    Directive(NO_FLAGS.(hash := true), 0, 0, IntLength, conv)
  }

  lemma OneDigitText(n: U32)
    requires 0 < n < 10
    ensures NumberText(n) == [DigitChar(n, false)]
  {
    SmallMod(n, 10);
  }

  lemma TwoDigitText(n: U32)
    requires 10 <= n < 100
    ensures NumberText(n) == [DigitChar(n / 10, false), DigitChar(n % 10, false)]
  {
    SmallMod(n / 10, 10);
    assert Digits(n / 10, 10, BUFFER_SIZE - 1, false) == [DigitChar(n / 10, false)];
  }

  /** A one-directive integer format reads back as `v` in `base`. */
  ghost predicate ReadsBack(fmt: string, v: int, base: int) {
    exists t :: Prints(fmt, [Num(ToU64(v))], t) && ReadsAs(t, base, v)
  }

  /** What a format prints is one text, so one failing text settles the matter. */
  lemma DoesNotReadBack(fmt: string, d: Directive, v: int, base: int)
    requires Spellable(d) && fmt == "%" + Spelling(d) && IsInteger(d.conv)
    requires ArgValue(d, ToU64(v)) == v && Negatable(d, v) && !ReadsAs(IntegerConversion(d, v), base, v)
    ensures Prints(fmt, [Num(ToU64(v))], IntegerConversion(d, v)) && !ReadsBack(fmt, v, base)
  {
    IntegerPrints(d, Spelling(d), ToU64(v));
  }

  lemma SmallArgument(d: Directive, v: nat)
    requires v < 0x80 && IsInteger(d.conv)
    ensures ArgValue(d, ToU64(v)) == v && Negatable(d, v)
  {
    SmallMod(v, TWO64);
    SmallMod(v, TypeModulus(d.length));
  }

  // ---------------------------------------------------------------- printing and reading

  lemma HalfPrefixSpelled() returns (d: Directive)
    ensures Spellable(d) && "%" + Spelling(d) == "%#.31x"
    ensures d.conv == 'x' && IsHashed(d) && HalfPrefix(d)
  {
    d := Hash('x').(flags := NO_FLAGS.(hash := true, precision := true), precision := 31);
    FlagTextIs(d.flags);
    TwoDigitText(31);
  }

  /** `%#.31x` of 1: only the letter of the prefix fits. */
  lemma HalfPrefixFails()
    ensures !ReadsBack("%#.31x", 1, 16) && !ReadsBack("%#.31x", 1, 0)
  {
    var d := HalfPrefixSpelled();
    SmallArgument(d, 1);
    HexRoundTrip(d, ToU64(1));
    DoesNotReadBack("%#.31x", d, 1, 16);
    DoesNotReadBack("%#.31x", d, 1, 0);
  }

  lemma HashSpelled(conv: char, width: U32) returns (d: Directive)
    requires conv in {'x', 'o', 'b'} && width < 10
    ensures Spellable(d) && "%" + Spelling(d) == "%#" + NumberText(width) + [conv]
    ensures d.conv == conv && IsHashed(d) && !d.flags.precision && !d.flags.zero && d.width == width
  {
    d := Hash(conv).(width := width);
    FlagTextIs(d.flags);
  }

  /** `%#b` of 1: base 2 stops at the `b`. */
  lemma BinaryPrefixFails()
    ensures !ReadsBack("%#b", 1, 2)
  {
    var d := HashSpelled('b', 0);
    SmallArgument(d, 1);
    BinaryRoundTrip(d, ToU64(1));
    DoesNotReadBack("%#b", d, 1, 2);
  }

  lemma Width2Spelled(conv: char) returns (d: Directive)
    requires conv == 'x' || conv == 'o'
    ensures Spellable(d) && "%" + Spelling(d) == ['%', '#', '2', conv]
    ensures d.conv == conv && IsHashed(d) && !d.flags.precision && !d.flags.zero && d.width == 2
  {
    OneDigitText(2);
    d := HashSpelled(conv, 2);
  }

  /** `%#2x` of 0x12: the prefix replaces both digits. */
  lemma WidthTakesDigits()
    ensures !ReadsBack("%#2x", 0x12, 16)
  {
    var d := Width2Spelled('x');
    assert DigitCount(0x12, 16) == 2;
    SmallArgument(d, 0x12);
    HexRoundTrip(d, ToU64(0x12));
    DoesNotReadBack("%#2x", d, 0x12, 16);
  }

  /** `%#2o` of 8: the prefix replaces the first digit. */
  lemma WidthTakesOctalDigit()
    ensures !ReadsBack("%#2o", 8, 8)
  {
    var d := Width2Spelled('o');
    assert DigitCount(8, 8) == 2;
    SmallArgument(d, 8);
    OctalRoundTrip(d, ToU64(8));
    DoesNotReadBack("%#2o", d, 8, 8);
  }

  lemma ZeroSpelled(width: U32) returns (d: Directive)
    ensures Spellable(d) && "%" + Spelling(d) == "%0" + NumberText(width) + "d"
    ensures d.conv == 'd' && d.length == IntLength && d.width == width && d.precision == 0
    ensures d.flags == NO_FLAGS.(zero := true)
  {
    d := Plain('d').(flags := NO_FLAGS.(zero := true), width := width);
    FlagTextIs(d.flags);
  }

  lemma ZeroTwoDigits(width: U32, text: string) returns (d: Directive)
    requires 10 <= width < 100 && text == [DigitChar(width / 10, false), DigitChar(width % 10, false)]
    ensures Spellable(d) && "%" + Spelling(d) == "%0" + text + "d"
    ensures d.conv == 'd' && d.length == IntLength && d.width == width && d.precision == 0
    ensures d.flags == NO_FLAGS.(zero := true)
  {
    TwoDigitText(width);
    d := ZeroSpelled(width);
  }

  lemma Zero5Spelled() returns (d: Directive)
    ensures Spellable(d) && "%" + Spelling(d) == "%05d"
    ensures d.conv == 'd' && d.length == IntLength && d.width == 5 && d.precision == 0
    ensures d.flags == NO_FLAGS.(zero := true)
  {
    OneDigitText(5);
    d := ZeroSpelled(5);
  }

  lemma Zero40Spelled() returns (d: Directive)
    ensures Spellable(d) && "%" + Spelling(d) == "%040d"
    ensures d.conv == 'd' && d.length == IntLength && d.width == 40 && d.precision == 0
    ensures d.flags == NO_FLAGS.(zero := true)
  {
    d := ZeroTwoDigits(40, "40");
  }

  /** `%05d` of 42: base detection takes 00042 for octal. */
  lemma ZeroPaddingReadsOctal()
    ensures !ReadsBack("%05d", 42, 0)
  {
    var d := Zero5Spelled();
    SmallArgument(d, 42);
    assert DigitCount(42, 10) == 2;
    DecimalAutoRoundTrip(d, ToU64(42));
    DoesNotReadBack("%05d", d, 42, 0);
  }

  lemma MinusOne(d: Directive)
    requires d.conv == 'd' && d.length == IntLength
    ensures ArgValue(d, ToU64(-1)) == -1 && Negatable(d, -1)
  {
    ModUnique(-1, TWO64, -1, TWO64 - 1);
    ModUnique(TWO64 - 1, TWO32, TWO32 - 1, TWO32 - 1);
  }

  /** `%040d` of -1: zeros fill the buffer and the sign is gone. */
  lemma SignGone()
    ensures !ReadsBack("%040d", -1, 10)
  {
    var d := Zero40Spelled();
    MinusOne(d);
    DecimalRoundTrip(d, ToU64(-1));
    DoesNotReadBack("%040d", d, -1, 10);
  }

  /** `%#p` of a pointer of 15 digits: the width of 16 takes one. */
  lemma PointerTruncated()
    ensures !ReadsAs(PointerConversion(Hash('p'), 0x100_0000_0000_0000), 16, 0x100_0000_0000_0000)
  {
    FifteenDigits();
    PointerRoundTrip(Hash('p'), 0x100_0000_0000_0000);
  }

  /** `%p` of a kernel address: the parser's `long` overflows before its digits are read. */
  lemma HigherHalfPointer()
    ensures !ReadsAs(PointerConversion(Plain('p'), 0xFFFF_FFFF_8000_0000), 16, 0xFFFF_FFFF_8000_0000)
  {
    PointerReads(Plain('p'), 0xFFFF_FFFF_8000_0000);
  }

  lemma FifteenDigits()
    ensures DigitCount(0x100_0000_0000_0000, 16) == 15
  {
    PowAdd(16, 4, 4);
    PowAdd(16, 8, 6);
    assert Pow(16, 4) == 0x1_0000 && Pow(16, 6) == 0x100_0000;
    CountIs(0x100_0000_0000_0000, 16, 15);
  }

  lemma CountIs(v: nat, base: nat, n: nat)
    requires 2 <= base && 0 < n && Pow(base, n - 1) <= v < Pow(base, n)
    ensures DigitCount(v, base) == n
  {
    DigitCountIs(v, base);
    var m := DigitCount(v, base);
    if n < m {
      PowMonotone(base, n, m - 1);
    } else if m < n {
      PowMonotone(base, m, n - 1);
    }
  }

  // ---------------------------------------------------------------- lengths that wrap around

  /** A string of 4 GiB in a field of width 1: its length reads as 0, so a blank is added. */
  lemma LongStringPadded(s: CString)
    requires |s| == TWO32
    ensures |StringConversion(Plain('s').(width := 1), s)| == TWO32 + 1
  {
    assert Clipped(Plain('s').(width := 1), s) == s;
  }

  lemma WidestText()
    ensures NumberText(TWO32 - 1) == "4294967295"
  {
    var s := "4294967295";
    assert Digits(4, 10, 23, false) == s[..1];
    assert Digits(42, 10, 24, false) == s[..2];
    assert Digits(429, 10, 25, false) == s[..3];
    assert Digits(4294, 10, 26, false) == s[..4];
    assert Digits(42949, 10, 27, false) == s[..5];
    assert Digits(429496, 10, 28, false) == s[..6];
    assert Digits(4294967, 10, 29, false) == s[..7];
    assert Digits(42949672, 10, 30, false) == s[..8];
    assert Digits(429496729, 10, 31, false) == s[..9];
  }

  lemma WidestSpelled() returns (d: Directive)
    ensures Spellable(d) && "%" + Spelling(d) == "%4294967295s"
    ensures d.conv == 's' && d.width == TWO32 - 1 && !d.flags.precision && !d.flags.left
  {
    d := Plain('s').(width := TWO32 - 1);
    FlagTextIs(d.flags);
    WidestText();
  }

  lemma EmptyPadded(d: Directive)
    requires d.conv == 's' && !d.flags.precision && !d.flags.left
    ensures ConvertArgument(d, Str(0, "")) == Text(StringConversion(d, "")) && |StringConversion(d, "")| == d.width
  {
    ToU32Small(0);
  }

  lemma WrappedPrints() returns (t: string)
    ensures Prints("%4294967295sxx", [Str(0, "")], t) && |t| == TWO32 + 1
  {
    var d := WidestSpelled();
    EmptyPadded(d);
    SpelledPrints(d, Spelling(d), Str(0, ""), StringConversion(d, ""));
    LiteralPrints("xx");
    PrintsConcat("%" + Spelling(d), "xx", [Str(0, "")], [], StringConversion(d, ""), "xx");
    assert ("%" + Spelling(d)) + "xx" == "%4294967295sxx" && [Str(0, "")] + [] == [Str(0, "")];
    t := StringConversion(d, "") + "xx";
  }

  lemma WrappedAt(fmt: CString, args: seq<Arg>, t: string)
    requires Prints(fmt, args, t) && |t| == TWO32 + 1
    ensures Defined(fmt, args) && |Output(fmt, args)| == TWO32 + 1 && Printf.Result(fmt, args) == 1
    ensures PrintfLaws.Claimed(fmt, args, 2) && !PrintfLaws.Whole(fmt, args, 2)
  {
    ModUnique(TWO32 + 1, TWO32, 1, 1);
  }

  /** The widest empty string and two characters: 2^32 + 1 characters, and the result is 1. A
      caller with room for 2 is told that everything was written. */
  lemma WrappedResult(fmt: CString, args: seq<Arg>)
    requires fmt == "%4294967295sxx" && args == [Str(0, "")]
    ensures Defined(fmt, args) && |Output(fmt, args)| == TWO32 + 1 && Printf.Result(fmt, args) == 1
    ensures PrintfLaws.Claimed(fmt, args, 2) && !PrintfLaws.Whole(fmt, args, 2)
  {
    var t := WrappedPrints();
    WrappedAt(fmt, args, t);
  }

  // ---------------------------------------------------------------- discovery

  /** Two bridges on bus 0 that both lead to bus 1, where there is one function. */
  function SharedBus(): PciTopology.Config {
    x => if x == PciTopology.Bdf(0, 0, 0) || x == PciTopology.Bdf(0, 1, 0) then PciTopology.Header(1, 1, 1)
         else if x == PciTopology.Bdf(1, 0, 0) then PciTopology.Header(1, 0, 0)
         else PciTopology.Header(0, 0, 0)
  }

  lemma SharedBusTwoWays()
    ensures !PciTermination.OneBridgeEach(SharedBus(), 0)
  {
    var c := SharedBus();
    assert PciTopology.AtSlot(0, 0) == PciTopology.Bdf(0, 0, 0) && PciTopology.AtSlot(0, 8) == PciTopology.Bdf(0, 1, 0);
    assert PciTopology.AtSlot(1, 0) == PciTopology.Bdf(1, 0, 0);
    assert PciTopology.BridgeSlot(c, 0, 0) && PciTopology.BridgeSlot(c, 0, 8);
    assert PciTopology.Visible(c, PciTopology.AtSlot(1, 0));
    assert PciTermination.Chain(c, [0]) && [0][0] == 0 && [0][|[0]| - 1] == 0;
    assert PciTermination.Reaches(c, 0, 0);
  }

  lemma SharedBusEnds()
    ensures PciTermination.ByteBuses(SharedBus()) && !PciTermination.Loops(SharedBus(), 0)
  {
    var c := SharedBus();
    PciTermination.AscendingSound(c);
    var t := PciTermination.ByNumber(c);
    assert t.config == c && PciTopology.Sound(t) && 0 in t.buses;
    PciTermination.RankedIff(c, 0);
    PciTermination.EndsIff(c, 0);
  }

  /** The discovery ends, and lists a function twice. */
  method SharedBusTwice() returns (pci: PciEnumeration.Pci)
    ensures pci.Valid() && pci.config == SharedBus() && !PciTopology.NoDuplicates(pci.found)
  {
    SharedBusEnds();
    SharedBusTwoWays();
    pci := PciEnumeration.EnumeratePci(SharedBus());
  }

  // ---------------------------------------------------------------- the heap

  /** A heap of one page at `start`, with nothing handed out and no frames left. */
  function OnePage(start: nat): HeapCalls.State {
    HeapCalls.State([HeapChain.Hole(start, start + HeapChain.PAGE)], 0)
  }

  /** Asked for all but one byte of the address space, `malloc` answers with a block of no bytes. */
  lemma HugeRequest(start: nat)
    requires 0 < start
    ensures HeapCalls.Answer(OnePage(start), TWO64 - 1) == start + HeapChain.HEADER
    ensures HeapCalls.Fresh(OnePage(start), TWO64 - 1) == HeapChain.Block(start + HeapChain.HEADER, 0)
  {
    assert HeapCalls.Rounded(TWO64 - 1) == 0;
    assert HeapChain.FirstFit(OnePage(start).chain, 0, 0) == 0;
  }

  function Used(address: nat, size: nat): HeapChain.Segment {
    HeapChain.Segment(address, size, false)
  }

  function Unused(address: nat, size: nat): HeapChain.Segment {
    HeapChain.Segment(address, size, true)
  }

  lemma FitsLast(c: HeapChain.Chain, n: nat, i: nat)
    requires i + 1 == |c| && c[i].free && n <= c[i].size && forall k :: 0 <= k < i ==> !c[k].free
    ensures HeapChain.FirstFit(c, n, 0) == i
  {
    assert c[i].free && n <= c[i].size;
  }

  /** A request that the first free segment of a chain satisfies with space to spare. */
  lemma TakesFrom(s: HeapCalls.State, size: U64, n: U64, i: nat, front: HeapChain.Chain, free: HeapChain.Segment)
    requires s.chain == front + [free] && i == |front| && free.free && n + HeapChain.HEADER < free.size
    requires 0 < size && HeapCalls.Rounded(size) == n && forall k :: 0 <= k < i ==> !front[k].free
    ensures HeapCalls.Answer(s, size) == free.address + HeapChain.HEADER
    ensures HeapCalls.Malloc(s, size) == HeapCalls.State(front + [Used(free.address, n),
      Unused(free.address + HeapChain.HEADER + n, free.size - n - HeapChain.HEADER)], s.frames)
  {
    assert s.chain[i] == free && forall k :: 0 <= k < i ==> s.chain[k] == front[k];
    FitsLast(s.chain, n, i);
    HeapChain.TakeIs(s.chain, i, n);
  }

  /** A block handed out and freed at once is as if nothing had been. */
  lemma HandedBack(s: HeapCalls.State, size: U64, start: nat)
    requires HeapCalls.Good(s, start) && HeapChain.FirstFit(s.chain, HeapCalls.Rounded(size), 0) < |s.chain| && 0 < size
    ensures HeapCalls.Answer(s, size) != 0 && HeapCalls.Good(HeapCalls.Malloc(s, size), start)
    ensures HeapCalls.Free(HeapCalls.Malloc(s, size), HeapCalls.Answer(s, size)) == s
  {
    HeapCalls.MallocGood(s, start, size);
    HeapCalls.FreeUndoes(s, start, size);
  }

  /** The first call of the run below, and the last. */
  lemma FirstCalls(s: HeapCalls.State) returns (t: HeapCalls.State, v: HeapCalls.State)
    requires s == OnePage(0x1000)
    ensures t == HeapCalls.Malloc(s, 16) && v == HeapCalls.Malloc(s, 32)
    ensures HeapCalls.Answer(s, 16) == 0x1030 && HeapCalls.Answer(s, 32) == 0x1030
    ensures t == HeapCalls.State([Used(0x1000, 16)] + [Unused(0x1040, 3984)], 0)
    ensures v == HeapCalls.State([Used(0x1000, 32), Unused(0x1050, 3968)], 0)
    ensures HeapCalls.Good(t, 0x1000) && HeapCalls.Free(t, 0x1030) == s
  {
    var free := Unused(0x1000, 4048);
    assert s.chain == [] + [free];
    TakesFrom(s, 16, 16, 0, [], free);
    TakesFrom(s, 32, 32, 0, [], free);
    t, v := HeapCalls.Malloc(s, 16), HeapCalls.Malloc(s, 32);
    FitsLast(s.chain, 16, 0);
    HandedBack(s, 16, 0x1000);
  }

  lemma SecondCall(t: HeapCalls.State) returns (u: HeapCalls.State)
    requires t == HeapCalls.State([Used(0x1000, 16)] + [Unused(0x1040, 3984)], 0) && HeapCalls.Good(t, 0x1000)
    ensures u == HeapCalls.Malloc(t, 16) && HeapCalls.Answer(t, 16) == 0x1070 && HeapCalls.Free(u, 0x1070) == t
    ensures u.chain == [Used(0x1000, 16)] + [Used(0x1040, 16), Unused(0x1080, 3920)]
  {
    TakesFrom(t, 16, 16, 1, [Used(0x1000, 16)], Unused(0x1040, 3984));
    u := HeapCalls.Malloc(t, 16);
    FitsLast(t.chain, 16, 1);
    HandedBack(t, 16, 0x1000);
  }

  /** Two blocks are handed out and freed again. */
  method TwoFreed() returns (heap: KernelHeap.Heap, p: U64, q: U64)
    ensures fresh(heap) && heap.Valid() && heap.Quiet() && heap.State() == OnePage(0x1000) && p == 0x1030 && q == 0x1070
    ensures HeapMemory.HasMagic(heap.memory, 0x1040)
  {
    heap := new KernelHeap.Heap(0x1000, 0x1000, 0x1000, 1);
    ghost var t, v := FirstCalls(heap.State());
    ghost var u := SecondCall(t);
    p := heap.Malloc(16);
    q := heap.Malloc(16);
    heap.Neighbours(1);
    HeapMemory.MagicStands(heap.memory, 0x1040);
    heap.HeldGenuine(q);
    heap.Free(q);
    heap.HeldGenuine(p);
    heap.Free(p);
  }

  /** Then a longer one takes their place. A second `free` of the second pointer would get past
      the checks, and take the magic number of the new header for the link to the next segment. */
  method StaleFree() returns (heap: KernelHeap.Heap, p: U64, q: U64, r: U64)
    ensures heap.Valid() && p == r == 0x1030 && q == 0x1070 && HeapCalls.Find(heap.chain, q, 0) == |heap.chain|
    ensures !heap.Genuine(q)
    ensures HeapMemory.Load(heap.memory, q - HeapChain.HEADER + HeapMemory.NEXT) == HeapMemory.HEAP_MAGIC
  {
    heap, p, q := TwoFreed();
    ghost var t, v := FirstCalls(heap.State());
    ghost var m, c := heap.memory, heap.chain;
    r := heap.Malloc(32);
    NewHeader(heap, m, c);
  }

  /** The magic number at 0x1040 is still there, and a header stands at 0x1050. */
  lemma NewHeader(heap: KernelHeap.Heap, m: HeapMemory.Memory, c: HeapChain.Chain)
    requires heap.Valid() && heap.chain == [Used(0x1000, 32), Unused(0x1050, 3968)]
    requires HeapMemory.Quiet(m, c) && HeapMemory.HasMagic(m, 0x1040)
    requires HeapMemory.CalmBut(m, c, heap.memory, heap.chain)
    ensures !heap.Genuine(0x1070) && HeapCalls.Find(heap.chain, 0x1070, 0) == |heap.chain|
    ensures HeapMemory.Load(heap.memory, 0x1050) == HeapMemory.HEAP_MAGIC
  {
    heap.Neighbours(1);
    HeapMemory.MagicStands(heap.memory, 0x1050);
    assert !HeapMemory.Covered(heap.chain, 0x1040);
    heap.StaleIff(0x1070);
  }
}

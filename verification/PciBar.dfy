/** Base address registers: the probe that overwrites and restores a register to learn its
    size, and the mapping of the region it decodes. */
module PciBar {
  import opened Machine

  const BARS: nat := 6
  const PAGE: nat := 0x1000

  /** How a register answers writes: the low `k` bits are wired to `low`, the others store. A
      memory BAR of 2^k bytes has its type in the low four bits; an absent register has k = 32. */
  datatype Register = Register(k: nat, low: nat)

  predicate Wired(r: Register) {
    r.k <= 32 && r.low < Pow(2, r.k) && r.low < 16
  }

  /** What is stored when `w` is written. */
  function Latch(r: Register, w: U32): U32
    requires Wired(r)
  {
    LatchFits(r, w);
    w - w % Pow(2, r.k) + r.low
  }

  /** A 32-bit memory register decoding 2^k bytes. */
  predicate IsMemory(r: Register) {
    4 <= r.k <= 31 && r.low % 2 == 0
  }

  /** `(~(value & 0xFFFFFFF0)) + 1` in 32 bits. */
  function SizeFrom(value: U32): U32 {
    var mask := value - value % 16;
    ToU32(TWO32 - 1 - mask + 1)
  }

  lemma {:induction false} PowDivides(k: nat, n: nat)
    requires k <= n
    ensures Pow(2, n) % Pow(2, k) == 0 && Pow(2, n) / Pow(2, k) == Pow(2, n - k)
    ensures Pow(2, n) == Pow(2, k) * Pow(2, n - k)
    decreases k
  {
    if k > 0 {
      PowDivides(k - 1, n - 1);
      var a, b := Pow(2, k - 1), Pow(2, n - k);
      MulAssoc(2, a, b);
    }
    ModUnique(Pow(2, n), Pow(2, k), Pow(2, n - k), 0);
  }

  lemma Pow32()
    ensures Pow(2, 32) == TWO32 && Pow(2, 4) == 16 && Pow(2, 12) == PAGE && Pow(2, 31) == TWO31
  {
    assert Pow(2, 8) == 0x100;
    PowDivides(8, 16);
    PowDivides(16, 32);
    assert Pow(2, 32) == 2 * Pow(2, 31);
    PowDivides(8, 12);
  }

  lemma Complement(p: int, q: int)
    ensures p * q - 1 == (q - 1) * p + (p - 1)
  {
  }

  lemma LatchFits(r: Register, w: U32)
    requires Wired(r)
    ensures 0 <= w - w % Pow(2, r.k) + r.low < TWO32
  {
    var p, q := Pow(2, r.k), Pow(2, 32 - r.k);
    PowDivides(r.k, 32);
    Pow32();
    MultipleBelow(w, p, q);
  }

  lemma MultipleBelow(w: nat, p: nat, q: nat)
    requires 0 < p && w < p * q
    ensures 0 <= w - w % p && w - w % p + p <= p * q
  {
    var d := w / p;
    DivBound(w, p, q);
    MulLe(d + 1, q, p);
  }

  /** All ones come back as all ones above the wired bits. */
  lemma LatchOnes(r: Register)
    requires Wired(r)
    ensures Latch(r, TWO32 - 1) == TWO32 - Pow(2, r.k) + r.low
  {
    var p, q := Pow(2, r.k), Pow(2, 32 - r.k);
    PowDivides(r.k, 32);
    Pow32();
    Complement(p, q);
    ModUnique(TWO32 - 1, p, q - 1, p - 1);
  }

  /** What the probe answers: the size of a memory BAR, and 0 when not even the top bit of
      the register can be written (64-bit regions of 4 GiB or more, absent registers). */
  lemma ProbeAnswers(r: Register)
    requires Wired(r) && 4 <= r.k
    ensures SizeFrom(Latch(r, TWO32 - 1)) == if r.k <= 31 then Pow(2, r.k) else 0
  {
    Pow32();
    LatchOnes(r);
    var p := Pow(2, r.k);
    PowDivides(4, r.k);
    PowDivides(r.k, 32);
    var v := TWO32 - p + r.low;
    var q := TWO32 / 16 - Pow(2, r.k - 4);
    assert v == q * 16 + r.low;
    ModUnique(v, 16, q, r.low);
    if r.k <= 31 {
      PowDivides(r.k, 31);
      MulLe(1, Pow(2, 31 - r.k), p);
    }
  }

  /** A register with fewer wired bits than a memory BAR looks like one of 16 bytes. */
  lemma ProbeSmall(r: Register)
    requires Wired(r) && r.k < 4
    ensures SizeFrom(Latch(r, TWO32 - 1)) == 16
  {
    LatchOnes(r);
    PowDivides(r.k, 4);
    Pow32();
    MulLe(1, Pow(2, 4 - r.k), Pow(2, r.k));
    var v := Latch(r, TWO32 - 1);
    ModUnique(v, 16, TWO32 / 16 - 1, v - (TWO32 - 16));
  }

  lemma LowBits(w: int, p: nat, low: nat)
    requires low < p
    ensures (w - w % p + low) % p == low
  {
    ModUnique(w - w % p + low, p, w / p, low);
  }

  /** Restoring writes back what was read. */
  lemma LatchStable(r: Register, w: U32)
    requires Wired(r)
    ensures Latch(r, Latch(r, w)) == Latch(r, w)
  {
    LowBits(w, Pow(2, r.k), r.low);
  }

  // ---------------------------------------------------------------- the device

  /** The base address registers of a function: hardware that latches what is written. */
  class Device {
    const kinds: seq<Register>
    var bars: seq<U32>

    /** Every register is wired as its kind says and holds a value it can hold. */
    ghost predicate Valid()
      reads this
    {
      && |kinds| == |bars| == BARS
      && forall i :: 0 <= i < BARS ==> Wired(kinds[i]) && Latch(kinds[i], bars[i]) == bars[i]
    }

    constructor (kinds: seq<Register>, bars: seq<U32>)
      requires |kinds| == |bars| == BARS
      requires forall i :: 0 <= i < BARS ==> Wired(kinds[i]) && Latch(kinds[i], bars[i]) == bars[i]
      ensures Valid() && this.kinds == kinds && this.bars == bars
    {
      this.kinds, this.bars := kinds, bars;
    }

    /** A store to register `i`. */
    method Store(i: nat, w: U32)
      requires Valid() && i < BARS
      modifies this
      ensures Valid() && bars == old(bars)[i := Latch(kinds[i], w)]
    {
      LatchStable(kinds[i], w);
      bars := bars[i := Latch(kinds[i], w)];
    }

    method PhysicalAddress(bar: nat) returns (phys: U64)
      requires Valid() && bar < BARS
      ensures phys == Physical(bars, bar)
    {
      var bar0 := bars[bar];
      var bar1 := if bar + 1 < BARS then bars[bar + 1] else 0;
      phys := bar0 - bar0 % 16;
      if bar0 / 2 % 4 == 2 {
        phys := phys + bar1 * TWO32;
      }
    }

    /** `_get_bar_size`: overwrite, read, restore. */
    method BarSize(idx: nat) returns (size: U32)
      requires Valid()
      modifies this
      ensures Valid() && bars == old(bars)
      ensures size == if idx < 6 then ProbedSize(kinds[idx]) else 0
    {
      if idx >= BARS {
        return 0;
      }
      var original := bars[idx];
      Store(idx, TWO32 - 1);
      var mask := bars[idx];
      Store(idx, original);
      size := SizeFrom(mask);
    }
  }

  /** The physical address in a memory BAR; type 2 takes its upper half from the next register. */
  function Physical(bars: seq<U32>, bar: nat): U64
    requires bar < |bars|
  {
    var low := bars[bar] - bars[bar] % 16;
    if bars[bar] / 2 % 4 == 2 then low + (if bar + 1 < |bars| then bars[bar + 1] else 0) * TWO32 else low
  }

  function ProbedSize(r: Register): U32
    requires Wired(r)
  {
    SizeFrom(Latch(r, TWO32 - 1))
  }

  /** For every memory register the probe returns the number of bytes it decodes. */
  lemma MemorySize(r: Register)
    requires Wired(r) && IsMemory(r)
    ensures ProbedSize(r) == Pow(2, r.k)
  {
    ProbeAnswers(r);
  }

  // ---------------------------------------------------------------- mapping the region

  type PageMap = map<int, int>

  /** The address of page `i` of a region, as the 64-bit sum the loop computes. */
  function PageAt(base: int, i: nat): U64 {
    ToU64(base + PAGE * i)
  }

  /** The mapping of `n` consecutive pages at `virt` to those at `phys`. */
  function MapPages(pages: PageMap, virt: int, phys: int, n: nat): PageMap {
    if n == 0 then pages else MapPages(pages, virt, phys, n - 1)[PageAt(virt, n - 1) := PageAt(phys, n - 1)]
  }

  /** The number of loop turns for `size` bytes. */
  function PageCount(size: nat): nat {
    (size + PAGE - 1) / PAGE
  }

  lemma PageDistinct(virt: int, i: nat, j: nat)
    requires i < j < 0x10_0000
    ensures PageAt(virt, i) != PageAt(virt, j)
  {
  }

  /** Exactly the pages of the region are mapped, each to the physical page at the same
      offset, and every other mapping is as before. */
  lemma {:induction false} MapPagesAt(pages: PageMap, virt: int, phys: int, n: nat)
    requires n <= 0x10_0000
    ensures var m := MapPages(pages, virt, phys, n);
      && (forall i :: 0 <= i < n ==> PageAt(virt, i) in m && m[PageAt(virt, i)] == PageAt(phys, i))
      && (forall a :: (forall i :: 0 <= i < n ==> a != PageAt(virt, i)) ==>
            (a in m <==> a in pages) && (a in pages ==> m[a] == pages[a]))
  {
    if n > 0 {
      MapPagesAt(pages, virt, phys, n - 1);
      forall i | 0 <= i < n - 1 ensures PageAt(virt, i) != PageAt(virt, n - 1) {
        PageDistinct(virt, i, n - 1);
      }
    }
  }

  lemma PagesOf(k: nat)
    requires 4 <= k <= 31
    ensures PageCount(Pow(2, k)) == if k >= 12 then Pow(2, k - 12) else 1
    ensures 12 <= k ==> PageCount(Pow(2, k)) * PAGE == Pow(2, k)
    ensures PageCount(Pow(2, k)) <= 0x8_0000
  {
    Pow32();
    if 12 <= k {
      PowDivides(12, k);
      var n := Pow(2, k - 12);
      ModUnique(Pow(2, k) + PAGE - 1, PAGE, n, PAGE - 1);
      PowMonotone(2, k, 31);
    } else {
      PowMonotone(2, k, 12);
    }
  }

  /** A memory region of at least a page takes exactly its size in pages; a smaller one takes
      one page; a region whose probe answers 0 takes none. */
  lemma RegionPages(r: Register)
    requires Wired(r) && 4 <= r.k
    ensures PageCount(ProbedSize(r)) == if r.k > 31 then 0 else if r.k >= 12 then Pow(2, r.k - 12) else 1
    ensures 12 <= r.k <= 31 ==> PageCount(ProbedSize(r)) * PAGE == Pow(2, r.k)
    ensures PageCount(ProbedSize(r)) <= 0x8_0000
  {
    ProbeAnswers(r);
    if r.k <= 31 {
      PagesOf(r.k);
    }
  }

  /** Mapping a memory region of at least a page maps exactly its 2^k / 4096 pages, all at the
      same offset from the physical ones. */
  lemma RegionMapped(r: Register, pages: PageMap, virt: int, phys: int)
    requires Wired(r) && IsMemory(r) && 12 <= r.k
    ensures var n := Pow(2, r.k - 12);
      var m := MapPages(pages, virt, phys, PageCount(ProbedSize(r)));
      && n * PAGE == Pow(2, r.k)
      && (forall i :: 0 <= i < n ==> PageAt(virt, i) in m && m[PageAt(virt, i)] == PageAt(phys, i))
      && (forall a :: (forall i :: 0 <= i < n ==> a != PageAt(virt, i)) ==>
            (a in m <==> a in pages) && (a in pages ==> m[a] == pages[a]))
  {
    RegionPages(r);
    MapPagesAt(pages, virt, phys, PageCount(ProbedSize(r)));
  }

  /** The registers from `bar` on have been programmed with the base address `base` of a memory
      region: below 2^32 with the type bits in one register, or, with type 2, the lower half with
      the type bits and the upper half in the next register. */
  predicate Programmed(bars: seq<U32>, bar: nat, base: nat)
    requires bar < |bars|
  {
    && base % 16 == 0
    && (|| (base < 0x1_0000_0000 && bars[bar] - base in {0, 2, 6, 8, 10, 14})
        || (&& bars[bar] - base % 0x1_0000_0000 in {4, 12}
            && base / 0x1_0000_0000 == if bar + 1 < |bars| then bars[bar + 1] else 0))
  }

  /** There is exactly one such base for every memory register: the one whose pages are mapped. */
  lemma ProgrammedIff(bars: seq<U32>, bar: nat, base: nat)
    requires bar < |bars|
    ensures Programmed(bars, bar, base) <==> bars[bar] % 2 == 0 && base == Physical(bars, bar)
  {
    WideBase(bars[bar], if bar + 1 < |bars| then bars[bar + 1] else 0, base);
    NarrowBase(bars[bar], base);
  }

  lemma TypeBits(bar0: U32, low: nat)
    requires low == bar0 % 16
    ensures bar0 % 2 == 0 && bar0 / 2 % 4 == 2 <==> low == 4 || low == 12
    ensures bar0 % 2 == 0 && bar0 / 2 % 4 != 2 <==> low in {0, 2, 6, 8, 10, 14}
  {
    var q := bar0 / 16;
    ModUnique(bar0, 2, 8 * q + low / 2, low % 2);
    ModUnique(bar0 / 2, 4, 2 * q + low / 8, low / 2 % 4);
  }

  lemma TypeAdded(bar0: U32, half: nat, low: nat)
    requires half % 16 == 0 && low < 16
    ensures bar0 - half == low <==> bar0 % 16 == low && half == bar0 - low
  {
  }

  /** Halves and type bits, taken apart and put together. */
  lemma WideBase(bar0: U32, bar1: U32, base: nat)
    ensures base % 16 == 0 && base / TWO32 == bar1 && bar0 - base % TWO32 in {4, 12} <==>
      bar0 % 2 == 0 && bar0 / 2 % 4 == 2 && base == bar0 - bar0 % 16 + bar1 * TWO32
  {
    var half := base % TWO32;
    assert base % 16 == half % 16;
    TypeBits(bar0, bar0 % 16);
    if half % 16 == 0 {
      TypeAdded(bar0, half, 4);
      TypeAdded(bar0, half, 12);
    }
    assert base == bar0 - bar0 % 16 + bar1 * TWO32 <==> base / TWO32 == bar1 && half == bar0 - bar0 % 16;
  }

  lemma NarrowBase(bar0: U32, base: nat)
    ensures base % 16 == 0 && bar0 - base in {0, 2, 6, 8, 10, 14} <==>
      bar0 % 2 == 0 && bar0 / 2 % 4 != 2 && base == bar0 - bar0 % 16
  {
    TypeBits(bar0, bar0 % 16);
    if base % 16 == 0 && 0 <= bar0 - base < 16 {
      TypeAdded(bar0, base, bar0 - base);
    }
  }

  function Shifted(a: int, offset: int): U64 {
    (a + offset) % 0x1_0000_0000_0000_0000
  }

  /** `after` maps the `size` bytes at `virt`, page by page, to those at `phys`, and is otherwise
      the same as `before`. */
  ghost predicate MapsRegion(before: PageMap, after: PageMap, virt: int, phys: int, size: nat) {
    && (forall x: nat :: x < size && x % 0x1000 == 0 ==>
          Shifted(virt, x) in after && after[Shifted(virt, x)] == Shifted(phys, x))
    && (forall a :: (forall x: nat :: x < size && x % 0x1000 == 0 ==> a != Shifted(virt, x)) ==>
          (a in after <==> a in before) && (a in before ==> after[a] == before[a]))
  }

  lemma OffsetPage(x: nat, size: nat) returns (i: nat)
    requires x < size && x % 0x1000 == 0
    ensures i < PageCount(size) && x == PAGE * i
  {
    i := x / 0x1000;
  }

  lemma PageOffset(i: nat, size: nat)
    requires i < PageCount(size)
    ensures PAGE * i < size && PAGE * i % 0x1000 == 0
  {
  }

  /** Mapping whole pages is mapping the region. */
  lemma PagesMapRegion(pages: PageMap, virt: int, phys: int, size: nat)
    requires PageCount(size) <= 0x10_0000
    ensures MapsRegion(pages, MapPages(pages, virt, phys, PageCount(size)), virt, phys, size)
  {
    var n := PageCount(size);
    var m := MapPages(pages, virt, phys, n);
    MapPagesAt(pages, virt, phys, n);
    forall x: nat | x < size && x % 0x1000 == 0
      ensures Shifted(virt, x) in m && m[Shifted(virt, x)] == Shifted(phys, x)
    {
      var i := OffsetPage(x, size);
      assert Shifted(virt, x) == PageAt(virt, i) && Shifted(phys, x) == PageAt(phys, i);
    }
    forall a | forall x: nat :: x < size && x % 0x1000 == 0 ==> a != Shifted(virt, x)
      ensures (a in m <==> a in pages) && (a in pages ==> m[a] == pages[a])
    {
      forall i | 0 <= i < n ensures a != PageAt(virt, i) {
        PageOffset(i, size);
        assert PageAt(virt, i) == Shifted(virt, PAGE * i);
      }
    }
  }

  /** One page for sizes up to a page. */
  lemma ProbedPages(r: Register)
    requires Wired(r)
    ensures PageCount(ProbedSize(r)) <= 0x10_0000
    ensures PageCount(ProbedSize(r)) == if r.k <= 31 then PageCount(Pow(2, r.k)) else 0
  {
    Pow32();
    if r.k < 4 {
      ProbeSmall(r);
      PowMonotone(2, r.k, 4);
    } else {
      RegionPages(r);
      ProbeAnswers(r);
    }
  }

  /** What is mapped for a register is the region it decodes. */
  lemma RegionIs(r: Register, pages: PageMap, virt: int, phys: int)
    requires Wired(r)
    ensures var m := MapPages(pages, virt, phys, PageCount(ProbedSize(r)));
      if r.k <= 31 then MapsRegion(pages, m, virt, phys, Pow(2, r.k)) else m == pages
  {
    ProbedPages(r);
    if r.k <= 31 {
      PagesMapRegion(pages, virt, phys, Pow(2, r.k));
    }
  }

  /** What a call that answers `address` owes to the base address in the registers. */
  lemma BaseAnswered(bars: seq<U32>, bar: nat, r: Register, mmio_base: U64, before: PageMap, after: PageMap,
                     address: U64, phys: U64)
    requires bar < |bars| && Wired(r) && phys == Physical(bars, bar) && address == ToU64(mmio_base + phys)
    requires after == MapPages(before, address, phys, PageCount(ProbedSize(r)))
    ensures forall base: nat :: Programmed(bars, bar, base) ==>
      && address == (mmio_base + base) % 0x1_0000_0000_0000_0000
      && if r.k <= 31 then MapsRegion(before, after, address, base, Pow(2, r.k)) else after == before
  {
    RegionIs(r, before, address, phys);
    forall base: nat | Programmed(bars, bar, base) ensures base == phys {
      ProgrammedIff(bars, bar, base);
    }
  }

  /** No base address is programmed into an I/O register. */
  lemma NoBase(bars: seq<U32>, bar: nat)
    requires bar < |bars| && bars[bar] % 2 == 1
    ensures forall base: nat :: !Programmed(bars, bar, base)
  {
    forall base: nat ensures !Programmed(bars, bar, base) {
      ProgrammedIff(bars, bar, base);
    }
  }

  /** The kernel's page table and the start of its MMIO window. */
  class PageTable {
    const mmio_base: U64
    var pages: PageMap

    constructor (mmio_base: U64)
      ensures this.mmio_base == mmio_base && pages == map[]
    {
      this.mmio_base, this.pages := mmio_base, map[];
    }

    method MapMemory(virt: U64, phys: U64)
      modifies this
      ensures pages == old(pages)[virt := phys]
    {
      pages := pages[virt := phys];
    }

    /** The mapping loop; its 32-bit counter does not wrap for sizes up to 2^31. */
    method MapRegion(virt: U64, phys: U64, size: U32)
      requires size <= TWO31
      modifies this
      ensures pages == MapPages(old(pages), virt, phys, PageCount(size))
    {
      var i, n := 0, 0;
      while i < size
        invariant 0 <= n <= PageCount(size) && i == n * PAGE
        invariant pages == MapPages(old(pages), virt, phys, n)
        decreases PageCount(size) - n
      {
        MapMemory(ToU64(virt + i), ToU64(phys + i));
        i, n := ToU32(i + PAGE), n + 1;
      }
    }

    /** `get_device_bar`: an I/O port number, or the virtual address at which the region has
        been mapped. The registers end as they were. */
    method GetDeviceBar(device: Device, bar: nat) returns (address: U64)
      requires device.Valid()
      modifies this, device
      ensures device.Valid() && device.bars == old(device.bars)
      ensures bar > 5 ==> address == 0 && pages == old(pages)
      ensures bar <= 5 && device.bars[bar] % 2 == 1 ==>
        address == device.bars[bar] - device.bars[bar] % 4 && pages == old(pages)
      ensures bar <= 5 && device.bars[bar] % 2 == 0 ==>
        var phys := Physical(device.bars, bar);
        address == ToU64(mmio_base + phys) &&
        pages == MapPages(old(pages), address, phys, PageCount(ProbedSize(device.kinds[bar])))
      ensures bar <= 5 ==> forall base: nat :: Programmed(device.bars, bar, base) ==>
        && address == (mmio_base + base) % 0x1_0000_0000_0000_0000
        && if device.kinds[bar].k <= 31
           then MapsRegion(old(pages), pages, address, base, Pow(2, device.kinds[bar].k))
           else pages == old(pages)
    {
      if bar >= BARS {
        return 0;
      }
      var bar0 := device.bars[bar];
      if bar0 % 2 == 1 {
        NoBase(device.bars, bar);
        return bar0 - bar0 % 4;
      }
      ghost var before := pages;
      var size := device.BarSize(bar);
      var phys := device.PhysicalAddress(bar);
      address := ToU64(mmio_base + phys);
      SizeBound(device.kinds[bar]);
      MapRegion(address, phys, size);
      BaseAnswered(device.bars, bar, device.kinds[bar], mmio_base, before, pages, address, phys);
    }
  }

  lemma SizeBound(r: Register)
    requires Wired(r)
    ensures ProbedSize(r) <= TWO31
  {
    Pow32();
    if r.k < 4 {
      ProbeSmall(r);
    } else {
      ProbeAnswers(r);
      if r.k <= 31 {
        PowMonotone(2, r.k, 31);
      }
    }
  }
}

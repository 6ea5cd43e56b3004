/** The kernel heap in memory: a doubly linked list of headers, split and merged in place. */
module KernelHeap {
  import opened Machine
  import opened HeapChain
  import opened HeapMemory
  import HeapCalls

  lemma PagesStep(size: U64, frames: nat, k: nat)
    requires k <= HeapCalls.Pages(size, frames)
    ensures k < HeapCalls.Pages(size, frames) <==> PAGE * k < size && k < frames
  {
  }

  /** The heap of `k` pages as `InitializeHeap` leaves it. */
  lemma Initial(base: nat, end: nat, size: U64, frames: nat, m: Memory) returns (c: Chain)
    requires 0 < base && base % 16 == 0 && end % 16 == 0 && end == base + HEADER + size && end + PAGE * frames < TWO64
    requires m == Made(map[], base, size)
    ensures c == [Hole(base, end)] && c[0].address == base
    ensures ListAt(m, c, base, end, base) && HeapMemory.Quiet(m, c)
    ensures HeapCalls.Good(HeapCalls.State(c, frames), base) && Used(c) == 0
  {
    c := [Hole(base, end)];
    FirstHeader(base, size);
    HoleIs(base, end);
    assert Hole(base, end) == Segment(base, size, true);
  }

  lemma PagesAligned(base: nat, k: nat)
    requires base % 16 == 0
    ensures (base + PAGE * k) % 16 == 0
  {
    ModShift(base + PAGE * k, 256 * k, 16);
  }

  lemma SomePage(size: U64, frames: nat)
    requires 0 < size && 0 < frames
    ensures 1 <= HeapCalls.Pages(size, frames) <= frames
  {
  }

  lemma HeaderAligned(p: U64)
    requires p % 16 == 0
    ensures ToU64(p - HEADER) % 16 == 0
  {
  }

  lemma BlockAligned(a: nat, p: nat)
    requires a % 16 == 0 && p == a + HEADER
    ensures p % 16 == 0
  {
  }

  class Heap {
    /** HEAP_BASE. */
    const heap_base: U64
    var memory: Memory
    var heap_start: U64
    var heap_end: U64
    var last_heap_address: U64
    var heap_used: U64
    var heap_size: U64
    /** The page frames that the frame allocator has left. */
    var frames: nat
    ghost var chain: Chain

    /** The list in memory is the chain. */
    ghost predicate Linked()
      reads this
    {
      && 0 < heap_base <= heap_start && ListAt(memory, chain, heap_start, last_heap_address, heap_end)
      && heap_size == last_heap_address - heap_start
      && last_heap_address + PAGE * frames < TWO64
    }

    ghost function State(): HeapCalls.State
      reads this
    {
      HeapCalls.State(chain, frames)
    }

    /** `InitializeHeap`: one free segment over the pages it could map. */
    constructor (heap_base: U64, base_address: U64, size: U64, available: nat)
      requires 0 < heap_base <= base_address && base_address % 16 == 0 && 0 < size && 0 < available
      requires base_address + PAGE * available < TWO64
      ensures Valid() && Quiet() && this.heap_base == heap_base && heap_start == base_address
      ensures var k := HeapCalls.Pages(size, available);
        k <= available && State() == HeapCalls.State([Hole(base_address, base_address + PAGE * k)], available - k)
    {
      this.heap_base := heap_base;
      heap_start, heap_end, last_heap_address := base_address, base_address, base_address;
      heap_used, heap_size, frames := 0, 0, available;
      memory, chain := map[], [];
      new;
      MapPages(size);
      SomePage(size, available);
      PagesAligned(base_address, HeapCalls.Pages(size, available));
      memory := Made(map[], heap_start, heap_size - HEADER);
      chain := Initial(heap_start, last_heap_address, heap_size - HEADER, frames, memory);
    }

    /** The loop of `InitializeHeap`. */
    method MapPages(size: U64)
      requires heap_size == 0 && last_heap_address + PAGE * frames < TWO64
      modifies this`heap_size, this`last_heap_address, this`frames
      ensures var k := HeapCalls.Pages(size, old(frames));
        && k <= old(frames) && frames == old(frames) - k && heap_size == PAGE * k
        && last_heap_address == old(last_heap_address) + PAGE * k
    {
      var o: nat := 0;
      ghost var k: nat, n := 0, frames;
      PagesStep(size, n, 0);
      while o < size && 0 < frames
        invariant o == PAGE * k && k <= HeapCalls.Pages(size, n) && frames == n - k
        invariant heap_size == PAGE * k && last_heap_address == old(last_heap_address) + PAGE * k
        decreases frames
      {
        PagesStep(size, n, k);
        frames := frames - 1;
        last_heap_address := last_heap_address + PAGE;
        heap_size := heap_size + PAGE;
        o, k := o + PAGE, k + 1;
      }
      PagesStep(size, n, k);
    }

    ghost predicate Valid()
      reads this
    {
      Linked() && HeapCalls.Good(State(), heap_start) && heap_used == Used(chain)
    }

    /** The callers have written nothing that looks like a header. */
    ghost predicate Quiet()
      reads this
    {
      HeapMemory.Quiet(memory, chain)
    }

    /** What the header of segment `i` says and what its pointers point at. */
    lemma Neighbours(i: nat)
      requires Linked() && i < |chain|
      ensures heap_start <= chain[i].address && End(chain[i]) <= last_heap_address
      ensures var x := Read(memory, chain[i].address);
        && x.magic == HEAP_MAGIC && x.size == chain[i].size && x.flag == FlagBit(chain[i].free)
        && x.next == (if i < |chain| - 1 then chain[i + 1].address else 0)
        && x.previous == (if 0 < i then chain[i - 1].address else 0)
        && (i < |chain| - 1 ==> heap_base <= x.next && chain[i].address + HEADER <= x.next)
        && (i < |chain| - 1 ==> Load(memory, x.next + FREE) == FlagBit(chain[i + 1].free))
        && (0 < i ==> heap_base <= x.previous && x.previous + HEADER <= chain[i].address)
        && (0 < i ==> Load(memory, x.previous + FREE) == FlagBit(chain[i - 1].free))
      ensures heap_end == chain[i].address <==> i == |chain| - 1
    {
      Within(chain, heap_start, last_heap_address, i);
      Distinct(chain, heap_start, last_heap_address, i);
      assert Stands(memory, chain, i);
      if i < |chain| - 1 {
        assert Stands(memory, chain, i + 1);
        Within(chain, heap_start, last_heap_address, i + 1);
        Ordered(chain, heap_start, last_heap_address, i, i + 1);
      }
      if 0 < i {
        Ordered(chain, heap_start, last_heap_address, i - 1, i);
        assert Stands(memory, chain, i - 1);
        Within(chain, heap_start, last_heap_address, i - 1);
      }
    }

    /** The stores of `split` once there is enough space. */
    method Cut(at: U64, split_size: U64)
      requires at + split_size + 2 * HEADER <= at + HEADER + Load(memory, at + SIZE) < TWO64
      requires var far := Load(memory, at + NEXT); far == 0 || far >= heap_base
      requires CutApart(memory, at, at + split_size + HEADER)
      modifies this`memory, this`heap_end
      ensures memory == CutMemory(old(memory), at, at + split_size + HEADER, split_size,
                                  old(Load(memory, at + SIZE)) - (split_size + HEADER))
      ensures heap_end == if old(heap_end) == at then at + split_size + HEADER else old(heap_end)
    {
      var new_segment: U64 := at + split_size + HEADER;
      var rest: U64 := Load(memory, at + SIZE) - (split_size + HEADER);
      MadeIs(memory, new_segment, rest);
      var far := Load(memory, at + NEXT);
      memory := Made(memory, new_segment, rest);
      memory := memory[at + SIZE := split_size];
      memory := memory[new_segment + PREVIOUS := at];
      memory := memory[new_segment + NEXT := far];
      if far != 0 && far >= heap_base {
        memory := memory[far + PREVIOUS := new_segment];
      }
      memory := memory[at + NEXT := new_segment];
      if heap_end == at {
        heap_end := new_segment;
      }
    }

    /** `split` of segment `i`, the lock being held. */
    method Split(at: U64, split_size: U64, ghost i: nat)
      requires Linked() && i < |chain| && at == chain[i].address
      modifies this`memory, this`heap_end, this`chain
      ensures Linked() && chain == HeapChain.Split(old(chain), i, split_size)
      ensures split_size % 16 == 0 ==> CalmBut(old(memory), old(chain), memory, chain)
    {
      Neighbours(i);
      if split_size >= Load(memory, at + SIZE) {
        return;
      }
      if Load(memory, at + SIZE) - split_size <= HEADER {
        return;
      }
      ghost var was, c, made, rest := memory, chain, at + split_size + HEADER, chain[i].size - split_size - HEADER;
      SplitReady(was, c, heap_start, last_heap_address, heap_end, i, made);
      Cut(at, split_size);
      SplitStep(was, c, heap_start, last_heap_address, old(heap_end), i, split_size, made, rest, memory, heap_end);
      chain := HeapChain.Split(c, i, split_size);
    }

    /** The stores that both merges make: the segment at `at` takes over the one at `gone`. */
    method Absorb(at: U64, gone: U64)
      requires Load(memory, at + SIZE) + Load(memory, gone + SIZE) + HEADER < TWO64 && Apart48(at, gone)
      modifies this`memory, this`heap_end
      ensures memory == MergeMemory(old(memory), at,
        old(Load(memory, at + SIZE) + Load(memory, gone + SIZE) + HEADER), old(Load(memory, gone + NEXT)))
      ensures heap_end == if old(heap_end) == gone then at else old(heap_end)
    {
      memory := memory[at + SIZE := Load(memory, at + SIZE) + Load(memory, gone + SIZE) + HEADER];
      if heap_end == gone {
        heap_end := at;
      }
      var far := Load(memory, gone + NEXT);
      memory := memory[at + NEXT := far];
      if far != 0 {
        memory := memory[far + PREVIOUS := at];
      }
    }

    /** Segment `i` takes over the one behind it. */
    method MergeAt(at: U64, gone: U64, ghost i: nat)
      requires Linked() && i + 1 < |chain| && at == chain[i].address && gone == chain[i + 1].address
      modifies this`memory, this`heap_end, this`chain
      ensures Linked() && chain == Merge(old(chain), i)
      ensures Load(memory, at + FREE) == FlagBit(old(chain)[i].free)
      ensures Load(memory, gone + FREE) == FlagBit(old(chain)[i + 1].free)
      ensures old(chain)[i + 1].free ==> Calm(old(memory), old(chain), memory, chain)
    {
      ghost var was, c := memory, chain;
      MergeReady(was, c, heap_start, last_heap_address, heap_end, i);
      ghost var size: U64 := c[i].size + c[i + 1].size + HEADER;
      ghost var far := Load(memory, gone + NEXT);
      Absorb(at, gone);
      MergeStep(was, c, heap_start, last_heap_address, old(heap_end), i, size, far, memory, heap_end);
      chain := Merge(c, i);
    }

    /** `merge_forwards` of segment `i`. */
    method MergeForwards(at: U64, ghost i: nat)
      requires Linked() && i + 1 < |chain| && at == chain[i].address
      modifies this`memory, this`heap_end, this`chain
      ensures Linked() && chain == Merge(old(chain), i)
      ensures Load(memory, at + FREE) == FlagBit(old(chain)[i].free)
      ensures old(chain)[i + 1].free ==> Calm(old(memory), old(chain), memory, chain)
    {
      Neighbours(i);
      MergeAt(at, Load(memory, at + NEXT), i);
    }

    /** `merge_backwards` of segment `i`. */
    method MergeBackwards(at: U64, ghost i: nat) returns (new_header: U64)
      requires Linked() && 0 < i < |chain| && at == chain[i].address
      modifies this`memory, this`heap_end, this`chain
      ensures Linked() && chain == Merge(old(chain), i - 1) && new_header == old(chain)[i - 1].address
      ensures Load(memory, at + FREE) == FlagBit(old(chain)[i].free)
      ensures old(chain)[i].free ==> Calm(old(memory), old(chain), memory, chain)
    {
      Neighbours(i);
      new_header := Load(memory, at + PREVIOUS);
      MergeAt(new_header, at, i - 1);
    }

    /** One turn of the loop of `ExpandHeap`. */
    method AddPage()
      requires Linked() && 0 < frames
      modifies this`memory, this`last_heap_address, this`heap_size, this`frames, this`chain
      ensures Linked() && frames == old(frames) - 1 && chain == Stretch(old(chain), 1)
      ensures Calm(old(memory), old(chain), memory, chain)
    {
      ghost var i, end := |chain| - 1, last_heap_address;
      ghost var s := Stretch(chain, 1)[i];
      Neighbours(i);
      StretchTiled(chain, heap_start, end);
      frames := frames - 1;
      ghost var was, c := memory, chain;
      memory := memory[heap_end + SIZE := Load(memory, heap_end + SIZE) + PAGE];
      last_heap_address := last_heap_address + PAGE;
      heap_size := heap_size + PAGE;
      SizedStep(was, c, heap_start, end, i, s, memory);
      chain := Stretch(chain, 1);
    }

    /** One turn of the loop of `ExpandHeap`, in the heap that had the chain `c` in the memory `m`. */
    method AddNext(ghost m: Memory, ghost c: Chain, ghost k: nat)
      requires Linked() && 0 < frames && c != [] && chain == Stretch(c, k) && Calm(m, c, memory, chain)
      modifies this`memory, this`last_heap_address, this`heap_size, this`frames, this`chain
      ensures Linked() && frames == old(frames) - 1 && chain == Stretch(c, k + 1) && Calm(m, c, memory, chain)
    {
      ghost var g, d := memory, chain;
      AddPage();
      CalmTwice(m, c, g, d, memory, chain);
      StretchMore(c, k);
    }

    /** The end of `ExpandHeap`: what a segment in use has gained is split off. */
    method SplitGain(previous_size: U64, ghost c: Chain, ghost k: nat)
      requires Linked() && c != [] && chain == Stretch(c, k) && previous_size == c[|c| - 1].size
      modifies this`memory, this`heap_end, this`chain
      ensures Linked() && chain == Grow(c, k)
      ensures CalmBut(old(memory), old(chain), memory, chain)
    {
      GrowIs(c, k);
      Neighbours(|chain| - 1);
      if !IsFree(memory, heap_end) {
        if Aligned(chain) {
          StretchAligned(c, k);
        }
        Split(heap_end, previous_size, |chain| - 1);
      }
    }

    /** `ExpandHeap`, the lock being held; it stops early when no frame is left. */
    method ExpandHeap(size: U64)
      requires Linked()
      modifies this`memory, this`heap_end, this`last_heap_address, this`heap_size, this`frames, this`chain
      ensures Linked()
      ensures var k := HeapCalls.Pages(size, old(frames));
        k <= old(frames) && State() == HeapCalls.State(Grow(old(chain), k), old(frames) - k)
      ensures CalmBut(old(memory), old(chain), memory, chain)
    {
      ghost var c, n, m := chain, frames, memory;
      Neighbours(|chain| - 1);
      var previous_size := Load(memory, heap_end + SIZE);
      var o: nat := 0;
      ghost var k: nat := 0;
      StretchMore(c, 0);
      PagesStep(size, n, 0);
      while o < size && 0 < frames
        invariant Linked() && o == PAGE * k && k <= HeapCalls.Pages(size, n) && frames == n - k
        invariant chain == Stretch(c, k) && Calm(m, c, memory, chain)
        decreases frames
      {
        PagesStep(size, n, k);
        AddNext(m, c, k);
        o, k := o + PAGE, k + 1;
      }
      PagesStep(size, n, k);
      ghost var g, d := memory, chain;
      SplitGain(previous_size, c, k);
      CalmTwice(m, c, g, d, memory, chain);
    }

    /** The segment found is cut to size. */
    method Fit(segment: U64, size: U64, ghost i: nat)
      requires Linked() && i < |chain| && segment == chain[i].address && size <= chain[i].size
      modifies this`memory, this`heap_end, this`chain
      ensures Linked() && chain == HeapChain.Split(old(chain), i, size)
      ensures size % 16 == 0 ==> CalmBut(old(memory), old(chain), memory, chain)
    {
      Neighbours(i);
      if Load(memory, segment + SIZE) > size + HEADER {
        Split(segment, size, i);
      }
    }

    /** The loop of `find_free_segment`. The links of a chain never point below HEAP_BASE, so the
        repair of such links is never entered. */
    method Search(size: U64) returns (segment: U64)
      requires Linked()
      ensures var i := FirstFit(chain, size, 0);
        if i < |chain| then segment == chain[i].address != 0 else segment == 0
    {
      segment := heap_start;
      ghost var i: nat := 0;
      Neighbours(0);
      while segment != 0
        invariant i <= |chain| && FirstFit(chain, size, 0) == FirstFit(chain, size, i)
        invariant if i < |chain| then segment == chain[i].address != 0 else segment == 0
        decreases |chain| - i
      {
        Neighbours(i);
        if IsFree(memory, segment) && Load(memory, segment + SIZE) >= size {
          return;
        }
        segment := Load(memory, segment + NEXT);
        i := i + 1;
      }
    }

    /** `find_free_segment`. */
    method FindFreeSegment(size: U64) returns (segment: U64)
      requires Linked()
      modifies this`memory, this`heap_end, this`chain
      ensures Linked()
      ensures var i := FirstFit(old(chain), size, 0);
        if i < |old(chain)| then chain == HeapChain.Split(old(chain), i, size) && segment == old(chain)[i].address != 0
        else chain == old(chain) && memory == old(memory) && segment == 0
      ensures size % 16 == 0 ==> CalmBut(old(memory), old(chain), memory, chain)
    {
      segment := Search(size);
      if segment != 0 {
        Fit(segment, size, FirstFit(chain, size, 0));
      }
    }

    /** Setting the flag of segment `i`. */
    method Mark(at: U64, free: bool, ghost i: nat)
      requires Linked() && i < |chain| && at == chain[i].address
      modifies this`memory, this`chain
      ensures Linked() && chain == old(chain)[i := old(chain)[i].(free := free)]
      ensures Calm(old(memory), old(chain), memory, chain)
    {
      Neighbours(i);
      ghost var was, c := memory, chain;
      ghost var s := c[i].(free := free);
      memory := memory[at + FREE := WithFlag(Load(memory, at + FREE), free)];
      assert IsSized(was, memory, at, s.size, free);
      SizedStep(was, c, heap_start, last_heap_address, i, s, memory);
      MarkTiled(c, heap_start, last_heap_address, i, free);
      chain := c[i := s];
    }

    /** The expansion and the second search. */
    method Retry(size: U64) returns (segment: U64)
      requires Linked()
      modifies this`memory, this`heap_end, this`last_heap_address, this`heap_size, this`frames, this`chain
      ensures Linked()
      ensures var k := HeapCalls.Pages(ToU64(2 * size), old(frames));
        var d := Grow(old(chain), k);
        var i := FirstFit(d, size, 0);
        && k <= old(frames) && frames == old(frames) - k
        && if i < |d| then chain == HeapChain.Split(d, i, size) && segment == d[i].address != 0
           else chain == d && segment == 0
      ensures size % 16 == 0 ==> CalmBut(old(memory), old(chain), memory, chain)
    {
      ghost var m, c := memory, chain;
      ExpandHeap(ToU64(size * 2));
      ghost var g, d := memory, chain;
      segment := FindFreeSegment(size);
      if segment != 0 && size % 16 == 0 {
        CalmSplit(m, c, g, d, memory, FirstFit(d, size, 0), size);
      }
    }

    /** The search of `malloc`, repeated after an expansion if it fails. */
    method Acquire(size: U64) returns (segment: U64)
      requires Linked()
      modifies this`memory, this`heap_end, this`last_heap_address, this`heap_size, this`frames, this`chain
      ensures Linked()
      ensures var r := HeapCalls.Ready(old(State()), size);
        var i := FirstFit(r.chain, size, 0);
        && frames == r.frames
        && if i < |r.chain| then chain == HeapChain.Split(r.chain, i, size) && segment == r.chain[i].address != 0
           else chain == r.chain && segment == 0
      ensures size % 16 == 0 ==> CalmBut(old(memory), old(chain), memory, chain)
    {
      segment := FindFreeSegment(size);
      if segment == 0 {
        segment := Retry(size);
      }
    }

    /** What `malloc` does to the list. */
    method Claim(size: U64) returns (segment: U64)
      requires Linked() && 0 < size
      modifies this`memory, this`heap_end, this`last_heap_address, this`heap_size, this`frames, this`chain
      ensures Linked() && State() == HeapCalls.Malloc(old(State()), size)
      ensures var p := HeapCalls.Answer(old(State()), size);
        && segment == (if p == 0 then 0 else p - HEADER)
        && (segment == 0 <==> p == 0) && p < TWO64
        && (p != 0 ==> Load(memory, segment + SIZE) == HeapCalls.Fresh(old(State()), size).size)
      ensures CalmBut(old(memory), old(chain), memory, chain)
    {
      var n := HeapCalls.Rounded(size);
      segment := Acquire(n);
      if segment != 0 {
        ghost var i := FirstFit(HeapCalls.Ready(old(State()), n).chain, n, 0);
        ghost var g, d := memory, chain;
        Mark(segment, false, i);
        CalmMark(old(memory), old(chain), g, d, memory, i, false);
        Neighbours(i);
      }
    }

    /** `malloc`. */
    method Malloc(size: U64) returns (p: U64)
      requires Valid()
      modifies this
      ensures Valid() && heap_start == old(heap_start)
      ensures State() == HeapCalls.Malloc(old(State()), size) && p == HeapCalls.Answer(old(State()), size)
      ensures CalmBut(old(memory), old(chain), memory, chain)
    {
      if size == 0 {
        return 0;
      }
      ghost var s := State();
      var segment := Claim(size);
      ghost var z := HeapCalls.MallocCounts(s, heap_start, size, State(), HeapCalls.Answer(s, size));
      if segment == 0 {
        return 0;
      }
      heap_used := heap_used + Load(memory, segment + SIZE);
      p := segment + HEADER;
    }

    /** The bytes in front of `p` pass the checks of `free` only if a block begins there. */
    ghost predicate Genuine(p: U64)
      reads this
    {
      p % 16 == 0 && (p != 0 && Passes(memory, ToU64(p - HEADER)) ==> HeapCalls.Find(chain, p, 0) < |chain|)
    }

    /** A live block has the header of its segment in front. */
    lemma InFront(p: U64)
      requires Linked()
      ensures var i := HeapCalls.Find(chain, p, 0);
        i < |chain| ==>
          var at := ToU64(p - HEADER);
          && p != 0 && at == chain[i].address && Passes(memory, at) && Load(memory, at + SIZE) == chain[i].size
    {
      var i := HeapCalls.Find(chain, p, 0);
      if i < |chain| {
        Neighbours(i);
      }
    }

    /** The first merge of `free`. */
    method MergeNext(at: U64, ghost i: nat)
      requires Linked() && i < |chain| && at == chain[i].address
      modifies this`memory, this`heap_end, this`chain
      ensures Linked() && Load(memory, at + FREE) == FlagBit(old(chain)[i].free)
      ensures chain == if i + 1 < |old(chain)| && old(chain)[i + 1].free then Merge(old(chain), i) else old(chain)
      ensures Calm(old(memory), old(chain), memory, chain)
    {
      Neighbours(i);
      var next := Load(memory, at + NEXT);
      if next != 0 && IsFree(memory, next) {
        MergeForwards(at, i);
      }
    }

    /** The second one. */
    method MergePrevious(at: U64, ghost i: nat)
      requires Linked() && i < |chain| && at == chain[i].address && chain[i].free
      modifies this`memory, this`heap_end, this`chain
      ensures Linked() && Load(memory, at + FREE) == FlagBit(true)
      ensures chain == if 0 < i && old(chain)[i - 1].free then Merge(old(chain), i - 1) else old(chain)
      ensures Calm(old(memory), old(chain), memory, chain)
    {
      Neighbours(i);
      var previous := Load(memory, at + PREVIOUS);
      if previous != 0 && previous >= heap_base && IsFree(memory, previous) {
        var segment := MergeBackwards(at, i);
      }
    }

    /** A caller may always free null and what it holds. */
    lemma HeldGenuine(p: U64)
      requires Linked() && Aligned(chain) && HeapCalls.Held(State(), p)
      ensures Genuine(p)
    {
      var i := HeapCalls.Find(chain, p, 0);
      if p != 0 {
        InFront(p);
        BlockAligned(chain[i].address, p);
      }
    }

    /** Freeing a pointer that is not held, while the callers write nothing: it gets past the
        checks exactly when an old header stands in front of it, a newer one lies over that 16
        bytes further on, and the link of the newer one to its next segment ends in a byte of zero. */
    lemma StaleIff(p: U64)
      requires Linked() && Quiet() && 0 < p && p % 16 == 0 && HeapCalls.Find(chain, p, 0) == |chain|
      ensures var at := ToU64(p - HEADER);
        !Genuine(p) <==> HasMagic(memory, at) && HasMagic(memory, at + 16) && Load(memory, at + 16 + NEXT) % 0x100 == 0
    {
      var at := ToU64(p - HEADER);
      HeaderAligned(p);
      if Passes(memory, at) {
        QuietSound(memory, chain, at);
        NotUsed(p);
      }
    }

    /** No segment in use begins in front of a pointer that is not held. */
    lemma NotUsed(p: U64)
      requires Linked() && HeapCalls.Find(chain, p, 0) == |chain|
      ensures !UsedAt(chain, ToU64(p - HEADER))
    {
      forall i | 0 <= i < |chain| && !chain[i].free ensures chain[i].address != ToU64(p - HEADER) {
        Within(chain, heap_start, last_heap_address, i);
      }
    }

    /** What `free` does to the list. */
    method ReleaseSegment(at: U64, ghost i: nat)
      requires Linked() && i < |chain| && at == chain[i].address && !chain[i].free
      modifies this`memory, this`heap_end, this`chain
      ensures Linked() && chain == Release(old(chain), i) && IsFree(memory, at)
      ensures Calm(old(memory), old(chain), memory, chain)
    {
      ghost var m, c := memory, chain;
      Mark(at, true, i);
      ghost var g, d := memory, chain;
      assert i + 1 < |c| ==> d[i + 1] == c[i + 1];
      MergeNext(at, i);
      CalmTwice(m, c, g, d, memory, chain);
      ghost var h, e := memory, chain;
      assert 0 < i ==> e[i - 1] == c[i - 1];
      MergePrevious(at, i);
      CalmTwice(m, c, h, e, memory, chain);
    }

    /** `free`. Null and pointers that do not pass the checks are ignored. */
    method Free(p: U64)
      requires Valid() && Genuine(p)
      modifies this
      ensures Valid() && heap_start == old(heap_start)
      ensures State() == HeapCalls.Free(old(State()), p)
      ensures Genuine(p) && HeapCalls.Find(chain, p, 0) == |chain|
      ensures Calm(old(memory), old(chain), memory, chain)
    {
      InFront(p);
      if p == 0 {
        return;
      }
      var segment: U64 := ToU64(p - HEADER);
      if !HasMagic(memory, segment) {
        return;
      }
      if IsFree(memory, segment) {
        return;
      }
      HeapCalls.FreeGood(State(), heap_start, p);
      HeapCalls.FreeUsed(State(), heap_start, p);
      HeapCalls.FreeGone(State(), heap_start, p);
      heap_used := heap_used - Load(memory, segment + SIZE);
      ReleaseSegment(segment, HeapCalls.Find(chain, p, 0));
    }
  }
}

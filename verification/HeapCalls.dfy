/** `malloc` and `free` as steps on the chain, and what holds over every run of calls. */
module HeapCalls {
  import opened Machine
  import opened HeapChain

  /** The heap as its callers can tell it: the segments, and the page frames that are left. */
  datatype State = State(chain: Chain, frames: nat)

  /** LastHeapAddress. */
  function Limit(s: State): nat
    requires s.chain != []
  {
    End(s.chain[|s.chain| - 1])
  }

  /** The invariant of the heap. All frames that are left would fit behind it. */
  predicate Good(s: State, start: nat) {
    s.chain != [] && Sound(s.chain, start, Limit(s)) && Limit(s) + PAGE * s.frames < TWO64
  }

  // ---------------------------------------------------------------- the calls

  /** The request rounded up to 16 bytes, in `size_t` arithmetic. */
  function Rounded(size: U64): (n: U64)
    ensures n % 16 == 0
    ensures size <= TWO64 - 16 ==> size <= n < size + 16
    ensures size > TWO64 - 16 ==> n == 0
  {
    ToU64(size + 15) / 16 * 16
  }

  /** The pages `ExpandHeap` maps for `bytes` more bytes. */
  function Pages(bytes: U64, frames: nat): nat {
    Min((bytes + PAGE - 1) / PAGE, frames)
  }

  /** The heap in which `malloc` finds its segment: expanded by twice the request if the first
      search failed. */
  function Ready(s: State, n: U64): State
    requires s.chain != []
  {
    if FirstFit(s.chain, n, 0) < |s.chain| then s
    else
      var k := Pages(ToU64(2 * n), s.frames);
      State(Grow(s.chain, k), s.frames - k)
  }

  function Malloc(s: State, size: U64): State
    requires s.chain != []
  {
    if size == 0 then s
    else
      var n, r := Rounded(size), Ready(s, Rounded(size));
      var i := FirstFit(r.chain, n, 0);
      if i < |r.chain| then State(Take(r.chain, i, n), r.frames) else r
  }

  /** What `malloc` returns; 0 is the null pointer. */
  function Answer(s: State, size: U64): nat
    requires s.chain != []
  {
    if size == 0 then 0
    else
      var r := Ready(s, Rounded(size));
      var i := FirstFit(r.chain, Rounded(size), 0);
      if i < |r.chain| then r.chain[i].address + HEADER else 0
  }

  /** The segment in use whose block begins at `p`, if there is one. */
  function Find(c: Chain, p: nat, i: nat): (k: nat)
    requires i <= |c|
    ensures i <= k <= |c|
    ensures k < |c| ==> !c[k].free && c[k].address + HEADER == p
    ensures forall j :: i <= j < k ==> !(!c[j].free && c[j].address + HEADER == p)
    decreases |c| - i
  {
    if i == |c| || (!c[i].free && c[i].address + HEADER == p) then i else Find(c, p, i + 1)
  }

  /** `free` of a live block; whatever else it ignores changes nothing. */
  function Free(s: State, p: nat): State {
    var i := Find(s.chain, p, 0);
    if i < |s.chain| then s.(chain := Release(s.chain, i)) else s
  }

  // ---------------------------------------------------------------- one call

  lemma LimitAligned(s: State, start: nat)
    requires Good(s, start)
    ensures Limit(s) % 16 == 0
  {
  }

  /** Expanding changes no block, and what the heap gains the frames lose. */
  lemma ReadyGood(s: State, start: nat, n: U64)
    requires Good(s, start)
    ensures Good(Ready(s, n), start) && Blocks(Ready(s, n).chain) == Blocks(s.chain)
    ensures Limit(Ready(s, n)) + PAGE * Ready(s, n).frames == Limit(s) + PAGE * s.frames
  {
    if FirstFit(s.chain, n, 0) == |s.chain| {
      var k := Pages(ToU64(2 * n), s.frames);
      LimitAligned(s, start);
      GrowSound(s.chain, start, Limit(s), k);
    }
  }

  /** The block that `malloc` hands out, if it hands out one. */
  function Fresh(s: State, size: U64): Block
    requires s.chain != [] && Answer(s, size) != 0
  {
    var r := Ready(s, Rounded(size));
    Block(Answer(s, size), Granted(r.chain[FirstFit(r.chain, Rounded(size), 0)], Rounded(size)))
  }

  lemma TakeGood(r: State, start: nat, n: U64, i: nat)
    requires Good(r, start) && i < |r.chain| && r.chain[i].free && n <= r.chain[i].size && n % 16 == 0
    ensures var t := State(Take(r.chain, i, n), r.frames); Good(t, start) && Limit(t) == Limit(r)
  {
    TakeSound(r.chain, start, Limit(r), i, n);
  }

  lemma TakeBlocks(r: State, start: nat, n: U64, i: nat)
    requires Good(r, start) && i < |r.chain| && r.chain[i].free && n <= r.chain[i].size && n % 16 == 0
    ensures Blocks(Take(r.chain, i, n)) ==
      Blocks(r.chain) + {Block(r.chain[i].address + HEADER, Granted(r.chain[i], n))}
    ensures forall b :: b in Blocks(r.chain) ==> b.address != r.chain[i].address + HEADER
  {
    TakeSound(r.chain, start, Limit(r), i, n);
    NotYet(r.chain, start, Limit(r), i, n);
  }

  /** `malloc` keeps the heap in order and adds at most one block, at an address that no live
      block has. */
  lemma MallocGood(s: State, start: nat, size: U64)
    requires Good(s, start)
    ensures Good(Malloc(s, size), start)
    ensures Limit(Malloc(s, size)) + PAGE * Malloc(s, size).frames == Limit(s) + PAGE * s.frames
    ensures Answer(s, size) == 0 ==> Blocks(Malloc(s, size).chain) == Blocks(s.chain)
    ensures Answer(s, size) != 0 ==>
      && Blocks(Malloc(s, size).chain) == Blocks(s.chain) + {Fresh(s, size)}
      && forall b :: b in Blocks(s.chain) ==> b.address != Answer(s, size)
  {
    if size != 0 {
      var n, r := Rounded(size), Ready(s, Rounded(size));
      ReadyGood(s, start, n);
      var i := FirstFit(r.chain, n, 0);
      if i < |r.chain| {
        TakeGood(r, start, n, i);
        TakeBlocks(r, start, n, i);
      }
    }
  }

  /** What `heap_used` gains is the size of the block. */
  lemma MallocUsed(s: State, start: nat, size: U64)
    requires Good(s, start)
    ensures Used(Malloc(s, size).chain) == Used(s.chain) + if Answer(s, size) != 0 then Fresh(s, size).size else 0
    ensures Used(Malloc(s, size).chain) < TWO64
  {
    MallocGood(s, start, size);
    Accounting(Malloc(s, size).chain, start, Limit(Malloc(s, size)));
    if size != 0 {
      var n, r := Rounded(size), Ready(s, Rounded(size));
      ReadyGood(s, start, n);
      ReadyUsed(s, start, n);
      var i := FirstFit(r.chain, n, 0);
      if i < |r.chain| {
        TakeSound(r.chain, start, Limit(r), i, n);
      }
    }
  }

  /** The new state `t` and the answer `p` of `malloc`, and the `z` bytes it hands out. */
  lemma MallocCounts(s: State, start: nat, size: U64, t: State, p: nat) returns (z: nat)
    requires Good(s, start) && t == Malloc(s, size) && p == Answer(s, size)
    ensures Good(t, start) && Used(t.chain) == Used(s.chain) + z < TWO64
    ensures p == 0 ==> z == 0
    ensures p != 0 ==> z == Fresh(s, size).size
  {
    MallocGood(s, start, size);
    MallocUsed(s, start, size);
    z := if p == 0 then 0 else Fresh(s, size).size;
  }

  lemma ReadyUsed(s: State, start: nat, n: U64)
    requires Good(s, start)
    ensures Used(Ready(s, n).chain) == Used(s.chain)
  {
    if FirstFit(s.chain, n, 0) == |s.chain| {
      LimitAligned(s, start);
      GrowSound(s.chain, start, Limit(s), Pages(ToU64(2 * n), s.frames));
    }
  }

  /** The block has room for the request, with at most 63 bytes to spare, exactly unless the
      request is within 15 bytes of the size of the address space: rounding it up wraps around to
      nothing. */
  lemma FreshHolds(s: State, size: U64)
    requires s.chain != [] && Answer(s, size) != 0
    ensures size <= Fresh(s, size).size <==> size <= TWO64 - 16
    ensures Fresh(s, size).size <= Rounded(size) + HEADER
  {
  }

  lemma RoundedIs(size: U64)
    requires size <= TWO64 - 16
    ensures Rounded(size) == (size + 15) / 16 * 16
  {
    ModUnique(size + 15, TWO64, 0, size + 15);
  }

  /** If a free segment has room for the request, rounded up to 16 bytes, `malloc` answers with the
      first such segment: what lies behind 48 bytes of header, cut to the request unless no more
      than a header would be left. */
  lemma FirstFitTaken(s: State, start: nat, size: U64, i: nat, n: nat)
    requires Good(s, start) && 0 < size <= TWO64 - 16 && n == (size + 15) / 16 * 16
    requires i < |s.chain| && s.chain[i].free && n <= s.chain[i].size
    requires forall j :: 0 <= j < i && s.chain[j].free ==> s.chain[j].size < n
    ensures Answer(s, size) == s.chain[i].address + 48
    ensures var z := if s.chain[i].size <= n + 48 then s.chain[i].size else n;
      Blocks(Malloc(s, size).chain) == Blocks(s.chain) + {Block(s.chain[i].address + 48, z)}
    ensures Malloc(s, size).frames == s.frames && Limit(Malloc(s, size)) == Limit(s)
  {
    RoundedIs(size);
    assert FirstFit(s.chain, n, 0) == i;
    MallocIn(s, start, size, n, s, i);
  }

  /** The number of pages `malloc` asks for: the least that hold twice the request, if there are as
      many. */
  lemma PagesAre(bytes: U64, frames: nat)
    ensures var k := Pages(bytes, frames);
      k <= frames && (k < frames ==> bytes <= 0x1000 * k) && (0 < k ==> 0x1000 * (k - 1) < bytes)
  {
  }

  /** Where the free bytes behind the last block begin, were pages added. */
  function RoomAt(c: Chain): nat
    requires c != []
  {
    var last := c[|c| - 1];
    if last.free then last.address else last.address + 48 + last.size
  }

  /** How many there were, with `k` pages more. */
  function Room(c: Chain, k: nat): int
    requires c != []
  {
    var last := c[|c| - 1];
    if last.free then last.size + 0x1000 * k else 0x1000 * k - 48
  }

  /** In a chain without room for `n` bytes, grown by `k` pages, the end alone may have it. */
  lemma GrownEnd(c: Chain, n: nat, k: nat)
    requires c != [] && FirstFit(c, n, 0) == |c|
    ensures var d := Grow(c, k);
      if Room(c, k) < n then FirstFit(d, n, 0) == |d|
      else
        && FirstFit(d, n, 0) == |d| - 1 && d[|d| - 1].free
        && d[|d| - 1].address == RoomAt(c) && d[|d| - 1].size == Room(c, k)
  {
    GrownFit(c, n, k);
  }

  lemma ReadyIs(s: State, start: nat, n: U64) returns (r: State, k: nat)
    requires Good(s, start) && FirstFit(s.chain, n, 0) == |s.chain|
    ensures r == Ready(s, n) && k == Pages(ToU64(2 * n), s.frames) && r == State(Grow(s.chain, k), s.frames - k)
    ensures Good(r, start) && Limit(r) == Limit(s) + 0x1000 * k && Blocks(r.chain) == Blocks(s.chain)
  {
    ReadyGood(s, start, n);
    r, k := Ready(s, n), Pages(ToU64(2 * n), s.frames);
  }

  /** `malloc` in the heap `r` that it has made ready. */
  lemma MallocIn(s: State, start: nat, size: U64, n: U64, r: State, i: nat)
    requires Good(s, start) && size != 0 && n == Rounded(size) && r == Ready(s, n) && Good(r, start)
    requires i == FirstFit(r.chain, n, 0)
    ensures Malloc(s, size).frames == r.frames && Limit(Malloc(s, size)) == Limit(r)
    ensures i == |r.chain| ==> Answer(s, size) == 0 && Malloc(s, size) == r
    ensures i < |r.chain| ==>
      && Answer(s, size) == r.chain[i].address + 48
      && Blocks(Malloc(s, size).chain) == Blocks(r.chain) +
           {Block(r.chain[i].address + 48, if r.chain[i].size <= n + 48 then r.chain[i].size else n)}
  {
    if i < |r.chain| {
      TakeGood(r, start, n, i);
      TakeBlocks(r, start, n, i);
    }
  }

  lemma ExpandedBy(s: State, start: nat, size: U64, n: U64) returns (k: nat)
    requires Good(s, start) && 0 < size && n == Rounded(size) && FirstFit(s.chain, n, 0) == |s.chain|
    ensures k == Pages(ToU64(2 * n), s.frames)
    ensures Malloc(s, size).frames == s.frames - k && Limit(Malloc(s, size)) == Limit(s) + 0x1000 * k
    ensures var at, room := RoomAt(s.chain), Room(s.chain, k);
      if room < n then Answer(s, size) == 0 && Blocks(Malloc(s, size).chain) == Blocks(s.chain)
      else
        && Answer(s, size) == at + 48
        && Blocks(Malloc(s, size).chain) == Blocks(s.chain) + {Block(at + 48, if room <= n + 48 then room else n)}
  {
    var r;
    r, k := ReadyIs(s, start, n);
    GrownEnd(s.chain, n, k);
    MallocIn(s, start, size, n, r, FirstFit(r.chain, n, 0));
  }

  /** If none has room, the heap grows by these pages, and the request is met at its end, behind the
      last segment or as part of it if that is free, or not at all. */
  lemma Expanded(s: State, start: nat, size: U64, n: nat) returns (k: nat)
    requires Good(s, start) && 0 < size <= TWO64 - 16 && n == (size + 15) / 16 * 16
    requires forall j :: 0 <= j < |s.chain| && s.chain[j].free ==> s.chain[j].size < n
    ensures var bytes := 2 * n % 0x1_0000_0000_0000_0000;
      k <= s.frames && (k < s.frames ==> bytes <= 0x1000 * k) && (0 < k ==> 0x1000 * (k - 1) < bytes)
    ensures Malloc(s, size).frames == s.frames - k && Limit(Malloc(s, size)) == Limit(s) + 0x1000 * k
    ensures var at, room := RoomAt(s.chain), Room(s.chain, k);
      if room < n then Answer(s, size) == 0 && Blocks(Malloc(s, size).chain) == Blocks(s.chain)
      else
        && Answer(s, size) == at + 48
        && Blocks(Malloc(s, size).chain) == Blocks(s.chain) + {Block(at + 48, if room <= n + 48 then room else n)}
  {
    RoundedIs(size);
    PagesAre(ToU64(2 * n), s.frames);
    k := ExpandedBy(s, start, size, n);
  }

  /** `malloc` returns null exactly for no bytes, or when no free segment has room and the
      frames that are left do not make enough room at the end. */
  lemma NullIff(s: State, size: U64)
    requires s.chain != []
    ensures var n := Rounded(size);
      Answer(s, size) == 0 <==>
        || size == 0
        || ((forall i :: 0 <= i < |s.chain| && s.chain[i].free ==> s.chain[i].size < n) &&
            Room(s.chain, Pages(ToU64(2 * n), s.frames)) < n)
  {
    var n: int := Rounded(size);
    var c := s.chain;
    var k := Pages(ToU64(2 * n), s.frames);
    if size != 0 && FirstFit(c, n, 0) == |c| {
      GrownFit(c, n, k);
    }
  }

  /** Where nothing fitted, a grown chain has room only at its end. */
  lemma GrownFit(c: Chain, n: nat, k: nat)
    requires c != [] && FirstFit(c, n, 0) == |c|
    ensures FirstFit(Grow(c, k), n, 0) < |Grow(c, k)| <==> n <= Room(c, k)
  {
    var d := Grow(c, k);
    var j := FirstFit(d, n, 0);
    if j == |d| {
      assert d[|d| - 1].free ==> d[|d| - 1].size < n;
    }
  }

  /** With frames left for twice the request, `malloc` does not return null. */
  lemma Enough(s: State, size: U64)
    requires s.chain != [] && 0 < size && 2 * size + 30 < TWO64 && 2 * size + 30 <= PAGE * s.frames
    ensures Answer(s, size) != 0
  {
    NullIff(s, size);
    EnoughRoom(Rounded(size), s.frames);
  }

  lemma EnoughRoom(n: U64, frames: nat)
    requires 2 * n < TWO64 && 2 * n <= PAGE * frames && 0 < n
    ensures n <= PAGE * Pages(2 * n, frames) - HEADER
  {
  }

  lemma Found(c: Chain, start: nat, end: nat, p: nat)
    requires Tiled(c, start, end)
    ensures Find(c, p, 0) < |c| <==> exists b :: b in Blocks(c) && b.address == p
  {
    var i := Find(c, p, 0);
    if i < |c| {
      assert BlockOf(c[i]) in Blocks(c);
    }
    if b :| b in Blocks(c) && b.address == p {
      var k := BlockIn(c, b);
    }
  }

  /** The blocks that do not begin at `p`. */
  function Without(blocks: set<Block>, p: nat): set<Block> {
    set b | b in blocks && b.address != p :: b
  }

  /** What C lets a caller free: null or a block it holds. */
  predicate Held(s: State, p: nat) {
    p == 0 || Find(s.chain, p, 0) < |s.chain|
  }

  /** `free` keeps the heap in order and removes exactly the block at `p`; null changes nothing. */
  lemma FreeGood(s: State, start: nat, p: nat)
    requires Good(s, start) && Held(s, p)
    ensures Good(Free(s, p), start) && Limit(Free(s, p)) == Limit(s) && Free(s, p).frames == s.frames
    ensures Blocks(Free(s, p).chain) == Without(Blocks(s.chain), p)
  {
    var c, i := s.chain, Find(s.chain, p, 0);
    Found(c, start, Limit(s), p);
    if i < |c| {
      ReleaseSound(c, start, Limit(s), i);
      OneBlock(c, start, Limit(s), BlockOf(c[i]));
    } else {
      assert Without(Blocks(c), p) == Blocks(c);
    }
  }

  /** No block begins at a pointer that has been freed. */
  lemma FreeGone(s: State, start: nat, p: nat)
    requires Good(s, start) && Held(s, p)
    ensures Find(Free(s, p).chain, p, 0) == |Free(s, p).chain|
  {
    FreeGood(s, start, p);
    Found(Free(s, p).chain, start, Limit(s), p);
  }

  lemma FreeUsed(s: State, start: nat, p: nat)
    requires Good(s, start)
    ensures var i := Find(s.chain, p, 0);
      Used(Free(s, p).chain) == Used(s.chain) - if i < |s.chain| then s.chain[i].size else 0
  {
    var i := Find(s.chain, p, 0);
    if i < |s.chain| {
      ReleaseSound(s.chain, start, Limit(s), i);
    }
  }

  lemma OneBlock(c: Chain, start: nat, end: nat, x: Block)
    requires Tiled(c, start, end) && x in Blocks(c)
    ensures Without(Blocks(c), x.address) == Blocks(c) - {x}
  {
    forall y | y in Blocks(c) && y != x ensures y.address != x.address {
      BlocksDisjoint(c, start, end, x, y);
    }
  }

  /** Freeing a block at once leaves the heap as `malloc` found it, expanded if it had to be. */
  lemma FreeUndoes(s: State, start: nat, size: U64)
    requires Good(s, start) && Answer(s, size) != 0
    ensures Free(Malloc(s, size), Answer(s, size)) == Ready(s, Rounded(size))
  {
    var p, r := Answer(s, size), Ready(s, Rounded(size));
    MallocGood(s, start, size);
    ReadyGood(s, start, Rounded(size));
    assert Fresh(s, size) in Blocks(Malloc(s, size).chain);
    Found(Malloc(s, size).chain, start, Limit(Malloc(s, size)), p);
    FreeGood(Malloc(s, size), start, p);
    assert Without(Blocks(s.chain) + {Fresh(s, size)}, p) == Blocks(s.chain);
    Canonical(Free(Malloc(s, size), p).chain, r.chain, start, Limit(r));
  }

  // ---------------------------------------------------------------- runs

  datatype Call = MallocCall(size: U64) | FreeCall(pointer: nat)

  function Next(s: State, call: Call): State {
    match call
    case MallocCall(size) => if s.chain == [] then s else Malloc(s, size)
    case FreeCall(p) => Free(s, p)
  }

  function Run(s: State, calls: seq<Call>): State
    decreases |calls|
  {
    if calls == [] then s else Run(Next(s, calls[0]), calls[1..])
  }

  /** Each call frees null or a block that is held at that moment. */
  predicate Lawful(s: State, calls: seq<Call>)
    decreases |calls|
  {
    calls != [] ==> (calls[0].FreeCall? ==> Held(s, calls[0].pointer)) && Lawful(Next(s, calls[0]), calls[1..])
  }

  /** What the callers hold, going by the answers of `malloc` and their own calls of `free`. */
  function Ledger(s: State, calls: seq<Call>, held: set<Block>): set<Block>
    decreases |calls|
  {
    if calls == [] then held else Ledger(Next(s, calls[0]), calls[1..], Entry(s, calls[0], held))
  }

  function Entry(s: State, call: Call, held: set<Block>): set<Block> {
    match call
    case MallocCall(size) => if s.chain != [] && Answer(s, size) != 0 then held + {Fresh(s, size)} else held
    case FreeCall(p) => Without(held, p)
  }

  lemma NextGood(s: State, start: nat, call: Call)
    requires Good(s, start) && (call.FreeCall? ==> Held(s, call.pointer))
    ensures Good(Next(s, call), start)
    ensures Limit(Next(s, call)) + PAGE * Next(s, call).frames == Limit(s) + PAGE * s.frames
    ensures Blocks(Next(s, call).chain) == Entry(s, call, Blocks(s.chain))
  {
    match call {
      case MallocCall(size) => MallocGood(s, start, size);
      case FreeCall(p) => FreeGood(s, start, p);
    }
  }

  /** Over every lawful run the heap stays in order, its live blocks are those its callers hold, and
      no page is lost. */
  lemma {:induction false} RunGood(s: State, start: nat, calls: seq<Call>)
    requires Good(s, start) && Lawful(s, calls)
    ensures Good(Run(s, calls), start)
    ensures Blocks(Run(s, calls).chain) == Ledger(s, calls, Blocks(s.chain))
    ensures Limit(Run(s, calls)) + PAGE * Run(s, calls).frames == Limit(s) + PAGE * s.frames
    decreases |calls|
  {
    if calls != [] {
      NextGood(s, start, calls[0]);
      RunGood(Next(s, calls[0]), start, calls[1..]);
    }
  }

  /** Two lawful runs that leave the callers with the same blocks, and the same number of frames, leave
      the same heap, whatever the order of their calls. */
  lemma RunsAgree(s: State, start: nat, calls: seq<Call>, calls': seq<Call>)
    requires Good(s, start) && Lawful(s, calls) && Lawful(s, calls')
    requires Ledger(s, calls, Blocks(s.chain)) == Ledger(s, calls', Blocks(s.chain))
    requires Run(s, calls).frames == Run(s, calls').frames
    ensures Run(s, calls) == Run(s, calls')
  {
    RunGood(s, start, calls);
    RunGood(s, start, calls');
    Canonical(Run(s, calls).chain, Run(s, calls').chain, start, Limit(Run(s, calls)));
  }

  /** A lawful run that frees all it was given leaves one free segment: nothing stays fragmented. */
  lemma AllFreed(s: State, start: nat, calls: seq<Call>)
    requires Good(s, start) && Lawful(s, calls) && Ledger(s, calls, Blocks(s.chain)) == {}
    ensures Run(s, calls).chain != [] && start + HEADER <= Limit(Run(s, calls))
    ensures Run(s, calls).chain == [Hole(start, Limit(Run(s, calls)))]
  {
    RunGood(s, start, calls);
    AllReleased(Run(s, calls).chain, start, Limit(Run(s, calls)));
  }

  /** At every moment of every lawful run the callers' blocks lie apart from each other, inside the
      heap and outside its headers. */
  lemma BlocksSafe(s: State, start: nat, calls: seq<Call>, x: Block, y: Block, k: nat)
    requires Good(s, start) && Lawful(s, calls)
    requires x in Ledger(s, calls, Blocks(s.chain)) && y in Ledger(s, calls, Blocks(s.chain))
    requires k < |Run(s, calls).chain|
    ensures x != y ==> x.address + x.size <= y.address || y.address + y.size <= x.address
    ensures Run(s, calls).chain != [] && start + HEADER <= x.address && x.address + x.size <= Limit(Run(s, calls))
    ensures var h := Run(s, calls).chain[k].address;
      h + HEADER <= x.address || x.address + x.size <= h
  {
    RunGood(s, start, calls);
    var r := Run(s, calls);
    BlockApart(r.chain, start, Limit(r), x, k);
    if x != y {
      BlocksDisjoint(r.chain, start, Limit(r), x, y);
    }
  }
}

/** The memory of the heap, word by word: segment headers, what the stores of the list do to
    them, and what is left of a header whose segment has been merged away. */
module HeapMemory {
  import opened Machine
  import opened HeapChain

  /** `heap_magic`, the characters "HEAP", as a little-endian number. */
  const HEAP_MAGIC: U64 := 0x5041_4548

  // The offsets of the fields of a `heap_header`.
  const PREVIOUS: nat := 8
  const NEXT: nat := 16
  const SIZE: nat := 24
  const FREE: nat := 32

  /** The 64-bit words at addresses divisible by 8; new pages are zero. */
  type Memory = map<nat, U64>

  function Load(m: Memory, a: nat): U64 {
    if a in m then m[a] else 0
  }

  /** The words of a header: the magic number is the low half of the first, the flag the low
      byte of the last; the rest of both is padding. */
  datatype Header = Header(magic: U64, previous: U64, next: U64, size: U64, flag: U64)

  function Read(m: Memory, a: nat): Header {
    Header(Load(m, a), Load(m, a + PREVIOUS), Load(m, a + NEXT), Load(m, a + SIZE), Load(m, a + FREE))
  }

  predicate HasMagic(m: Memory, a: nat) {
    Load(m, a) % TWO32 == HEAP_MAGIC
  }

  predicate IsFree(m: Memory, a: nat) {
    Load(m, a + FREE) % 0x100 != 0
  }

  /** What `free` checks of the bytes in front of a pointer: they begin like a header, and the
      flag says that the segment is in use. */
  predicate Passes(m: Memory, a: nat) {
    HasMagic(m, a) && !IsFree(m, a)
  }

  /** A word with its low half set to the magic number. */
  function WithMagic(w: U64): U64 {
    w / TWO32 * TWO32 + HEAP_MAGIC
  }

  function FlagBit(free: bool): U64 {
    if free then 1 else 0
  }

  /** A word with its low byte set to a flag. */
  function WithFlag(w: U64, free: bool): U64 {
    w / 0x100 * 0x100 + FlagBit(free)
  }

  // ---------------------------------------------------------------- the headers of a chain

  /** Segment `i` has its header in memory, linked both ways. */
  predicate Stands(m: Memory, c: Chain, i: nat)
    requires i < |c|
  {
    var x := Read(m, c[i].address);
    && x.magic == HEAP_MAGIC && x.flag == FlagBit(c[i].free) && x.size == c[i].size
    && x.previous == (if i == 0 then 0 else c[i - 1].address)
    && x.next == (if i == |c| - 1 then 0 else c[i + 1].address)
  }

  predicate LaidOut(m: Memory, c: Chain) {
    forall i :: 0 <= i < |c| ==> Stands(m, c, i)
  }

  /** The layout of a header: "HEAP", the links at offsets 8 and 16, the size at 24 and the flag
      at 32. */
  lemma HeaderWords(m: Memory, c: Chain, i: nat)
    requires i < |c|
    ensures Stands(m, c, i) <==>
      var a := c[i].address;
      && Load(m, a) == 'H' as int + 'E' as int * 0x100 + 'A' as int * 0x1_0000 + 'P' as int * 0x100_0000
      && Load(m, a + 8) == (if 0 < i then c[i - 1].address else 0)
      && Load(m, a + 16) == (if i + 1 < |c| then c[i + 1].address else 0)
      && Load(m, a + 24) == c[i].size && Load(m, a + 32) == (if c[i].free then 1 else 0)
  {
  }

  /** What `free` reads in front of a pointer. */
  lemma PassesIs(m: Memory, a: nat)
    ensures Passes(m, a) <==> Load(m, a) % 0x1_0000_0000 == 0x5041_4548 && Load(m, a + 32) % 0x100 == 0
  {
  }

  /** `m` and `g` agree outside the bytes from `a` up to `b`. */
  ghost predicate SameOutside(m: Memory, g: Memory, a: nat, b: nat) {
    forall w: nat :: w + 8 <= a || b <= w ==> Load(g, w) == Load(m, w)
  }

  /** Whatever the callers write into their blocks, the chain stays as it is. */
  lemma WritesHarmless(m: Memory, g: Memory, c: Chain, start: nat, end: nat, x: Block)
    requires Tiled(c, start, end) && LaidOut(m, c) && x in Blocks(c) && SameOutside(m, g, x.address, x.address + x.size)
    ensures LaidOut(g, c)
  {
    forall i | 0 <= i < |c| ensures Stands(g, c, i) {
      assert Stands(m, c, i);
      BlockApart(c, start, end, x, i);
    }
  }

  /** Two segments of a chain have headers that do not overlap. */
  lemma Distinct(c: Chain, start: nat, end: nat, i: nat)
    requires Tiled(c, start, end) && i < |c|
    ensures forall j :: 0 <= j < |c| && j != i ==> c[j].address + HEADER <= c[i].address || End(c[i]) <= c[j].address
  {
    forall j | 0 <= j < |c| && j != i
      ensures c[j].address + HEADER <= c[i].address || End(c[i]) <= c[j].address
    {
      if j < i {
        Ordered(c, start, end, j, i);
      } else {
        Ordered(c, start, end, i, j);
      }
    }
  }

  // ---------------------------------------------------------------- stores

  predicate Apart48(a: nat, b: nat) {
    a + HEADER <= b || b + HEADER <= a
  }

  predicate Inside(w: nat, a: nat) {
    a <= w < a + HEADER
  }

  /** `g` is `m` but for the size and the flag of the header at `at`. */
  ghost predicate IsSized(m: Memory, g: Memory, at: nat, size: U64, free: bool) {
    && Read(g, at) == Read(m, at).(size := size, flag := FlagBit(free))
    && forall w: nat :: !Inside(w, at) ==> Load(g, w) == Load(m, w)
  }

  lemma FieldsLaid(m: Memory, c: Chain, start: nat, end: nat, i: nat, s: Segment, g: Memory)
    requires Tiled(c, start, end) && LaidOut(m, c) && i < |c| && s.address == c[i].address && s.size < TWO64
    requires IsSized(m, g, c[i].address, s.size, s.free)
    ensures LaidOut(g, c[i := s])
  {
    var d := c[i := s];
    Distinct(c, start, end, i);
    forall j | 0 <= j < |d| ensures Stands(g, d, j) {
      assert Stands(m, c, j);
    }
  }

  /** `g` is `m` with the segment at `at` grown to `size` bytes, up to the one at `far`. */
  ghost predicate IsMerged(m: Memory, g: Memory, at: nat, size: U64, far: U64) {
    && Read(g, at) == Read(m, at).(size := size, next := far)
    && (far != 0 ==> at < TWO64 && Read(g, far) == Read(m, far).(previous := at))
    && forall w: nat :: !Inside(w, at) && (far == 0 || !Inside(w, far)) ==> Load(g, w) == Load(m, w)
  }

  /** The stores of a merge, one after the other. */
  function MergeMemory(m: Memory, at: U64, size: U64, far: U64): Memory {
    var linked := m[at + SIZE := size][at + NEXT := far];
    if far == 0 then linked else linked[far + PREVIOUS := at]
  }

  lemma MergeStores(m: Memory, at: U64, size: U64, far: U64)
    requires far != 0 ==> Apart48(at, far)
    ensures IsMerged(m, MergeMemory(m, at, size, far), at, size, far)
  {
  }

  lemma MergeElsewhere(m: Memory, g: Memory, at: nat, size: U64, far: U64, a: nat)
    requires IsMerged(m, g, at, size, far) && Apart48(a, at) && (far != 0 ==> Apart48(a, far))
    ensures Read(g, a) == Read(m, a)
  {
  }

  lemma MergeStands(m: Memory, c: Chain, start: nat, end: nat, i: nat, size: U64, far: U64, g: Memory, j: nat)
    requires Tiled(c, start, end) && LaidOut(m, c) && i + 1 < |c| && 0 < start && j < |Merge(c, i)|
    requires size == c[i].size + c[i + 1].size + HEADER && far == if i + 2 < |c| then c[i + 2].address else 0
    requires IsMerged(m, g, c[i].address, size, far)
    ensures Stands(g, Merge(c, i), j)
  {
    var d := Merge(c, i);
    var k := if j <= i then j else j + 1;
    assert d[j].address == c[k].address;
    assert Stands(m, c, k);
    Within(c, start, end, k);
    Distinct(c, start, end, i);
    if i + 2 < |c| {
      Distinct(c, start, end, i + 2);
    }
    if j != i {
      assert d[j] == c[k];
      if j != i + 1 {
        MergeElsewhere(m, g, c[i].address, size, far, d[j].address);
      }
    }
  }

  lemma MergeLaid(m: Memory, c: Chain, start: nat, end: nat, i: nat, size: U64, far: U64, g: Memory)
    requires Tiled(c, start, end) && LaidOut(m, c) && i + 1 < |c| && 0 < start
    requires size == c[i].size + c[i + 1].size + HEADER && far == if i + 2 < |c| then c[i + 2].address else 0
    requires IsMerged(m, g, c[i].address, size, far)
    ensures LaidOut(g, Merge(c, i))
  {
    var d := Merge(c, i);
    forall j | 0 <= j < |d| ensures Stands(g, d, j) {
      MergeStands(m, c, start, end, i, size, far, g, j);
    }
  }

  /** The first stores of a split: `memset`, the magic number, size and flag of a new header. */
  function Made(m: Memory, a: nat, size: U64): Memory {
    var zero := m[a := 0][a + PREVIOUS := 0][a + NEXT := 0][a + SIZE := 0][a + FREE := 0][a + FREE + 8 := 0];
    var named := zero[a := WithMagic(Load(zero, a))];
    var sized := named[a + SIZE := size];
    sized[a + FREE := WithFlag(Load(sized, a + FREE), true)]
  }

  lemma MadeIs(m: Memory, a: nat, size: U64)
    ensures Read(Made(m, a, size), a) == Header(HEAP_MAGIC, 0, 0, size, 1)
    ensures forall w: nat :: !Inside(w, a) ==> Load(Made(m, a, size), w) == Load(m, w)
  {
  }

  /** `g` is `m` with the segment at `at` cut to `n` bytes, `rest` more behind a new header. */
  ghost predicate IsCut(m: Memory, g: Memory, at: nat, made: U64, n: U64, rest: U64) {
    var far := Load(m, at + NEXT);
    && at < TWO64 && Read(g, made) == Header(HEAP_MAGIC, at, far, rest, 1)
    && Read(g, at) == Read(m, at).(size := n, next := made)
    && (far != 0 ==> Read(g, far) == Read(m, far).(previous := made))
    && forall w: nat :: !Inside(w, made) && !Inside(w, at) && (far == 0 || !Inside(w, far)) ==> Load(g, w) == Load(m, w)
  }

  /** All stores of a split, one after the other. */
  function CutMemory(m: Memory, at: U64, made: U64, n: U64, rest: U64): Memory {
    var far := Load(m, at + NEXT);
    var linked := Made(m, made, rest)[at + SIZE := n][made + PREVIOUS := at][made + NEXT := far];
    var back := if far == 0 then linked else linked[far + PREVIOUS := made];
    back[at + NEXT := made]
  }

  predicate CutApart(m: Memory, at: U64, made: U64) {
    var far := Load(m, at + NEXT);
    Apart48(at, made) && (far != 0 ==> Apart48(at, far) && Apart48(made, far))
  }

  /** A word after a split, `base` being the memory with the new header in it. */
  predicate CutWord(base: Memory, g: Memory, at: U64, made: U64, n: U64, far: U64, w: nat) {
    Load(g, w) == if w == at + NEXT then made
                  else if far != 0 && w == far + PREVIOUS then made
                  else if w == made + NEXT then far
                  else if w == made + PREVIOUS then at
                  else if w == at + SIZE then n
                  else Load(base, w)
  }

  lemma CutWords(m: Memory, at: U64, made: U64, n: U64, rest: U64, w: nat)
    requires CutApart(m, at, made)
    ensures CutWord(Made(m, made, rest), CutMemory(m, at, made, n, rest), at, made, n, Load(m, at + NEXT), w)
  {
  }

  lemma CutHeaders(base: Memory, g: Memory, at: U64, made: U64, n: U64, far: U64, a: nat)
    requires Apart48(at, made) && (far != 0 ==> Apart48(at, far) && Apart48(made, far))
    requires forall w: nat :: CutWord(base, g, at, made, n, far, w)
    ensures a == made ==> Read(g, a) == Read(base, a).(previous := at, next := far)
    ensures a == at ==> Read(g, a) == Read(base, a).(size := n, next := made)
    ensures a == far != 0 ==> Read(g, a) == Read(base, a).(previous := made)
  {
    assert CutWord(base, g, at, made, n, far, a) && CutWord(base, g, at, made, n, far, a + PREVIOUS);
    assert CutWord(base, g, at, made, n, far, a + NEXT) && CutWord(base, g, at, made, n, far, a + SIZE);
    assert CutWord(base, g, at, made, n, far, a + FREE);
  }

  lemma CutSame(base: Memory, g: Memory, at: U64, made: U64, n: U64, far: U64, w: nat)
    requires CutWord(base, g, at, made, n, far, w)
    requires !Inside(w, made) && !Inside(w, at) && (far == 0 || !Inside(w, far))
    ensures Load(g, w) == Load(base, w)
  {
  }

  lemma CutStores(m: Memory, at: U64, made: U64, n: U64, rest: U64)
    requires CutApart(m, at, made)
    ensures IsCut(m, CutMemory(m, at, made, n, rest), at, made, n, rest)
  {
    var base, g, far := Made(m, made, rest), CutMemory(m, at, made, n, rest), Load(m, at + NEXT);
    forall w: nat ensures CutWord(base, g, at, made, n, far, w) {
      CutWords(m, at, made, n, rest, w);
    }
    CutIs(m, base, g, at, made, n, rest, far);
  }

  lemma CutIs(m: Memory, base: Memory, g: Memory, at: U64, made: U64, n: U64, rest: U64, far: U64)
    requires CutApart(m, at, made) && base == Made(m, made, rest) && far == Load(m, at + NEXT)
    requires forall w: nat :: CutWord(base, g, at, made, n, far, w)
    ensures IsCut(m, g, at, made, n, rest)
  {
    MadeIs(m, made, rest);
    CutHeaders(base, g, at, made, n, far, made);
    CutHeaders(base, g, at, made, n, far, at);
    CutHeaders(base, g, at, made, n, far, far);
    forall w: nat | !Inside(w, made) && !Inside(w, at) && (far == 0 || !Inside(w, far))
      ensures Load(g, w) == Load(m, w)
    {
      CutSame(base, g, at, made, n, far, w);
    }
  }

  lemma CutElsewhere(m: Memory, g: Memory, at: nat, made: U64, n: U64, rest: U64, a: nat)
    requires IsCut(m, g, at, made, n, rest) && Apart48(a, at) && Apart48(a, made)
    requires Load(m, at + NEXT) != 0 ==> Apart48(a, Load(m, at + NEXT))
    ensures Read(g, a) == Read(m, a)
  {
  }

  lemma CutBefore(m: Memory, c: Chain, start: nat, end: nat, i: nat, n: U64, made: U64, rest: U64, g: Memory, j: nat)
    requires Tiled(c, start, end) && LaidOut(m, c) && i < |c| && 0 < start
    requires n + HEADER < c[i].size && made == c[i].address + HEADER + n && rest == c[i].size - n - HEADER
    requires IsCut(m, g, c[i].address, made, n, rest)
    requires j < i
    ensures Stands(g, Split(c, i, n), j)
  {
    Distinct(c, start, end, i);
    Within(c, start, end, j);
    assert Stands(m, c, i) && Stands(m, c, j);
    if i + 1 < |c| {
      Distinct(c, start, end, i + 1);
    }
    CutElsewhere(m, g, c[i].address, made, n, rest, c[j].address);
    assert Split(c, i, n)[j] == c[j];
  }

  lemma CutHere(m: Memory, c: Chain, start: nat, end: nat, i: nat, n: U64, made: U64, rest: U64, g: Memory)
    requires Tiled(c, start, end) && LaidOut(m, c) && i < |c| && 0 < start
    requires n + HEADER < c[i].size && made == c[i].address + HEADER + n && rest == c[i].size - n - HEADER
    requires IsCut(m, g, c[i].address, made, n, rest)
    ensures Stands(g, Split(c, i, n), i) && Stands(g, Split(c, i, n), i + 1)
  {
    Distinct(c, start, end, i);
    assert Stands(m, c, i);
    if i + 1 < |c| {
      Within(c, start, end, i + 1);
    }
    assert Split(c, i, n)[i + 1] == Segment(made, rest, true);
  }

  /** The segments behind the new one. */
  lemma SplitBehind(c: Chain, i: nat, n: nat, j: nat)
    requires i < |c| && n + HEADER < c[i].size && i + 1 < j <= |c|
    ensures var d := Split(c, i, n);
      && |d| == |c| + 1 && d[j] == c[j - 1] && (j < |c| ==> d[j + 1] == c[j])
      && d[j - 1].address == if j == i + 2 then c[i].address + HEADER + n else c[j - 2].address
  {
  }

  lemma CutBehind(m: Memory, c: Chain, start: nat, end: nat, i: nat, n: U64, made: U64, rest: U64, g: Memory, j: nat)
    requires Tiled(c, start, end) && LaidOut(m, c) && i < |c| && 0 < start
    requires n + HEADER < c[i].size && made == c[i].address + HEADER + n && rest == c[i].size - n - HEADER
    requires IsCut(m, g, c[i].address, made, n, rest)
    requires i + 1 < j <= |c|
    ensures Stands(g, Split(c, i, n), j)
  {
    SplitBehind(c, i, n, j);
    Distinct(c, start, end, i);
    Distinct(c, start, end, i + 1);
    Within(c, start, end, i + 1);
    assert Stands(m, c, i) && Stands(m, c, j - 1);
    if i + 2 < j {
      CutElsewhere(m, g, c[i].address, made, n, rest, c[j - 1].address);
    }
  }

  lemma CutLaid(m: Memory, c: Chain, start: nat, end: nat, i: nat, n: U64, made: U64, rest: U64, g: Memory)
    requires Tiled(c, start, end) && LaidOut(m, c) && i < |c| && 0 < start
    requires n + HEADER < c[i].size && made == c[i].address + HEADER + n && rest == c[i].size - n - HEADER
    requires IsCut(m, g, c[i].address, made, n, rest)
    ensures LaidOut(g, Split(c, i, n))
  {
    var d := Split(c, i, n);
    forall j | 0 <= j < |d| ensures Stands(g, d, j) {
      if j < i {
        CutBefore(m, c, start, end, i, n, made, rest, g, j);
      } else if j <= i + 1 {
        CutHere(m, c, start, end, i, n, made, rest, g);
      } else {
        CutBehind(m, c, start, end, i, n, made, rest, g, j);
      }
    }
  }

  // ---------------------------------------------------------------- lists

  lemma SplitTiled(c: Chain, start: nat, end: nat, i: nat, n: nat)
    requires Tiled(c, start, end) && i < |c|
    ensures Tiled(Split(c, i, n), start, end)
    ensures var d := Split(c, i, n);
      i < |d| && d[i].address == c[i].address &&
      (n + HEADER < c[i].size ==>
        d[|d| - 1].address == if i + 1 == |c| then c[i].address + HEADER + n else c[|c| - 1].address)
  {
    if n + HEADER < c[i].size {
      var m := [c[i].(size := n), Segment(c[i].address + HEADER + n, c[i].size - n - HEADER, true)];
      SpliceTiled(c, start, end, i, i + 1, m);
    }
  }

  lemma MergeTiled(c: Chain, start: nat, end: nat, i: nat)
    requires Tiled(c, start, end) && i + 1 < |c|
    ensures Tiled(Merge(c, i), start, end) && End(c[i]) == c[i + 1].address
    ensures Merge(c, i)[i].size == c[i].size + c[i + 1].size + HEADER
    ensures var d := Merge(c, i);
      d[|d| - 1].address == if i + 2 == |c| then c[i].address else c[|c| - 1].address
  {
    assert Touch(c, i);
    SpliceTiled(c, start, end, i, i + 2, [c[i].(size := c[i].size + c[i + 1].size + HEADER)]);
  }

  lemma MarkTiled(c: Chain, start: nat, end: nat, i: nat, free: bool)
    requires Tiled(c, start, end) && i < |c|
    ensures Tiled(c[i := c[i].(free := free)], start, end)
  {
    var d := c[i := c[i].(free := free)];
    forall k | 0 <= k < |d| - 1 ensures Touch(d, k) {
      assert Touch(c, k);
    }
  }

  /** The chain `c` from `start` up to `end` stands in memory, its last header at `last`. */
  predicate ListAt(m: Memory, c: Chain, start: nat, end: nat, last: nat) {
    0 < start && Tiled(c, start, end) && LaidOut(m, c) && last == c[|c| - 1].address
  }

  lemma MergeList(m: Memory, c: Chain, start: nat, end: nat, last: nat, i: nat, size: U64, far: U64,
                  g: Memory, last': nat)
    requires ListAt(m, c, start, end, last) && i + 1 < |c|
    requires size == c[i].size + c[i + 1].size + HEADER && far == if i + 2 < |c| then c[i + 2].address else 0
    requires IsMerged(m, g, c[i].address, size, far)
    requires last' == if last == c[i + 1].address then c[i].address else last
    ensures ListAt(g, Merge(c, i), start, end, last')
    ensures Load(g, c[i + 1].address + FREE) == FlagBit(c[i + 1].free)
  {
    MergeTiled(c, start, end, i);
    MergeLaid(m, c, start, end, i, size, far, g);
    Distinct(c, start, end, i + 1);
    Within(c, start, end, i + 1);
    assert Stands(m, c, i) && Stands(m, c, i + 1);
  }

  lemma CutList(m: Memory, c: Chain, start: nat, end: nat, last: nat, i: nat, n: U64, made: U64, rest: U64,
                g: Memory, last': nat)
    requires ListAt(m, c, start, end, last) && i < |c|
    requires n + HEADER < c[i].size && made == c[i].address + HEADER + n && rest == c[i].size - n - HEADER
    requires IsCut(m, g, c[i].address, made, n, rest)
    requires last' == if last == c[i].address then made else last
    ensures ListAt(g, Split(c, i, n), start, end, last')
  {
    SplitTiled(c, start, end, i, n);
    CutLaid(m, c, start, end, i, n, made, rest, g);
    Distinct(c, start, end, i);
  }

  /** The last segment with `k` pages more. */
  function Stretch(c: Chain, k: nat): Chain
    requires c != []
  {
    c[|c| - 1 := c[|c| - 1].(size := c[|c| - 1].size + PAGE * k)]
  }

  lemma StretchTiled(c: Chain, start: nat, end: nat)
    requires Tiled(c, start, end)
    ensures Tiled(Stretch(c, 1), start, end + PAGE)
  {
    var d := Stretch(c, 1);
    forall i | 0 <= i < |d| - 1 ensures Touch(d, i) {
      assert Touch(c, i);
    }
  }

  lemma StretchMore(c: Chain, k: nat)
    requires c != []
    ensures Stretch(Stretch(c, k), 1) == Stretch(c, k + 1) && Stretch(c, 0) == c
  {
  }

  lemma StretchAligned(c: Chain, k: nat)
    requires c != [] && Aligned(Stretch(c, k))
    ensures c[|c| - 1].size % 16 == 0
  {
    var s := Stretch(c, k)[|c| - 1];
    assert s.size % 16 == 0;
    PageAligned(c[|c| - 1].size, s.size, k);
  }

  lemma PageAligned(size: nat, grown: nat, k: nat)
    requires grown == size + PAGE * k && grown % 16 == 0
    ensures size % 16 == 0
  {
    ModShift(grown, 256 * k, 16);
  }

  /** Splitting off what a segment in use has gained makes the new free segment. */
  lemma GrowIs(c: Chain, k: nat)
    requires c != []
    ensures var last := c[|c| - 1];
      Grow(c, k) == if last.free then Stretch(c, k) else Split(Stretch(c, k), |c| - 1, last.size)
  {
  }

  // ---------------------------------------------------------------- headers that are no more

  // A merge leaves the header of the segment that it swallows in memory, with its magic number and
  // the flag set. Headers stand at multiples of 16, so a later header can lie over part of it.

  /** A segment in use begins at `a`. */
  predicate UsedAt(c: Chain, a: nat) {
    exists i :: 0 <= i < |c| && c[i].address == a && !c[i].free
  }

  /** While the callers write nothing, what passes the checks of `free` is a segment in use, or a
      header that is no more with another one 16 bytes behind, whose link to the next segment
      stands in place of the flag. */
  ghost predicate Quiet(m: Memory, c: Chain) {
    Aligned(c) && forall a: nat :: a % 16 == 0 && Passes(m, a) ==> UsedAt(c, a) || HasMagic(m, a + 16)
  }

  lemma QuietSound(m: Memory, c: Chain, a: nat)
    requires Quiet(m, c) && a % 16 == 0 && Passes(m, a)
    ensures UsedAt(c, a) || HasMagic(m, a + 16)
  {
  }

  /** No magic number is lost. */
  ghost predicate KeepsMagic(m: Memory, g: Memory) {
    forall a: nat :: a % 16 == 0 && HasMagic(m, a) ==> HasMagic(g, a)
  }

  predicate Covered(c: Chain, a: nat) {
    exists i :: 0 <= i < |c| && (a == c[i].address + NEXT || a == c[i].address + FREE)
  }

  /** Magic numbers are lost under the headers of the chain only. */
  ghost predicate KeepsMagicBut(m: Memory, g: Memory, c: Chain) {
    forall a: nat :: a % 16 == 0 && HasMagic(m, a) ==> HasMagic(g, a) || Covered(c, a)
  }

  /** From the memory `m` of the chain `c` to the memory `g` of `d`: quiet stays quiet, and
      no magic number is lost. */
  ghost predicate Calm(m: Memory, c: Chain, g: Memory, d: Chain) {
    Quiet(m, c) ==> Quiet(g, d) && KeepsMagic(m, g)
  }

  /** The same where headers have been written. */
  ghost predicate CalmBut(m: Memory, c: Chain, g: Memory, d: Chain) {
    Quiet(m, c) ==> Quiet(g, d) && KeepsMagicBut(m, g, d)
  }

  lemma CalmTwice(m: Memory, c: Chain, g: Memory, d: Chain, h: Memory, e: Chain)
    requires Calm(m, c, g, d)
    ensures Calm(g, d, h, e) ==> Calm(m, c, h, e)
    ensures CalmBut(g, d, h, e) ==> CalmBut(m, c, h, e)
  {
  }

  lemma CoversLater(c: Chain, d: Chain, a: nat)
    requires Covered(c, a) && forall i :: 0 <= i < |c| ==> exists j :: 0 <= j < |d| && d[j].address == c[i].address
    ensures Covered(d, a)
  {
    var i :| 0 <= i < |c| && (a == c[i].address + NEXT || a == c[i].address + FREE);
    var j :| 0 <= j < |d| && d[j].address == c[i].address;
  }

  /** Headers of `d` that are still headers in `e` cover what they covered. */
  lemma CalmLater(m: Memory, c: Chain, g: Memory, d: Chain, h: Memory, e: Chain)
    requires CalmBut(m, c, g, d) && CalmBut(g, d, h, e)
    requires forall i :: 0 <= i < |d| ==> exists j :: 0 <= j < |e| && e[j].address == d[i].address
    ensures CalmBut(m, c, h, e)
  {
    if Quiet(m, c) {
      forall a: nat | a % 16 == 0 && HasMagic(m, a) ensures HasMagic(h, a) || Covered(e, a) {
        if Covered(d, a) {
          CoversLater(d, e, a);
        }
      }
    }
  }

  lemma CalmSplit(m: Memory, c: Chain, g: Memory, d: Chain, h: Memory, i: nat, n: nat)
    requires i < |d| && CalmBut(m, c, g, d) && CalmBut(g, d, h, Split(d, i, n))
    ensures CalmBut(m, c, h, Split(d, i, n))
  {
    var e := Split(d, i, n);
    forall k | 0 <= k < |d| ensures exists j :: 0 <= j < |e| && e[j].address == d[k].address {
      assert e[if e == d || k <= i then k else k + 1].address == d[k].address;
    }
    CalmLater(m, c, g, d, h, e);
  }

  lemma CalmMark(m: Memory, c: Chain, g: Memory, d: Chain, h: Memory, i: nat, free: bool)
    requires i < |d| && CalmBut(m, c, g, d) && Calm(g, d, h, d[i := d[i].(free := free)])
    ensures CalmBut(m, c, h, d[i := d[i].(free := free)])
  {
    var e := d[i := d[i].(free := free)];
    forall k | 0 <= k < |d| ensures exists j :: 0 <= j < |e| && e[j].address == d[k].address {
      assert e[k].address == d[k].address;
    }
    CalmLater(m, c, g, d, h, e);
  }

  /** An address is no magic number. */
  lemma AddressNoMagic(m: Memory, a: nat)
    requires Load(m, a) % 16 == 0
    ensures !HasMagic(m, a)
  {
  }

  lemma FlagNoMagic(m: Memory, a: nat)
    requires Load(m, a) <= 1
    ensures !HasMagic(m, a)
  {
  }

  lemma MagicStands(m: Memory, a: nat)
    requires Load(m, a) == HEAP_MAGIC
    ensures HasMagic(m, a) && Load(m, a) % 0x100 != 0
  {
  }

  /** The words of a header at multiples of 16. */
  lemma EvenWords(w: nat, a: nat)
    requires w % 16 == 0 && a % 16 == 0 && Inside(w, a)
    ensures w == a || w == a + NEXT || w == a + FREE
  {
  }

  lemma EvenPlus(a: nat)
    requires a % 16 == 0
    ensures (a + NEXT) % 16 == 0 && (a + FREE) % 16 == 0
  {
  }

  lemma MadeAligned(a: nat, n: nat)
    requires a % 16 == 0 && n % 16 == 0
    ensures (a + HEADER + n) % 16 == 0
  {
  }

  /** A cut changes four of the words that `free` may look at. */
  lemma CutEven(m: Memory, g: Memory, at: nat, made: U64, n: U64, rest: U64, w: nat)
    requires IsCut(m, g, at, made, n, rest) && at % 16 == 0 && made % 16 == 0 && Load(m, at + NEXT) % 16 == 0
    requires w % 16 == 0 && w != made && w != made + NEXT && w != made + FREE && w != at + NEXT
    ensures Load(g, w) == Load(m, w)
  {
    var far := Load(m, at + NEXT);
    if Inside(w, made) {
      EvenWords(w, made);
    }
    if Inside(w, at) {
      EvenWords(w, at);
    } else if far != 0 && Inside(w, far) {
      EvenWords(w, far);
    }
  }

  lemma AlignedLinks(m: Memory, c: Chain, i: nat)
    requires Aligned(c) && LaidOut(m, c) && i < |c|
    ensures c[i].address % 16 == 0 && Load(m, c[i].address + NEXT) % 16 == 0
    ensures Load(m, c[i].address) == HEAP_MAGIC && Load(m, c[i].address + FREE) == FlagBit(c[i].free)
  {
    assert Stands(m, c, i);
  }

  lemma SplitUsed(c: Chain, i: nat, n: nat, a: nat)
    requires i < |c| && UsedAt(c, a)
    ensures UsedAt(Split(c, i, n), a)
  {
    var d := Split(c, i, n);
    var j :| 0 <= j < |c| && c[j].address == a && !c[j].free;
    if d != c {
      var k := if j <= i then j else j + 1;
      assert d[k].address == a && !d[k].free;
    }
  }

  /** What passes the checks of `free` after a cut. */
  lemma CutPasses(m: Memory, g: Memory, at: nat, made: U64, n: U64, rest: U64, a: nat)
    requires IsCut(m, g, at, made, n, rest) && at % 16 == 0 && made % 16 == 0 && Load(m, at + NEXT) % 16 == 0
    requires Load(m, at) == HEAP_MAGIC && a % 16 == 0 && Passes(g, a)
    ensures a != made && HasMagic(m, a) && (Passes(m, a) || HasMagic(g, a + 16))
  {
    FlagNoMagic(g, made + FREE);
    AddressNoMagic(g, made + NEXT);
    AddressNoMagic(g, at + NEXT);
    assert IsFree(g, made);
    CutEven(m, g, at, made, n, rest, a);
    MagicStands(g, made);
    MagicStands(g, at);
    EvenPlus(a);
    if a + FREE != made + NEXT && a + FREE != at + NEXT {
      CutEven(m, g, at, made, n, rest, a + FREE);
    }
  }

  lemma CutKeeps(m: Memory, g: Memory, c: Chain, i: nat, n: U64, made: U64, rest: U64, a: nat)
    requires Aligned(c) && LaidOut(m, c) && i < |c| && n + HEADER < c[i].size && made % 16 == 0
    requires made == c[i].address + HEADER + n && IsCut(m, g, c[i].address, made, n, rest)
    requires a % 16 == 0 && HasMagic(m, a)
    ensures HasMagic(g, a) || a == made + NEXT || a == made + FREE || a == c[i].address + NEXT
    ensures HasMagic(g, a) || Covered(Split(c, i, n), a)
  {
    AlignedLinks(m, c, i);
    MagicStands(g, made);
    if a != made && a != made + NEXT && a != made + FREE && a != c[i].address + NEXT {
      CutEven(m, g, c[i].address, made, n, rest, a);
    }
    var d := Split(c, i, n);
    assert d[i].address == c[i].address && d[i + 1].address == made;
  }

  /** A split keeps the rest of the memory quiet. */
  lemma CutQuiet(m: Memory, g: Memory, c: Chain, i: nat, n: U64, made: U64, rest: U64)
    requires Quiet(m, c) && LaidOut(m, c) && i < |c| && n + HEADER < c[i].size && n % 16 == 0
    requires made == c[i].address + HEADER + n && rest == c[i].size - n - HEADER
    requires IsCut(m, g, c[i].address, made, n, rest)
    ensures Quiet(g, Split(c, i, n)) && KeepsMagicBut(m, g, Split(c, i, n))
  {
    var d := Split(c, i, n);
    SplitAligned(c, i, n);
    CutKeepsAll(m, g, c, i, n, made, rest);
    forall a: nat | a % 16 == 0 && Passes(g, a) ensures UsedAt(d, a) || HasMagic(g, a + 16) {
      CutStaysQuiet(m, g, c, i, n, made, rest, a);
    }
  }

  lemma SplitAligned(c: Chain, i: nat, n: nat)
    requires Aligned(c) && i < |c| && n % 16 == 0
    ensures Aligned(Split(c, i, n))
  {
    if n + HEADER < c[i].size {
      SpliceAligned(c, i, i + 1,
        [c[i].(size := n), Segment(c[i].address + HEADER + n, c[i].size - n - HEADER, true)]);
    }
  }

  lemma CutKeepsAll(m: Memory, g: Memory, c: Chain, i: nat, n: U64, made: U64, rest: U64)
    requires Aligned(c) && LaidOut(m, c) && i < |c| && n + HEADER < c[i].size && n % 16 == 0
    requires made == c[i].address + HEADER + n && IsCut(m, g, c[i].address, made, n, rest)
    ensures KeepsMagicBut(m, g, Split(c, i, n))
  {
    MadeAligned(c[i].address, n);
    forall a: nat | a % 16 == 0 && HasMagic(m, a) ensures HasMagic(g, a) || Covered(Split(c, i, n), a) {
      CutKeeps(m, g, c, i, n, made, rest, a);
    }
  }

  lemma CutStaysQuiet(m: Memory, g: Memory, c: Chain, i: nat, n: U64, made: U64, rest: U64, a: nat)
    requires Quiet(m, c) && LaidOut(m, c) && i < |c| && n + HEADER < c[i].size && n % 16 == 0
    requires made == c[i].address + HEADER + n && IsCut(m, g, c[i].address, made, n, rest)
    requires a % 16 == 0 && Passes(g, a)
    ensures UsedAt(Split(c, i, n), a) || HasMagic(g, a + 16)
  {
    AlignedLinks(m, c, i);
    MadeAligned(c[i].address, n);
    EvenPlus(a);
    CutPasses(m, g, c[i].address, made, n, rest, a);
    if Passes(m, a) && UsedAt(c, a) {
      SplitUsed(c, i, n, a);
    } else if Passes(m, a) {
      CutKeeps(m, g, c, i, n, made, rest, a + 16);
      AddressNoMagic(g, made + NEXT);
    }
  }

  /** A merge changes one of the words that `free` may look at. */
  lemma MergeEven(m: Memory, g: Memory, at: nat, size: U64, far: U64, w: nat)
    requires IsMerged(m, g, at, size, far) && at % 16 == 0 && far % 16 == 0 && w % 16 == 0 && w != at + NEXT
    ensures Load(g, w) == Load(m, w)
  {
    if Inside(w, at) {
      EvenWords(w, at);
    } else if far != 0 && Inside(w, far) {
      EvenWords(w, far);
    }
  }

  lemma MergeUsed(c: Chain, i: nat, a: nat)
    requires i + 1 < |c| && c[i + 1].free && UsedAt(c, a)
    ensures UsedAt(Merge(c, i), a)
  {
    var d := Merge(c, i);
    var j :| 0 <= j < |c| && c[j].address == a && !c[j].free;
    var k := if j <= i then j else j - 1;
    assert d[k].address == a && !d[k].free;
  }

  /** A merge loses no magic number and keeps the memory quiet if the segment that goes was free. */
  lemma MergeQuiet(m: Memory, g: Memory, c: Chain, i: nat, size: U64, far: U64)
    requires Aligned(c) && LaidOut(m, c) && i + 1 < |c| && far == if i + 2 < |c| then c[i + 2].address else 0
    requires size == c[i].size + c[i + 1].size + HEADER && IsMerged(m, g, c[i].address, size, far)
    ensures KeepsMagic(m, g)
    ensures Quiet(m, c) && c[i + 1].free ==> Quiet(g, Merge(c, i))
  {
    var d, at := Merge(c, i), c[i].address;
    AlignedLinks(m, c, i);
    SpliceAligned(c, i, i + 2, [d[i]]);
    AddressNoMagic(m, at + NEXT);
    forall a: nat | a % 16 == 0 && HasMagic(m, a) ensures HasMagic(g, a) {
      MergeEven(m, g, at, size, far, a);
    }
    if Quiet(m, c) && c[i + 1].free {
      forall a: nat | a % 16 == 0 && Passes(g, a) ensures UsedAt(d, a) || HasMagic(g, a + 16) {
        MergePasses(m, g, c, i, size, far, a);
        if UsedAt(c, a) {
          MergeUsed(c, i, a);
        }
      }
    }
  }

  lemma MergePasses(m: Memory, g: Memory, c: Chain, i: nat, size: U64, far: U64, a: nat)
    requires Aligned(c) && LaidOut(m, c) && i + 1 < |c| && far == if i + 2 < |c| then c[i + 2].address else 0
    requires IsMerged(m, g, c[i].address, size, far) && a % 16 == 0 && Passes(g, a)
    ensures Passes(m, a) || HasMagic(g, a + 16)
  {
    var at := c[i].address;
    AlignedLinks(m, c, i);
    AddressNoMagic(g, at + NEXT);
    MagicStands(g, at);
    MergeEven(m, g, at, size, far, a);
    if a + FREE != at + NEXT {
      MergeEven(m, g, at, size, far, a + FREE);
    }
  }

  /** So do the stores to the size and the flag of a header. */
  lemma SizedQuiet(m: Memory, g: Memory, c: Chain, i: nat, s: Segment)
    requires LaidOut(m, c) && i < |c| && Aligned(c) && s.address == c[i].address && s.size < TWO64
    requires IsSized(m, g, c[i].address, s.size, s.free)
    ensures KeepsMagic(m, g)
    ensures Quiet(m, c) && s.size % 16 == 0 ==> Quiet(g, c[i := s])
  {
    var d, at := c[i := s], c[i].address;
    AlignedLinks(m, c, i);
    FlagNoMagic(m, at + FREE);
    forall a: nat | a % 16 == 0 && HasMagic(m, a) ensures HasMagic(g, a) {
      SizedEven(m, g, at, s.size, s.free, a);
    }
    if Quiet(m, c) && s.size % 16 == 0 {
      forall a: nat | a % 16 == 0 && Passes(g, a) ensures UsedAt(d, a) || HasMagic(g, a + 16) {
        SizedPasses(m, g, at, s.size, s.free, a);
        if a == at {
          assert d[i].address == a;
        } else if UsedAt(c, a) {
          var j :| 0 <= j < |c| && c[j].address == a && !c[j].free;
          assert d[j].address == a;
        }
      }
    }
  }

  lemma SizedEven(m: Memory, g: Memory, at: nat, size: U64, free: bool, w: nat)
    requires IsSized(m, g, at, size, free) && at % 16 == 0 && w % 16 == 0 && w != at + FREE
    ensures Load(g, w) == Load(m, w)
  {
    if Inside(w, at) {
      EvenWords(w, at);
    }
  }

  lemma SizedPasses(m: Memory, g: Memory, at: nat, size: U64, free: bool, a: nat)
    requires IsSized(m, g, at, size, free) && at % 16 == 0 && a % 16 == 0 && Passes(g, a)
    ensures if a == at then !free else Passes(m, a)
  {
    FlagNoMagic(g, at + FREE);
    SizedEven(m, g, at, size, free, a);
    if a != at {
      SizedEven(m, g, at, size, free, a + FREE);
    }
  }

  // ---------------------------------------------------------------- steps of the list

  /** The words that `split` reads in a list. */
  lemma SplitReady(m: Memory, c: Chain, start: nat, end: nat, last: nat, i: nat, made: U64)
    requires ListAt(m, c, start, end, last) && i < |c| && end < TWO64
    requires c[i].address + HEADER <= made && made + HEADER <= End(c[i])
    ensures End(c[i]) <= end && CutApart(m, c[i].address, made) && Load(m, c[i].address + SIZE) == c[i].size
    ensures var far := Load(m, c[i].address + NEXT); far == 0 || start <= far
  {
    assert Stands(m, c, i);
    Within(c, start, end, i);
    if i + 1 < |c| {
      assert Touch(c, i);
      Within(c, start, end, i + 1);
    }
  }

  lemma SplitStep(m: Memory, c: Chain, start: nat, end: nat, last: nat, i: nat, n: U64, made: U64, rest: U64,
                  g: Memory, last': nat)
    requires ListAt(m, c, start, end, last) && i < |c| && end < TWO64
    requires n + HEADER < c[i].size && made == c[i].address + HEADER + n && rest == c[i].size - n - HEADER
    requires c[i].address < TWO64 && CutApart(m, c[i].address, made) && g == CutMemory(m, c[i].address, made, n, rest)
    requires last' == if last == c[i].address then made else last
    ensures ListAt(g, Split(c, i, n), start, end, last')
    ensures n % 16 == 0 ==> CalmBut(m, c, g, Split(c, i, n))
  {
    CutStores(m, c[i].address, made, n, rest);
    CutList(m, c, start, end, last, i, n, made, rest, g, last');
    if Quiet(m, c) && n % 16 == 0 {
      CutQuiet(m, g, c, i, n, made, rest);
    }
  }

  /** The words that a merge reads in a list. */
  lemma MergeReady(m: Memory, c: Chain, start: nat, end: nat, last: nat, i: nat)
    requires ListAt(m, c, start, end, last) && i + 1 < |c|
    ensures End(c[i + 1]) <= end && c[i].address + HEADER + c[i].size == c[i + 1].address
    ensures Load(m, c[i].address + SIZE) == c[i].size && Load(m, c[i + 1].address + SIZE) == c[i + 1].size
    ensures Load(m, c[i + 1].address + NEXT) == if i + 2 < |c| then c[i + 2].address else 0
    ensures i + 2 < |c| ==> End(c[i + 1]) <= c[i + 2].address
  {
    assert Stands(m, c, i) && Stands(m, c, i + 1) && Touch(c, i);
    Within(c, start, end, i + 1);
    assert i + 2 < |c| ==> Touch(c, i + 1);
  }

  lemma MergeStep(m: Memory, c: Chain, start: nat, end: nat, last: nat, i: nat, size: U64, far: U64,
                  g: Memory, last': nat)
    requires ListAt(m, c, start, end, last) && i + 1 < |c| && c[i].address < TWO64
    requires size == c[i].size + c[i + 1].size + HEADER && far == if i + 2 < |c| then c[i + 2].address else 0
    requires g == MergeMemory(m, c[i].address, size, far)
    requires last' == if last == c[i + 1].address then c[i].address else last
    ensures ListAt(g, Merge(c, i), start, end, last')
    ensures Load(g, c[i].address + FREE) == FlagBit(c[i].free)
    ensures Load(g, c[i + 1].address + FREE) == FlagBit(c[i + 1].free)
    ensures c[i + 1].free ==> Calm(m, c, g, Merge(c, i))
  {
    MergeReady(m, c, start, end, last, i);
    MergeStores(m, c[i].address, size, far);
    MergeList(m, c, start, end, last, i, size, far, g, last');
    assert Stands(m, c, i);
    if Aligned(c) {
      MergeQuiet(m, g, c, i, size, far);
    }
  }

  /** The stores to the size and the flag of a header. */
  lemma SizedStep(m: Memory, c: Chain, start: nat, end: nat, i: nat, s: Segment, g: Memory)
    requires Tiled(c, start, end) && LaidOut(m, c) && i < |c| && s.address == c[i].address && s.size < TWO64
    requires IsSized(m, g, c[i].address, s.size, s.free)
    ensures LaidOut(g, c[i := s])
    ensures s.size % 16 == 0 || s.size == c[i].size ==> Calm(m, c, g, c[i := s])
  {
    FieldsLaid(m, c, start, end, i, s, g);
    if Aligned(c) {
      SizedQuiet(m, g, c, i, s);
    }
  }

  /** The first header, in pages of zeros. */
  lemma FirstHeader(a: nat, size: U64)
    requires 0 < a && a % 16 == 0 && size % 16 == 0
    ensures ListAt(Made(map[], a, size), [Segment(a, size, true)], a, a + HEADER + size, a)
    ensures Quiet(Made(map[], a, size), [Segment(a, size, true)])
  {
    var m, c := Made(map[], a, size), [Segment(a, size, true)];
    MadeIs(map[], a, size);
    assert Stands(m, c, 0);
    forall x: nat | x % 16 == 0 ensures !Passes(m, x) {
      OneHeader(m, a, size, x);
    }
  }

  lemma OneHeader(m: Memory, a: nat, size: U64, x: nat)
    requires Read(m, a) == Header(HEAP_MAGIC, 0, 0, size, 1) && a % 16 == 0 && x % 16 == 0
    requires forall w: nat :: !Inside(w, a) ==> Load(m, w) == 0
    ensures !Passes(m, x)
  {
    if Inside(x, a) {
      EvenWords(x, a);
    }
  }
}

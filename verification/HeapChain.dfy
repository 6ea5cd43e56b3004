/** The kernel heap as a chain of segments, and what allocation and release do to it. */
module HeapChain {
  import opened Machine

  /** sizeof(heap_header). */
  const HEADER: nat := 48
  const PAGE: nat := 0x1000

  /** A segment: its header at `address`, then `size` bytes. */
  datatype Segment = Segment(address: nat, size: nat, free: bool)

  type Chain = seq<Segment>

  function End(s: Segment): nat {
    s.address + HEADER + s.size
  }

  // ---------------------------------------------------------------- the shape of a chain

  predicate Touch(c: Chain, i: nat)
    requires i + 1 < |c|
  {
    c[i + 1].address == End(c[i])
  }

  /** The segments cover the bytes from `start` up to `end` without gap or overlap. */
  predicate Tiled(c: Chain, start: nat, end: nat) {
    && c != [] && c[0].address == start && End(c[|c| - 1]) == end
    && forall i :: 0 <= i < |c| - 1 ==> Touch(c, i)
  }

  predicate Apart(c: Chain, i: nat)
    requires i + 1 < |c|
  {
    !(c[i].free && c[i + 1].free)
  }

  /** No two free segments stand side by side. */
  predicate Coalesced(c: Chain) {
    forall i :: 0 <= i < |c| - 1 ==> Apart(c, i)
  }

  predicate Aligned(c: Chain) {
    forall i :: 0 <= i < |c| ==> c[i].address % 16 == 0 && c[i].size % 16 == 0
  }

  /** What every operation keeps. */
  predicate Sound(c: Chain, start: nat, end: nat) {
    Tiled(c, start, end) && Coalesced(c) && Aligned(c)
  }

  lemma {:induction false} Ordered(c: Chain, start: nat, end: nat, i: nat, j: nat)
    requires Tiled(c, start, end) && i < j < |c|
    ensures End(c[i]) <= c[j].address
    decreases j
  {
    assert Touch(c, j - 1);
    if i < j - 1 {
      Ordered(c, start, end, i, j - 1);
    }
  }

  lemma Within(c: Chain, start: nat, end: nat, i: nat)
    requires Tiled(c, start, end) && i < |c|
    ensures start <= c[i].address && End(c[i]) <= end
  {
    if 0 < i {
      Ordered(c, start, end, 0, i);
    }
    if i < |c| - 1 {
      Ordered(c, start, end, i, |c| - 1);
    }
  }

  // ---------------------------------------------------------------- live blocks

  /** What a caller of `malloc` holds: `size` bytes from `address` on. */
  datatype Block = Block(address: nat, size: nat)

  function BlockOf(s: Segment): Block {
    Block(s.address + HEADER, s.size)
  }

  function Blocks(c: Chain): set<Block> {
    set i | 0 <= i < |c| && !c[i].free :: BlockOf(c[i])
  }

  lemma BlockIn(c: Chain, b: Block) returns (i: nat)
    requires b in Blocks(c)
    ensures i < |c| && !c[i].free && b == BlockOf(c[i])
  {
    i :| i < |c| && !c[i].free && b == BlockOf(c[i]);
  }

  lemma BlocksConcat(a: Chain, b: Chain)
    ensures Blocks(a + b) == Blocks(a) + Blocks(b)
  {
    forall x | x in Blocks(a) ensures x in Blocks(a + b) {
      var i := BlockIn(a, x);
      assert (a + b)[i] == a[i];
    }
    forall x | x in Blocks(b) ensures x in Blocks(a + b) {
      var i := BlockIn(b, x);
      assert (a + b)[|a| + i] == b[i];
    }
  }

  /** Live blocks lie apart from each other. */
  lemma BlocksDisjoint(c: Chain, start: nat, end: nat, x: Block, y: Block)
    requires Tiled(c, start, end) && x in Blocks(c) && y in Blocks(c) && x != y
    ensures x.address + x.size + HEADER <= y.address || y.address + y.size + HEADER <= x.address
  {
    var i := BlockIn(c, x);
    var j := BlockIn(c, y);
    if i < j {
      Ordered(c, start, end, i, j);
    } else {
      Ordered(c, start, end, j, i);
    }
  }

  /** They lie inside the heap and apart from every header. */
  lemma BlockApart(c: Chain, start: nat, end: nat, x: Block, k: nat)
    requires Tiled(c, start, end) && x in Blocks(c) && k < |c|
    ensures start + HEADER <= x.address && x.address + x.size <= end
    ensures c[k].address + HEADER <= x.address || x.address + x.size <= c[k].address
  {
    var i := BlockIn(c, x);
    Within(c, start, end, i);
    if i < k {
      Ordered(c, start, end, i, k);
    } else if k < i {
      Ordered(c, start, end, k, i);
    }
  }

  // ---------------------------------------------------------------- sums

  /** The bytes in use. */
  function Used(c: Chain): nat {
    if c == [] then 0 else (if c[0].free then 0 else c[0].size) + Used(c[1..])
  }

  function Idle(c: Chain): nat {
    if c == [] then 0 else (if c[0].free then c[0].size else 0) + Idle(c[1..])
  }

  lemma {:induction false} UsedConcat(a: Chain, b: Chain)
    ensures Used(a + b) == Used(a) + Used(b)
    decreases |a|
  {
    if a == [] {
      assert a + b == b;
    } else {
      UsedConcat(a[1..], b);
      assert (a + b)[1..] == a[1..] + b;
    }
  }

  lemma TiledTail(c: Chain, start: nat, end: nat)
    requires Tiled(c, start, end) && |c| > 1
    ensures Tiled(c[1..], End(c[0]), end)
  {
    assert Touch(c, 0);
    forall i | 0 <= i < |c[1..]| - 1 ensures Touch(c[1..], i) {
      assert Touch(c, i + 1);
    }
  }

  /** Every byte of the heap is in use, free, or part of a header. */
  lemma {:induction false} Accounting(c: Chain, start: nat, end: nat)
    requires Tiled(c, start, end)
    ensures Used(c) + Idle(c) + HEADER * |c| == end - start
    decreases |c|
  {
    if |c| > 1 {
      TiledTail(c, start, end);
      Accounting(c[1..], End(c[0]), end);
    } else {
      assert c[1..] == [];
    }
  }

  // ---------------------------------------------------------------- replacing a stretch

  /** The segments from `i` up to `j` replaced by `m`. */
  function Splice(c: Chain, i: nat, j: nat, m: Chain): Chain
    requires i <= j <= |c|
  {
    c[..i] + m + c[j..]
  }

  predicate SameEnds(c: Chain, i: nat, j: nat, m: Chain)
    requires i < j <= |c|
  {
    Tiled(m, c[i].address, End(c[j - 1]))
  }

  lemma SpliceTiled(c: Chain, start: nat, end: nat, i: nat, j: nat, m: Chain)
    requires Tiled(c, start, end) && i < j <= |c| && SameEnds(c, i, j, m)
    ensures Tiled(Splice(c, i, j, m), start, end)
  {
    var d := Splice(c, i, j, m);
    forall k | 0 <= k < |d| - 1 ensures Touch(d, k) {
      if k < i {
        assert Touch(c, k);
      } else if i <= k < i + |m| - 1 {
        assert Touch(m, k - i);
      } else if k == i + |m| - 1 {
        assert Touch(c, j - 1);
      } else {
        assert Touch(c, k - i - |m| + j);
      }
    }
  }

  predicate BorderApart(c: Chain, i: nat, j: nat, m: Chain)
    requires i < j <= |c| && m != []
  {
    && (0 < i ==> !(c[i - 1].free && m[0].free))
    && (j < |c| ==> !(m[|m| - 1].free && c[j].free))
  }

  lemma SpliceCoalesced(c: Chain, i: nat, j: nat, m: Chain)
    requires Coalesced(c) && i < j <= |c| && m != [] && Coalesced(m) && BorderApart(c, i, j, m)
    ensures Coalesced(Splice(c, i, j, m))
  {
    var d := Splice(c, i, j, m);
    forall k | 0 <= k < |d| - 1 ensures Apart(d, k) {
      if k < i - 1 {
        assert Apart(c, k);
      } else if k == i - 1 {
      } else if k < i + |m| - 1 {
        assert Apart(m, k - i);
      } else if k == i + |m| - 1 {
      } else {
        assert Apart(c, k - i - |m| + j);
      }
    }
  }

  lemma SpliceAligned(c: Chain, i: nat, j: nat, m: Chain)
    requires Aligned(c) && i <= j <= |c| && Aligned(m)
    ensures Aligned(Splice(c, i, j, m))
  {
    var d := Splice(c, i, j, m);
    forall k | 0 <= k < |d| ensures d[k].address % 16 == 0 && d[k].size % 16 == 0 {
      if k < i {
        assert d[k] == c[k];
      } else if k < i + |m| {
        assert d[k] == m[k - i];
      } else {
        assert d[k] == c[k - i - |m| + j];
      }
    }
  }

  lemma SpliceSound(c: Chain, start: nat, end: nat, i: nat, j: nat, m: Chain)
    requires Sound(c, start, end) && i < j <= |c| && SameEnds(c, i, j, m)
    requires Coalesced(m) && Aligned(m) && BorderApart(c, i, j, m)
    ensures Sound(Splice(c, i, j, m), start, end)
  {
    SpliceTiled(c, start, end, i, j, m);
    SpliceCoalesced(c, i, j, m);
    SpliceAligned(c, i, j, m);
  }

  /** A chain in three parts. */
  lemma Parted(c: Chain, i: nat, j: nat)
    requires i <= j <= |c|
    ensures c == c[..i] + c[i..j] + c[j..]
  {
  }

  lemma SpliceBlocks(c: Chain, i: nat, j: nat, m: Chain)
    requires i <= j <= |c|
    ensures Blocks(Splice(c, i, j, m)) == Blocks(c[..i]) + Blocks(m) + Blocks(c[j..])
    ensures Blocks(c) == Blocks(c[..i]) + Blocks(c[i..j]) + Blocks(c[j..])
  {
    Parted(c, i, j);
    BlocksConcat(c[..i] + m, c[j..]);
    BlocksConcat(c[..i], m);
    BlocksConcat(c[..i] + c[i..j], c[j..]);
    BlocksConcat(c[..i], c[i..j]);
  }

  lemma SpliceUsed(c: Chain, i: nat, j: nat, m: Chain)
    requires i <= j <= |c|
    ensures Used(Splice(c, i, j, m)) == Used(c) - Used(c[i..j]) + Used(m)
  {
    Parted(c, i, j);
    UsedConcat(c[..i] + m, c[j..]);
    UsedConcat(c[..i], m);
    UsedConcat(c[..i] + c[i..j], c[j..]);
    UsedConcat(c[..i], c[i..j]);
  }

  lemma SameSet(x: set<Block>)
    ensures x - {} == x && x + {} == x
  {
  }

  /** All of this for a replacement `m` of a stretch that held the blocks `gone`. */
  lemma Replaced(c: Chain, start: nat, end: nat, i: nat, j: nat, m: Chain, d: Chain, gone: set<Block>)
    requires Sound(c, start, end) && i < j <= |c| && SameEnds(c, i, j, m) && d == Splice(c, i, j, m)
    requires Coalesced(m) && Aligned(m) && BorderApart(c, i, j, m)
    requires Blocks(c[i..j]) == gone && gone !! Blocks(c[..i]) && gone !! Blocks(c[j..])
    ensures Sound(d, start, end) && Blocks(d) == Blocks(c) - gone + Blocks(m)
    ensures Used(d) == Used(c) - Used(c[i..j]) + Used(m)
  {
    SpliceSound(c, start, end, i, j, m);
    SpliceBlocks(c, i, j, m);
    SpliceUsed(c, i, j, m);
  }

  // ---------------------------------------------------------------- the operations

  /** The first free segment from `i` on with room for `n` bytes, or the end. */
  function FirstFit(c: Chain, n: nat, i: nat): (k: nat)
    requires i <= |c|
    ensures i <= k <= |c|
    ensures k < |c| ==> c[k].free && n <= c[k].size
    ensures forall j :: i <= j < k ==> !(c[j].free && n <= c[j].size)
    decreases |c| - i
  {
    if i == |c| || (c[i].free && n <= c[i].size) then i else FirstFit(c, n, i + 1)
  }

  /** `split`: what lies behind the first `n` bytes becomes a free segment if it is more than
      a header. */
  function Split(c: Chain, i: nat, n: nat): Chain
    requires i < |c|
  {
    if c[i].size <= n + HEADER then c
    else Splice(c, i, i + 1, [c[i].(size := n), Segment(c[i].address + HEADER + n, c[i].size - n - HEADER, true)])
  }

  /** The segment found for `n` bytes, cut to size and no longer free. */
  function Take(c: Chain, i: nat, n: nat): Chain
    requires i < |c|
  {
    var d := Split(c, i, n);
    d[i := d[i].(free := false)]
  }

  /** Segment `i` and the one behind it as one. */
  function Merge(c: Chain, i: nat): Chain
    requires i + 1 < |c|
  {
    Splice(c, i, i + 2, [c[i].(size := c[i].size + c[i + 1].size + HEADER)])
  }

  /** Segment `i` freed and merged with its free neighbours. */
  function Release(c: Chain, i: nat): Chain
    requires i < |c|
  {
    var freed := c[i := c[i].(free := true)];
    var ahead := if i + 1 < |c| && c[i + 1].free then Merge(freed, i) else freed;
    if 0 < i && c[i - 1].free then Merge(ahead, i - 1) else ahead
  }

  /** `k` pages more: the last segment grows, or a free one follows it. */
  function Grow(c: Chain, k: nat): Chain
    requires c != []
  {
    var last := c[|c| - 1];
    if k == 0 then c
    else if last.free then c[|c| - 1 := last.(size := last.size + PAGE * k)]
    else c + [Segment(End(last), PAGE * k - HEADER, true)]
  }

  // ---------------------------------------------------------------- what they do

  /** Taking a segment as a replacement. */
  function Taken(s: Segment, n: nat): Chain {
    if s.size <= n + HEADER then [s.(free := false)]
    else [Segment(s.address, n, false), Segment(s.address + HEADER + n, s.size - n - HEADER, true)]
  }

  lemma TakeIs(c: Chain, i: nat, n: nat)
    requires i < |c|
    ensures Take(c, i, n) == Splice(c, i, i + 1, Taken(c[i], n))
  {
  }

  /** The size of the block taken from a segment. */
  function Granted(s: Segment, n: nat): nat {
    if s.size <= n + HEADER then s.size else n
  }

  lemma TakenIs(s: Segment, n: nat)
    requires s.free && n <= s.size
    ensures Tiled(Taken(s, n), s.address, End(s)) && Coalesced(Taken(s, n))
    ensures Blocks(Taken(s, n)) == {Block(s.address + HEADER, Granted(s, n))}
    ensures Used(Taken(s, n)) == Granted(s, n)
    ensures s.address % 16 == 0 && s.size % 16 == 0 && n % 16 == 0 ==> Aligned(Taken(s, n))
  {
    var t := Taken(s, n);
    Alone(t, 0);
    if |t| == 2 {
      Alone(t, 1);
      assert t[1..] == [t[1]];
    } else {
      assert t == [t[0]];
    }
  }

  lemma Alone(c: Chain, i: nat)
    requires i < |c|
    ensures c[i..i + 1] == [c[i]]
    ensures Blocks([c[i]]) == if c[i].free then {} else {BlockOf(c[i])}
    ensures Used([c[i]]) == if c[i].free then 0 else c[i].size
  {
    assert [c[i]][1..] == [];
  }

  lemma FreeApart(c: Chain, i: nat)
    requires Coalesced(c) && i < |c| && c[i].free
    ensures 0 < i ==> !c[i - 1].free
    ensures i + 1 < |c| ==> !c[i + 1].free
  {
    assert 0 < i ==> Apart(c, i - 1);
    assert i + 1 < |c| ==> Apart(c, i);
  }

  lemma TakeParts(c: Chain, i: nat, n: nat) returns (m: Chain, b: Block)
    requires Aligned(c) && i < |c| && c[i].free && n <= c[i].size && n % 16 == 0
    ensures SameEnds(c, i, i + 1, m) && Coalesced(m) && Aligned(m) && m != [] && !m[0].free
    ensures b == Block(c[i].address + HEADER, Granted(c[i], n)) && Blocks(m) == {b} && Used(m) == b.size
    ensures Take(c, i, n) == Splice(c, i, i + 1, m)
  {
    m := Taken(c[i], n);
    b := Block(c[i].address + HEADER, Granted(c[i], n));
    TakenIs(c[i], n);
    TakeIs(c, i, n);
  }

  /** Taking a fitting free segment keeps the chain sound and adds exactly one block. */
  lemma TakeSound(c: Chain, start: nat, end: nat, i: nat, n: nat)
    requires Sound(c, start, end) && i < |c| && c[i].free && n <= c[i].size && n % 16 == 0
    ensures Sound(Take(c, i, n), start, end)
    ensures Blocks(Take(c, i, n)) == Blocks(c) + {Block(c[i].address + HEADER, Granted(c[i], n))}
    ensures Used(Take(c, i, n)) == Used(c) + Granted(c[i], n)
  {
    var m, b := TakeParts(c, i, n);
    FreeApart(c, i);
    assert Blocks(c[i..i + 1]) == {} && Used(c[i..i + 1]) == 0 by { Alone(c, i); }
    SameSet(Blocks(c));
    Replaced(c, start, end, i, i + 1, m, Take(c, i, n), {});
  }

  /** The stretch that becomes one free segment when segment `i` is released. */
  function From(c: Chain, i: nat): (lo: nat)
    requires i < |c|
    ensures lo <= i
  {
    if 0 < i && c[i - 1].free then i - 1 else i
  }

  function To(c: Chain, i: nat): (hi: nat)
    requires i < |c|
    ensures i < hi <= |c|
  {
    if i + 1 < |c| && c[i + 1].free then i + 2 else i + 1
  }

  function Hole(address: nat, end: nat): Segment
    requires address + HEADER <= end
  {
    Segment(address, end - address - HEADER, true)
  }

  lemma StretchEnds(c: Chain, start: nat, end: nat, i: nat)
    requires Tiled(c, start, end) && i < |c|
    ensures c[From(c, i)].address + HEADER <= End(c[To(c, i) - 1])
  {
    assert 0 < i ==> Touch(c, i - 1);
    assert i + 1 < |c| ==> Touch(c, i);
  }

  /** Merging forwards, as a replacement in the original chain. */
  lemma AheadIs(c: Chain, i: nat, s: Segment, far: Segment)
    requires i + 1 < |c| && s == c[i].(free := true) && far == c[i + 1]
    ensures Merge(c[i := s], i) == Splice(c, i, i + 2, [s.(size := s.size + far.size + HEADER)])
  {
  }

  lemma FreedIs(c: Chain, i: nat, s: Segment)
    requires i < |c|
    ensures c[i := s] == Splice(c, i, i + 1, [s])
  {
  }

  /** Merging backwards into the segment before a replacement. */
  lemma BehindIs(c: Chain, i: nat, j: nat, s: Segment)
    requires 0 < i <= j <= |c|
    ensures Merge(Splice(c, i, j, [s]), i - 1) ==
      Splice(c, i - 1, j, [c[i - 1].(size := c[i - 1].size + s.size + HEADER)])
  {
    var d := Splice(c, i, j, [s]);
    assert d[..i - 1] == c[..i - 1] && d[i + 1..] == c[j..];
  }

  /** Segment `i`, free, with the one behind it if that is free. */
  lemma ForwardIs(c: Chain, start: nat, end: nat, i: nat) returns (m: Segment)
    requires Tiled(c, start, end) && i < |c|
    ensures m.address == c[i].address && End(m) == End(c[To(c, i) - 1]) && m.free
    ensures Splice(c, i, To(c, i), [m]) ==
      var freed := c[i := c[i].(free := true)];
      if i + 1 < |c| && c[i + 1].free then Merge(freed, i) else freed
  {
    var s := c[i].(free := true);
    if i + 1 < |c| && c[i + 1].free {
      assert Touch(c, i);
      AheadIs(c, i, s, c[i + 1]);
      m := s.(size := s.size + c[i + 1].size + HEADER);
    } else {
      FreedIs(c, i, s);
      m := s;
    }
  }

  /** The hole in place of segment `i` and its free neighbours. */
  lemma HoleAround(c: Chain, start: nat, end: nat, i: nat, hi: nat, m: Segment) returns (hole: Segment)
    requires Tiled(c, start, end) && i < hi <= |c|
    requires m.address == c[i].address && End(m) == End(c[hi - 1]) && m.free
    ensures hole.address == c[From(c, i)].address && End(hole) == End(m) && hole.free
    ensures Splice(c, From(c, i), hi, [hole]) ==
      if 0 < i && c[i - 1].free then Merge(Splice(c, i, hi, [m]), i - 1) else Splice(c, i, hi, [m])
  {
    hole := m;
    if 0 < i && c[i - 1].free {
      assert Touch(c, i - 1);
      BehindIs(c, i, hi, m);
      hole := c[i - 1].(size := c[i - 1].size + m.size + HEADER);
    }
  }

  lemma ReleaseIs(c: Chain, start: nat, end: nat, i: nat)
    requires Tiled(c, start, end) && i < |c|
    ensures c[From(c, i)].address + HEADER <= End(c[To(c, i) - 1])
    ensures Release(c, i) == Splice(c, From(c, i), To(c, i), [Hole(c[From(c, i)].address, End(c[To(c, i) - 1]))])
  {
    StretchEnds(c, start, end, i);
    var m := ForwardIs(c, start, end, i);
    var hole := HoleAround(c, start, end, i, To(c, i), m);
  }

  /** Only segment `i` of the stretch is in use. */
  lemma StretchBlocks(c: Chain, i: nat)
    requires i < |c| && !c[i].free
    ensures Blocks(c[From(c, i)..To(c, i)]) == {BlockOf(c[i])}
    ensures Used(c[From(c, i)..To(c, i)]) == c[i].size
  {
    var a, b := From(c, i), To(c, i);
    assert c[a..b] == c[a..i] + [c[i]] + c[i + 1..b];
    BlocksConcat(c[a..i] + [c[i]], c[i + 1..b]);
    BlocksConcat(c[a..i], [c[i]]);
    UsedConcat(c[a..i] + [c[i]], c[i + 1..b]);
    UsedConcat(c[a..i], [c[i]]);
    Alone(c, i);
    assert a < i ==> c[a..i] == [c[a]];
    assert i + 1 < b ==> c[i + 1..b] == [c[i + 1]];
    if a < i {
      Alone(c, a);
    }
    if i + 1 < b {
      Alone(c, i + 1);
    }
  }

  /** Different segments of a chain hold different blocks. */
  lemma BlockOnce(c: Chain, start: nat, end: nat, i: nat)
    requires Tiled(c, start, end) && i < |c| && !c[i].free
    ensures BlockOf(c[i]) !in Blocks(c[..From(c, i)]) && BlockOf(c[i]) !in Blocks(c[To(c, i)..])
  {
    if BlockOf(c[i]) in Blocks(c[..From(c, i)]) {
      var k := BlockIn(c[..From(c, i)], BlockOf(c[i]));
      Ordered(c, start, end, k, i);
    }
    if BlockOf(c[i]) in Blocks(c[To(c, i)..]) {
      var k := BlockIn(c[To(c, i)..], BlockOf(c[i]));
      Ordered(c, start, end, i, To(c, i) + k);
    }
  }

  lemma HoleIs(address: nat, end: nat)
    requires address + HEADER <= end
    ensures var m := [Hole(address, end)];
      Tiled(m, address, end) && Coalesced(m) && Blocks(m) == {} && Used(m) == 0
    ensures address % 16 == 0 && end % 16 == 0 ==> Aligned([Hole(address, end)])
  {
    assert [Hole(address, end)][1..] == [];
  }

  lemma StretchApart(c: Chain, i: nat)
    requires Coalesced(c) && i < |c| && !c[i].free
    ensures 0 < From(c, i) ==> !c[From(c, i) - 1].free
    ensures To(c, i) < |c| ==> !c[To(c, i)].free
  {
    assert 0 < From(c, i) < i ==> Apart(c, From(c, i) - 1);
    assert i + 1 < To(c, i) < |c| ==> Apart(c, To(c, i) - 1);
  }

  /** A stretch with one segment in use becomes a hole. */
  lemma Absorb(c: Chain, start: nat, end: nat, a: nat, i: nat, b: nat, m: Chain, d: Chain)
    requires Sound(c, start, end) && a <= i < b <= |c|
    requires 0 < a ==> !c[a - 1].free
    requires b < |c| ==> !c[b].free
    requires Blocks(c[a..b]) == {BlockOf(c[i])}
    requires BlockOf(c[i]) !in Blocks(c[..a]) && BlockOf(c[i]) !in Blocks(c[b..])
    requires SameEnds(c, a, b, m) && Coalesced(m) && Aligned(m) && Blocks(m) == {} && Used(m) == 0
    requires d == Splice(c, a, b, m)
    ensures Sound(d, start, end)
    ensures Blocks(d) == Blocks(c) - {BlockOf(c[i])} && Used(d) == Used(c) - Used(c[a..b])
  {
    SameSet(Blocks(c) - {BlockOf(c[i])});
    Replaced(c, start, end, a, b, m, d, {BlockOf(c[i])});
  }

  /** The hole that replaces the segments from `a` up to `b`. */
  lemma HoleFits(c: Chain, start: nat, end: nat, a: nat, b: nat) returns (m: Chain)
    requires Sound(c, start, end) && a < b <= |c| && c[a].address + HEADER <= End(c[b - 1])
    ensures m == [Hole(c[a].address, End(c[b - 1]))]
    ensures SameEnds(c, a, b, m) && Coalesced(m) && Aligned(m) && Blocks(m) == {} && Used(m) == 0
  {
    var from, to := c[a].address, End(c[b - 1]);
    AlignedEnds(c, a, b - 1);
    HoleIs(from, to);
    m := [Hole(from, to)];
  }

  lemma AlignedEnds(c: Chain, i: nat, j: nat)
    requires Aligned(c) && i < |c| && j < |c|
    ensures c[i].address % 16 == 0 && End(c[j]) % 16 == 0
  {
  }

  /** The stretch around a segment in use, and the hole that replaces it. */
  lemma ReleaseParts(c: Chain, start: nat, end: nat, i: nat) returns (a: nat, b: nat, m: Chain)
    requires Sound(c, start, end) && i < |c| && !c[i].free
    ensures a <= i < b <= |c| && a == From(c, i) && b == To(c, i)
    ensures SameEnds(c, a, b, m) && Coalesced(m) && Aligned(m) && Blocks(m) == {} && Used(m) == 0
    ensures Release(c, i) == Splice(c, a, b, m)
  {
    a, b := From(c, i), To(c, i);
    ReleaseIs(c, start, end, i);
    m := HoleFits(c, start, end, a, b);
  }

  /** Releasing a segment in use keeps the chain sound and removes exactly its block. */
  lemma ReleaseSound(c: Chain, start: nat, end: nat, i: nat)
    requires Sound(c, start, end) && i < |c| && !c[i].free
    ensures Sound(Release(c, i), start, end)
    ensures Blocks(Release(c, i)) == Blocks(c) - {BlockOf(c[i])}
    ensures Used(Release(c, i)) == Used(c) - c[i].size
  {
    var a, b, m := ReleaseParts(c, start, end, i);
    assert 0 < a ==> !c[a - 1].free by { StretchApart(c, i); }
    assert b < |c| ==> !c[b].free by { StretchApart(c, i); }
    assert Blocks(c[a..b]) == {BlockOf(c[i])} by { StretchBlocks(c, i); }
    assert Used(c[a..b]) == c[i].size by { StretchBlocks(c, i); }
    assert BlockOf(c[i]) !in Blocks(c[..a]) && BlockOf(c[i]) !in Blocks(c[b..]) by { BlockOnce(c, start, end, i); }
    Absorb(c, start, end, a, i, b, m, Release(c, i));
  }

  /** Growing adds free bytes at the end and nothing else. */
  lemma GrowSound(c: Chain, start: nat, end: nat, k: nat)
    requires Sound(c, start, end) && end % 16 == 0
    ensures Sound(Grow(c, k), start, end + PAGE * k)
    ensures Blocks(Grow(c, k)) == Blocks(c) && Used(Grow(c, k)) == Used(c)
  {
    if k > 0 {
      GrowCoalesced(c, start, end, k);
      if c[|c| - 1].free {
        GrowLast(c, k);
      } else {
        GrowNew(c, k);
      }
    }
  }

  lemma GrowCoalesced(c: Chain, start: nat, end: nat, k: nat)
    requires Sound(c, start, end) && end % 16 == 0 && 0 < k
    ensures Sound(Grow(c, k), start, end + PAGE * k)
  {
    var d := Grow(c, k);
    forall i | 0 <= i < |d| - 1 ensures Touch(d, i) {
      assert i < |c| - 1 ==> Touch(c, i);
    }
    forall i | 0 <= i < |d| - 1 ensures Apart(d, i) {
      assert i < |c| - 1 ==> Apart(c, i);
    }
    Within(c, start, end, |c| - 1);
    GrowAligned(c, end, k);
  }

  lemma GrowAligned(c: Chain, end: nat, k: nat)
    requires Aligned(c) && c != [] && End(c[|c| - 1]) == end && end % 16 == 0 && 0 < k
    ensures Aligned(Grow(c, k))
  {
    var d := Grow(c, k);
    forall i | 0 <= i < |d| ensures d[i].address % 16 == 0 && d[i].size % 16 == 0 {
      if i < |c| - 1 {
        assert d[i] == c[i];
      }
    }
  }

  lemma GrowNew(c: Chain, k: nat)
    requires c != [] && !c[|c| - 1].free && k > 0
    ensures Blocks(Grow(c, k)) == Blocks(c) && Used(Grow(c, k)) == Used(c)
  {
    var s := Segment(End(c[|c| - 1]), PAGE * k - HEADER, true);
    BlocksConcat(c, [s]);
    UsedConcat(c, [s]);
    assert [s][1..] == [];
  }

  lemma Bigger(c: Chain, k: nat) returns (s: Segment)
    requires c != [] && c[|c| - 1].free && k > 0
    ensures s.free && Grow(c, k) == c[|c| - 1 := s]
  {
    s := Grow(c, k)[|c| - 1];
  }

  lemma GrowLast(c: Chain, k: nat)
    requires c != [] && c[|c| - 1].free && k > 0
    ensures Blocks(Grow(c, k)) == Blocks(c) && Used(Grow(c, k)) == Used(c)
  {
    var s := Bigger(c, k);
    LastReplaced(c, s, c[|c| - 1 := s]);
  }

  lemma LastReplaced(c: Chain, s: Segment, d: Chain)
    requires c != [] && c[|c| - 1].free && s.free && d == c[|c| - 1 := s]
    ensures Blocks(d) == Blocks(c) && Used(d) == Used(c)
  {
    var i := |c| - 1;
    assert d == Splice(c, i, i + 1, [s]);
    Alone(c, i);
    Alone([s], 0);
    SpliceBlocks(c, i, i + 1, [s]);
    SpliceUsed(c, i, i + 1, [s]);
  }

  // ---------------------------------------------------------------- the chain is canonical

  /** The first segments of two chains over the same bytes with the same blocks agree. */
  lemma HeadsAgree(c: Chain, d: Chain, start: nat, end: nat)
    requires Tiled(c, start, end) && Tiled(d, start, end) && Coalesced(c) && Coalesced(d)
    requires Blocks(c) == Blocks(d)
    ensures c[0].free == d[0].free && c[0].size <= d[0].size
  {
    if !c[0].free {
      var k := BlockIn(d, BlockOf(c[0]));
      if 0 < k {
        Ordered(d, start, end, 0, k);
      }
    } else if !d[0].free {
      var k := BlockIn(c, BlockOf(d[0]));
      if 0 < k {
        Ordered(c, start, end, 0, k);
      }
    } else if d[0].size < c[0].size {
      if |d| > 1 {
        Longer(c, d, start, end);
      } else {
        Within(c, start, end, 0);
      }
    }
  }

  /** A chain whose first free segment is longer misses a block of the other. */
  lemma Longer(c: Chain, d: Chain, start: nat, end: nat)
    requires Tiled(c, start, end) && Tiled(d, start, end) && Coalesced(d) && Blocks(c) == Blocks(d)
    requires c[0].free && d[0].free && |d| > 1
    ensures c[0].size <= d[0].size
  {
    if d[0].size < c[0].size {
      assert Apart(d, 0) && Touch(d, 0);
      var k := BlockIn(c, BlockOf(d[1]));
      if 0 < k {
        Ordered(c, start, end, 0, k);
      }
    }
  }

  lemma TailBlocks(c: Chain, start: nat, end: nat)
    requires Tiled(c, start, end)
    ensures Blocks(c[1..]) == Blocks(c) - if c[0].free then {} else {BlockOf(c[0])}
  {
    if !c[0].free && BlockOf(c[0]) in Blocks(c[1..]) {
      var k := BlockIn(c[1..], BlockOf(c[0]));
      Ordered(c, start, end, 0, k + 1);
    }
  }

  /** The live blocks determine the chain: whatever the order of the calls that led to them,
      the heap is the same. */
  lemma {:induction false} Canonical(c: Chain, d: Chain, start: nat, end: nat)
    requires Tiled(c, start, end) && Tiled(d, start, end) && Coalesced(c) && Coalesced(d)
    requires Blocks(c) == Blocks(d)
    ensures c == d
    decreases |c|
  {
    HeadsAgree(c, d, start, end);
    HeadsAgree(d, c, start, end);
    assert c[0] == d[0];
    if |c| > 1 && |d| > 1 {
      TailBlocks(c, start, end);
      TailBlocks(d, start, end);
      TiledTail(c, start, end);
      TiledTail(d, start, end);
      CoalescedTail(c);
      CoalescedTail(d);
      Canonical(c[1..], d[1..], End(c[0]), end);
      assert c == [c[0]] + c[1..] && d == [d[0]] + d[1..];
    } else {
      LengthOne(c, d, start, end);
    }
  }

  lemma LengthOne(c: Chain, d: Chain, start: nat, end: nat)
    requires Tiled(c, start, end) && Tiled(d, start, end) && c[0] == d[0] && (|c| == 1 || |d| == 1)
    ensures c == d
  {
    if |c| > 1 {
      Ordered(c, start, end, 0, |c| - 1);
    }
    if |d| > 1 {
      Ordered(d, start, end, 0, |d| - 1);
    }
  }

  lemma CoalescedTail(c: Chain)
    requires Coalesced(c) && c != []
    ensures Coalesced(c[1..])
  {
    forall i | 0 <= i < |c[1..]| - 1 ensures Apart(c[1..], i) {
      assert Apart(c, i + 1);
    }
  }

  /** A free segment is no live block. */
  lemma NotYet(c: Chain, start: nat, end: nat, i: nat, n: nat)
    requires Tiled(c, start, end) && i < |c| && c[i].free
    ensures forall b :: b in Blocks(c) ==> b.address != c[i].address + HEADER
  {
    forall b | b in Blocks(c) ensures b.address != c[i].address + HEADER {
      var k := BlockIn(c, b);
      if k < i {
        Ordered(c, start, end, k, i);
      } else if i < k {
        Ordered(c, start, end, i, k);
      }
    }
  }

  /** When no block is left the heap is one free segment again. */
  lemma AllReleased(c: Chain, start: nat, end: nat)
    requires Tiled(c, start, end) && Coalesced(c) && Blocks(c) == {}
    ensures start + HEADER <= end && c == [Hole(start, end)]
  {
    Within(c, start, end, 0);
    HoleIs(start, end);
    Canonical(c, [Hole(start, end)], start, end);
  }
}

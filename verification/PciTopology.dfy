/** The tree of PCI functions behind a bus: what is visible to the discovery, in which order
    it is met, and when every function is met exactly once. */
module PciTopology {

  type HeaderByte = x: nat | x < 0x100

  /** What the discovery reads from the configuration space of a function. */
  datatype Header = Header(device_id: nat, header_type: HeaderByte, secondary: nat)

  /** A function number: bus, device below 32, function below 8. */
  datatype Bdf = Bdf(bus: nat, device: nat, fn: nat)

  type Config = Bdf -> Header

  const DEVICES: nat := 32
  const FUNCTIONS: nat := 8
  /** Functions of a bus are counted through: slot 8 * device + function. */
  const SLOTS: nat := 256

  predicate Present(h: Header) {
    h.device_id != 0 && h.device_id != 0xFFFF
  }

  /** The multi-function bit of the header type. */
  predicate MultiFunction(h: Header) {
    h.header_type / 0x80 % 2 == 1
  }

  /** Header type 1: a PCI-PCI bridge. */
  predicate IsBridge(h: Header) {
    h.header_type % 0x80 == 1
  }

  function AtSlot(b: nat, k: nat): Bdf {
    Bdf(b, k / FUNCTIONS, k % FUNCTIONS)
  }

  function SlotOf(x: Bdf): nat {
    x.device * FUNCTIONS + x.fn
  }

  predicate Numbered(x: Bdf) {
    x.device < DEVICES && x.fn < FUNCTIONS
  }

  lemma SlotRoundTrip(x: Bdf, k: nat)
    ensures Numbered(x) ==> SlotOf(x) < SLOTS && AtSlot(x.bus, SlotOf(x)) == x
    ensures k < SLOTS ==> Numbered(AtSlot(x.bus, k)) && SlotOf(AtSlot(x.bus, k)) == k
  {
  }

  /** A function shows if function 0 of its device is present, the device admits to having
      several functions (or it is function 0), and it is present itself. */
  predicate Visible(c: Config, x: Bdf) {
    var zero := c(Bdf(x.bus, x.device, 0));
    Present(zero) && (x.fn == 0 || MultiFunction(zero)) && Present(c(x))
  }

  predicate BridgeSlot(c: Config, b: nat, k: nat) {
    k < SLOTS && Visible(c, AtSlot(b, k)) && IsBridge(c(AtSlot(b, k)))
  }

  /** A bridge in terms of the bytes read: bit 7 of its header type tells nothing, that of function
      0 whether functions 1 to 7 count. */
  lemma BridgeSlotIs(c: Config, b: nat, device: nat, fn: nat)
    requires device < 32 && fn < 8
    ensures BridgeSlot(c, b, device * 8 + fn) <==>
      var zero, h := c(Bdf(b, device, 0)), c(Bdf(b, device, fn));
      && zero.device_id != 0 && zero.device_id != 0xFFFF && h.device_id != 0 && h.device_id != 0xFFFF
      && (fn == 0 || zero.header_type >= 0x80) && (h.header_type == 0x01 || h.header_type == 0x81)
  {
    SlotRoundTrip(Bdf(b, device, fn), 0);
  }

  function Secondary(c: Config, b: nat, k: nat): nat {
    c(AtSlot(b, k)).secondary
  }

  /** A configuration together with buses that are closed under bridges and ranked so that
      every bridge leads to a bus of lower rank. */
  datatype Topology = Topology(config: Config, buses: set<nat>, rank: nat -> nat)

  ghost predicate Sound(t: Topology) {
    forall b, k :: b in t.buses && BridgeSlot(t.config, b, k) ==>
      Secondary(t.config, b, k) in t.buses && t.rank(Secondary(t.config, b, k)) < t.rank(b)
  }

  /** Whether a bridge comes before or after everything behind it. */
  datatype Order = BridgeFirst | BridgeLast

  /** The visible functions in slots `lo..hi` of a bus, each together with everything behind
      it, in depth-first order. */
  ghost function Walk(t: Topology, o: Order, b: nat, lo: nat, hi: nat): seq<Bdf>
    requires Sound(t) && b in t.buses && hi <= SLOTS
    decreases t.rank(b), 2, hi - lo
  {
    if lo >= hi then []
    else (if Visible(t.config, AtSlot(b, lo)) then Subtree(t, o, b, lo) else []) + Walk(t, o, b, lo + 1, hi)
  }

  /** A function and everything behind it. */
  ghost function Subtree(t: Topology, o: Order, b: nat, k: nat): (s: seq<Bdf>)
    requires Sound(t) && b in t.buses && k < SLOTS && Visible(t.config, AtSlot(b, k))
    ensures s != []
    decreases t.rank(b), 1
  {
    var below := Below(t, o, b, k);
    if o == BridgeFirst then [AtSlot(b, k)] + below else below + [AtSlot(b, k)]
  }

  ghost function Below(t: Topology, o: Order, b: nat, k: nat): seq<Bdf>
    requires Sound(t) && b in t.buses && k < SLOTS && Visible(t.config, AtSlot(b, k))
    decreases t.rank(b), 0
  {
    if IsBridge(t.config(AtSlot(b, k))) then Walk(t, o, Secondary(t.config, b, k), 0, SLOTS) else []
  }

  /** A slot: nothing if no function shows there. */
  ghost function Head(t: Topology, o: Order, b: nat, k: nat): seq<Bdf>
    requires Sound(t) && b in t.buses && k < SLOTS
  {
    if Visible(t.config, AtSlot(b, k)) then Subtree(t, o, b, k) else []
  }

  lemma {:induction false} WalkSplit(t: Topology, o: Order, b: nat, lo: nat, mid: nat, hi: nat)
    requires Sound(t) && b in t.buses && lo <= mid <= hi <= SLOTS
    ensures Walk(t, o, b, lo, hi) == Walk(t, o, b, lo, mid) + Walk(t, o, b, mid, hi)
    decreases mid - lo
  {
    if lo < mid {
      WalkSplit(t, o, b, lo + 1, mid, hi);
    }
  }

  // ---------------------------------------------------------------- membership

  /** Bus `x` is `b` or lies behind it. */
  ghost predicate Reach(t: Topology, b: nat, x: nat)
    requires Sound(t) && b in t.buses
    decreases t.rank(b)
  {
    b == x || exists k :: BridgeSlot(t.config, b, k) && Reach(t, Secondary(t.config, b, k), x)
  }

  lemma {:induction false} ReachRank(t: Topology, b: nat, x: nat)
    requires Sound(t) && b in t.buses && Reach(t, b, x)
    ensures x in t.buses && t.rank(x) <= t.rank(b) && (x != b ==> t.rank(x) < t.rank(b))
    decreases t.rank(b)
  {
    if b != x {
      var k :| BridgeSlot(t.config, b, k) && Reach(t, Secondary(t.config, b, k), x);
      ReachRank(t, Secondary(t.config, b, k), x);
    }
  }

  lemma {:induction false} ReachThrough(t: Topology, b: nat, p: nat, x: nat)
    requires Sound(t) && b in t.buses && p in t.buses && Reach(t, b, p) && Reach(t, p, x)
    ensures Reach(t, b, x)
    decreases t.rank(b)
  {
    if b != p {
      var k :| BridgeSlot(t.config, b, k) && Reach(t, Secondary(t.config, b, k), p);
      ReachThrough(t, Secondary(t.config, b, k), p, x);
    }
  }

  /** A bus that is not the start is reached last through some bridge. */
  lemma {:induction false} LastBridge(t: Topology, b: nat, x: nat) returns (p: nat, k: nat)
    requires Sound(t) && b in t.buses && Reach(t, b, x) && b != x
    ensures p in t.buses && Reach(t, b, p) && BridgeSlot(t.config, p, k) && Secondary(t.config, p, k) == x
    decreases t.rank(b)
  {
    var j :| BridgeSlot(t.config, b, j) && Reach(t, Secondary(t.config, b, j), x);
    var s := Secondary(t.config, b, j);
    if s == x {
      p, k := b, j;
    } else {
      p, k := LastBridge(t, s, x);
    }
  }

  /** `x` lies behind the bridge in slot `k`. */
  ghost predicate InBelow(t: Topology, b: nat, k: nat, x: Bdf)
    requires Sound(t) && b in t.buses
  {
    && Visible(t.config, x) && Numbered(x)
    && BridgeSlot(t.config, b, k) && Reach(t, Secondary(t.config, b, k), x.bus)
  }

  /** `x` is one of the functions in slots `lo..hi` or lies behind one of them. */
  ghost predicate Found(t: Topology, b: nat, lo: nat, hi: nat, x: Bdf)
    requires Sound(t) && b in t.buses && hi <= SLOTS
  {
    || (Visible(t.config, x) && Numbered(x) && x.bus == b && lo <= SlotOf(x) < hi)
    || exists k :: lo <= k < hi && InBelow(t, b, k, x)
  }

  lemma {:induction false} WalkFinds(t: Topology, o: Order, b: nat, lo: nat, hi: nat, x: Bdf)
    requires Sound(t) && b in t.buses && hi <= SLOTS
    ensures x in Walk(t, o, b, lo, hi) <==> Found(t, b, lo, hi, x)
    decreases t.rank(b), 1, hi - lo
  {
    if lo < hi {
      WalkFinds(t, o, b, lo + 1, hi, x);
      SlotRoundTrip(x, lo);
      if Visible(t.config, AtSlot(b, lo)) {
        SubtreeFinds(t, o, b, lo, x);
      }
    }
  }

  lemma {:induction false} SubtreeFinds(t: Topology, o: Order, b: nat, k: nat, x: Bdf)
    requires Sound(t) && b in t.buses && k < SLOTS && Visible(t.config, AtSlot(b, k))
    ensures x in Below(t, o, b, k) <==> InBelow(t, b, k, x)
    ensures x in Subtree(t, o, b, k) <==> x == AtSlot(b, k) || x in Below(t, o, b, k)
    decreases t.rank(b), 0
  {
    if IsBridge(t.config(AtSlot(b, k))) {
      WalkFindsAll(t, o, Secondary(t.config, b, k), x);
    }
  }

  /** The discovery from bus `b` meets a function iff its bus is `b` or behind it, function 0
      of its device is present, it is function 0 or the device is multi-function, and it is
      present. */
  lemma {:induction false} WalkFindsAll(t: Topology, o: Order, b: nat, x: Bdf)
    requires Sound(t) && b in t.buses
    ensures x in Walk(t, o, b, 0, SLOTS) <==> Reach(t, b, x.bus) && Visible(t.config, x) && Numbered(x)
    decreases t.rank(b), 2
  {
    WalkFinds(t, o, b, 0, SLOTS, x);
    SlotRoundTrip(x, 0);
    if Reach(t, b, x.bus) && Visible(t.config, x) && Numbered(x) && x.bus != b {
      var k :| BridgeSlot(t.config, b, k) && Reach(t, Secondary(t.config, b, k), x.bus);
      assert InBelow(t, b, k, x);
    }
  }

  // ---------------------------------------------------------------- exactly once

  ghost predicate NoDuplicates(s: seq<Bdf>) {
    forall i, j :: 0 <= i < j < |s| ==> s[i] != s[j]
  }

  lemma ConcatNoDuplicates(a: seq<Bdf>, b: seq<Bdf>)
    requires NoDuplicates(a) && NoDuplicates(b) && forall x :: x in a ==> x !in b
    ensures NoDuplicates(a + b)
  {
    var s := a + b;
    forall i, j | 0 <= i < j < |s| ensures s[i] != s[j] {
      if i < |a| && |a| <= j {
        assert s[i] in a && s[j] in b;
      }
    }
  }

  /** Some function shows on the bus. */
  ghost predicate Occupied(c: Config, b: nat) {
    exists k :: 0 <= k < SLOTS && Visible(c, AtSlot(b, k))
  }

  /** Two bridges that can be reached from `root` and lead to the same bus are the same,
      unless that bus is empty. */
  ghost predicate OneWayIn(t: Topology, root: nat)
    requires Sound(t) && root in t.buses
  {
    forall b, k, b', k' ::
      b in t.buses && b' in t.buses && Reach(t, root, b) && Reach(t, root, b') &&
      BridgeSlot(t.config, b, k) && BridgeSlot(t.config, b', k') &&
      Secondary(t.config, b, k) == Secondary(t.config, b', k') && Occupied(t.config, Secondary(t.config, b, k)) ==>
        b == b' && k == k'
  }

  lemma SameBridge(t: Topology, root: nat, b: nat, k: nat, b': nat, k': nat)
    requires Sound(t) && root in t.buses && OneWayIn(t, root)
    requires b in t.buses && b' in t.buses && Reach(t, root, b) && Reach(t, root, b')
    requires BridgeSlot(t.config, b, k) && BridgeSlot(t.config, b', k')
    requires Secondary(t.config, b, k) == Secondary(t.config, b', k') && Occupied(t.config, Secondary(t.config, b, k))
    ensures b == b' && k == k'
  {
  }

  /** Of two buses that both lead to an occupied bus, one leads to the other. */
  lemma {:induction false} OneLine(t: Topology, root: nat, b: nat, c: nat, x: nat)
    requires Sound(t) && root in t.buses && OneWayIn(t, root) && Occupied(t.config, x)
    requires b in t.buses && c in t.buses && Reach(t, root, b) && Reach(t, root, c)
    requires Reach(t, b, x) && Reach(t, c, x)
    ensures Reach(t, b, c) || Reach(t, c, b)
    decreases t.rank(b) - t.rank(x)
  {
    ReachRank(t, b, x);
    if b != x && c != x {
      var p, k := LastBridge(t, b, x);
      var q, j := LastBridge(t, c, x);
      ReachThrough(t, root, b, p);
      ReachThrough(t, root, c, q);
      SameBridge(t, root, p, k, q, j);
      ReachRank(t, b, p);
      OneLine(t, root, b, c, p);
    }
  }

  /** Different bridges of one bus have nothing in common behind them. */
  lemma BranchesApart(t: Topology, root: nat, b: nat, k: nat, j: nat, x: Bdf)
    requires Sound(t) && root in t.buses && OneWayIn(t, root) && b in t.buses && Reach(t, root, b)
    requires k != j && InBelow(t, b, k, x)
    ensures !InBelow(t, b, j, x)
  {
    if InBelow(t, b, j, x) {
      var s, r := Secondary(t.config, b, k), Secondary(t.config, b, j);
      SlotRoundTrip(x, 0);
      assert Visible(t.config, AtSlot(x.bus, SlotOf(x)));
      StepReaches(t, root, b, k);
      StepReaches(t, root, b, j);
      OneLine(t, root, s, r, x.bus);
      if Reach(t, s, r) {
        NoWayAcross(t, root, b, k, j, x);
      } else {
        NoWayAcross(t, root, b, j, k, x);
      }
    }
  }

  lemma StepReaches(t: Topology, root: nat, b: nat, k: nat)
    requires Sound(t) && root in t.buses && b in t.buses && Reach(t, root, b) && BridgeSlot(t.config, b, k)
    ensures Reach(t, root, Secondary(t.config, b, k))
  {
    assert Reach(t, Secondary(t.config, b, k), Secondary(t.config, b, k));
    assert Reach(t, b, Secondary(t.config, b, k));
    ReachThrough(t, root, b, Secondary(t.config, b, k));
  }

  /** A bus that leads to an occupied bus is occupied itself. */
  lemma OccupiedAbove(t: Topology, b: nat, x: nat)
    requires Sound(t) && b in t.buses && Reach(t, b, x) && Occupied(t.config, x)
    ensures Occupied(t.config, b)
  {
    if b != x {
      var k :| BridgeSlot(t.config, b, k) && Reach(t, Secondary(t.config, b, k), x);
      assert Visible(t.config, AtSlot(b, k));
    }
  }

  lemma NoWayAcross(t: Topology, root: nat, b: nat, k: nat, j: nat, x: Bdf)
    requires Sound(t) && root in t.buses && OneWayIn(t, root) && b in t.buses && Reach(t, root, b)
    requires k != j && BridgeSlot(t.config, b, k) && BridgeSlot(t.config, b, j) && Occupied(t.config, x.bus)
    requires Reach(t, Secondary(t.config, b, j), x.bus)
    ensures !Reach(t, Secondary(t.config, b, k), Secondary(t.config, b, j))
  {
    var s, r := Secondary(t.config, b, k), Secondary(t.config, b, j);
    OccupiedAbove(t, r, x.bus);
    if Reach(t, s, r) {
      if s == r {
        SameBridge(t, root, b, k, b, j);
      } else {
        var p, i := LastBridge(t, s, r);
        StepReaches(t, root, b, k);
        ReachThrough(t, root, s, p);
        SameBridge(t, root, p, i, b, j);
        ReachRank(t, s, p);
      }
    }
  }

  lemma {:induction false} WalkOnce(t: Topology, o: Order, root: nat, b: nat, lo: nat, hi: nat)
    requires Sound(t) && root in t.buses && OneWayIn(t, root) && b in t.buses && Reach(t, root, b) && hi <= SLOTS
    ensures NoDuplicates(Walk(t, o, b, lo, hi))
    decreases t.rank(b), 2, hi - lo
  {
    if lo < hi {
      WalkOnce(t, o, root, b, lo + 1, hi);
      if Visible(t.config, AtSlot(b, lo)) {
        SubtreeOnce(t, o, root, b, lo);
        forall x | x in Subtree(t, o, b, lo) ensures x !in Walk(t, o, b, lo + 1, hi) {
          SubtreeApart(t, o, root, b, lo, hi, x);
        }
        ConcatNoDuplicates(Subtree(t, o, b, lo), Walk(t, o, b, lo + 1, hi));
      }
    }
  }

  lemma {:induction false} SubtreeOnce(t: Topology, o: Order, root: nat, b: nat, k: nat)
    requires Sound(t) && root in t.buses && OneWayIn(t, root) && b in t.buses && Reach(t, root, b)
    requires k < SLOTS && Visible(t.config, AtSlot(b, k))
    ensures NoDuplicates(Subtree(t, o, b, k))
    decreases t.rank(b), 1
  {
    var x, below := AtSlot(b, k), Below(t, o, b, k);
    SubtreeFinds(t, o, b, k, x);
    if BridgeSlot(t.config, b, k) {
      var s := Secondary(t.config, b, k);
      StepReaches(t, root, b, k);
      WalkOnce(t, o, root, s, 0, SLOTS);
      if Reach(t, s, b) {
        ReachRank(t, s, b);
      }
    }
    ConcatNoDuplicates([x], below);
    ConcatNoDuplicates(below, [x]);
  }

  lemma SubtreeApart(t: Topology, o: Order, root: nat, b: nat, k: nat, hi: nat, x: Bdf)
    requires Sound(t) && root in t.buses && OneWayIn(t, root) && b in t.buses && Reach(t, root, b)
    requires k < hi <= SLOTS && Visible(t.config, AtSlot(b, k)) && x in Subtree(t, o, b, k)
    ensures x !in Walk(t, o, b, k + 1, hi)
  {
    SubtreeFinds(t, o, b, k, x);
    WalkFinds(t, o, b, k + 1, hi, x);
    SlotRoundTrip(AtSlot(b, k), k);
    BehindElsewhere(t, b, x);
    if x in Below(t, o, b, k) {
      forall j | k + 1 <= j < hi ensures !InBelow(t, b, j, x) {
        BranchesApart(t, root, b, k, j, x);
      }
    }
  }

  /** What lies behind a bridge of a bus is not on that bus. */
  lemma BehindElsewhere(t: Topology, b: nat, x: Bdf)
    requires Sound(t) && b in t.buses
    ensures forall k :: InBelow(t, b, k, x) ==> x.bus != b
  {
    forall k | InBelow(t, b, k, x) ensures x.bus != b {
      ReachRank(t, Secondary(t.config, b, k), x.bus);
    }
  }

  // ---------------------------------------------------------------- order

  /** `part` stands in `s` right behind (or right before) an occurrence of `x`. */
  ghost predicate Adjacent(o: Order, s: seq<Bdf>, x: Bdf, part: seq<Bdf>) {
    exists i: nat :: Stands(o, s, x, part, i)
  }

  predicate Stands(o: Order, s: seq<Bdf>, x: Bdf, part: seq<Bdf>, i: nat) {
    && i < |s| && s[i] == x
    && (o == BridgeFirst ==> i + 1 + |part| <= |s| && s[i + 1..i + 1 + |part|] == part)
    && (o == BridgeLast ==> |part| <= i && s[i - |part|..i] == part)
  }

  lemma SliceWithin(a: seq<Bdf>, s: seq<Bdf>, b: seq<Bdf>, i: nat, j: nat)
    requires i <= j <= |s|
    ensures (a + s + b)[|a| + i..|a| + j] == s[i..j]
  {
  }

  lemma StandsWithin(o: Order, a: seq<Bdf>, s: seq<Bdf>, b: seq<Bdf>, x: Bdf, part: seq<Bdf>, i: nat)
    requires Stands(o, s, x, part, i)
    ensures Stands(o, a + s + b, x, part, |a| + i)
  {
    if o == BridgeFirst {
      SliceWithin(a, s, b, i + 1, i + 1 + |part|);
    } else {
      SliceWithin(a, s, b, i - |part|, i);
    }
  }

  lemma StandsFront(o: Order, s: seq<Bdf>, b: seq<Bdf>, x: Bdf, part: seq<Bdf>, i: nat)
    requires Stands(o, s, x, part, i)
    ensures Stands(o, s + b, x, part, i)
  {
    StandsWithin(o, [], s, b, x, part, i);
    assert [] + s + b == s + b;
  }

  lemma StandsBack(o: Order, a: seq<Bdf>, s: seq<Bdf>, x: Bdf, part: seq<Bdf>, i: nat)
    requires Stands(o, s, x, part, i)
    ensures Stands(o, a + s, x, part, |a| + i)
  {
    StandsWithin(o, a, s, [], x, part, i);
    assert a + s + [] == a + s;
  }

  lemma NodeStands(t: Topology, o: Order, b: nat, k: nat)
    requires Sound(t) && b in t.buses && k < SLOTS && Visible(t.config, AtSlot(b, k))
    ensures var below := Below(t, o, b, k);
      Stands(o, Subtree(t, o, b, k), AtSlot(b, k), below, if o == BridgeFirst then 0 else |below|)
  {
    var x, below := AtSlot(b, k), Below(t, o, b, k);
    assert ([x] + below)[1..] == below && (below + [x])[..|below|] == below;
  }

  /** A walk begins with what its first slot holds. */
  lemma WalkTurn(t: Topology, o: Order, b: nat, lo: nat, hi: nat) returns (head: seq<Bdf>, tail: seq<Bdf>)
    requires Sound(t) && b in t.buses && lo < hi <= SLOTS
    ensures head == Head(t, o, b, lo) && tail == Walk(t, o, b, lo + 1, hi) && Walk(t, o, b, lo, hi) == head + tail
  {
    head, tail := Head(t, o, b, lo), Walk(t, o, b, lo + 1, hi);
  }

  /** Where `x` stands in one of two parts. */
  lemma StandsEither(o: Order, head: seq<Bdf>, tail: seq<Bdf>, all: seq<Bdf>, x: Bdf, part: seq<Bdf>, i: nat)
    requires all == head + tail
    requires if i < |head| then Stands(o, head, x, part, i) else Stands(o, tail, x, part, i - |head|)
    ensures Stands(o, all, x, part, i)
  {
    if i < |head| {
      StandsFront(o, head, tail, x, part, i);
    } else {
      StandsBack(o, head, tail, x, part, i - |head|);
    }
  }

  /** Every visit of a function in the walk of a bus stands next to what lies behind it. */
  lemma {:induction false} WalkVisit(t: Topology, o: Order, b: nat, lo: nat, hi: nat, p: nat, k: nat, i: nat)
    requires Sound(t) && b in t.buses && hi <= SLOTS && i < |Walk(t, o, b, lo, hi)|
    requires p in t.buses && k < SLOTS && Visible(t.config, AtSlot(p, k)) && Walk(t, o, b, lo, hi)[i] == AtSlot(p, k)
    ensures Stands(o, Walk(t, o, b, lo, hi), AtSlot(p, k), Below(t, o, p, k), i)
    decreases t.rank(b), 1, hi - lo
  {
    var head, tail := WalkTurn(t, o, b, lo, hi);
    if i < |head| {
      HeadVisit(t, o, b, lo, p, k, i);
    } else {
      WalkVisit(t, o, b, lo + 1, hi, p, k, i - |head|);
    }
    StandsEither(o, head, tail, Walk(t, o, b, lo, hi), AtSlot(p, k), Below(t, o, p, k), i);
  }

  lemma {:induction false} HeadVisit(t: Topology, o: Order, b: nat, j: nat, p: nat, k: nat, i: nat)
    requires Sound(t) && b in t.buses && j < SLOTS && i < |Head(t, o, b, j)|
    requires p in t.buses && k < SLOTS && Visible(t.config, AtSlot(p, k)) && Head(t, o, b, j)[i] == AtSlot(p, k)
    ensures Stands(o, Head(t, o, b, j), AtSlot(p, k), Below(t, o, p, k), i)
    decreases t.rank(b), 1, 0
  {
    SubtreeVisit(t, o, b, j, p, k, i);
  }

  lemma {:induction false} SubtreeVisit(t: Topology, o: Order, b: nat, j: nat, p: nat, k: nat, i: nat)
    requires Sound(t) && b in t.buses && j < SLOTS && Visible(t.config, AtSlot(b, j)) && i < |Subtree(t, o, b, j)|
    requires p in t.buses && k < SLOTS && Visible(t.config, AtSlot(p, k)) && Subtree(t, o, b, j)[i] == AtSlot(p, k)
    ensures Stands(o, Subtree(t, o, b, j), AtSlot(p, k), Below(t, o, p, k), i)
    decreases t.rank(b), 0
  {
    var below := Below(t, o, b, j);
    if i == (if o == BridgeFirst then 0 else |below|) {
      SlotRoundTrip(AtSlot(b, j), j);
      SlotRoundTrip(AtSlot(p, k), k);
      NodeStands(t, o, b, j);
    } else {
      var m := if o == BridgeFirst then i - 1 else i;
      WalkVisit(t, o, Secondary(t.config, b, j), 0, SLOTS, p, k, m);
      SubtreeAround(t, o, b, j, AtSlot(p, k), Below(t, o, p, k), m);
    }
  }

  lemma SubtreeAround(t: Topology, o: Order, b: nat, j: nat, x: Bdf, part: seq<Bdf>, m: nat)
    requires Sound(t) && b in t.buses && j < SLOTS && Visible(t.config, AtSlot(b, j))
    requires Stands(o, Below(t, o, b, j), x, part, m)
    ensures Stands(o, Subtree(t, o, b, j), x, part, if o == BridgeFirst then m + 1 else m)
  {
    var y, below := AtSlot(b, j), Below(t, o, b, j);
    if o == BridgeFirst {
      StandsBack(o, [y], below, x, part, m);
    } else {
      StandsFront(o, below, [y], x, part, m);
    }
  }

  /** Everything behind a bridge forms one block next to it. */
  lemma BlockNext(t: Topology, o: Order, b: nat, p: nat, k: nat)
    requires Sound(t) && b in t.buses && p in t.buses && Reach(t, b, p)
    requires k < SLOTS && Visible(t.config, AtSlot(p, k))
    ensures Adjacent(o, Walk(t, o, b, 0, SLOTS), AtSlot(p, k), Below(t, o, p, k))
  {
    SlotRoundTrip(AtSlot(p, k), k);
    WalkFindsAll(t, o, b, AtSlot(p, k));
    var i :| 0 <= i < |Walk(t, o, b, 0, SLOTS)| && Walk(t, o, b, 0, SLOTS)[i] == AtSlot(p, k);
    WalkVisit(t, o, b, 0, SLOTS, p, k, i);
  }

  /** Every function that can be reached is met exactly once if and only if no two bridges
      lead to the same bus (an empty bus does no harm). */
  lemma OnceIff(t: Topology, o: Order, root: nat)
    requires Sound(t) && root in t.buses
    ensures NoDuplicates(Walk(t, o, root, 0, SLOTS)) <==> OneWayIn(t, root)
  {
    if OneWayIn(t, root) {
      WalkOnce(t, o, root, root, 0, SLOTS);
    }
    if NoDuplicates(Walk(t, o, root, 0, SLOTS)) {
      forall b, k, b', k' |
        b in t.buses && b' in t.buses && Reach(t, root, b) && Reach(t, root, b') &&
        BridgeSlot(t.config, b, k) && BridgeSlot(t.config, b', k') &&
        Secondary(t.config, b, k) == Secondary(t.config, b', k') && Occupied(t.config, Secondary(t.config, b, k))
        ensures b == b' && k == k'
      {
        SharedBusRepeats(t, o, root, b, k, b', k');
      }
    }
  }

  lemma SharedBusRepeats(t: Topology, o: Order, root: nat, b: nat, k: nat, b': nat, k': nat)
    requires Sound(t) && root in t.buses && NoDuplicates(Walk(t, o, root, 0, SLOTS))
    requires b in t.buses && b' in t.buses && Reach(t, root, b) && Reach(t, root, b')
    requires BridgeSlot(t.config, b, k) && BridgeSlot(t.config, b', k')
    requires Secondary(t.config, b, k) == Secondary(t.config, b', k') && Occupied(t.config, Secondary(t.config, b, k))
    ensures b == b' && k == k'
  {
    var s, all := Secondary(t.config, b, k), Walk(t, o, root, 0, SLOTS);
    var part := Walk(t, o, s, 0, SLOTS);
    OccupiedWalk(t, o, s);
    BlockNext(t, o, root, b, k);
    BlockNext(t, o, root, b', k');
    SameNeighbour(o, all, AtSlot(b, k), AtSlot(b', k'), part);
    SlotRoundTrip(AtSlot(b, k), k);
    SlotRoundTrip(AtSlot(b', k'), k');
  }

  lemma OccupiedWalk(t: Topology, o: Order, s: nat)
    requires Sound(t) && s in t.buses && Occupied(t.config, s)
    ensures Walk(t, o, s, 0, SLOTS) != []
  {
    var k :| 0 <= k < SLOTS && Visible(t.config, AtSlot(s, k));
    SlotRoundTrip(AtSlot(s, k), k);
    WalkFindsAll(t, o, s, AtSlot(s, k));
  }

  /** Without repetition a block has one neighbour. */
  lemma SameNeighbour(o: Order, s: seq<Bdf>, x: Bdf, y: Bdf, part: seq<Bdf>)
    requires NoDuplicates(s) && part != [] && Adjacent(o, s, x, part) && Adjacent(o, s, y, part)
    ensures x == y
  {
    var i: nat :| Stands(o, s, x, part, i);
    var j: nat :| Stands(o, s, y, part, j);
    if o == BridgeFirst {
      assert s[i + 1] == s[i + 1..i + 1 + |part|][0] == s[j + 1..j + 1 + |part|][0] == s[j + 1];
    } else {
      assert s[i - 1] == s[i - |part|..i][|part| - 1] == s[j - |part|..j][|part| - 1] == s[j - 1];
    }
  }

  /** Without repetition, the members of a block lie on its side of the neighbour. */
  lemma BlockSide(o: Order, s: seq<Bdf>, x: Bdf, part: seq<Bdf>, y: Bdf, i: nat, j: nat)
    requires NoDuplicates(s) && Adjacent(o, s, x, part) && y in part
    requires i < |s| && j < |s| && s[i] == x && s[j] == y
    ensures if o == BridgeFirst then i < j else j < i
  {
    var h: nat :| Stands(o, s, x, part, h);
    assert h == i;
    var m :| 0 <= m < |part| && part[m] == y;
    if o == BridgeFirst {
      assert s[i + 1 + m] == s[i + 1..i + 1 + |part|][m];
    } else {
      assert s[i - |part| + m] == s[i - |part|..i][m];
    }
  }

  /** Whenever a bridge is met, everything behind it follows at once in one order and has just
      been met in the other. */
  lemma BridgeOrder(t: Topology, o: Order, root: nat, p: nat, k: nat, i: nat)
    requires Sound(t) && root in t.buses && p in t.buses && k < SLOTS && Visible(t.config, AtSlot(p, k))
    requires i < |Walk(t, o, root, 0, SLOTS)| && Walk(t, o, root, 0, SLOTS)[i] == AtSlot(p, k)
    ensures Stands(o, Walk(t, o, root, 0, SLOTS), AtSlot(p, k), Below(t, o, p, k), i)
    ensures forall y :: y in Below(t, o, p, k) <==> InBelow(t, p, k, y)
  {
    WalkVisit(t, o, root, 0, SLOTS, p, k, i);
    forall y ensures y in Below(t, o, p, k) <==> InBelow(t, p, k, y) {
      SubtreeFinds(t, o, p, k, y);
    }
  }

  /** Depth first: in each visit of a bus a function and everything behind it come before the
      functions in later slots and everything behind those. */
  lemma DepthFirst(t: Topology, o: Order, b: nat, k: nat, l: nat)
    requires Sound(t) && b in t.buses && k < l < SLOTS
    ensures Walk(t, o, b, 0, SLOTS) ==
      Walk(t, o, b, 0, k) + Head(t, o, b, k) + Walk(t, o, b, k + 1, l) + Head(t, o, b, l) + Walk(t, o, b, l + 1, SLOTS)
  {
    WalkSplit(t, o, b, 0, k, SLOTS);
    WalkSplit(t, o, b, k + 1, l, SLOTS);
    FiveParts(Walk(t, o, b, 0, k), Head(t, o, b, k), Walk(t, o, b, k + 1, l), Head(t, o, b, l),
              Walk(t, o, b, l + 1, SLOTS));
  }

  lemma FiveParts(a: seq<Bdf>, b: seq<Bdf>, c: seq<Bdf>, d: seq<Bdf>, e: seq<Bdf>)
    ensures a + (b + (c + (d + e))) == a + b + c + d + e
  {
  }

  /** In a discovery without repetition a bridge comes before everything behind it in one
      order and after everything behind it in the other. */
  lemma BridgeSide(t: Topology, o: Order, root: nat, b: nat, k: nat, y: Bdf, i: nat, j: nat)
    requires Sound(t) && root in t.buses && OneWayIn(t, root) && b in t.buses && Reach(t, root, b)
    requires InBelow(t, b, k, y)
    requires var s := Walk(t, o, root, 0, SLOTS); i < |s| && j < |s| && s[i] == AtSlot(b, k) && s[j] == y
    ensures if o == BridgeFirst then i < j else j < i
  {
    OnceIff(t, o, root);
    BlockNext(t, o, root, b, k);
    SubtreeFinds(t, o, b, k, y);
    BlockSide(o, Walk(t, o, root, 0, SLOTS), AtSlot(b, k), Below(t, o, b, k), y, i, j);
  }

  /** `part` is a stretch of `s` from `u` on. */
  predicate BlockAt(s: seq<Bdf>, part: seq<Bdf>, u: nat) {
    u + |part| <= |s| && s[u..u + |part|] == part
  }

  /** The discovery of a bus behind the root is one stretch of the whole. */
  lemma BusBlock(t: Topology, o: Order, root: nat, b: nat) returns (u: nat)
    requires Sound(t) && root in t.buses && b in t.buses && Reach(t, root, b)
    ensures BlockAt(Walk(t, o, root, 0, SLOTS), Walk(t, o, b, 0, SLOTS), u)
  {
    var s, part := Walk(t, o, root, 0, SLOTS), Walk(t, o, b, 0, SLOTS);
    if b == root {
      u := 0;
      assert s[0..|s|] == s;
    } else {
      var p, k := LastBridge(t, root, b);
      BlockNext(t, o, root, p, k);
      var i: nat :| Stands(o, s, AtSlot(p, k), part, i);
      u := if o == BridgeFirst then i + 1 else i - |part|;
    }
  }

  /** Without repetition, what stands in the front part of a block comes before its back part. */
  lemma BlockSplit(s: seq<Bdf>, front: seq<Bdf>, back: seq<Bdf>, u: nat, x: Bdf, y: Bdf, i: nat, j: nat)
    requires NoDuplicates(s) && BlockAt(s, front + back, u) && x in front && y in back
    requires i < |s| && j < |s| && s[i] == x && s[j] == y
    ensures i < j
  {
    var part := front + back;
    var m :| 0 <= m < |front| && front[m] == x;
    var n :| 0 <= n < |back| && back[n] == y;
    assert s[u + m] == s[u..u + |part|][m] == x;
    assert s[u + |front| + n] == s[u..u + |part|][|front| + n] == y;
  }

  lemma SlotWithin(t: Topology, o: Order, b: nat, lo: nat, k: nat, hi: nat, x: Bdf)
    requires Sound(t) && b in t.buses && lo <= k < hi <= SLOTS && Visible(t.config, AtSlot(b, k))
    requires x in Subtree(t, o, b, k)
    ensures x in Walk(t, o, b, lo, hi)
  {
    WalkSplit(t, o, b, lo, k, hi);
    assert Walk(t, o, b, k, hi) == Subtree(t, o, b, k) + Walk(t, o, b, k + 1, hi);
  }

  /** Without repetition, in both orders a function and everything behind it come before every
      function in a later slot of the same bus and everything behind that. */
  lemma SlotSide(t: Topology, o: Order, root: nat, b: nat, k: nat, l: nat, x: Bdf, y: Bdf, i: nat, j: nat)
    requires Sound(t) && root in t.buses && OneWayIn(t, root) && b in t.buses && Reach(t, root, b)
    requires k < l < SLOTS && Visible(t.config, AtSlot(b, k)) && Visible(t.config, AtSlot(b, l))
    requires x in Subtree(t, o, b, k) && y in Subtree(t, o, b, l)
    requires var s := Walk(t, o, root, 0, SLOTS); i < |s| && j < |s| && s[i] == x && s[j] == y
    ensures i < j
  {
    OnceIff(t, o, root);
    var u := BusBlock(t, o, root, b);
    WalkSplit(t, o, b, 0, l, SLOTS);
    SlotWithin(t, o, b, 0, k, l, x);
    SlotWithin(t, o, b, l, l, SLOTS, y);
    BlockSplit(Walk(t, o, root, 0, SLOTS), Walk(t, o, b, 0, l), Walk(t, o, b, l, SLOTS), u, x, y, i, j);
  }

  /** Both orders meet the same functions, equally often. */
  lemma {:induction false} SameFunctions(t: Topology, b: nat, lo: nat, hi: nat)
    requires Sound(t) && b in t.buses && hi <= SLOTS
    ensures multiset(Walk(t, BridgeFirst, b, lo, hi)) == multiset(Walk(t, BridgeLast, b, lo, hi))
    decreases t.rank(b), 2, hi - lo
  {
    if lo < hi {
      var head, tail := WalkTurn(t, BridgeFirst, b, lo, hi);
      var head', tail' := WalkTurn(t, BridgeLast, b, lo, hi);
      SameFunctions(t, b, lo + 1, hi);
      SameHead(t, b, lo);
      ConcatSame(head, head', tail, tail');
    }
  }

  lemma {:induction false} SameHead(t: Topology, b: nat, k: nat)
    requires Sound(t) && b in t.buses && k < SLOTS
    ensures multiset(Head(t, BridgeFirst, b, k)) == multiset(Head(t, BridgeLast, b, k))
    decreases t.rank(b), 1
  {
    if Visible(t.config, AtSlot(b, k)) {
      SameSubtree(t, b, k);
    }
  }

  lemma ConcatSame(a: seq<Bdf>, a': seq<Bdf>, b: seq<Bdf>, b': seq<Bdf>)
    requires multiset(a) == multiset(a') && multiset(b) == multiset(b')
    ensures multiset(a + b) == multiset(a' + b')
  {
  }

  lemma {:induction false} SameSubtree(t: Topology, b: nat, k: nat)
    requires Sound(t) && b in t.buses && k < SLOTS && Visible(t.config, AtSlot(b, k))
    ensures multiset(Subtree(t, BridgeFirst, b, k)) == multiset(Subtree(t, BridgeLast, b, k))
    decreases t.rank(b), 0
  {
    if IsBridge(t.config(AtSlot(b, k))) {
      SameFunctions(t, Secondary(t.config, b, k), 0, SLOTS);
    }
    assert multiset(Below(t, BridgeFirst, b, k)) == multiset(Below(t, BridgeLast, b, k));
  }
}

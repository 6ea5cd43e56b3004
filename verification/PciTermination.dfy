/** When the discovery ends: it keeps no record of the buses it has visited. */
module PciTermination {
  import opened PciTopology

  /** The recursion of the discovery from bus `b` ends within `depth` levels. */
  ghost predicate EndsWithin(c: Config, b: nat, depth: nat)
    decreases depth, b
  {
    depth > 0 && forall k :: BridgeSlot(c, b, k) ==> EndsWithin(c, Secondary(c, b, k), depth - 1)
  }

  /** The least sufficient depth below a sufficient one. */
  ghost function LeastDepth(c: Config, b: nat, depth: nat): (d: nat)
    requires EndsWithin(c, b, depth)
    ensures d <= depth && EndsWithin(c, b, d) && (d > 0 ==> !EndsWithin(c, b, d - 1))
    decreases depth
  {
    if depth > 0 && EndsWithin(c, b, depth - 1) then LeastDepth(c, b, depth - 1) else depth
  }

  lemma {:induction false} DepthMonotone(c: Config, b: nat, d: nat, e: nat)
    requires EndsWithin(c, b, d) && d <= e
    ensures EndsWithin(c, b, e)
    decreases e
  {
    forall k | BridgeSlot(c, b, k) ensures EndsWithin(c, Secondary(c, b, k), e - 1) {
      DepthMonotone(c, Secondary(c, b, k), d - 1, e - 1);
    }
  }

  lemma {:induction false} SoundEnds(t: Topology, b: nat)
    requires Sound(t) && b in t.buses
    ensures EndsWithin(t.config, b, t.rank(b) + 1)
    decreases t.rank(b)
  {
    forall k | BridgeSlot(t.config, b, k) ensures EndsWithin(t.config, Secondary(t.config, b, k), t.rank(b)) {
      var s := Secondary(t.config, b, k);
      SoundEnds(t, s);
      DepthMonotone(t.config, s, t.rank(s) + 1, t.rank(b));
    }
  }

  /** The buses below 256 from which the recursion ends within `depth`, ranked by how deep it goes. */
  ghost function Ranked(c: Config, depth: nat): Topology {
    var buses := set b: nat | b < 256 && EndsWithin(c, b, depth) :: b;
    Topology(c, buses, b => if EndsWithin(c, b, depth) then LeastDepth(c, b, depth) else 0)
  }

  /** Bus numbers are bytes. */
  ghost predicate ByteBuses(c: Config) {
    forall x: Bdf :: c(x).secondary < 256
  }

  lemma RankedSound(c: Config, depth: nat)
    requires ByteBuses(c)
    ensures Sound(Ranked(c, depth))
  {
    var t := Ranked(c, depth);
    forall b, k | b in t.buses && BridgeSlot(c, b, k)
      ensures Secondary(c, b, k) in t.buses && t.rank(Secondary(c, b, k)) < t.rank(b)
    {
      var s, d := Secondary(c, b, k), LeastDepth(c, b, depth);
      assert EndsWithin(c, s, d - 1);
      DepthMonotone(c, s, d - 1, depth);
      LeastIsLeast(c, s, d - 1, depth);
    }
  }

  lemma {:induction false} LeastIsLeast(c: Config, b: nat, d: nat, depth: nat)
    requires EndsWithin(c, b, d) && EndsWithin(c, b, depth)
    ensures LeastDepth(c, b, depth) <= d
    decreases depth
  {
    if d < LeastDepth(c, b, depth) {
      DepthMonotone(c, b, d, LeastDepth(c, b, depth) - 1);
    }
  }

  // ---------------------------------------------------------------- chains of bridges

  ghost predicate Leads(c: Config, b: nat, s: nat) {
    exists k :: BridgeSlot(c, b, k) && Secondary(c, b, k) == s
  }

  /** A chain of buses, each behind a bridge of the one before. */
  ghost predicate Chain(c: Config, p: seq<nat>) {
    p != [] && forall i :: 0 <= i < |p| - 1 ==> Leads(c, p[i], p[i + 1])
  }

  /** Some chain from `b` meets a bus twice. */
  ghost predicate Loops(c: Config, b: nat) {
    exists p: seq<nat>, i: nat, j: nat :: Chain(c, p) && p[0] == b && i < j < |p| && p[i] == p[j]
  }

  lemma ChainPush(c: Config, b: nat, q: seq<nat>) returns (p: seq<nat>)
    requires Chain(c, q) && Leads(c, b, q[0])
    ensures Chain(c, p) && p == [b] + q
  {
    p := [b] + q;
    forall i | 0 <= i < |p| - 1 ensures Leads(c, p[i], p[i + 1]) {
      assert i > 0 ==> p[i] == q[i - 1] && Leads(c, q[i - 1], q[i]);
    }
  }

  /** Where the recursion does not end within `depth` there is a chain longer than that. */
  lemma {:induction false} LongChain(c: Config, b: nat, depth: nat) returns (p: seq<nat>)
    requires !EndsWithin(c, b, depth)
    ensures Chain(c, p) && p[0] == b && |p| == depth + 1
    decreases depth
  {
    p := [b];
    if depth > 0 {
      var k :| BridgeSlot(c, b, k) && !EndsWithin(c, Secondary(c, b, k), depth - 1);
      var q := LongChain(c, Secondary(c, b, k), depth - 1);
      p := ChainPush(c, b, q);
    }
  }

  /** The recursion goes as deep as a chain is long. */
  lemma {:induction false} ChainDeep(c: Config, p: seq<nat>, i: nat, j: nat, depth: nat)
    requires Chain(c, p) && i <= j < |p| && EndsWithin(c, p[i], depth)
    ensures j - i < depth && EndsWithin(c, p[j], depth - (j - i))
    decreases j - i
  {
    if i < j {
      assert Leads(c, p[i], p[i + 1]);
      var k :| BridgeSlot(c, p[i], k) && Secondary(c, p[i], k) == p[i + 1];
      ChainDeep(c, p, i + 1, j, depth - 1);
    }
  }

  /** From a bus that lies behind itself the recursion never ends. */
  lemma {:induction false} CycleNeverEnds(c: Config, p: seq<nat>, i: nat, j: nat, depth: nat)
    requires Chain(c, p) && i < j < |p| && p[i] == p[j]
    ensures !EndsWithin(c, p[i], depth)
    decreases depth
  {
    if EndsWithin(c, p[i], depth) {
      ChainDeep(c, p, i, j, depth);
      CycleNeverEnds(c, p, i, j, depth - (j - i));
    }
  }

  ghost function Members(p: seq<nat>): set<nat> {
    set i | 0 <= i < |p| :: p[i]
  }

  lemma {:induction false} DistinctCount(p: seq<nat>)
    requires forall i, j :: 0 <= i < j < |p| ==> p[i] != p[j]
    ensures |Members(p)| == |p|
  {
    if p != [] {
      var front, last := p[..|p| - 1], p[|p| - 1];
      DistinctCount(front);
      assert Members(p) == Members(front) + {last};
      assert last !in Members(front);
    }
  }

  /** The numbers below `n`. */
  function Numbers(n: nat): (s: set<nat>)
    ensures |s| == n && forall b: nat :: b in s <==> b < n
  {
    if n == 0 then {} else Numbers(n - 1) + {n - 1}
  }

  lemma SubsetCount(a: set<nat>, b: set<nat>)
    requires a <= b
    ensures |a| <= |b|
  {
    assert b == a + (b - a);
  }

  /** More than `n` numbers below `n` repeat one. */
  lemma Pigeonhole(p: seq<nat>, n: nat) returns (i: nat, j: nat)
    requires |p| > n && forall k :: 0 <= k < |p| ==> p[k] < n
    ensures i < j < |p| && p[i] == p[j]
  {
    if forall i, j :: 0 <= i < j < |p| ==> p[i] != p[j] {
      DistinctCount(p);
      SubsetCount(Members(p), Numbers(n));
      assert false;
    }
    i, j :| 0 <= i < j < |p| && p[i] == p[j];
  }

  lemma ChainBytes(c: Config, p: seq<nat>, k: nat)
    requires ByteBuses(c) && Chain(c, p) && p[0] < 256 && k < |p|
    ensures p[k] < 256
  {
    if k > 0 {
      assert Leads(c, p[k - 1], p[k]);
    }
  }

  lemma LoopNeverEnds(c: Config, p: seq<nat>, i: nat, j: nat, depth: nat)
    requires Chain(c, p) && i < j < |p| && p[i] == p[j]
    ensures !EndsWithin(c, p[0], depth)
  {
    if EndsWithin(c, p[0], depth) {
      ChainDeep(c, p, 0, i, depth);
      CycleNeverEnds(c, p, i, j, depth - i);
    }
  }

  lemma UnendedLoops(c: Config, b: nat, n: nat)
    requires ByteBuses(c) && b < 256 <= n && !EndsWithin(c, b, n)
    ensures Loops(c, b)
  {
    var p := LongChain(c, b, n);
    forall k | 0 <= k < |p| ensures p[k] < 256 {
      ChainBytes(c, p, k);
    }
    var i, j := Pigeonhole(p, 256);
  }

  /** The discovery from a bus ends exactly when no chain of bridges from it meets a bus
      twice, which a walk of 256 levels decides. */
  lemma EndsIff(c: Config, b: nat)
    requires ByteBuses(c) && b < 256
    ensures (exists depth: nat :: EndsWithin(c, b, depth)) <==> !Loops(c, b)
    ensures (exists depth: nat :: EndsWithin(c, b, depth)) <==> EndsWithin(c, b, 256)
  {
    var depth: nat := 256;
    if Loops(c, b) {
      NeverEnds(c, b);
    } else {
      if !EndsWithin(c, b, depth) {
        UnendedLoops(c, b, depth);
      }
      assert EndsWithin(c, b, depth);
    }
  }

  lemma NeverEnds(c: Config, b: nat)
    requires Loops(c, b)
    ensures forall depth: nat :: !EndsWithin(c, b, depth)
  {
    var p: seq<nat>, i: nat, j: nat :| Chain(c, p) && p[0] == b && i < j < |p| && p[i] == p[j];
    forall depth: nat ensures !EndsWithin(c, b, depth) {
      LoopNeverEnds(c, p, i, j, depth);
    }
  }

  /** The discovery from a bus ends if and only if its buses can be ranked as a Topology
      asks: what the other results assume is no more than termination. */
  lemma RankedIff(c: Config, b: nat)
    requires ByteBuses(c) && b < 256
    ensures (exists depth: nat :: EndsWithin(c, b, depth)) <==>
      (exists t: Topology :: t.config == c && Sound(t) && b in t.buses)
  {
    if depth: nat :| EndsWithin(c, b, depth) {
      RankedSound(c, depth);
      var t := Ranked(c, depth);
      assert t.config == c && Sound(t) && b in t.buses;
    }
    if t: Topology :| t.config == c && Sound(t) && b in t.buses {
      SoundEnds(t, b);
      var depth: nat := t.rank(b) + 1;
      assert EndsWithin(c, b, depth);
    }
  }

  /** A machine whose only function is a bridge on bus 0 that has not been configured: its
      secondary bus number is 0, its own. */
  function Unconfigured(): Config {
    x => if x == Bdf(0, 0, 0) then Header(1, 1, 0) else Header(0, 0, 0)
  }

  /** There the discovery never ends. */
  lemma UnconfiguredNeverEnds(depth: nat)
    ensures !EndsWithin(Unconfigured(), 0, depth)
  {
    var c := Unconfigured();
    assert BridgeSlot(c, 0, 0) && Secondary(c, 0, 0) == 0;
    assert Leads(c, 0, 0);
    CycleNeverEnds(c, [0, 0], 0, 1, depth);
  }

  predicate IsByte(b: nat) {
    b < 256
  }

  /** The usual numbering: every bridge leads to a bus number above its own. */
  ghost predicate Ascending(c: Config) {
    forall b: nat, k: nat :: BridgeSlot(c, b, k) ==> b < Secondary(c, b, k)
  }

  ghost function ByNumber(c: Config): Topology {
    Topology(c, set b: nat | b < 256 && IsByte(b) :: b, b => if b < 256 then 255 - b else 0)
  }

  /** With ascending numbers the discovery ends, whatever the configuration space holds. */
  lemma AscendingSound(c: Config)
    requires ByteBuses(c) && Ascending(c)
    ensures Sound(ByNumber(c)) && forall b: nat :: b < 256 ==> b in ByNumber(c).buses
  {
    var t := ByNumber(c);
    forall b: nat | b < 256 ensures b in t.buses {
      assert IsByte(b);
    }
    forall b, k | b in t.buses && BridgeSlot(c, b, k)
      ensures Secondary(c, b, k) in t.buses && t.rank(Secondary(c, b, k)) < t.rank(b)
    {
      assert IsByte(Secondary(c, b, k));
    }
  }

  // ---------------------------------------------------------------- buses reached by chains

  /** A chain of bridges leads from bus `b` to bus `x`. */
  ghost predicate Reaches(c: Config, b: nat, x: nat) {
    exists p: seq<nat> :: Chain(c, p) && p[0] == b && p[|p| - 1] == x
  }

  lemma {:induction false} ReachChain(t: Topology, b: nat, x: nat) returns (p: seq<nat>)
    requires Sound(t) && b in t.buses && Reach(t, b, x)
    ensures Chain(t.config, p) && p[0] == b && p[|p| - 1] == x
    decreases t.rank(b)
  {
    p := [b];
    if b != x {
      var k :| BridgeSlot(t.config, b, k) && Reach(t, Secondary(t.config, b, k), x);
      var q := ReachChain(t, Secondary(t.config, b, k), x);
      p := ChainPush(t.config, b, q);
    }
  }

  lemma {:induction false} ChainReach(t: Topology, p: seq<nat>)
    requires Sound(t) && Chain(t.config, p) && p[0] in t.buses
    ensures Reach(t, p[0], p[|p| - 1])
    decreases |p|
  {
    if |p| > 1 {
      var q := p[1..];
      assert Leads(t.config, p[0], p[1]);
      forall i | 0 <= i < |q| - 1 ensures Leads(t.config, q[i], q[i + 1]) {
        assert Leads(t.config, p[i + 1], p[i + 2]);
      }
      var k :| BridgeSlot(t.config, p[0], k) && Secondary(t.config, p[0], k) == p[1];
      ChainReach(t, q);
    }
  }

  /** Reaching a bus does not depend on how the buses are ranked. */
  lemma ReachesIff(t: Topology, b: nat, x: nat)
    requires Sound(t) && b in t.buses
    ensures Reach(t, b, x) <==> Reaches(t.config, b, x)
  {
    if Reach(t, b, x) {
      var p := ReachChain(t, b, x);
    }
    if Reaches(t.config, b, x) {
      var p: seq<nat> :| Chain(t.config, p) && p[0] == b && p[|p| - 1] == x;
      ChainReach(t, p);
    }
  }

  /** No two bridges that are reached lead to the same bus, unless that bus is empty. */
  ghost predicate OneBridgeEach(c: Config, root: nat) {
    forall b, k, b', k' ::
      Reaches(c, root, b) && Reaches(c, root, b') && BridgeSlot(c, b, k) && BridgeSlot(c, b', k') &&
      Secondary(c, b, k) == Secondary(c, b', k') && Occupied(c, Secondary(c, b, k)) ==>
        b == b' && k == k'
  }

  lemma OneWayIff(t: Topology, root: nat)
    requires Sound(t) && root in t.buses
    ensures OneWayIn(t, root) <==> OneBridgeEach(t.config, root)
  {
    forall b: nat ensures Reaches(t.config, root, b) <==> b in t.buses && Reach(t, root, b) {
      ReachesIff(t, root, b);
      if Reach(t, root, b) {
        ReachRank(t, root, b);
      }
    }
  }
}

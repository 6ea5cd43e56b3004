/** The discovery itself: mutually recursive methods that append to a linked list of device
    descriptors and look for drivers on the way back. */
module PciEnumeration {
  import opened PciTopology
  import opened PciTermination

  /** `pci_device_t`. */
  class Descriptor {
    const bdf: Bdf
    var next: Descriptor?

    constructor (bdf: Bdf)
      ensures this.bdf == bdf && next == null
    {
      this.bdf, this.next := bdf, null;
    }
  }

  /** From `n` on the list runs through `nodes`, all different and in `repr`, which hold the
      functions `found`, and ends. */
  ghost predicate Linked(n: Descriptor?, nodes: seq<Descriptor>, found: seq<Bdf>, repr: set<Descriptor>)
    reads repr
    decreases |nodes|
  {
    && |nodes| == |found| && n == NodeAt(nodes, 0)
    && (n != null ==>
          && n in repr && n.bdf == found[0] && n !in nodes[1..]
          && Linked(n.next, nodes[1..], found[1..], repr))
  }

  function NodeAt(nodes: seq<Descriptor>, i: nat): Descriptor? {
    if i < |nodes| then nodes[i] else null
  }

  /** The same, index by index. */
  ghost predicate Laid(n: Descriptor?, nodes: seq<Descriptor>, found: seq<Bdf>, repr: set<Descriptor>)
    reads repr
  {
    && |nodes| == |found| && n == NodeAt(nodes, 0)
    && (forall i, j :: 0 <= i < j < |nodes| ==> nodes[i] != nodes[j])
    && (forall i :: 0 <= i < |nodes| ==> nodes[i] in repr && nodes[i].bdf == found[i])
    && (forall i :: 0 <= i < |nodes| ==> nodes[i] in repr && nodes[i].next == NodeAt(nodes, i + 1))
  }

  lemma {:induction false} LinkedIsLaid(n: Descriptor?, nodes: seq<Descriptor>, found: seq<Bdf>, repr: set<Descriptor>)
    ensures Linked(n, nodes, found, repr) <==> Laid(n, nodes, found, repr)
    decreases |nodes|
  {
    if nodes != [] && |nodes| == |found| && n == nodes[0] && n in repr {
      LinkedIsLaid(n.next, nodes[1..], found[1..], repr);
      if Linked(n, nodes, found, repr) {
        LaidPush(n, nodes, found, repr);
      } else if Laid(n, nodes, found, repr) {
        LaidPop(n, nodes, found, repr);
      }
    }
  }

  lemma LaidPush(n: Descriptor, nodes: seq<Descriptor>, found: seq<Bdf>, repr: set<Descriptor>)
    requires nodes != [] && |nodes| == |found| && n == nodes[0] && n in repr && n.bdf == found[0] && n !in nodes[1..]
    requires Laid(n.next, nodes[1..], found[1..], repr)
    ensures Laid(n, nodes, found, repr)
  {
    forall i, j | 0 <= i < j < |nodes| ensures nodes[i] != nodes[j] {
      assert nodes[j] == nodes[1..][j - 1] && (i > 0 ==> nodes[i] == nodes[1..][i - 1]);
    }
    forall i | 0 <= i < |nodes|
      ensures nodes[i] in repr && nodes[i].bdf == found[i] && nodes[i].next == NodeAt(nodes, i + 1)
    {
      assert i > 0 ==> nodes[i] == nodes[1..][i - 1] && found[i] == found[1..][i - 1];
      assert NodeAt(nodes, i + 1) == NodeAt(nodes[1..], i);
    }
  }

  lemma LaidPop(n: Descriptor, nodes: seq<Descriptor>, found: seq<Bdf>, repr: set<Descriptor>)
    requires nodes != [] && Laid(n, nodes, found, repr)
    ensures n == nodes[0] && n in repr && n.bdf == found[0] && n !in nodes[1..]
    ensures Laid(n.next, nodes[1..], found[1..], repr)
  {
    var tail := nodes[1..];
    forall i | 0 <= i < |tail| ensures tail[i].next == NodeAt(tail, i + 1) {
      assert nodes[i + 1].next == NodeAt(nodes, i + 2);
    }
  }

  /** The list `pci_device_descriptor_list`, the configuration space, and the devices for
      which `_find_driver` has been called. `found` is what the list holds, in order. */
  class Pci {
    const config: Config
    var list: Descriptor?
    var driver_calls: seq<Bdf>
    ghost var found: seq<Bdf>
    ghost var nodes: seq<Descriptor>
    ghost var repr: set<Descriptor>

    ghost predicate Valid()
      reads this, repr
    {
      Linked(list, nodes, found, repr)
    }

    constructor (config: Config)
      ensures Valid() && this.config == config && found == [] && driver_calls == [] && repr == {}
    {
      this.config := config;
      list, driver_calls := null, [];
      found, nodes, repr := [], [], {};
    }

    /** The walk to the end of the list. */
    method Last() returns (c: Descriptor)
      requires Laid(list, nodes, found, repr) && list != null
      ensures nodes != [] && c == nodes[|nodes| - 1]
    {
      c := list;
      ghost var i: nat := 0;
      while c.next != null
        invariant i < |nodes| && c == nodes[i]
        decreases |nodes| - i
      {
        assert c.next == NodeAt(nodes, i + 1);
        c := c.next;
        i := i + 1;
      }
      assert nodes[i].next == NodeAt(nodes, i + 1);
    }

    /** `create_device_descriptor`: append at the end of the list. */
    method CreateDeviceDescriptor(x: Bdf)
      requires Valid()
      modifies this`list, this`found, this`nodes, this`repr, repr
      ensures Valid() && fresh(repr - old(repr)) && found == old(found) + [x]
    {
      LinkedIsLaid(list, nodes, found, repr);
      var desc := new Descriptor(x);
      if list == null {
        list := desc;
      } else {
        var c := Last();
        c.next := desc;
      }
      found, nodes, repr := found + [x], nodes + [desc], repr + {desc};
      assert Laid(list, nodes, found, repr);
      LinkedIsLaid(list, nodes, found, repr);
    }

    /** `enumerate_function`, called for functions the device admits to: record the function,
        discover what is behind a bridge, then look for a driver. */
    method EnumerateFunction(bus: nat, device: nat, fn: nat, ghost t: Topology)
      requires Valid() && t.config == config && Sound(t) && bus in t.buses
      requires device < DEVICES && fn < FUNCTIONS && Admitted(config, bus, device, fn)
      modifies this`list, this`found, this`nodes, this`repr, this`driver_calls, repr
      ensures Valid() && fresh(repr - old(repr))
      ensures found == old(found) + Head(t, BridgeFirst, bus, device * FUNCTIONS + fn)
      ensures driver_calls == old(driver_calls) + Head(t, BridgeLast, bus, device * FUNCTIONS + fn)
      ensures var x, header := Bdf(bus, device, fn), config(Bdf(bus, device, fn));
        if header.device_id == 0 || header.device_id == 0xFFFF then
          found == old(found) && driver_calls == old(driver_calls)
        else if header.header_type == 0x01 || header.header_type == 0x81 then
          && header.secondary in t.buses
          && found == old(found) + [x] + Walk(t, BridgeFirst, header.secondary, 0, SLOTS)
          && driver_calls == old(driver_calls) + Walk(t, BridgeLast, header.secondary, 0, SLOTS) + [x]
        else found == old(found) + [x] && driver_calls == old(driver_calls) + [x]
      decreases t.rank(bus), 0
    {
      var x := Bdf(bus, device, fn);
      var header := config(x);
      ghost var k := device * FUNCTIONS + fn;
      FunctionSlot(config, bus, device, fn);
      if header.device_id == 0 || header.device_id == 0xFFFF {
        return;
      }
      ghost var first, last := found, driver_calls;
      HeadParts(t, bus, k);
      CreateDeviceDescriptor(x);
      if header.header_type % 0x80 == 1 {
        EnumerateBus(header.secondary, t);
        Regroup(first, [x], Walk(t, BridgeFirst, header.secondary, 0, SLOTS));
        Regroup(last, Walk(t, BridgeLast, header.secondary, 0, SLOTS), [x]);
      }
      driver_calls := driver_calls + [x];
    }

    /** `enumerate_device`: look at function 0, then at one or eight functions. */
    method EnumerateDevice(bus: nat, device: nat, ghost t: Topology)
      requires Valid() && t.config == config && Sound(t) && bus in t.buses && device < DEVICES
      modifies this`list, this`found, this`nodes, this`repr, this`driver_calls, repr
      ensures Valid() && fresh(repr - old(repr))
      ensures found == old(found) + DeviceWalk(t, BridgeFirst, bus, device)
      ensures driver_calls == old(driver_calls) + DeviceWalk(t, BridgeLast, bus, device)
      decreases t.rank(bus), 1
    {
      var header := config(Bdf(bus, device, 0));
      if header.device_id == 0 || header.device_id == 0xFFFF {
        SilentFunctions(t, BridgeFirst, bus, device, 0);
        SilentFunctions(t, BridgeLast, bus, device, 0);
        return;
      }
      var function_count := 1;
      if header.header_type / 0x80 % 2 == 1 {
        function_count := FUNCTIONS;
      }
      ghost var first, last: seq<Bdf> := [], [];
      var f := 0;
      while f < function_count
        invariant 0 <= f <= function_count && Valid() && fresh(repr - old(repr))
        invariant found == old(found) + first && first == FunctionsWalk(t, BridgeFirst, bus, device, f)
        invariant driver_calls == old(driver_calls) + last && last == FunctionsWalk(t, BridgeLast, bus, device, f)
      {
        EnumerateFunction(bus, device, f, t);
        Regroup(old(found), first, Head(t, BridgeFirst, bus, device * FUNCTIONS + f));
        Regroup(old(driver_calls), last, Head(t, BridgeLast, bus, device * FUNCTIONS + f));
        first, last := FunctionsPush(t, bus, device, f, first, last);
        f := f + 1;
      }
      SilentFunctions(t, BridgeFirst, bus, device, f);
      SilentFunctions(t, BridgeLast, bus, device, f);
    }

    /** `enumerate_bus`. */
    method EnumerateBus(bus: nat, ghost t: Topology)
      requires Valid() && t.config == config && Sound(t) && bus in t.buses
      modifies this`list, this`found, this`nodes, this`repr, this`driver_calls, repr
      ensures Valid() && fresh(repr - old(repr))
      ensures found == old(found) + Walk(t, BridgeFirst, bus, 0, SLOTS)
      ensures driver_calls == old(driver_calls) + Walk(t, BridgeLast, bus, 0, SLOTS)
      decreases t.rank(bus), 2
    {
      ghost var first, last: seq<Bdf> := [], [];
      var i := 0;
      while i < DEVICES
        invariant 0 <= i <= DEVICES && Valid() && fresh(repr - old(repr))
        invariant found == old(found) + first && first == DevicesWalk(t, BridgeFirst, bus, i)
        invariant driver_calls == old(driver_calls) + last && last == DevicesWalk(t, BridgeLast, bus, i)
      {
        EnumerateDevice(bus, i, t);
        Regroup(old(found), first, DeviceWalk(t, BridgeFirst, bus, i));
        Regroup(old(driver_calls), last, DeviceWalk(t, BridgeLast, bus, i));
        first, last := DevicesPush(t, bus, i, first, last);
        i := i + 1;
      }
    }
  }

  lemma Regroup(a: seq<Bdf>, b: seq<Bdf>, c: seq<Bdf>)
    ensures (a + b) + c == a + (b + c)
  {
  }

  /** Function 0 is present and the device admits to function `fn`. */
  predicate Admitted(c: Config, bus: nat, device: nat, fn: nat) {
    Present(c(Bdf(bus, device, 0))) && (fn == 0 || MultiFunction(c(Bdf(bus, device, 0))))
  }

  // ---------------------------------------------------------------- slots of a device

  ghost function FunctionsWalk(t: Topology, o: Order, b: nat, device: nat, f: nat): seq<Bdf>
    requires Sound(t) && b in t.buses && device < DEVICES && f <= FUNCTIONS
  {
    Walk(t, o, b, device * FUNCTIONS, device * FUNCTIONS + f)
  }

  ghost function DeviceWalk(t: Topology, o: Order, b: nat, device: nat): seq<Bdf>
    requires Sound(t) && b in t.buses && device < DEVICES
  {
    FunctionsWalk(t, o, b, device, FUNCTIONS)
  }

  ghost function DevicesWalk(t: Topology, o: Order, b: nat, device: nat): seq<Bdf>
    requires Sound(t) && b in t.buses && device <= DEVICES
  {
    Walk(t, o, b, 0, device * FUNCTIONS)
  }

  lemma FunctionSlot(c: Config, bus: nat, device: nat, fn: nat)
    requires device < DEVICES && fn < FUNCTIONS && Admitted(c, bus, device, fn)
    ensures var k := device * FUNCTIONS + fn;
      && k < SLOTS && AtSlot(bus, k) == Bdf(bus, device, fn)
      && (Visible(c, AtSlot(bus, k)) <==> Present(c(Bdf(bus, device, fn))))
  {
    SlotRoundTrip(Bdf(bus, device, fn), 0);
  }

  lemma HeadParts(t: Topology, b: nat, k: nat)
    requires Sound(t) && b in t.buses && k < SLOTS && Visible(t.config, AtSlot(b, k))
    ensures var x := AtSlot(b, k);
      if IsBridge(t.config(x)) then
        var s := t.config(x).secondary;
        s in t.buses && t.rank(s) < t.rank(b) &&
        Head(t, BridgeFirst, b, k) == [x] + Walk(t, BridgeFirst, s, 0, SLOTS) &&
        Head(t, BridgeLast, b, k) == Walk(t, BridgeLast, s, 0, SLOTS) + [x]
      else Head(t, BridgeFirst, b, k) == [x] && Head(t, BridgeLast, b, k) == [x]
  {
    assert Subtree(t, BridgeFirst, b, k) == [AtSlot(b, k)] + Below(t, BridgeFirst, b, k);
    assert Subtree(t, BridgeLast, b, k) == Below(t, BridgeLast, b, k) + [AtSlot(b, k)];
    if IsBridge(t.config(AtSlot(b, k))) {
      assert BridgeSlot(t.config, b, k);
      var s := Secondary(t.config, b, k);
      assert Below(t, BridgeFirst, b, k) == Walk(t, BridgeFirst, s, 0, SLOTS);
      assert Below(t, BridgeLast, b, k) == Walk(t, BridgeLast, s, 0, SLOTS);
    } else {
      assert Below(t, BridgeFirst, b, k) == [] && Below(t, BridgeLast, b, k) == [];
    }
  }

  lemma FunctionAdds(t: Topology, o: Order, b: nat, device: nat, f: nat)
    requires Sound(t) && b in t.buses && device < DEVICES && f < FUNCTIONS
    ensures FunctionsWalk(t, o, b, device, f + 1) ==
      FunctionsWalk(t, o, b, device, f) + Head(t, o, b, device * FUNCTIONS + f)
  {
    var lo, k := device * FUNCTIONS, device * FUNCTIONS + f;
    WalkSplit(t, o, b, lo, k, k + 1);
    assert Walk(t, o, b, k, k + 1) == Head(t, o, b, k) + [];
  }

  lemma FunctionsPush(t: Topology, b: nat, device: nat, f: nat, first: seq<Bdf>, last: seq<Bdf>)
    returns (first': seq<Bdf>, last': seq<Bdf>)
    requires Sound(t) && b in t.buses && device < DEVICES && f < FUNCTIONS
    requires first == FunctionsWalk(t, BridgeFirst, b, device, f) && last == FunctionsWalk(t, BridgeLast, b, device, f)
    ensures first' == first + Head(t, BridgeFirst, b, device * FUNCTIONS + f)
    ensures last' == last + Head(t, BridgeLast, b, device * FUNCTIONS + f)
    ensures first' == FunctionsWalk(t, BridgeFirst, b, device, f + 1)
    ensures last' == FunctionsWalk(t, BridgeLast, b, device, f + 1)
  {
    FunctionAdds(t, BridgeFirst, b, device, f);
    FunctionAdds(t, BridgeLast, b, device, f);
    first' := FunctionsWalk(t, BridgeFirst, b, device, f + 1);
    last' := FunctionsWalk(t, BridgeLast, b, device, f + 1);
  }

  lemma DevicesPush(t: Topology, b: nat, device: nat, first: seq<Bdf>, last: seq<Bdf>)
    returns (first': seq<Bdf>, last': seq<Bdf>)
    requires Sound(t) && b in t.buses && device < DEVICES
    requires first == DevicesWalk(t, BridgeFirst, b, device) && last == DevicesWalk(t, BridgeLast, b, device)
    ensures first' == first + DeviceWalk(t, BridgeFirst, b, device)
    ensures last' == last + DeviceWalk(t, BridgeLast, b, device)
    ensures first' == DevicesWalk(t, BridgeFirst, b, device + 1)
    ensures last' == DevicesWalk(t, BridgeLast, b, device + 1)
  {
    WalkSplit(t, BridgeFirst, b, 0, device * FUNCTIONS, (device + 1) * FUNCTIONS);
    WalkSplit(t, BridgeLast, b, 0, device * FUNCTIONS, (device + 1) * FUNCTIONS);
    first' := DevicesWalk(t, BridgeFirst, b, device + 1);
    last' := DevicesWalk(t, BridgeLast, b, device + 1);
  }

  /** Functions a device does not admit to are invisible. */
  lemma {:induction false} SilentFunctions(t: Topology, o: Order, b: nat, device: nat, f: nat)
    requires Sound(t) && b in t.buses && device < DEVICES && f <= FUNCTIONS
    requires forall g :: f <= g < FUNCTIONS ==> !Admitted(t.config, b, device, g)
    ensures DeviceWalk(t, o, b, device) == FunctionsWalk(t, o, b, device, f)
    decreases FUNCTIONS - f
  {
    if f < FUNCTIONS {
      SlotRoundTrip(Bdf(b, device, f), 0);
      FunctionAdds(t, o, b, device, f);
      assert !Admitted(t.config, b, device, f);
      assert Head(t, o, b, device * FUNCTIONS + f) == [];
      SilentFunctions(t, o, b, device, f + 1);
    }
  }

  // ---------------------------------------------------------------- the discovery as a whole

  /** Some function of the list is a bridge to the bus: header type 1, whatever bit 7 says. */
  predicate BridgeTo(c: Config, found: seq<Bdf>, bus: nat) {
    exists y :: y in found && (c(y).header_type == 0x01 || c(y).header_type == 0x81) && c(y).secondary == bus
  }

  /** Functions of one bus stand in the order of device and function number. */
  predicate InOrder(s: seq<Bdf>) {
    forall i, j :: 0 <= i < j < |s| && s[i].bus == s[j].bus ==>
      s[i].device < s[j].device || (s[i].device == s[j].device && s[i].fn < s[j].fn)
  }

  /** Every bridge stands before the functions of the bus it leads to. */
  predicate BridgesBefore(c: Config, s: seq<Bdf>) {
    forall i, j :: 0 <= i < |s| && 0 <= j < |s| ==>
      (c(s[i]).header_type == 0x01 || c(s[i]).header_type == 0x81) && s[j].bus == c(s[i]).secondary ==> i < j
  }

  predicate BridgesAfter(c: Config, s: seq<Bdf>) {
    forall i, j :: 0 <= i < |s| && 0 <= j < |s| ==>
      (c(s[i]).header_type == 0x01 || c(s[i]).header_type == 0x81) && s[j].bus == c(s[i]).secondary ==> j < i
  }

  /** `enumerate_pci` for one allocation: discovery from bus 0, which ends because no chain of
      bridges meets a bus twice. The list holds exactly the functions that are present on
      buses reached; each once iff no two bridges lead to the same bus; and a driver is looked
      for as often as a function is listed.

      In terms of the bytes read: a function is listed iff its bus is 0 or the secondary bus of a
      listed bridge, its identifier is neither 0 nor 0xFFFF, and it is function 0 or function 0 of
      its device is listed with bit 7 of its header type set. Without repetition the functions of
      a bus are in order, and a bridge comes before those of its bus in the list and after
      them in the driver calls. */
  method EnumeratePci(config: Config) returns (pci: Pci)
    requires ByteBuses(config) && !Loops(config, 0)
    ensures fresh(pci) && pci.Valid() && pci.config == config
    ensures forall x :: x in pci.found <==> Reaches(config, 0, x.bus) && Visible(config, x) && Numbered(x)
    ensures NoDuplicates(pci.found) <==> OneBridgeEach(config, 0)
    ensures multiset(pci.driver_calls) == multiset(pci.found)
    ensures forall x :: x in pci.found <==>
      && (x.bus == 0 || BridgeTo(config, pci.found, x.bus)) && x.device < 32 && x.fn < 8
      && config(x).device_id != 0 && config(x).device_id != 0xFFFF
      && (x.fn == 0 || (config(Bdf(x.bus, x.device, 0)).header_type >= 0x80 && Bdf(x.bus, x.device, 0) in pci.found))
    ensures NoDuplicates(pci.found) ==> InOrder(pci.found) && InOrder(pci.driver_calls)
    ensures NoDuplicates(pci.found) ==> BridgesBefore(config, pci.found) && BridgesAfter(config, pci.driver_calls)
  {
    EndsIff(config, 0);
    RankedIff(config, 0);
    ghost var t: Topology :| t.config == config && Sound(t) && 0 in t.buses;
    pci := new Pci(config);
    pci.EnumerateBus(0, t);
    Discovered(t, pci.found, pci.driver_calls);
    ListedRaw(t, pci.found);
    OrderedRaw(t, pci.found, pci.driver_calls);
  }

  lemma Discovered(t: Topology, found: seq<Bdf>, driver_calls: seq<Bdf>)
    requires Sound(t) && 0 in t.buses
    requires found == [] + Walk(t, BridgeFirst, 0, 0, SLOTS) && driver_calls == [] + Walk(t, BridgeLast, 0, 0, SLOTS)
    ensures forall x :: x in found <==> Reaches(t.config, 0, x.bus) && Visible(t.config, x) && Numbered(x)
    ensures NoDuplicates(found) <==> OneBridgeEach(t.config, 0)
    ensures multiset(driver_calls) == multiset(found)
  {
    assert found == Walk(t, BridgeFirst, 0, 0, SLOTS) && driver_calls == Walk(t, BridgeLast, 0, 0, SLOTS);
    forall x ensures x in found <==> Reaches(t.config, 0, x.bus) && Visible(t.config, x) && Numbered(x) {
      WalkFindsAll(t, BridgeFirst, 0, x);
      ReachesIff(t, 0, x.bus);
    }
    OnceIff(t, BridgeFirst, 0);
    OneWayIff(t, 0);
    SameFunctions(t, 0, 0, SLOTS);
  }

  // ---------------------------------------------------------------- the same in terms of header bytes

  lemma HeaderBits(h: Header)
    ensures IsBridge(h) <==> h.header_type == 0x01 || h.header_type == 0x81
    ensures MultiFunction(h) <==> h.header_type >= 0x80
  {
  }

  /** What the discovery of bus 0 finds. */
  ghost predicate Finds(t: Topology, x: Bdf)
    requires Sound(t) && 0 in t.buses
  {
    Reach(t, 0, x.bus) && Visible(t.config, x) && Numbered(x)
  }

  /** A bridge that is found leads to a bus that is reached. */
  lemma BehindFound(t: Topology, y: Bdf)
    requires Sound(t) && 0 in t.buses && Finds(t, y) && IsBridge(t.config(y))
    ensures Reach(t, 0, t.config(y).secondary)
  {
    SlotRoundTrip(y, 0);
    ReachRank(t, 0, y.bus);
    assert BridgeSlot(t.config, y.bus, SlotOf(y));
    StepReaches(t, 0, y.bus, SlotOf(y));
  }

  /** A bus besides bus 0 is reached through a bridge that is found. */
  lemma EnteredThrough(t: Topology, b: nat) returns (y: Bdf)
    requires Sound(t) && 0 in t.buses && Reach(t, 0, b) && b != 0
    ensures Finds(t, y) && IsBridge(t.config(y)) && t.config(y).secondary == b
  {
    var p, k := LastBridge(t, 0, b);
    y := AtSlot(p, k);
    SlotRoundTrip(y, k);
  }

  lemma EnteredIff(t: Topology, found: seq<Bdf>, b: nat)
    requires Sound(t) && 0 in t.buses && forall x :: x in found <==> Finds(t, x)
    ensures Reach(t, 0, b) <==> b == 0 || BridgeTo(t.config, found, b)
  {
    if Reach(t, 0, b) && b != 0 {
      var y := EnteredThrough(t, b);
      HeaderBits(t.config(y));
      assert y in found;
    } else if BridgeTo(t.config, found, b) {
      var y :| y in found && (t.config(y).header_type == 0x01 || t.config(y).header_type == 0x81) &&
        t.config(y).secondary == b;
      HeaderBits(t.config(y));
      BehindFound(t, y);
    }
  }

  lemma FindsIff(t: Topology, found: seq<Bdf>, x: Bdf)
    requires Sound(t) && 0 in t.buses && forall x :: x in found <==> Finds(t, x)
    ensures x in found <==>
      && (x.bus == 0 || BridgeTo(t.config, found, x.bus)) && x.device < 32 && x.fn < 8
      && t.config(x).device_id != 0 && t.config(x).device_id != 0xFFFF
      && (x.fn == 0 || (t.config(Bdf(x.bus, x.device, 0)).header_type >= 0x80 && Bdf(x.bus, x.device, 0) in found))
  {
    var zero := Bdf(x.bus, x.device, 0);
    EnteredIff(t, found, x.bus);
    HeaderBits(t.config(zero));
    assert zero in found <==> Finds(t, zero);
    assert x.fn == 0 ==> x == zero;
  }

  lemma ListedRaw(t: Topology, found: seq<Bdf>)
    requires Sound(t) && 0 in t.buses
    requires forall x :: x in found <==> Reaches(t.config, 0, x.bus) && Visible(t.config, x) && Numbered(x)
    ensures forall x :: x in found <==>
      && (x.bus == 0 || BridgeTo(t.config, found, x.bus)) && x.device < 32 && x.fn < 8
      && t.config(x).device_id != 0 && t.config(x).device_id != 0xFFFF
      && (x.fn == 0 || (t.config(Bdf(x.bus, x.device, 0)).header_type >= 0x80 && Bdf(x.bus, x.device, 0) in found))
  {
    forall x ensures x in found <==> Finds(t, x) {
      ReachesIff(t, 0, x.bus);
    }
    forall x
      ensures x in found <==>
        && (x.bus == 0 || BridgeTo(t.config, found, x.bus)) && x.device < 32 && x.fn < 8
        && t.config(x).device_id != 0 && t.config(x).device_id != 0xFFFF
        && (x.fn == 0 || (t.config(Bdf(x.bus, x.device, 0)).header_type >= 0x80 && Bdf(x.bus, x.device, 0) in found))
    {
      FindsIff(t, found, x);
    }
  }

  lemma PairInOrder(t: Topology, o: Order, s: seq<Bdf>, i: nat, j: nat)
    requires Sound(t) && 0 in t.buses && OneWayIn(t, 0) && s == Walk(t, o, 0, 0, SLOTS)
    requires i < j < |s| && s[i].bus == s[j].bus
    ensures s[i].device < s[j].device || (s[i].device == s[j].device && s[i].fn < s[j].fn)
  {
    var x, y := s[i], s[j];
    WalkFindsAll(t, o, 0, x);
    WalkFindsAll(t, o, 0, y);
    SlotRoundTrip(x, 0);
    SlotRoundTrip(y, 0);
    ReachRank(t, 0, x.bus);
    if SlotOf(y) == SlotOf(x) {
      assert x == y;
      OnceIff(t, o, 0);
    } else if SlotOf(y) < SlotOf(x) {
      SubtreeFinds(t, o, x.bus, SlotOf(x), x);
      SubtreeFinds(t, o, x.bus, SlotOf(y), y);
      SlotSide(t, o, 0, x.bus, SlotOf(y), SlotOf(x), y, x, j, i);
    }
  }

  lemma BridgeAside(t: Topology, o: Order, s: seq<Bdf>, i: nat, j: nat)
    requires Sound(t) && 0 in t.buses && OneWayIn(t, 0) && s == Walk(t, o, 0, 0, SLOTS)
    requires i < |s| && j < |s| && IsBridge(t.config(s[i])) && s[j].bus == t.config(s[i]).secondary
    ensures if o == BridgeFirst then i < j else j < i
  {
    var x, y := s[i], s[j];
    WalkFindsAll(t, o, 0, x);
    WalkFindsAll(t, o, 0, y);
    SlotRoundTrip(x, 0);
    ReachRank(t, 0, x.bus);
    assert BridgeSlot(t.config, x.bus, SlotOf(x)) && Secondary(t.config, x.bus, SlotOf(x)) == y.bus;
    assert InBelow(t, x.bus, SlotOf(x), y);
    BridgeSide(t, o, 0, x.bus, SlotOf(x), y, i, j);
  }

  lemma WalkOrdered(t: Topology, o: Order, s: seq<Bdf>)
    requires Sound(t) && 0 in t.buses && OneWayIn(t, 0) && s == Walk(t, o, 0, 0, SLOTS)
    ensures InOrder(s)
    ensures if o == BridgeFirst then BridgesBefore(t.config, s) else BridgesAfter(t.config, s)
  {
    forall i, j | 0 <= i < j < |s| && s[i].bus == s[j].bus
      ensures s[i].device < s[j].device || (s[i].device == s[j].device && s[i].fn < s[j].fn)
    {
      PairInOrder(t, o, s, i, j);
    }
    forall i, j | 0 <= i < |s| && 0 <= j < |s| && s[j].bus == t.config(s[i]).secondary &&
      (t.config(s[i]).header_type == 0x01 || t.config(s[i]).header_type == 0x81)
      ensures if o == BridgeFirst then i < j else j < i
    {
      HeaderBits(t.config(s[i]));
      BridgeAside(t, o, s, i, j);
    }
  }

  lemma OrderedRaw(t: Topology, found: seq<Bdf>, driver_calls: seq<Bdf>)
    requires Sound(t) && 0 in t.buses
    requires found == [] + Walk(t, BridgeFirst, 0, 0, SLOTS) && driver_calls == [] + Walk(t, BridgeLast, 0, 0, SLOTS)
    ensures NoDuplicates(found) ==> InOrder(found) && InOrder(driver_calls)
    ensures NoDuplicates(found) ==> BridgesBefore(t.config, found) && BridgesAfter(t.config, driver_calls)
  {
    assert found == Walk(t, BridgeFirst, 0, 0, SLOTS) && driver_calls == Walk(t, BridgeLast, 0, 0, SLOTS);
    OnceIff(t, BridgeFirst, 0);
    if NoDuplicates(found) {
      WalkOrdered(t, BridgeFirst, found);
      WalkOrdered(t, BridgeLast, driver_calls);
    }
  }

  /** Secondary bus numbers differ from bridge to bridge. */
  ghost predicate DistinctBridges(c: Config) {
    forall b, k, b', k' ::
      BridgeSlot(c, b, k) && BridgeSlot(c, b', k') && Secondary(c, b, k) == Secondary(c, b', k') ==>
        b == b' && k == k'
  }

  /** The usual numbering, ascending and without repetition, is all the discovery needs to end
      and to list every function once. */
  lemma UsualNumbering(c: Config)
    requires ByteBuses(c) && Ascending(c) && DistinctBridges(c)
    ensures !Loops(c, 0) && OneBridgeEach(c, 0)
  {
    AscendingSound(c);
    var t := ByNumber(c);
    assert t.config == c && Sound(t) && 0 in t.buses;
    RankedIff(c, 0);
    EndsIff(c, 0);
  }
}

/** Addresses and file names of PCI functions: one configuration window and one path each. */
module PciNames {
  import opened Machine
  import Formats
  import Printf
  import CStrings
  import PrintfLaws
  import opened PciTopology
  import opened PciEnumeration

  predicate InRange(x: Bdf) {
    x.bus < 256 && Numbered(x)
  }

  /** `calculate_address`, in 64 bits. */
  function Address(base: U64, x: Bdf): U64 {
    ToU64(base + x.bus * 0x10_0000 + x.device * 0x8000 + x.fn * 0x1000)
  }

  /** The address takes the function apart again: 1 MiB for each bus, 32 KiB for each device, 4 KiB
      for each function. */
  lemma AddressDecodes(base: U64, x: Bdf)
    requires InRange(x) && base + 0x1000_0000 <= TWO64
    ensures var offset := Address(base, x) - base;
      && offset / 0x10_0000 == x.bus && offset / 0x8000 % 32 == x.device && offset / 0x1000 % 8 == x.fn
      && offset % 0x1000 == 0
  {
    var offset := x.bus * 0x10_0000 + x.device * 0x8000 + x.fn * 0x1000;
    ToU64Small(base + x.bus * 0x10_0000 + x.device * 0x8000 + x.fn * 0x1000);
    ModUnique(offset, 0x10_0000, x.bus, x.device * 0x8000 + x.fn * 0x1000);
    ModUnique(offset, 0x8000, x.bus * 32 + x.device, x.fn * 0x1000);
    ModUnique(offset, 0x1000, x.bus * 256 + x.device * 8 + x.fn, 0);
    ModUnique(offset / 0x8000, 32, x.bus, x.device);
    ModUnique(offset / 0x1000, 8, x.bus * 32 + x.device, x.fn);
  }

  lemma Apart(x: nat, y: nat, m: nat)
    requires 0 < m && x % m == 0 && y % m == 0 && x != y
    ensures x + m <= y || y + m <= x
  {
    var p, q := x / m, y / m;
    assert x == p * m && y == q * m;
    if p < q {
      MulLe(p + 1, q, m);
    } else if q < p {
      MulLe(q + 1, p, m);
    }
  }

  lemma AddressBound(base: U64, x: Bdf)
    requires InRange(x) && base + 0x1000_0000 <= TWO64
    ensures base <= Address(base, x) && Address(base, x) + 0x1000 <= base + 0x1000_0000
  {
    ToU64Small(base + x.bus * 0x10_0000 + x.device * 0x8000 + x.fn * 0x1000);
  }

  /** Configuration windows of different functions are disjoint and lie within 256 MiB. */
  lemma WindowsDisjoint(base: U64, x: Bdf, y: Bdf)
    requires InRange(x) && InRange(y) && base + 0x1000_0000 <= TWO64
    ensures base <= Address(base, x) && Address(base, x) + 0x1000 <= base + 0x1000_0000
    ensures x != y ==> Address(base, x) + 0x1000 <= Address(base, y) || Address(base, y) + 0x1000 <= Address(base, x)
  {
    AddressBound(base, x);
    AddressBound(base, y);
    AddressDecodes(base, x);
    AddressDecodes(base, y);
    if x != y {
      Apart(Address(base, x) - base, Address(base, y) - base, 0x1000);
    }
  }

  lemma ToU64Small(x: int)
    requires 0 <= x < TWO64
    ensures ToU64(x) == x
  {
  }

  function Path(x: Bdf): string {
    Formats.PathText(x.bus, x.device, x.fn)
  }

  ghost predicate DistinctPaths(found: seq<Bdf>) {
    forall i, j :: 0 <= i < j < |found| ==> Path(found[i]) != Path(found[j])
  }

  /** The files made for the discovered functions all have different names exactly when no two
      bridges lead to the same occupied bus. */
  lemma PathsDistinctIff(t: Topology, o: Order, root: nat)
    requires Sound(t) && root in t.buses && forall b :: b in t.buses ==> b < 256
    ensures DistinctPaths(Walk(t, o, root, 0, SLOTS)) <==> OneWayIn(t, root)
  {
    var found := Walk(t, o, root, 0, SLOTS);
    OnceIff(t, o, root);
    forall i, j | 0 <= i < j < |found| && found[i] != found[j] ensures Path(found[i]) != Path(found[j]) {
      var x, y := found[i], found[j];
      FoundInRange(t, o, root, x);
      FoundInRange(t, o, root, y);
      if Path(x) == Path(y) {
        Formats.PathInjective(x.bus, x.device, x.fn, y.bus, y.device, y.fn);
      }
    }
  }

  lemma FoundInRange(t: Topology, o: Order, root: nat, x: Bdf)
    requires Sound(t) && root in t.buses && (forall b :: b in t.buses ==> b < 256)
    requires x in Walk(t, o, root, 0, SLOTS)
    ensures InRange(x)
  {
    WalkFindsAll(t, o, root, x);
    ReachRank(t, root, x.bus);
  }

  /** The file name `create_pci_vfs_entries` formats for one function: nothing is cut off, and
      the buffer holds it as a C string. */
  method FormatPath(path_buffer: array<char>, x: Bdf) returns (n: int)
    requires path_buffer.Length == Formats.PATH_BUFFER_SIZE && InRange(x)
    modifies path_buffer
    ensures CStrings.StringAt(path_buffer[..], 0) == Path(x) && n == |Path(x)|
  {
    var args := Formats.PathArgs(x.bus, x.device, x.fn);
    Formats.PathIs(x.bus, x.device, x.fn);
    Formats.PathFits(x.bus, x.device, x.fn);
    Formats.PathClean(x.bus, x.device, x.fn);
    ghost var before := path_buffer[..];
    n := Printf.Snprintf(path_buffer, Formats.PATH_BUFFER_SIZE, Formats.PCI_PATH, args);
    PrintfLaws.CompleteIff(before, Path(x), Formats.PATH_BUFFER_SIZE);
  }

  /** The paths of the first functions of the list. */
  predicate Listed(paths: seq<string>, found: seq<Bdf>) {
    |paths| <= |found| && forall i :: 0 <= i < |paths| ==> paths[i] == Path(found[i])
  }

  lemma ListedPush(paths: seq<string>, found: seq<Bdf>, path: string)
    requires Listed(paths, found) && |paths| < |found| && path == Path(found[|paths|])
    ensures Listed(paths + [path], found)
  {
  }

  method PathText(path_buffer: array<char>, x: Bdf) returns (path: string)
    requires path_buffer.Length == Formats.PATH_BUFFER_SIZE && InRange(x)
    modifies path_buffer
    ensures path == Path(x)
  {
    var n := FormatPath(path_buffer, x);
    path := CStrings.StringAt(path_buffer[..], 0);
  }

  /** The walk of `create_pci_vfs_entries` over the descriptor list: the path of every function
      listed, in the order of the list. */
  method DevicePaths(pci: Pci) returns (paths: seq<string>)
    requires pci.Valid() && forall x :: x in pci.found ==> InRange(x)
    ensures |paths| == |pci.found| && Listed(paths, pci.found)
  {
    var path_buffer := new char[Formats.PATH_BUFFER_SIZE];
    ghost var nodes, rest := pci.nodes, pci.found;
    paths := [];
    var c := pci.list;
    while c != null
      invariant Listed(paths, pci.found) && rest == pci.found[|paths|..] && Linked(c, nodes, rest, pci.repr)
      decreases |nodes|
    {
      assert c.bdf == rest[0] == pci.found[|paths|];
      nodes, rest := nodes[1..], rest[1..];
      var next := c.next;
      var path := PathText(path_buffer, c.bdf);
      ListedPush(paths, pci.found, path);
      paths := paths + [path];
      c := next;
    }
  }
}

/**
 CHKDSK of userland/dos/fat.c on a FAT12 or FAT16 volume: what it claims and reports.

 The volume is its first FAT, byte for byte, with the number and size of its clusters. The disk itself is
 a parameter: the directory entries in a cluster, or nothing where it can't be read. The names and the
 text of the reports are left out, what they report is not.
 */
module Chkdsk {

  const MAX_DEPTH := 16

  datatype Option<T> = None | Some(value: T)

  datatype Volume = Volume(clusters: nat, clusterSize: nat, fat: seq<nat>)

  // ----- the FAT -----

  function Bits(v: Volume): nat
  {
    if v.clusters < 4085 then 12 else 16
  }

  /** A volume that open_volume lets through and whose FAT has an entry for each cluster. The second it does not
      check: the entries of a FAT that is too short for its clusters would be read from whatever lies after it. */
  ghost predicate Ok(v: Volume)
  {
    && v.clusterSize > 0 && v.clusters < 65525
    && (if Bits(v) == 16 then 2 * v.clusters + 4 else v.clusters + 1 + (v.clusters + 1) / 2 + 2) <= |v.fat|
    && forall i :: 0 <= i < |v.fat| ==> v.fat[i] < 256
  }

  function Le16(s: seq<nat>, i: nat): nat
    requires i + 1 < |s|
  {
    s[i] + 256 * s[i + 1]
  }

  function Entry(v: Volume, n: nat): (r: nat)
    requires Ok(v) && n < v.clusters + 2
    ensures r < if Bits(v) == 16 then 0x10000 else 0x1000
  {
    if Bits(v) == 16 then Le16(v.fat, 2 * n)
    else
      var w := Le16(v.fat, n + n / 2);
      if n % 2 == 1 then w / 16 else w % 0x1000
  }

  /** Two entries of twelve bits are three bytes, the first in the low half; one of sixteen is two. */
  lemma EntriesPacked(v: Volume, k: nat)
    requires Ok(v) && k < v.clusters + 2
    ensures Bits(v) == 16 ==> Entry(v, k) == v.fat[2 * k] + 0x100 * v.fat[2 * k + 1]
    ensures Bits(v) == 12 && 2 * k + 1 < v.clusters + 2 ==>
              Entry(v, 2 * k) + 0x1000 * Entry(v, 2 * k + 1)
              == v.fat[3 * k] + 0x100 * v.fat[3 * k + 1] + 0x1_0000 * v.fat[3 * k + 2]
  {
    if Bits(v) == 12 && 2 * k + 1 < v.clusters + 2 {
      assert 2 * k / 2 == k && (2 * k + 1) / 2 == k && 2 * k % 2 == 0 && (2 * k + 1) % 2 == 1;
      Nibbles(v.fat[3 * k], v.fat[3 * k + 1], v.fat[3 * k + 2]);
    }
  }

  lemma Nibbles(a: nat, b: nat, c: nat)
    requires a < 256 && b < 256 && c < 256
    ensures (a + 256 * b) % 0x1000 + 0x1000 * ((b + 256 * c) / 16) == a + 0x100 * b + 0x1_0000 * c
  {
  }

  predicate IsBad(v: Volume, x: nat)
  {
    x == if Bits(v) == 16 then 0xFFF7 else 0xFF7
  }

  predicate IsEnd(v: Volume, x: nat)
  {
    x >= if Bits(v) == 16 then 0xFFF8 else 0xFF8
  }

  /** Of the numbers an entry can be, the last eight are end marks and the one before them is for a bad cluster. */
  lemma LastNumbers(v: Volume, x: nat)
    ensures var all := if v.clusters < 4085 then 4096 else 65536;
            (IsEnd(v, x) <==> x >= all - 8) && (IsBad(v, x) <==> x == all - 9)
  {
  }

  predicate Cluster(v: Volume, c: nat)
  {
    2 <= c < v.clusters + 2
  }

  predicate FreeOrBad(v: Volume, x: nat)
  {
    x == 0 || IsBad(v, x)
  }

  /** A cluster number means nothing else. */
  lemma ClusterIsPlain(v: Volume, c: nat)
    requires Ok(v) && Cluster(v, c)
    ensures !IsEnd(v, c) && !FreeOrBad(v, c)
  {
  }

  /** How many clusters a file of that size needs, in the 32 bits the source computes it in. */
  function Need(v: Volume, size: nat): nat
    requires v.clusterSize > 0
  {
    (size + v.clusterSize - 1) % 0x1_0000_0000 / v.clusterSize
  }

  // ----- chains -----

  /** The clusters of the FAT's own chain from c on. A chain with no end repeats itself within `fuel`. */
  ghost function Path(v: Volume, c: nat, fuel: nat): seq<nat>
    requires Ok(v)
    decreases fuel
  {
    if fuel == 0 || !Cluster(v, c) then [] else [c] + Path(v, Entry(v, c), fuel - 1)
  }

  ghost predicate AllClusters(v: Volume, s: seq<nat>)
  {
    forall i :: 0 <= i < |s| ==> Cluster(v, s[i])
  }

  /** What the FAT says after the chain: the chain's first number, if it has no cluster. */
  ghost function After(v: Volume, first: nat, s: seq<nat>): nat
    requires Ok(v) && AllClusters(v, s)
  {
    if s == [] then first else Entry(v, s[|s| - 1])
  }

  ghost predicate NoDup(s: seq<nat>)
  {
    forall i, j :: 0 <= i < j < |s| ==> s[i] != s[j]
  }

  /** Something a directory lists: its first cluster, its chain, and its size if it is a file. */
  datatype Item = Item(first: nat, clusters: seq<nat>, dir: bool, size: nat) | Unreadable

  /** The chain ends, and has as many clusters as the file's size needs. */
  ghost predicate Proper(v: Volume, x: Item)
    requires Ok(v)
  {
    && x.Item? && AllClusters(v, x.clusters)
    && !FreeEnd(v, x.first, x.clusters) && Ends(v, After(v, x.first, x.clusters))
    && (x.dir || |x.clusters| == Need(v, x.size))
  }

  ghost predicate AllProper(v: Volume, xs: seq<Item>)
    requires Ok(v)
  {
    forall i :: 0 <= i < |xs| ==> Proper(v, xs[i])
  }

  /** Where a chain may stop: at an end mark; but 0 and 1 stop it too. */
  predicate Ends(v: Volume, x: nat)
  {
    x < 2 || IsEnd(v, x)
  }

  /** The chain runs into a free or bad cluster. */
  ghost predicate FreeEnd(v: Volume, first: nat, s: seq<nat>)
    requires Ok(v) && AllClusters(v, s)
  {
    s != [] && FreeOrBad(v, After(v, first, s))
  }

  ghost function Flat(xs: seq<Item>): seq<nat>
  {
    if xs == [] then [] else (if xs[0].Item? then xs[0].clusters else []) + Flat(xs[1..])
  }

  lemma {:induction false} FlatConcat(a: seq<Item>, b: seq<Item>)
    ensures Flat(a + b) == Flat(a) + Flat(b)
  {
    if a == [] {
      assert a + b == b;
    } else {
      assert (a + b)[1..] == a[1..] + b;
      FlatConcat(a[1..], b);
    }
  }

  // ----- directories -----

  /** Of the 32 bytes of an entry, the first, the attributes (at 11), the first cluster (26) and the size (28). */
  datatype DirEntry = DirEntry(name0: nat, attr: nat, first: nat, size: nat)

  predicate Marker(e: DirEntry)
  {
    e.name0 == 0
  }

  /** Deleted entries, long names, labels, and the links to itself and its parent. */
  predicate Skipped(e: DirEntry)
  {
    e.name0 == 0xE5 || e.attr == 0x0F || e.attr / 8 % 2 == 1 || e.name0 == 0x2E
  }

  predicate IsDir(e: DirEntry)
  {
    e.attr / 16 % 2 == 1
  }

  type Disk = nat -> Option<seq<DirEntry>>

  predicate HasMarker(es: seq<DirEntry>)
  {
    exists i :: 0 <= i < |es| && Marker(es[i])
  }

  /** Everything the entries list, down to so many levels of directories. */
  ghost function Listed(v: Volume, disk: Disk, es: seq<DirEntry>, levels: nat): seq<Item>
    requires Ok(v)
    decreases levels, 3, |es|
  {
    if es == [] || Marker(es[0]) then []
    else (if Skipped(es[0]) then [] else ListedEntry(v, disk, es[0], levels)) + Listed(v, disk, es[1..], levels)
  }

  ghost function ListedEntry(v: Volume, disk: Disk, e: DirEntry, levels: nat): seq<Item>
    requires Ok(v)
    decreases levels, 2, 0
  {
    [ItemOf(v, e)] + (if !IsDir(e) || levels == 0 then [] else ListedDir(v, disk, Chain(v, e.first), levels - 1))
  }

  ghost function Chain(v: Volume, first: nat): seq<nat>
    requires Ok(v)
  {
    Path(v, first, v.clusters)
  }

  ghost function ItemOf(v: Volume, e: DirEntry): Item
    requires Ok(v)
  {
    Item(e.first, Chain(v, e.first), IsDir(e), if IsDir(e) then 0 else e.size)
  }

  ghost function ListedDir(v: Volume, disk: Disk, path: seq<nat>, levels: nat): seq<Item>
    requires Ok(v)
    decreases levels, 4, |path|
  {
    if path == [] then []
    else match disk(path[0])
      case None => [Unreadable]
      case Some(es) =>
        Listed(v, disk, es, levels) + if HasMarker(es) then [] else ListedDir(v, disk, path[1..], levels)
  }

  /** Items that share no cluster with each other or with what is claimed already, and whose chains are right. */
  ghost predicate Fine(v: Volume, claimed: seq<nat>, xs: seq<Item>)
    requires Ok(v)
  {
    NoDup(claimed + Flat(xs)) && AllProper(v, xs)
  }

  lemma FineConcat(v: Volume, claimed: seq<nat>, a: seq<Item>, b: seq<Item>)
    requires Ok(v)
    ensures Fine(v, claimed, a + b) <==> Fine(v, claimed, a) && Fine(v, claimed + Flat(a), b)
  {
    FlatConcat(a, b);
    assert claimed + (Flat(a) + Flat(b)) == claimed + Flat(a) + Flat(b);
    ProperConcat(v, a, b);
    NoDupPrefix(claimed + Flat(a), Flat(b));
  }

  lemma ProperConcat(v: Volume, a: seq<Item>, b: seq<Item>)
    requires Ok(v)
    ensures AllProper(v, a + b) <==> AllProper(v, a) && AllProper(v, b)
  {
    var ab := a + b;
    if AllProper(v, ab) {
      assert forall i :: 0 <= i < |a| ==> a[i] == ab[i];
      assert forall i :: 0 <= i < |b| ==> b[i] == ab[|a| + i];
    }
  }

  lemma NoDupPrefix(a: seq<nat>, b: seq<nat>)
    ensures NoDup(a + b) ==> NoDup(a)
  {
    var ab := a + b;
    assert forall i :: 0 <= i < |a| ==> a[i] == ab[i];
  }
}

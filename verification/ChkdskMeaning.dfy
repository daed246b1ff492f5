/**
 What it means that CHKDSK (userland/dos/fat.c) finds nothing wrong: which chains a clean volume has, where
 they end, and what its depth limit does to a tree that goes deeper.
 */
module ChkdskMeaning {
  import opened Chkdsk
  import opened ChkdskWalk
  import opened ChkdskReport

  lemma {:induction false} FlatHas(xs: seq<Item>, i: nat, c: nat)
    requires i < |xs| && xs[i].Item? && c in xs[i].clusters
    ensures c in Flat(xs)
  {
    if i > 0 {
      FlatHas(xs[1..], i - 1, c);
    }
  }

  lemma NoDupApart(a: seq<nat>, b: seq<nat>, c: nat)
    requires NoDup(a + b) && c in a
    ensures c !in b
  {
    var ab := a + b;
    var i :| 0 <= i < |a| && a[i] == c;
    forall j | 0 <= j < |b| ensures b[j] != c {
      assert ab[i] != ab[|a| + j];
    }
  }

  /** What is listed once in all is listed by one item only. */
  lemma {:induction false} OneOwner(xs: seq<Item>, i: nat, j: nat, c: nat)
    requires NoDup(Flat(xs)) && i < j < |xs| && xs[i].Item? && xs[j].Item? && c in xs[i].clusters
    ensures c !in xs[j].clusters
  {
    var head, tail := if xs[0].Item? then xs[0].clusters else [], Flat(xs[1..]);
    var flat := Flat(xs);
    assert flat == head + tail;
    if i == 0 {
      NoDupApart(head, tail, c);
      if c in xs[j].clusters {
        FlatHas(xs[1..], j - 1, c);
      }
    } else {
      assert NoDup(tail) by {
        assert forall a :: 0 <= a < |tail| ==> tail[a] == flat[|head| + a];
      }
      OneOwner(xs[1..], i - 1, j - 1, c);
    }
  }

  lemma {:induction false} NoDupInside(xs: seq<Item>, i: nat)
    requires NoDup(Flat(xs)) && i < |xs| && xs[i].Item?
    ensures NoDup(xs[i].clusters)
  {
    var head, tail := if xs[0].Item? then xs[0].clusters else [], Flat(xs[1..]);
    var flat := Flat(xs);
    assert flat == head + tail;
    if i == 0 {
      assert forall a :: 0 <= a < |head| ==> head[a] == flat[a];
    } else {
      assert NoDup(tail) by {
        assert forall a :: 0 <= a < |tail| ==> tail[a] == flat[|head| + a];
      }
      NoDupInside(xs[1..], i - 1);
    }
  }

  /** With no problem found, chains follow the FAT, never come back to a cluster, share none, and are as long
      as the file's size says; and a cluster in none of them is free or bad. */
  lemma CleanVolume(v: Volume, disk: Disk, root: seq<DirEntry>, fat2: Option<seq<nat>>, i: nat, j: nat, c: nat)
    requires Ok(v) && Consistent(v, disk, root, fat2)
    ensures var all := Listed(v, disk, root, MAX_DEPTH);
            && (i < |all| ==>
                  && all[i].Item? && NoDup(all[i].clusters) && Ends(v, After(v, all[i].first, all[i].clusters))
                  && (all[i].dir || |all[i].clusters| == Need(v, all[i].size)))
            && (i < j < |all| && c in all[i].clusters ==> c !in all[j].clusters)
            && (Cluster(v, c) && c !in Flat(all) ==> FreeOrBad(v, Entry(v, c)))
  {
    var all := Listed(v, disk, root, MAX_DEPTH);
    hide Ok, Listed, Entry, NoDup, Flat, Need;
    assert [] + Flat(all) == Flat(all);
    if i < |all| {
      assert Proper(v, all[i]);
      NoDupInside(all, i);
      if i < j < |all| && c in all[i].clusters {
        assert Proper(v, all[j]);
        OneOwner(all, i, j, c);
      }
    }
    if Cluster(v, c) {
      assert !IsLost(v, Flat(all), c);
    }
  }

  /** Rounded up, the quotient is the least number of clusters that hold the file. */
  lemma LeastClusters(size: nat, cs: nat)
    requires cs > 0
    ensures var q := (size + cs - 1) / cs; q * cs - cs < size <= q * cs
  {
    var t := size + cs - 1;
    assert t == t / cs * cs + t % cs;
  }

  /** The clusters a file needs, and when 32 bits are too few to count them. */
  lemma NeedExact(v: Volume, size: nat)
    requires 0 < v.clusterSize < 0x1_0000_0000 && size < 0x1_0000_0000
    ensures Need(v, size) == (size + v.clusterSize - 1) / v.clusterSize <==> size + v.clusterSize - 1 < 0x1_0000_0000
  {
    Wrap(size + v.clusterSize - 1);
    NeedIs(size + v.clusterSize - 1, (size + v.clusterSize - 1) % 0x1_0000_0000, v.clusterSize);
  }

  lemma Wrap(t: nat)
    requires t < 0x2_0000_0000
    ensures t % 0x1_0000_0000 == if t < 0x1_0000_0000 then t else t - 0x1_0000_0000
  {
  }

  lemma NeedIs(t: nat, w: nat, cs: nat)
    requires 0 < cs < 0x1_0000_0000 && t < cs + 0x1_0000_0000 - 1
    requires w == if t < 0x1_0000_0000 then t else t - 0x1_0000_0000
    ensures w / cs == t / cs <==> t < 0x1_0000_0000
  {
    if t >= 0x1_0000_0000 {
      assert w < cs && w / cs == 0;
      DivPositive(t, cs);
    }
  }

  lemma DivPositive(t: nat, cs: nat)
    requires 0 < cs <= t
    ensures t / cs > 0
  {
  }

  /** A file of 2^32 - 1 bytes is said to need no cluster at all. */
  lemma NeedWraps(v: Volume)
    requires v.clusterSize == 512
    ensures Need(v, 0xFFFF_FFFF) == 0 && (0xFFFF_FFFF + v.clusterSize - 1) / v.clusterSize == 0x80_0000
  {
  }

  // ----- where chains end -----

  lemma {:induction false} FlatFrom(xs: seq<Item>, c: nat) returns (i: nat)
    requires c in Flat(xs)
    ensures i < |xs| && xs[i].Item? && c in xs[i].clusters
  {
    if xs[0].Item? && c in xs[0].clusters {
      i := 0;
    } else {
      i := FlatFrom(xs[1..], c);
      i := i + 1;
    }
  }

  /** What is listed has the FAT's own chain. */
  ghost predicate FromFat(v: Volume, xs: seq<Item>)
    requires Ok(v)
  {
    forall i :: 0 <= i < |xs| && xs[i].Item? ==> xs[i].clusters == Chain(v, xs[i].first)
  }

  lemma {:induction false} ListedFromFat(v: Volume, disk: Disk, es: seq<DirEntry>, levels: nat)
    requires Ok(v)
    ensures FromFat(v, Listed(v, disk, es, levels))
    decreases levels, 3, |es|
  {
    hide Ok, Chain, ListedDir;
    if es != [] && !Marker(es[0]) {
      ListedFromFat(v, disk, es[1..], levels);
      if !Skipped(es[0]) && IsDir(es[0]) && levels > 0 {
        ListedDirFromFat(v, disk, Chain(v, es[0].first), levels - 1);
      }
    }
  }

  lemma {:induction false} ListedDirFromFat(v: Volume, disk: Disk, path: seq<nat>, levels: nat)
    requires Ok(v)
    ensures FromFat(v, ListedDir(v, disk, path, levels))
    decreases levels, 4, |path|
  {
    hide Ok, Chain, Listed;
    if path != [] && disk(path[0]).Some? {
      ListedFromFat(v, disk, disk(path[0]).value, levels);
      ListedDirFromFat(v, disk, path[1..], levels);
    }
  }

  /** What follows a cluster of a proper chain: another cluster, 1, or an end mark. */
  lemma InChain(v: Volume, x: Item, c: nat)
    requires Ok(v) && x.Item? && Proper(v, x) && x.clusters == Chain(v, x.first) && c in x.clusters
    ensures Cluster(v, c) && !FreeOrBad(v, Entry(v, c))
    ensures Entry(v, c) == 1 ==> After(v, x.first, x.clusters) == 1
  {
    hide Ok, Entry, Need;
    PathLinked(v, x.first, v.clusters);
    var k :| 0 <= k < |x.clusters| && x.clusters[k] == c;
    if k < |x.clusters| - 1 {
      ClusterIsPlain(v, x.clusters[k + 1]);
    }
  }

  /** Where a clean volume's chain stops: at an end mark, exactly when its last cluster's entry is not 1. An empty
      chain has 0, 1 or an end mark for its first number. */
  lemma EndMark(v: Volume, disk: Disk, root: seq<DirEntry>, fat2: Option<seq<nat>>, i: nat)
    requires Ok(v) && Consistent(v, disk, root, fat2) && i < |Listed(v, disk, root, MAX_DEPTH)|
    ensures var x := Listed(v, disk, root, MAX_DEPTH)[i];
            && x.Item? && AllClusters(v, x.clusters)
            && (x.clusters != [] ==>
                  (IsEnd(v, After(v, x.first, x.clusters)) <==> Entry(v, x.clusters[|x.clusters| - 1]) != 1))
            && (x.clusters == [] ==> x.first < 2 || IsEnd(v, x.first))
  {
    hide Ok, Listed, Entry, Need;
    assert Proper(v, Listed(v, disk, root, MAX_DEPTH)[i]);
  }

  /** An entry whose first number is no cluster is right exactly when that number is 0, 1 or an end mark and it
      needs no cluster. */
  lemma EmptyChain(v: Volume, e: DirEntry)
    requires Ok(v) && !Cluster(v, e.first)
    ensures Proper(v, ItemOf(v, e)) <==>
            (e.first == 0 || e.first == 1 || IsEnd(v, e.first)) && (IsDir(e) || Need(v, e.size) == 0)
  {
    assert Chain(v, e.first) == [];
  }

  /** All of a clean volume's chains stop at an end mark exactly when no entry of its FAT is 1. */
  lemma AllEndMarks(v: Volume, disk: Disk, root: seq<DirEntry>, fat2: Option<seq<nat>>)
    requires Ok(v) && Consistent(v, disk, root, fat2)
    ensures var all := Listed(v, disk, root, MAX_DEPTH);
            (forall i :: 0 <= i < |all| && all[i].Item? && all[i].clusters != [] ==>
                AllClusters(v, all[i].clusters) && IsEnd(v, After(v, all[i].first, all[i].clusters)))
            <==> (forall c :: Cluster(v, c) ==> Entry(v, c) != 1)
  {
    var all := Listed(v, disk, root, MAX_DEPTH);
    ListedFromFat(v, disk, root, MAX_DEPTH);
    hide Ok, Listed, Entry, Proper, Chain, Flat, NoDup;
    forall i | 0 <= i < |all| && all[i].Item? && all[i].clusters != []
      ensures AllClusters(v, all[i].clusters)
      ensures IsEnd(v, After(v, all[i].first, all[i].clusters)) <==>
              Entry(v, all[i].clusters[|all[i].clusters| - 1]) != 1
    {
      EndMark(v, disk, root, fat2, i);
    }
    if c :| Cluster(v, c) && Entry(v, c) == 1 {
      assert !IsLost(v, Flat(all), c);
      var i := FlatFrom(all, c);
      assert Proper(v, all[i]);
      InChain(v, all[i], c);
    } else {
      forall i | 0 <= i < |all| && all[i].Item? && all[i].clusters != []
        ensures AllClusters(v, all[i].clusters) && IsEnd(v, After(v, all[i].first, all[i].clusters))
      {
        assert Cluster(v, all[i].clusters[|all[i].clusters| - 1]);
      }
    }
  }

  /** A FAT whose one file's chain stops at 1, which is no end mark. */
  function LooseEnd(): Volume
  {
    Volume(1, 512, [0xF8, 0xFF, 0xFF, 0x01, 0x00, 0x00])
  }

  lemma LooseItem()
    ensures var v := LooseEnd();
            && Ok(v) && Entry(v, 2) == 1 && !IsEnd(v, 1)
            && ItemOf(v, DirEntry(0x41, 0x20, 2, 100)) == Item(2, [2], false, 100)
            && Proper(v, Item(2, [2], false, 100))
  {
    var v := LooseEnd();
    assert Ok(v) && Entry(v, 2) == 1;
    assert Path(v, 1, 0) == [] && Path(v, 2, 1) == [2] + Path(v, 1, 0);
    assert Need(v, 100) == 1;
  }

  /** CHKDSK finds nothing wrong with it: 1 stops a chain as an end mark does. */
  lemma LooseEndPasses(disk: Disk)
    ensures var v, file := LooseEnd(), DirEntry(0x41, 0x20, 2, 100);
            Ok(v) && Consistent(v, disk, [file], None) && Entry(v, 2) == 1 && !IsEnd(v, 1)
  {
    var v, file, item := LooseEnd(), DirEntry(0x41, 0x20, 2, 100), Item(2, [2], false, 100);
    LooseItem();
    assert v.clusters == 1 && !Marker(file) && !Skipped(file) && !IsDir(file);
    hide Ok, Entry, LooseEnd, Listed, Proper, ItemOf, IsEnd, Marker, Skipped, IsDir;
    ListedNext(v, disk, [file], 0, MAX_DEPTH);
    ListedEnd(v, disk, [file], MAX_DEPTH);
    assert [file][0..] == [file];
    assert Listed(v, disk, [file], MAX_DEPTH) == [item];
    FlatOne(item);
  }

  // ----- the depth limit -----

  /** What one listing holds, the other holds too, each cluster at least as often. */
  ghost predicate PartOf(a: seq<Item>, b: seq<Item>)
  {
    multiset(Flat(a)) <= multiset(Flat(b)) && forall x :: x in a ==> x in b
  }

  lemma PartsConcat(a: seq<Item>, b: seq<Item>, c: seq<Item>, d: seq<Item>)
    requires PartOf(a, c) && PartOf(b, d)
    ensures PartOf(a + b, c + d)
  {
    FlatConcat(a, b);
    FlatConcat(c, d);
  }

  /** Looking deeper lists all that was listed, and more. */
  lemma {:induction false} Deeper(v: Volume, disk: Disk, es: seq<DirEntry>, m: nat, n: nat)
    requires Ok(v) && m <= n
    ensures PartOf(Listed(v, disk, es, m), Listed(v, disk, es, n))
    decreases m, 3, |es|
  {
    hide Ok, Chain, ListedEntry, PartOf;
    if es == [] || Marker(es[0]) {
      PartOfItself([]);
    } else {
      Deeper(v, disk, es[1..], m, n);
      if !Skipped(es[0]) {
        DeeperEntry(v, disk, es[0], m, n);
        PartsConcat(ListedEntry(v, disk, es[0], m), Listed(v, disk, es[1..], m),
                     ListedEntry(v, disk, es[0], n), Listed(v, disk, es[1..], n));
      } else {
        assert [] + Listed(v, disk, es[1..], m) == Listed(v, disk, es[1..], m);
        assert [] + Listed(v, disk, es[1..], n) == Listed(v, disk, es[1..], n);
      }
    }
  }

  lemma PartOfItself(a: seq<Item>)
    ensures PartOf(a, a)
  {
  }

  lemma NothingPartOf(a: seq<Item>)
    ensures PartOf([], a)
  {
  }

  lemma {:induction false} DeeperEntry(v: Volume, disk: Disk, e: DirEntry, m: nat, n: nat)
    requires Ok(v) && m <= n
    ensures PartOf(ListedEntry(v, disk, e, m), ListedEntry(v, disk, e, n))
    decreases m, 2, 0
  {
    hide Ok, Chain, ListedDir, PartOf;
    ghost var self := [ItemOf(v, e)];
    PartOfItself(self);
    ghost var below, more: seq<Item> := [], [];
    if !IsDir(e) || m == 0 {
      if IsDir(e) && n > 0 {
        more := ListedDir(v, disk, Chain(v, e.first), n - 1);
      }
      NothingPartOf(more);
    } else {
      below, more := ListedDir(v, disk, Chain(v, e.first), m - 1), ListedDir(v, disk, Chain(v, e.first), n - 1);
      DeeperDir(v, disk, Chain(v, e.first), m - 1, n - 1);
    }
    PartsConcat(self, below, self, more);
  }

  lemma {:induction false} DeeperDir(v: Volume, disk: Disk, path: seq<nat>, m: nat, n: nat)
    requires Ok(v) && m <= n
    ensures PartOf(ListedDir(v, disk, path, m), ListedDir(v, disk, path, n))
    decreases m, 4, |path|
  {
    hide Ok, Listed, PartOf, HasMarker;
    if path == [] || disk(path[0]).None? {
      PartOfItself(ListedDir(v, disk, path, m));
    } else {
      var es := disk(path[0]).value;
      var rest, more := if HasMarker(es) then [] else ListedDir(v, disk, path[1..], m),
                        if HasMarker(es) then [] else ListedDir(v, disk, path[1..], n);
      if HasMarker(es) {
        PartOfItself([]);
      } else {
        DeeperDir(v, disk, path[1..], m, n);
      }
      Deeper(v, disk, es, m, n);
      PartsConcat(Listed(v, disk, es, m), rest, Listed(v, disk, es, n), more);
    }
  }

  lemma {:induction false} NoDupOnce(s: seq<nat>)
    ensures NoDup(s) <==> forall c :: multiset(s)[c] <= 1
  {
    if s != [] {
      var t, x := s[..|s| - 1], s[|s| - 1];
      assert s == t + [x];
      NoDupOnce(t);
      if NoDup(s) {
        assert x !in t;
      } else if NoDup(t) {
        assert x in t;
        assert multiset(s)[x] == multiset(t)[x] + 1;
      } else {
        var c :| multiset(t)[c] > 1;
        assert multiset(s)[c] >= multiset(t)[c];
      }
    }
  }

  lemma FinePart(v: Volume, a: seq<Item>, b: seq<Item>)
    requires Ok(v) && PartOf(a, b) && Fine(v, [], b)
    ensures Fine(v, [], a)
  {
    hide Ok, Proper, Flat;
    var fa, fb := Flat(a), Flat(b);
    assert [] + fa == fa && [] + fb == fb;
    NoDupOnce(fa);
    NoDupOnce(fb);
    forall i | 0 <= i < |a| ensures Proper(v, a[i]) {
      assert a[i] in b;
    }
  }

  /** The clusters of all that lies within so many levels of directories. */
  ghost function ClustersTo(v: Volume, disk: Disk, root: seq<DirEntry>, levels: nat): seq<nat>
    requires Ok(v)
  {
    Flat(Listed(v, disk, root, levels))
  }

  /** A tree that is right as far as it is read, however deep: what is deeper than CHKDSK goes is lost to it. */
  lemma DeepIsLost(v: Volume, disk: Disk, root: seq<DirEntry>, n: nat, c: nat)
    requires Ok(v) && Fine(v, [], Listed(v, disk, root, n)) && c in ClustersTo(v, disk, root, n)
    ensures IsLost(v, ClustersTo(v, disk, root, MAX_DEPTH), c) <==> c !in ClustersTo(v, disk, root, MAX_DEPTH)
  {
    var deep := Listed(v, disk, root, n);
    ListedFromFat(v, disk, root, n);
    var i := FlatFrom(deep, c);
    hide Ok, Listed, Entry, Flat, Proper, Chain;
    assert Proper(v, deep[i]);
    InChain(v, deep[i], c);
  }

  /** So a volume with nothing wrong passes exactly when no cluster lies deeper than that. */
  lemma DepthLimit(v: Volume, disk: Disk, root: seq<DirEntry>, fat2: Option<seq<nat>>, n: nat)
    requires Ok(v) && MAX_DEPTH <= n && Fine(v, [], Listed(v, disk, root, n)) && (fat2.Some? ==> fat2.value == v.fat)
    requires forall c :: Cluster(v, c) ==> !IsLost(v, ClustersTo(v, disk, root, n), c)
    ensures Consistent(v, disk, root, fat2) <==>
            forall c :: c in ClustersTo(v, disk, root, n) ==> c in ClustersTo(v, disk, root, MAX_DEPTH)
  {
    hide Ok, Fine, PartOf, IsFree, IsBadAt, Cluster, IsLost;
    var shallow, deep := ClustersTo(v, disk, root, MAX_DEPTH), ClustersTo(v, disk, root, n);
    Passes(v, disk, root, fat2, n);
    hide ClustersTo, Consistent;
    forall c | c in deep ensures IsLost(v, shallow, c) <==> c !in shallow {
      DeepIsLost(v, disk, root, n, c);
    }
    LostBelow(v, shallow, deep);
  }

  lemma Passes(v: Volume, disk: Disk, root: seq<DirEntry>, fat2: Option<seq<nat>>, n: nat)
    requires Ok(v) && MAX_DEPTH <= n && Fine(v, [], Listed(v, disk, root, n)) && (fat2.Some? ==> fat2.value == v.fat)
    ensures Consistent(v, disk, root, fat2) <==>
            forall c :: Cluster(v, c) ==> !IsLost(v, ClustersTo(v, disk, root, MAX_DEPTH), c)
  {
    hide Ok, Fine, PartOf, IsFree, IsBadAt, Cluster, IsLost;
    Deeper(v, disk, root, MAX_DEPTH, n);
    FinePart(v, Listed(v, disk, root, MAX_DEPTH), Listed(v, disk, root, n));
  }

  lemma LostBelow(v: Volume, shallow: seq<nat>, deep: seq<nat>)
    requires Ok(v) && forall c :: Cluster(v, c) ==> !IsLost(v, deep, c)
    requires forall c :: c in deep ==> (IsLost(v, shallow, c) <==> c !in shallow)
    ensures (forall c :: Cluster(v, c) ==> !IsLost(v, shallow, c)) <==> forall c :: c in deep ==> c in shallow
  {
    hide Ok, IsFree, IsBadAt;
    if c :| c in deep && c !in shallow {
      assert IsLost(v, shallow, c);
    } else {
      forall c | Cluster(v, c) ensures !IsLost(v, shallow, c) {
        assert !IsLost(v, deep, c);
      }
    }
  }

  // ----- a tree that is too deep -----

  function DirAt(c: nat): DirEntry
  {
    DirEntry(0x41, 0x10, c, 0)
  }

  function NoMore(): DirEntry
  {
    DirEntry(0, 0, 0, 0)
  }

  /** Eighteen directories, each in the one before, in clusters 2 to 19 in turn. */
  ghost predicate Nested(v: Volume, disk: Disk)
  {
    && Ok(v) && v.clusters == 18 && (forall c: nat :: c < 20 ==> IsEnd(v, Entry(v, c)))
    && forall c :: disk(c) == Some(Inside(c))
  }

  function Inside(c: nat): seq<DirEntry>
  {
    if c < 19 then [DirAt(c + 1), NoMore()] else [NoMore()]
  }

  function Run(a: nat, b: nat): seq<nat>
    requires a <= b
  {
    seq(b - a, i => a + i)
  }

  /** There is such a volume. */
  lemma NestedExists() returns (v: Volume, disk: Disk)
    ensures Nested(v, disk)
  {
    v, disk := Volume(18, 512, seq(32, i => 0xFF)), (c: nat) => Some(Inside(c));
    assert forall c: nat :: c < 20 ==> Le16(v.fat, c + c / 2) == 0xFFFF;
  }

  lemma NestedItem(v: Volume, disk: Disk, c: nat)
    requires Nested(v, disk) && 2 <= c < 20
    ensures ItemOf(v, DirAt(c)) == Item(c, [c], true, 0) && Proper(v, Item(c, [c], true, 0))
  {
    var end := Entry(v, c);
    assert IsEnd(v, end);
    hide Ok, Entry, Nested;
    assert Path(v, end, 17) == [];
    assert Path(v, c, 18) == [c] + Path(v, end, 17);
  }

  lemma NothingListed(v: Volume, disk: Disk, levels: nat)
    requires Ok(v)
    ensures Listed(v, disk, [NoMore()], levels) == []
  {
  }

  lemma NestedStep(v: Volume, disk: Disk, c: nat, levels: nat)
    requires Nested(v, disk) && 2 <= c < 20
    ensures Listed(v, disk, [DirAt(c), NoMore()], levels) ==
            [Item(c, [c], true, 0)] + if levels == 0 then [] else ListedDir(v, disk, [c], levels - 1)
  {
    var e := DirAt(c);
    var es := [e, NoMore()];
    assert !Marker(e) && !Skipped(e) && IsDir(e);
    NestedItem(v, disk, c);
    assert e.first == c && Chain(v, c) == [c];
    hide Ok, Nested, Listed, ListedDir, Chain, Marker, Skipped, IsDir, DirAt;
    ListedNext(v, disk, es, 0, levels);
    assert es[0..] == es && es[1..] == [NoMore()];
    NothingListed(v, disk, levels);
  }

  lemma RunOn(c: nat, to: nat)
    requires c < to
    ensures Run(c, to) == [c] + Run(c + 1, to)
  {
  }

  lemma {:induction false} AddItem(v: Volume, x: Item, xs: seq<Item>)
    requires Ok(v) && x.Item? && Proper(v, x) && AllProper(v, xs)
    ensures AllProper(v, [x] + xs) && Flat([x] + xs) == x.clusters + Flat(xs)
  {
    hide Ok, Proper;
    assert ([x] + xs)[1..] == xs;
  }

  lemma NoItems(v: Volume, c: nat)
    requires Ok(v)
    ensures AllProper(v, []) && Flat([]) == [] && Run(c, c) == []
  {
  }

  /** From the directory in cluster c on, so many levels down. */
  lemma {:induction false} NestedListed(v: Volume, disk: Disk, c: nat, levels: nat)
    requires Nested(v, disk) && 2 <= c < 20
    ensures var xs := Listed(v, disk, [DirAt(c), NoMore()], levels);
            AllProper(v, xs) && Flat(xs) == Run(c, if c + levels < 19 then c + levels + 1 else 20)
    decreases levels, 0
  {
    hide Ok, DirAt, NoMore, Proper, AllProper, Listed, ListedDir, Run, Flat;
    var item := Item(c, [c], true, 0);
    NestedItem(v, disk, c);
    NestedStep(v, disk, c, levels);
    if levels > 0 {
      NestedBelow(v, disk, c, levels - 1);
      AddItem(v, item, ListedDir(v, disk, [c], levels - 1));
    } else {
      NoItems(v, c + 1);
      AddItem(v, item, []);
    }
    RunOn(c, if c + levels < 19 then c + levels + 1 else 20);
  }

  lemma {:induction false} NestedBelow(v: Volume, disk: Disk, c: nat, levels: nat)
    requires Nested(v, disk) && 2 <= c < 20
    ensures var xs := ListedDir(v, disk, [c], levels);
            AllProper(v, xs) && Flat(xs) == Run(c + 1, if c + levels < 18 then c + levels + 2 else 20)
    decreases levels, 1
  {
    assert Marker(Inside(c)[|Inside(c)| - 1]);
    NestedDir(v, disk, c, levels);
    hide Ok, Nested, Proper, AllProper, Listed, ListedDir, Flat, Run;
    if c < 19 {
      NestedListed(v, disk, c + 1, levels);
    } else {
      NothingListed(v, disk, levels);
      NoItems(v, 20);
    }
  }

  lemma NestedDir(v: Volume, disk: Disk, c: nat, levels: nat)
    requires Nested(v, disk)
    ensures ListedDir(v, disk, [c], levels) == Listed(v, disk, Inside(c), levels)
  {
    assert disk(c) == Some(Inside(c));
    assert Marker(Inside(c)[|Inside(c)| - 1]);
    hide Ok, Nested, Listed, Inside;
    var xs := Listed(v, disk, Inside(c), levels);
    assert xs + [] == xs;
  }

  /** Nothing is wrong with it, and CHKDSK calls its last directory lost. */
  lemma NestedFails(v: Volume, disk: Disk)
    requires Nested(v, disk)
    ensures var root := [DirAt(2), NoMore()];
            && Fine(v, [], Listed(v, disk, root, MAX_DEPTH + 1))
            && (forall c :: Cluster(v, c) ==> !IsLost(v, ClustersTo(v, disk, root, MAX_DEPTH + 1), c))
            && IsLost(v, ClustersTo(v, disk, root, MAX_DEPTH), 19) && !Consistent(v, disk, root, None)
  {
    var root := [DirAt(2), NoMore()];
    hide DirAt, NoMore, Listed, Proper, AllProper, Ok, Flat, Run, IsFree, IsBadAt, Consistent;
    NestedListed(v, disk, 2, MAX_DEPTH);
    NestedListed(v, disk, 2, MAX_DEPTH + 1);
    var shallow, deep := ClustersTo(v, disk, root, MAX_DEPTH), ClustersTo(v, disk, root, MAX_DEPTH + 1);
    assert [] + deep == deep;
    RunIs(2, 20);
    RunIs(2, 19);
    DeepIsLost(v, disk, root, MAX_DEPTH + 1, 19);
    DepthLimit(v, disk, root, None, MAX_DEPTH + 1);
  }

  lemma RunIs(a: nat, b: nat)
    requires a <= b
    ensures NoDup(Run(a, b)) && forall c :: c in Run(a, b) <==> a <= c < b
  {
    var s := Run(a, b);
    forall c | a <= c < b ensures c in s {
      assert s[c - a] == c;
    }
  }
}

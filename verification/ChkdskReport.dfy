/**
 The rest of CHKDSK (userland/dos/fat.c): the clusters that are free and bad, those that are lost, and
 what the whole check comes to.
 */
module ChkdskReport {
  import opened Chkdsk
  import opened ChkdskWalk

  const LOST := 3
  const LOST_POINTED := 4

  // ----- sets of clusters -----

  predicate Within(c: nat, hi: nat)
  {
    2 <= c < hi
  }

  /** The clusters before `hi`. */
  ghost function Upto(hi: nat): set<nat>
  {
    set c: nat | 2 <= c < hi && Within(c, hi)
  }

  ghost predicate IsFree(v: Volume, c: nat)
    requires Ok(v) && Cluster(v, c)
  {
    Entry(v, c) == 0
  }

  ghost predicate IsBadAt(v: Volume, c: nat)
    requires Ok(v) && Cluster(v, c)
  {
    IsBad(v, Entry(v, c))
  }

  ghost function Free(v: Volume, hi: nat): set<nat>
    requires Ok(v) && hi <= v.clusters + 2
  {
    set c: nat | 2 <= c < hi && IsFree(v, c)
  }

  ghost function Bad(v: Volume, hi: nat): set<nat>
    requires Ok(v) && hi <= v.clusters + 2
  {
    set c: nat | 2 <= c < hi && IsBadAt(v, c)
  }

  /** Clusters the FAT says are used, that nothing has claimed. */
  ghost predicate IsLost(v: Volume, claimed: seq<nat>, c: nat)
    requires Ok(v)
  {
    Cluster(v, c) && !IsFree(v, c) && !IsBadAt(v, c) && c !in claimed
  }

  ghost function Lost(v: Volume, claimed: seq<nat>, hi: nat): set<nat>
    requires Ok(v) && hi <= v.clusters + 2
  {
    set c: nat | 2 <= c < hi && IsLost(v, claimed, c)
  }

  /** A lost cluster before `hi` leads to c. */
  ghost predicate Pointed(v: Volume, claimed: seq<nat>, c: nat, hi: nat)
    requires Ok(v) && hi <= v.clusters + 2
  {
    exists b :: 2 <= b < hi && IsLost(v, claimed, b) && Entry(v, b) == c
  }

  /** Where a lost chain starts: a lost cluster that no lost cluster leads to. */
  ghost predicate IsHead(v: Volume, claimed: seq<nat>, c: nat)
    requires Ok(v)
  {
    IsLost(v, claimed, c) && !Pointed(v, claimed, c, v.clusters + 2)
  }

  ghost function Heads(v: Volume, claimed: seq<nat>, hi: nat): set<nat>
    requires Ok(v) && hi <= v.clusters + 2
  {
    set c: nat | 2 <= c < hi && IsHead(v, claimed, c)
  }

  lemma Bigger(a: set<nat>, b: set<nat>, c: nat)
    requires c !in a && b == a + {c}
    ensures |b| == |a| + 1
  {
  }

  lemma {:induction false} UptoSize(hi: nat)
    requires hi >= 2
    ensures |Upto(hi)| == hi - 2
    decreases hi
  {
    if hi == 2 {
      assert Upto(hi) == {};
    } else {
      UptoSize(hi - 1);
      Bigger(Upto(hi - 1), Upto(hi), hi - 1);
    }
  }

  ghost function Elems(s: seq<nat>): set<nat>
  {
    set c | c in s
  }

  /** Distinct elements are as many as their set. */
  lemma {:induction false} NoDupSize(s: seq<nat>)
    requires NoDup(s)
    ensures |Elems(s)| == |s|
  {
    if s == [] {
      assert Elems(s) == {};
    } else {
      var t, x := s[..|s| - 1], s[|s| - 1];
      assert s == t + [x];
      NoDupSize(t);
      assert x !in t;
      Bigger(Elems(t), Elems(s), x);
    }
  }

  ghost function BrokenSet(v: Volume, s: seq<nat>): set<nat>
    requires Ok(v) && AllClusters(v, s)
  {
    set c | c in s && (IsFree(v, c) || IsBadAt(v, c))
  }

  lemma {:induction false} BrokenSize(v: Volume, s: seq<nat>)
    requires Ok(v) && AllClusters(v, s) && NoDup(s)
    ensures |BrokenSet(v, s)| == Broken(v, s)
  {
    hide Ok, Entry;
    if s == [] {
      assert BrokenSet(v, s) == {};
    } else {
      var t, x := s[..|s| - 1], s[|s| - 1];
      assert s == t + [x];
      BrokenSize(v, t);
      BrokenOne(v, t, x);
      assert x !in t;
    }
  }

  lemma BrokenOne(v: Volume, s: seq<nat>, x: nat)
    requires Ok(v) && AllClusters(v, s) && Cluster(v, x) && x !in s
    ensures AllClusters(v, s + [x])
    ensures |BrokenSet(v, s + [x])| == |BrokenSet(v, s)| + if FreeOrBad(v, Entry(v, x)) then 1 else 0
  {
    assert FreeOrBad(v, Entry(v, x)) <==> IsFree(v, x) || IsBadAt(v, x);
    hide Ok, Entry, FreeOrBad, IsFree, IsBadAt;
    if IsFree(v, x) || IsBadAt(v, x) {
      Bigger(BrokenSet(v, s), BrokenSet(v, s + [x]), x);
    } else {
      assert BrokenSet(v, s + [x]) == BrokenSet(v, s);
    }
  }

  lemma SplitSize(a: set<nat>, b: set<nat>, ab: set<nat>)
    requires a !! b && ab == a + b
    ensures |ab| == |a| + |b|
  {
  }

  ghost function Used(v: Volume): set<nat>
    requires Ok(v)
  {
    set c: nat | 2 <= c < v.clusters + 2 && !IsFree(v, c) && !IsBadAt(v, c)
  }

  lemma FreeBadUsed(v: Volume)
    requires Ok(v)
    ensures |Free(v, v.clusters + 2)| + |Bad(v, v.clusters + 2)| + |Used(v)| == v.clusters
  {
    var hi := v.clusters + 2;
    var free, bad := Free(v, hi), Bad(v, hi);
    assert free !! bad;
    hide Ok, IsFree, IsBadAt;
    UptoSize(hi);
    SplitSize(free, bad, free + bad);
    assert Upto(hi) == free + bad + Used(v) by {
      forall c | c in free + bad + Used(v) ensures c in Upto(hi) { assert Within(c, hi); }
      forall c | c in Upto(hi) ensures c in free + bad + Used(v) { assert Within(c, hi); }
    }
    SplitSize(free + bad, Used(v), Upto(hi));
  }

  lemma ClaimedUsed(v: Volume, claimed: seq<nat>)
    requires Ok(v) && NoDup(claimed) && AllClusters(v, claimed)
    ensures |claimed| + |Lost(v, claimed, v.clusters + 2)| == Broken(v, claimed) + |Used(v)|
  {
    hide Ok, IsFree, IsBadAt, Broken;
    var s, broken, lost := Elems(claimed), BrokenSet(v, claimed), Lost(v, claimed, v.clusters + 2);
    NoDupSize(claimed);
    BrokenSize(v, claimed);
    assert broken <= s;
    SplitSize(broken, s - broken, s);
    assert Used(v) == (s - broken) + lost by {
      forall c | c in s ensures Cluster(v, c) {
        var i :| 0 <= i < |claimed| && claimed[i] == c;
      }
    }
    SplitSize(s - broken, lost, Used(v));
  }

  /** Every cluster is accounted for, and only those a chain runs on from into a free or bad one are so twice. */
  lemma Accounts(v: Volume, claimed: seq<nat>)
    requires Ok(v) && NoDup(claimed) && AllClusters(v, claimed)
    ensures var hi := v.clusters + 2;
            |Free(v, hi)| + |Bad(v, hi)| + |claimed| + |Lost(v, claimed, hi)| == v.clusters + Broken(v, claimed)
  {
    hide *;
    FreeBadUsed(v);
    ClaimedUsed(v, claimed);
  }

  // ----- the counts -----

  /** The counts of open_volume. */
  method CountFat(v: Volume) returns (free: nat, bad: nat)
    requires Ok(v)
    ensures free == |Free(v, v.clusters + 2)| && bad == |Bad(v, v.clusters + 2)|
  {
    free, bad := 0, 0;
    var c := 2;
    assert Free(v, 2) == {} && Bad(v, 2) == {};
    while c < v.clusters + 2
      invariant 2 <= c <= v.clusters + 2
      invariant free == |Free(v, c)| && bad == |Bad(v, c)|
    {
      var e := Entry(v, c);
      CountFree(v, c);
      free := free + if e == 0 then 1 else 0;
      bad := bad + if IsBad(v, e) then 1 else 0;
      c := c + 1;
    }
  }

  lemma CountFree(v: Volume, c: nat)
    requires Ok(v) && Cluster(v, c)
    ensures |Free(v, c + 1)| == |Free(v, c)| + if Entry(v, c) == 0 then 1 else 0
    ensures |Bad(v, c + 1)| == |Bad(v, c)| + if IsBad(v, Entry(v, c)) then 1 else 0
  {
    hide Ok, Entry, IsBad;
    FreeMore(v, c);
    BadMore(v, c);
  }

  lemma FreeMore(v: Volume, c: nat)
    requires Ok(v) && Cluster(v, c)
    ensures |Free(v, c + 1)| == |Free(v, c)| + if IsFree(v, c) then 1 else 0
  {
    hide Ok, IsFree;
    if IsFree(v, c) {
      Bigger(Free(v, c), Free(v, c + 1), c);
    } else {
      assert Free(v, c + 1) == Free(v, c);
    }
  }

  lemma BadMore(v: Volume, c: nat)
    requires Ok(v) && Cluster(v, c)
    ensures |Bad(v, c + 1)| == |Bad(v, c)| + if IsBadAt(v, c) then 1 else 0
  {
    hide Ok, IsBadAt;
    if IsBadAt(v, c) {
      Bigger(Bad(v, c), Bad(v, c + 1), c);
    } else {
      assert Bad(v, c + 1) == Bad(v, c);
    }
  }

  // ----- lost clusters -----

  /** How a cluster is marked, when the links of the lost clusters before hi have been looked at. */
  ghost predicate LostMark(v: Volume, claimed: seq<nat>, b: nat, mark: nat, hi: nat)
    requires Ok(v) && hi <= v.clusters + 2
  {
    if !IsLost(v, claimed, b) then mark < LOST else mark == if Pointed(v, claimed, b, hi) then LOST_POINTED else LOST
  }

  ghost predicate LostMarks(v: Volume, claimed: seq<nat>, seen: seq<nat>, hi: nat)
    requires Ok(v) && hi <= v.clusters + 2
  {
    |seen| == v.clusters + 2 && forall b :: 0 <= b < |seen| ==> LostMark(v, claimed, b, seen[b], hi)
  }

  /** Marks the lost clusters. */
  method FindLost(v: Volume, seen: array<nat>, ghost claimed: seq<nat>) returns (lost: nat)
    requires Ok(v) && Marked(v, seen[..], claimed)
    modifies seen
    ensures lost == |Lost(v, claimed, v.clusters + 2)|
    ensures LostMarks(v, claimed, seen[..], 2)
  {
    lost := 0;
    var c := 2;
    assert Lost(v, claimed, 2) == {};
    ghost var was := seen[..];
    assert forall b :: 0 <= b < 2 ==> LostMark(v, claimed, b, was[b], 2);
    assert seen.Length == v.clusters + 2;
    hide Ok, Entry, LostMark, Marked;
    while c < v.clusters + 2
      invariant 2 <= c <= v.clusters + 2 && lost == |Lost(v, claimed, c)|
      invariant forall b :: 0 <= b < c ==> LostMark(v, claimed, b, seen[b], 2)
      invariant forall b :: c <= b < v.clusters + 2 ==> seen[b] == was[b]
    {
      var e := Entry(v, c);
      LostMore(v, claimed, c);
      FirstMark(v, claimed, was, c);
      if e != 0 && !IsBad(v, e) && seen[c] == 0 {
        lost := lost + 1;
        seen[c] := LOST;
      }
      c := c + 1;
    }
    assert forall b :: 0 <= b < |seen[..]| ==> seen[..][b] == seen[b];
  }

  lemma FirstMark(v: Volume, claimed: seq<nat>, was: seq<nat>, c: nat)
    requires Ok(v) && Marked(v, was, claimed) && Cluster(v, c)
    ensures var e := Entry(v, c);
            && (IsLost(v, claimed, c) <==> e != 0 && !IsBad(v, e) && was[c] == 0)
            && (if IsLost(v, claimed, c) then LostMark(v, claimed, c, LOST, 2) else LostMark(v, claimed, c, was[c], 2))
  {
  }

  lemma LostMore(v: Volume, claimed: seq<nat>, c: nat)
    requires Ok(v) && Cluster(v, c)
    ensures |Lost(v, claimed, c + 1)| == |Lost(v, claimed, c)| + if IsLost(v, claimed, c) then 1 else 0
  {
    hide Ok, IsLost;
    if IsLost(v, claimed, c) {
      Bigger(Lost(v, claimed, c), Lost(v, claimed, c + 1), c);
    } else {
      assert Lost(v, claimed, c + 1) == Lost(v, claimed, c);
    }
  }

  /** Marks those of them that a lost cluster leads to. */
  method PointLost(v: Volume, seen: array<nat>, ghost claimed: seq<nat>)
    requires Ok(v) && LostMarks(v, claimed, seen[..], 2)
    modifies seen
    ensures LostMarks(v, claimed, seen[..], v.clusters + 2)
  {
    hide Ok, Entry, LostMarks;
    var c := 2;
    assert seen.Length == v.clusters + 2 by { MarksLength(v, claimed, seen[..], 2); }
    while c < v.clusters + 2
      invariant 2 <= c <= v.clusters + 2 && LostMarks(v, claimed, seen[..], c)
    {
      var next := Entry(v, c);
      ghost var was := seen[..];
      if (seen[c] == LOST || seen[c] == LOST_POINTED) && next >= 2 && next < v.clusters + 2 && seen[next] == LOST {
        seen[next] := LOST_POINTED;
      }
      Pointing(v, was, seen[..], claimed, c);
      c := c + 1;
    }
  }

  lemma MarksLength(v: Volume, claimed: seq<nat>, seen: seq<nat>, hi: nat)
    requires Ok(v) && hi <= v.clusters + 2 && LostMarks(v, claimed, seen, hi)
    ensures |seen| == v.clusters + 2
  {
  }

  /** One cluster's link looked at. */
  lemma Pointing(v: Volume, was: seq<nat>, now: seq<nat>, claimed: seq<nat>, c: nat)
    requires Ok(v) && |was| == v.clusters + 2 && Cluster(v, c) && LostMarks(v, claimed, was, c)
    requires var next := Entry(v, c);
             now == if (was[c] == LOST || was[c] == LOST_POINTED)
                       && next >= 2 && next < v.clusters + 2 && was[next] == LOST
                    then was[next := LOST_POINTED] else was
    ensures LostMarks(v, claimed, now, c + 1)
  {
    hide Ok, Entry, Pointed, IsLost;
    assert LostMark(v, claimed, c, was[c], c);
    forall b | 0 <= b < v.clusters + 2 ensures LostMark(v, claimed, b, now[b], c + 1) {
      assert LostMark(v, claimed, b, was[b], c);
      PointedMore(v, claimed, b, c);
      LostIsCluster(v, claimed, b);
    }
  }

  lemma LostIsCluster(v: Volume, claimed: seq<nat>, b: nat)
    requires Ok(v)
    ensures IsLost(v, claimed, b) ==> Cluster(v, b)
  {
  }

  lemma PointedMore(v: Volume, claimed: seq<nat>, b: nat, c: nat)
    requires Ok(v) && Cluster(v, c)
    ensures Pointed(v, claimed, b, c + 1) <==> Pointed(v, claimed, b, c) || (IsLost(v, claimed, c) && Entry(v, c) == b)
  {
    hide Ok, Entry, IsLost;
    if Pointed(v, claimed, b, c + 1) && !(IsLost(v, claimed, c) && Entry(v, c) == b) {
      var x :| 2 <= x < c + 1 && IsLost(v, claimed, x) && Entry(v, x) == b;
      assert x < c;
    }
  }

  /** Counts the chains of lost clusters, by where they start. */
  method CountHeads(v: Volume, seen: array<nat>, ghost claimed: seq<nat>) returns (chains: nat)
    requires Ok(v) && LostMarks(v, claimed, seen[..], v.clusters + 2)
    ensures chains == |Heads(v, claimed, v.clusters + 2)|
  {
    hide Ok, IsLost, Pointed;
    chains := 0;
    var c := 2;
    ghost var marks := seen[..];
    assert Heads(v, claimed, 2) == {};
    while c < v.clusters + 2
      invariant 2 <= c <= v.clusters + 2 && chains == |Heads(v, claimed, c)|
    {
      HeadsMore(v, claimed, c);
      assert LostMark(v, claimed, c, marks[c], v.clusters + 2);
      chains := chains + if seen[c] == LOST then 1 else 0;
      c := c + 1;
    }
  }

  lemma HeadsMore(v: Volume, claimed: seq<nat>, c: nat)
    requires Ok(v) && Cluster(v, c)
    ensures |Heads(v, claimed, c + 1)| ==
            |Heads(v, claimed, c)| + if IsHead(v, claimed, c) then 1 else 0
  {
    hide Ok, IsHead;
    if IsHead(v, claimed, c) {
      Bigger(Heads(v, claimed, c), Heads(v, claimed, c + 1), c);
    } else {
      assert Heads(v, claimed, c + 1) == Heads(v, claimed, c);
    }
  }

  // ----- the check -----

  datatype Summary = Summary(reports: seq<Report>, lost: nat, chains: nat, copiesDiffer: bool, free: nat, bad: nat,
                             files: nat, dirs: nat, fileClusters: nat, dirClusters: nat)

  function Problems(r: Summary): nat
  {
    |r.reports| + (if r.lost > 0 then 1 else 0) + if r.copiesDiffer then 1 else 0
  }

  /** A volume with nothing wrong: everything that is listed has a chain of its own that ends and is as long
      as it should be, every used cluster is in one, and the copies of the FAT agree. */
  ghost predicate Consistent(v: Volume, disk: Disk, root: seq<DirEntry>, fat2: Option<seq<nat>>)
    requires Ok(v)
  {
    && Fine(v, [], Listed(v, disk, root, MAX_DEPTH))
    && (forall c :: Cluster(v, c) ==> !IsLost(v, Flat(Listed(v, disk, root, MAX_DEPTH)), c))
    && (fat2.Some? ==> fat2.value == v.fat)
  }

  method FatCheck(v: Volume, disk: Disk, root: seq<DirEntry>, fat2: Option<seq<nat>>)
    returns (r: Summary, ghost items: seq<Item>)
    requires Ok(v)
    ensures Problems(r) == 0 <==> Consistent(v, disk, root, fat2)
    ensures Problems(r) == 0 ==> items == Listed(v, disk, root, MAX_DEPTH)
    ensures r.free + r.bad + r.dirClusters + r.fileClusters + r.lost == v.clusters + Runs(r.reports)
    ensures NoDup(Flat(items))
    ensures r.free == |Free(v, v.clusters + 2)| && r.bad == |Bad(v, v.clusters + 2)|
    ensures r.lost == |Lost(v, Flat(items), v.clusters + 2)| && r.chains == |Heads(v, Flat(items), v.clusters + 2)|
    ensures r.files == Count(items, false) && r.fileClusters == Clusters(items, false)
    ensures r.dirs == Count(items, true) && r.dirClusters == Clusters(items, true)
  {
    hide Ok, Listed, Free, Bad, Fine, NoDup, Marked, Lost, Heads, LostMarks, Runs, Broken, Count, Clusters, Flat;
    var free, bad := CountFat(v);
    var k := new Checker(v, disk);
    ghost var s0 := k.Now();
    assert s0 == State([], [], []);
    var ended := k.Walk(root, 0);
    items := k.items;
    var lost := FindLost(v, k.seen, k.claimed);
    PointLost(v, k.seen, k.claimed);
    var chains := CountHeads(v, k.seen, k.claimed);
    var differ := fat2.Some? && fat2.value != v.fat;
    r := Summary(k.reports, lost, chains, differ, free, bad, k.files, k.dirs, k.fileClusters, k.dirClusters);
    Accounts(v, k.claimed);
    CountAll(items);
    Judged(v, disk, root, s0, k.Now(), lost);
  }

  lemma Judged(v: Volume, disk: Disk, root: seq<DirEntry>, s0: State, s: State, lost: nat)
    requires Ok(v) && s0 == State([], [], []) && Progress(v, s0, Listed(v, disk, root, MAX_DEPTH), s, [])
             && NoDup(s.claimed)
    requires lost == |Lost(v, s.claimed, v.clusters + 2)|
    ensures var all := Listed(v, disk, root, MAX_DEPTH);
            && (s.reports == [] && lost == 0 <==>
                  Fine(v, [], all) && forall c :: Cluster(v, c) ==> !IsLost(v, Flat(all), c))
            && (s.reports == [] ==> s.items == all)
  {
    var all := Listed(v, disk, root, MAX_DEPTH);
    hide Ok, Listed, Fine, IsLost, NoDup;
    FineNothing(v, s.claimed);
    NoneLost(v, s.claimed);
    assert s.reports == [] ==> s.items + [] == s.items && [] + all == all;
  }

  lemma NoneLost(v: Volume, claimed: seq<nat>)
    requires Ok(v)
    ensures |Lost(v, claimed, v.clusters + 2)| == 0 <==> forall c :: Cluster(v, c) ==> !IsLost(v, claimed, c)
  {
    hide Ok, IsLost;
    var lost := Lost(v, claimed, v.clusters + 2);
    if |lost| == 0 {
      forall c | Cluster(v, c) ensures !IsLost(v, claimed, c) {
        assert c !in lost;
      }
    } else {
      var c :| c in lost;
      assert Cluster(v, c) && IsLost(v, claimed, c);
    }
  }
}

/**
 The walk of CHKDSK (userland/dos/fat.c): follow, check_entry and walk, which mark the clusters they claim
 and report what is wrong.
 */
module ChkdskWalk {
  import opened Chkdsk

  datatype Report =
    | Invalid(c: nat)               // a number that is no cluster
    | CrossLinked(c: nat)           // a cluster that is claimed already
    | RunsInto(c: nat, bad: bool)   // the chain goes on to a free or bad cluster after c
    | CantRead
    | Allocation(need: nat, n: nat) // the size needs other than the chain has

  /** What follow reports of a chain it has claimed the clusters s of. */
  ghost function Verdict(v: Volume, first: nat, s: seq<nat>): seq<Report>
    requires Ok(v) && AllClusters(v, s)
  {
    var at := After(v, first, s);
    if FreeEnd(v, first, s) then [RunsInto(s[|s| - 1], at != 0)]
    else if Ends(v, at) then []
    else if !Cluster(v, at) then [Invalid(at)]
    else [CrossLinked(at)]
  }

  /** s is a stretch of the FAT's chain from first on. */
  ghost predicate Linked(v: Volume, first: nat, s: seq<nat>)
    requires Ok(v)
  {
    && AllClusters(v, s) && (s != [] ==> s[0] == first)
    && forall i :: 0 <= i < |s| - 1 ==> Entry(v, s[i]) == s[i + 1]
  }

  /** As far as a chain is followed: to the first number that is no cluster, or is claimed. */
  ghost predicate Followed(v: Volume, claimed: seq<nat>, first: nat, s: seq<nat>)
    requires Ok(v)
  {
    && Linked(v, first, s) && NoDup(claimed + s)
    && (Cluster(v, After(v, first, s)) ==> After(v, first, s) in claimed + s)
  }

  /** Which clusters are marked: those claimed. */
  ghost predicate Marked(v: Volume, seen: seq<nat>, claimed: seq<nat>)
  {
    |seen| == v.clusters + 2 && forall c :: 0 <= c < |seen| ==> seen[c] <= 2 && (seen[c] != 0 <==> c in claimed)
  }

  // ----- following a chain against the FAT's own -----

  /** A linked chain is the start of the path. */
  lemma {:induction false} LinkedIsPath(v: Volume, first: nat, s: seq<nat>, fuel: nat)
    requires Ok(v) && Linked(v, first, s) && |s| <= fuel
    ensures Path(v, first, fuel) == s + Path(v, After(v, first, s), fuel - |s|)
    decreases |s|
  {
    hide Ok, Entry, Bits;
    if s != [] {
      var t := s[1..];
      if t == [] {
        assert s == [first];
      } else {
        assert Linked(v, Entry(v, first), t) by {
          assert Entry(v, s[0]) == s[1];
          assert forall i :: 0 <= i < |t| ==> t[i] == s[i + 1];
        }
        LinkedIsPath(v, Entry(v, first), t, fuel - 1);
        assert s == [first] + t;
      }
    }
  }

  /** Distinct clusters are no more than there are. */
  lemma {:induction false} NoDupBound(n: nat, s: seq<nat>)
    requires NoDup(s) && forall i :: 0 <= i < |s| ==> 2 <= s[i] < n + 2
    ensures |s| <= n
    decreases n
  {
    assert s == [] || 2 <= s[0] < n + 2;
    if n > 0 {
      var top := n + 1;
      if top in s {
        var k :| 0 <= k < |s| && s[k] == top;
        var t := s[..k] + s[k + 1..];
        assert forall i :: 0 <= i < |t| ==> t[i] == s[if i < k then i else i + 1];
        NoDupBound(n - 1, t);
      } else {
        assert forall i :: 0 <= i < |s| ==> s[i] != top;
        NoDupBound(n - 1, s);
      }
    }
  }

  lemma {:induction false} PathLinked(v: Volume, c: nat, fuel: nat)
    requires Ok(v)
    ensures Linked(v, c, Path(v, c, fuel)) && |Path(v, c, fuel)| <= fuel
    decreases fuel
  {
    var s := Path(v, c, fuel);
    if s != [] {
      var t := Path(v, Entry(v, c), fuel - 1);
      PathLinked(v, Entry(v, c), fuel - 1);
      assert s == [c] + t;
      forall i | 0 <= i < |s| - 1 ensures Entry(v, s[i]) == s[i + 1] {
        if i > 0 {
          assert Entry(v, t[i - 1]) == t[i];
        }
      }
    }
  }

  /** A chain is followed with nothing to report exactly when it is the FAT's own, ends, and is not claimed. */
  lemma FollowedIsChain(v: Volume, claimed: seq<nat>, first: nat, s: seq<nat>)
    requires Ok(v) && Followed(v, claimed, first, s)
    ensures Linked(v, first, Chain(v, first))
    ensures Verdict(v, first, s) == [] ==> s == Chain(v, first)
    ensures Verdict(v, first, s) == [] <==>
            && NoDup(claimed + Chain(v, first)) && !FreeEnd(v, first, Chain(v, first))
            && Ends(v, After(v, first, Chain(v, first)))
  {
    var p, at := Chain(v, first), After(v, first, s);
    PathLinked(v, first, v.clusters);
    FollowedShort(v, claimed, first, s);
    LinkedIsPath(v, first, s, v.clusters);
    if Cluster(v, at) {
      ClusterIsPlain(v, at);
      if NoDup(claimed + p) && |s| < |p| {
        NotClaimed(claimed, p, s, at);
      }
      if |s| == |p| {
        assert p == s;
      }
    } else {
      assert p == s;
    }
  }

  lemma NotClaimed(claimed: seq<nat>, p: seq<nat>, s: seq<nat>, at: nat)
    requires |s| < |p| && p[..|s|] == s && p[|s|] == at && NoDup(claimed + p)
    ensures at !in claimed + s
  {
    var cp := claimed + p;
    assert cp[|claimed| + |s|] == at;
    assert forall i :: 0 <= i < |claimed| + |s| ==> cp[i] == (claimed + s)[i];
  }

  lemma FollowedShort(v: Volume, claimed: seq<nat>, first: nat, s: seq<nat>)
    requires Ok(v) && Followed(v, claimed, first, s)
    ensures |s| <= v.clusters
  {
    var cs := claimed + s;
    assert forall i :: 0 <= i < |s| ==> s[i] == cs[|claimed| + i];
    NoDupBound(v.clusters, s);
  }

  // ----- what is counted -----

  function Runs(rs: seq<Report>): nat
  {
    if rs == [] then 0 else Runs(rs[..|rs| - 1]) + if rs[|rs| - 1].RunsInto? then 1 else 0
  }

  lemma RunsMore(rs: seq<Report>, r: Report)
    ensures Runs(rs + [r]) == Runs(rs) + if r.RunsInto? then 1 else 0
  {
    assert (rs + [r])[..|rs|] == rs;
  }

  /** How many of the clusters lead to a free or bad one. */
  ghost function Broken(v: Volume, s: seq<nat>): nat
    requires Ok(v) && AllClusters(v, s)
  {
    if s == [] then 0 else Broken(v, s[..|s| - 1]) + if FreeOrBad(v, Entry(v, s[|s| - 1])) then 1 else 0
  }

  lemma BrokenMore(v: Volume, s: seq<nat>, c: nat)
    requires Ok(v) && AllClusters(v, s) && Cluster(v, c)
    ensures AllClusters(v, s + [c])
    ensures Broken(v, s + [c]) == Broken(v, s) + if FreeOrBad(v, Entry(v, c)) then 1 else 0
  {
    assert (s + [c])[..|s|] == s;
  }

  /** How many files, or directories, there are. */
  function Count(xs: seq<Item>, dir: bool): nat
  {
    if xs == [] then 0
    else
      var x := xs[|xs| - 1];
      Count(xs[..|xs| - 1], dir) + if x.Item? && x.dir == dir then 1 else 0
  }

  /** How many clusters they have. */
  function Clusters(xs: seq<Item>, dir: bool): nat
  {
    if xs == [] then 0
    else
      var x := xs[|xs| - 1];
      Clusters(xs[..|xs| - 1], dir) + if x.Item? && x.dir == dir then |x.clusters| else 0
  }

  lemma CountMore(xs: seq<Item>, x: Item)
    requires x.Item?
    ensures Count(xs + [x], false) == Count(xs, false) + if x.dir then 0 else 1
    ensures Count(xs + [x], true) == Count(xs, true) + if x.dir then 1 else 0
    ensures Clusters(xs + [x], false) == Clusters(xs, false) + if x.dir then 0 else |x.clusters|
    ensures Clusters(xs + [x], true) == Clusters(xs, true) + if x.dir then |x.clusters| else 0
  {
    assert (xs + [x])[..|xs|] == xs;
  }

  lemma {:induction false} CountAll(xs: seq<Item>)
    ensures Clusters(xs, true) + Clusters(xs, false) == |Flat(xs)|
  {
    if xs != [] {
      var ys, x := xs[..|xs| - 1], xs[|xs| - 1];
      CountAll(ys);
      assert xs == ys + [x];
      FlatConcat(ys, [x]);
      FlatOne(x);
    }
  }

  lemma FlatOne(x: Item)
    ensures Flat([x]) == if x.Item? then x.clusters else []
  {
    assert [x][1..] == [];
    assert Flat([]) == [];
  }

  // ----- progress through a list -----

  datatype State = State(claimed: seq<nat>, reports: seq<Report>, items: seq<Item>)

  /** From s0, with `whole` to look at, the check has come to s, with `rest` still to look at. */
  ghost predicate Progress(v: Volume, s0: State, whole: seq<Item>, s: State, rest: seq<Item>)
    requires Ok(v)
  {
    && s0.reports <= s.reports && s.claimed == Flat(s.items)
    && (Fine(v, s0.claimed, whole) <==> s.reports == s0.reports && Fine(v, s.claimed, rest))
    && (s.reports == s0.reports ==> s.items + rest == s0.items + whole)
  }

  lemma Start(v: Volume, s: State, whole: seq<Item>)
    requires Ok(v) && s.claimed == Flat(s.items)
    ensures Progress(v, s, whole, s, whole)
  {
  }

  lemma Advance(v: Volume, s0: State, whole: seq<Item>, s1: State, part: seq<Item>, s2: State, rest: seq<Item>)
    requires Ok(v) && Progress(v, s0, whole, s1, part + rest) && Progress(v, s1, part, s2, [])
    requires NoDup(s2.claimed)
    ensures Progress(v, s0, whole, s2, rest)
  {
    FineConcat(v, s1.claimed, part, rest);
    FineNothing(v, s2.claimed);
    if s2.reports == s1.reports {
      assert s2.items == s1.items + part;
      FlatConcat(s1.items, part);
      assert s1.items + (part + rest) == s2.items + rest;
    }
  }

  lemma FineNothing(v: Volume, claimed: seq<nat>)
    requires Ok(v)
    ensures Fine(v, claimed, []) <==> NoDup(claimed)
  {
    assert claimed + Flat([]) == claimed;
  }

  /** One entry's own chain: what is added, and whether there was anything to report. */
  lemma OneItem(v: Volume, s0: State, r: seq<Report>, s1: State, e: DirEntry, s: seq<nat>)
    requires Ok(v) && s0.claimed == Flat(s0.items) && Followed(v, s0.claimed, e.first, s)
    requires s1.claimed == s0.claimed + s
    requires s1.items == s0.items + [Item(e.first, s, IsDir(e), if IsDir(e) then 0 else e.size)]
    requires r == s0.reports + Verdict(v, e.first, s)
    requires s1.reports == if IsDir(e) || |s| == Need(v, e.size) then r else r + [Allocation(Need(v, e.size), |s|)]
    ensures Progress(v, s0, [ItemOf(v, e)], s1, [])
  {
    hide NoDup, Entry, Ok, AllClusters, Flat, Path, IsDir, Need, Chain, Followed, Linked, Fine;
    FollowedIsChain(v, s0.claimed, e.first, s);
    var x := Item(e.first, s, IsDir(e), if IsDir(e) then 0 else e.size);
    FlatConcat(s0.items, [x]);
    FlatOne(x);
    FineNothing(v, s1.claimed);
    FollowedNoDup(v, s0.claimed, e.first, s);
    FineOne(v, s0.claimed, ItemOf(v, e));
  }

  lemma FollowedNoDup(v: Volume, claimed: seq<nat>, first: nat, s: seq<nat>)
    requires Ok(v) && Followed(v, claimed, first, s)
    ensures NoDup(claimed + s) && AllClusters(v, Chain(v, first))
  {
    PathLinked(v, first, v.clusters);
  }

  lemma FineOne(v: Volume, claimed: seq<nat>, x: Item)
    requires Ok(v) && x.Item?
    ensures Fine(v, claimed, [x]) <==> NoDup(claimed + x.clusters) && Proper(v, x)
  {
    hide NoDup, Proper;
    FlatOne(x);
    assert AllProper(v, [x]) <==> Proper(v, x) by {
      assert [x][0] == x;
    }
  }

  lemma ListedNext(v: Volume, disk: Disk, es: seq<DirEntry>, i: nat, levels: nat)
    requires Ok(v) && i < |es|
    ensures Listed(v, disk, es[i..], levels) ==
            if Marker(es[i]) then []
            else if Skipped(es[i]) then Listed(v, disk, es[i + 1..], levels)
            else ListedEntry(v, disk, es[i], levels) + Listed(v, disk, es[i + 1..], levels)
  {
    assert es[i..][1..] == es[i + 1..];
  }

  lemma ListedEnd(v: Volume, disk: Disk, es: seq<DirEntry>, levels: nat)
    requires Ok(v)
    ensures Listed(v, disk, es[|es|..], levels) == []
  {
  }

  lemma ListedDirNext(v: Volume, disk: Disk, s: seq<nat>, i: nat, levels: nat)
    requires Ok(v) && i < |s|
    ensures ListedDir(v, disk, s[i..], levels) ==
            match disk(s[i])
            case None => [Unreadable]
            case Some(es) =>
              Listed(v, disk, es, levels) + if HasMarker(es) then [] else ListedDir(v, disk, s[i + 1..], levels)
  {
    assert s[i..][1..] == s[i + 1..];
  }

  lemma ListedDirEnd(v: Volume, disk: Disk, s: seq<nat>, levels: nat)
    requires Ok(v)
    ensures ListedDir(v, disk, s[|s|..], levels) == []
  {
  }

  /** A cluster that can't be read is reported, and nothing is right any more. */
  lemma Stuck(v: Volume, s0: State, whole: seq<Item>, s1: State, s2: State)
    requires Ok(v) && Progress(v, s0, whole, s1, [Unreadable])
    requires s2 == s1.(reports := s1.reports + [CantRead])
    ensures Progress(v, s0, whole, s2, [])
  {
    assert !Proper(v, [Unreadable][0]);
  }

  /** A directory with no cluster has nothing in it. */
  lemma NoChain(v: Volume, disk: Disk, s0: State, whole: seq<Item>, s1: State, e: DirEntry, s: seq<nat>, levels: nat)
    requires Ok(v) && s == [] && NoDup(s1.claimed)
    requires Progress(v, s0, whole, s1, ListedDir(v, disk, Chain(v, e.first), levels))
    requires s1.reports == s0.reports ==> s == Chain(v, e.first)
    ensures Progress(v, s0, whole, s1, [])
  {
    FineNothing(v, s1.claimed);
  }

  /** A directory's chain walked: if it was not the FAT's own, that was reported already. */
  lemma Walked(v: Volume, disk: Disk, s0: State, whole: seq<Item>, s1: State, s2: State, e: DirEntry, s: seq<nat>,
               levels: nat)
    requires Ok(v) && NoDup(s2.claimed)
    requires Progress(v, s0, whole, s1, ListedDir(v, disk, Chain(v, e.first), levels))
    requires Progress(v, s1, ListedDir(v, disk, s, levels), s2, [])
    requires s1.reports == s0.reports ==> s == Chain(v, e.first)
    ensures Progress(v, s0, whole, s2, [])
  {
    hide ListedDir, Chain;
    if s == Chain(v, e.first) {
      assert ListedDir(v, disk, s, levels) + [] == ListedDir(v, disk, s, levels);
      Advance(v, s0, whole, s1, ListedDir(v, disk, s, levels), s2, []);
    }
  }

  lemma NoneYet(v: Volume, claimed: seq<nat>, first: nat)
    requires Ok(v)
    ensures Linked(v, first, []) && AllClusters(v, []) && claimed + [] == claimed
  {
  }

  lemma MarkedAt(v: Volume, seen: seq<nat>, claimed: seq<nat>, c: nat)
    requires Marked(v, seen, claimed) && c < v.clusters + 2
    ensures c < |seen| && (seen[c] != 0 <==> c in claimed)
  {
  }

  lemma NotPlain(v: Volume, x: nat)
    requires Ok(v) && (FreeOrBad(v, x) || Ends(v, x))
    ensures !Cluster(v, x)
  {
  }

  class Checker {
    const v: Volume
    const disk: Disk
    const seen: array<nat>
    var reports: seq<Report>
    var files: nat
    var dirs: nat
    var fileClusters: nat
    var dirClusters: nat
    ghost var claimed: seq<nat>
    ghost var items: seq<Item>

    ghost predicate Sound()
      reads this`claimed, seen
    {
      Ok(v) && NoDup(claimed) && AllClusters(v, claimed) && Marked(v, seen[..], claimed)
    }

    /** The reports of a chain that runs into a free or bad cluster are as many as there are such clusters claimed. */
    ghost predicate Matched()
      requires Sound()
      reads this`claimed, this`reports, seen
    {
      Runs(reports) == Broken(v, claimed)
    }

    ghost predicate Valid()
      reads this, seen
    {
      && Sound() && Matched() && claimed == Flat(items)
      && files == Count(items, false) && fileClusters == Clusters(items, false)
      && dirs == Count(items, true) && dirClusters == Clusters(items, true)
    }

    ghost function Now(): State
      reads this
    {
      State(claimed, reports, items)
    }

    constructor (v: Volume, disk: Disk)
      requires Ok(v)
      ensures Valid() && items == [] && reports == [] && claimed == [] && fresh(seen) && this.v == v
              && this.disk == disk
    {
      this.v, this.disk := v, disk;
      seen := new nat[v.clusters + 2](_ => 0);
      reports, files, dirs, fileClusters, dirClusters, claimed, items := [], 0, 0, 0, 0, [], [];
    }

    /** Follows a chain, claiming its clusters: how many it has. */
    method Follow(first: nat, dir: bool) returns (n: nat, ghost s: seq<nat>)
      requires Sound() && Matched()
      modifies this`reports, this`claimed, seen
      ensures Sound() && Matched()
      ensures n == |s| && claimed == old(claimed) + s && Followed(v, old(claimed), first, s)
      ensures reports == old(reports) + Verdict(v, first, s)
    {
      hide NoDup, Runs, Broken, Entry, Linked, Marked, AllClusters, Ok;
      n, s := 0, [];
      var c := first;
      NoneYet(v, claimed, first);
      if Ends(v, c) {
        NotPlain(v, c);
      }
      while c >= 2 && !IsEnd(v, c)
        invariant Sound() && claimed == old(claimed) + s && n == |s| && Linked(v, first, s)
        invariant AllClusters(v, s) && c == After(v, first, s) && !FreeEnd(v, first, s)
        invariant reports == old(reports) && Matched()
        invariant Ends(v, c) ==> !Cluster(v, c)
        decreases v.clusters - |claimed|
      {
        if c >= v.clusters + 2 {
          RunsMore(reports, Invalid(c));
          reports := reports + [Invalid(c)];
          break;
        }
        assert c < seen.Length && (seen[c] != 0 <==> c in claimed) by { MarkedAt(v, seen[..], claimed, c); }
        if seen[c] != 0 {
          RunsMore(reports, CrossLinked(c));
          reports := reports + [CrossLinked(c)];
          break;
        }
        BrokenMore(v, claimed, c);
        Claim(c, if dir then 2 else 1, first, s);
        s := s + [c];
        n := n + 1;
        var next := Entry(v, c);
        if next == 0 || IsBad(v, next) {
          NotPlain(v, next);
          RunsMore(reports, RunsInto(c, next != 0));
          reports := reports + [RunsInto(c, next != 0)];
          break;
        }
        c := next;
        if Ends(v, c) {
          NotPlain(v, c);
        }
      }
    }

    method Claim(c: nat, mark: nat, ghost first: nat, ghost s: seq<nat>)
      requires Sound() && Cluster(v, c) && seen[c] == 0 && 1 <= mark <= 2
      requires Linked(v, first, s) && c == After(v, first, s)
      modifies this`claimed, seen
      ensures Sound() && claimed == old(claimed) + [c]
      ensures seen[..] == old(seen[..])[c := mark]
      ensures Linked(v, first, s + [c]) && AllClusters(v, s + [c]) && |claimed| <= v.clusters
    {
      seen[c] := mark;
      claimed := claimed + [c];
      NoDupBound(v.clusters, claimed);
    }

    method CheckEntry(e: DirEntry, depth: nat)
      requires Valid() && depth <= MAX_DEPTH
      modifies this, seen
      ensures Valid()
      ensures Progress(v, old(Now()), ListedEntry(v, disk, e, MAX_DEPTH - depth), Now(), [])
      decreases MAX_DEPTH - depth, 2, 0
    {
      if IsDir(e) {
        CheckDir(e, depth);
      } else {
        CheckFile(e);
        assert ListedEntry(v, disk, e, MAX_DEPTH - depth) == [ItemOf(v, e)];
      }
    }

    method CheckFile(e: DirEntry)
      requires Valid() && !IsDir(e)
      modifies this, seen
      ensures Valid()
      ensures Progress(v, old(Now()), [ItemOf(v, e)], Now(), [])
    {
      hide Fine, Verdict, Followed, Count, Clusters, Runs, Broken, Flat, NoDup, AllClusters, Marked, Progress, ItemOf,
        Ok, Entry, Need, IsDir, Sound, Matched;
      SizeThere();
      ghost var s0 := Now();
      files := files + 1;
      var n, s := Follow(e.first, false);
      fileClusters := fileClusters + n;
      ghost var r1 := reports;
      var need := Need(v, e.size);
      Weigh(need, n);
      Add(Item(e.first, s, false, e.size));
      OneItem(v, s0, r1, Now(), e, s);
    }

    lemma SizeThere()
      requires Sound()
      ensures Ok(v) && v.clusterSize > 0
    {
    }

    /** Whether a file's chain has as many clusters as its size needs. */
    method Weigh(need: nat, n: nat)
      requires Sound() && Matched()
      modifies this`reports
      ensures Sound() && Matched()
      ensures reports == if n == need then old(reports) else old(reports) + [Allocation(need, n)]
    {
      if n != need {
        Problem(Allocation(need, n));
      }
    }

    method Problem(r: Report)
      requires Sound() && Matched() && !r.RunsInto?
      modifies this`reports
      ensures Sound() && Matched() && reports == old(reports) + [r]
    {
      RunsMore(reports, r);
      reports := reports + [r];
    }

    /** Records the item whose chain was just followed. */
    ghost method Add(x: Item)
      requires x.Item? && Sound() && Matched() && claimed == Flat(items) + x.clusters
      modifies this`items
      ensures Sound() && Matched()
      ensures items == old(items) + [x] && claimed == Flat(items)
      ensures Count(items, false) == Count(old(items), false) + if x.dir then 0 else 1
      ensures Count(items, true) == Count(old(items), true) + if x.dir then 1 else 0
      ensures Clusters(items, false) == Clusters(old(items), false) + if x.dir then 0 else |x.clusters|
      ensures Clusters(items, true) == Clusters(old(items), true) + if x.dir then |x.clusters| else 0
    {
      FlatConcat(items, [x]);
      FlatOne(x);
      CountMore(items, x);
      items := items + [x];
    }

    method CheckDir(e: DirEntry, depth: nat)
      requires Valid() && depth <= MAX_DEPTH && IsDir(e)
      modifies this, seen
      ensures Valid()
      ensures Progress(v, old(Now()), ListedEntry(v, disk, e, MAX_DEPTH - depth), Now(), [])
      decreases MAX_DEPTH - depth, 1, 0
    {
      hide Fine, Listed, ListedDir, Count, Clusters, Runs, Broken, Flat, NoDup, AllClusters, Marked, Progress, ItemOf,
        Chain, Ok, Entry, Matched;
      ghost var s0, whole := Now(), ListedEntry(v, disk, e, MAX_DEPTH - depth);
      dirs := dirs + 1;
      var n, s := Follow(e.first, true);
      dirClusters := dirClusters + n;
      Add(Item(e.first, s, true, 0));
      ghost var s1 := Now();
      OneItem(v, s0, reports, s1, e, s);
      ghost var rest := if depth == MAX_DEPTH then [] else ListedDir(v, disk, Chain(v, e.first), MAX_DEPTH - depth - 1);
      assert whole == [ItemOf(v, e)] + rest;
      Start(v, s0, whole);
      Advance(v, s0, whole, s0, [ItemOf(v, e)], s1, rest);
      if depth >= MAX_DEPTH {
        return;
      }
      FollowedIsChain(v, s0.claimed, e.first, s);
      if n == 0 {
        NoChain(v, disk, s0, whole, s1, e, s, MAX_DEPTH - depth - 1);
        return;
      }
      WalkDir(e.first, n, depth + 1, s);
      Walked(v, disk, s0, whole, s1, Now(), e, s, MAX_DEPTH - depth - 1);
    }

    /** A directory's entries, a cluster at a time along its chain. */
    method WalkDir(first: nat, n: nat, depth: nat, ghost s: seq<nat>)
      requires Valid() && depth <= MAX_DEPTH && Linked(v, first, s) && n == |s| > 0
      modifies this, seen
      ensures Valid()
      ensures Progress(v, old(Now()), ListedDir(v, disk, s, MAX_DEPTH - depth), Now(), [])
      decreases MAX_DEPTH - depth, 4, 0
    {
      hide Fine, Listed, ListedDir, Count, Clusters, Runs, Broken, Flat, NoDup, Marked, Progress, HasMarker;
      ghost var s0, whole := Now(), ListedDir(v, disk, s, MAX_DEPTH - depth);
      Start(v, s0, whole);
      var c, i := first, 0;
      assert s[0..] == s;
      while i < n
        invariant 0 <= i <= n && (i < n ==> c == s[i]) && Valid()
        invariant Progress(v, s0, whole, Now(), ListedDir(v, disk, s[i..], MAX_DEPTH - depth))
      {
        assert Cluster(v, s[i]);
        ListedDirNext(v, disk, s, i, MAX_DEPTH - depth);
        var got := disk(c);
        ghost var s1 := Now();
        if got.None? {
          Problem(CantRead);
          Stuck(v, s0, whole, s1, Now());
          return;
        }
        var ended := Walk(got.value, depth);
        Advance(v, s0, whole, s1, Listed(v, disk, got.value, MAX_DEPTH - depth), Now(),
                if ended then [] else ListedDir(v, disk, s[i + 1..], MAX_DEPTH - depth));
        if ended {
          return;
        }
        c := Entry(v, c);
        i := i + 1;
      }
      ListedDirEnd(v, disk, s, MAX_DEPTH - depth);
    }

    /** True at the directory's end marker. */
    method Walk(es: seq<DirEntry>, depth: nat) returns (ended: bool)
      requires Valid() && depth <= MAX_DEPTH
      modifies this, seen
      ensures Valid() && ended == HasMarker(es)
      ensures Progress(v, old(Now()), Listed(v, disk, es, MAX_DEPTH - depth), Now(), [])
      decreases MAX_DEPTH - depth, 3, 0
    {
      hide Fine, Listed, ListedEntry, Count, Clusters, Runs, Broken, Flat, NoDup, Marked, Progress, Marker, Skipped,
        AllClusters;
      ghost var s0, whole := Now(), Listed(v, disk, es, MAX_DEPTH - depth);
      Start(v, s0, whole);
      var i := 0;
      assert es[0..] == es;
      while i < |es|
        invariant 0 <= i <= |es| && Valid() && forall j :: 0 <= j < i ==> !Marker(es[j])
        invariant Progress(v, s0, whole, Now(), Listed(v, disk, es[i..], MAX_DEPTH - depth))
      {
        var e := es[i];
        ListedNext(v, disk, es, i, MAX_DEPTH - depth);
        if Marker(e) {
          return true;
        }
        if !Skipped(e) {
          ghost var s1 := Now();
          CheckEntry(e, depth);
          Advance(v, s0, whole, s1, ListedEntry(v, disk, e, MAX_DEPTH - depth), Now(),
                  Listed(v, disk, es[i + 1..], MAX_DEPTH - depth));
        }
        i := i + 1;
      }
      ListedEnd(v, disk, es, MAX_DEPTH - depth);
      return false;
    }
  }
}

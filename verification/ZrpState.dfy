/**
 What the ZRP file server keeps (libc/include/zrpsrv.h): the node tree, the fids on
 it, the deferred reads, and the book of requests and replies. Nodes, fids and read
 requests are heap records in the source; here each is named by a number that is never
 reused, so that a record that has been freed cannot be confused with a later one.
 */
module ZrpState {
  import opened ZrpMessages

  const MSIZE := 16384
  const MSIZE_MIN := 256
  const NAME_MAX := 63
  const TYPE_DIR: Byte := 0
  const ROOT := 0

  datatype Node = Node(name: seq<Byte>, kind: Byte, length: nat, parent: nat, children: seq<nat>,
                       refs: int, removed: bool)
  datatype Fid = Fid(ptr: nat, id: nat, node: nat)
  datatype Req = Req(serial: nat, tag: nat, fid: nat, offset: nat, count: nat)

  type Nodes = map<nat, Node>

  // ----- the tree -----

  ghost predicate Distinct<T>(s: seq<T>)
  {
    forall i, j :: 0 <= i < j < |s| ==> s[i] != s[j]
  }

  ghost predicate InTree(nodes: Nodes, n: nat)
  {
    n in nodes && !nodes[n].removed
  }

  ghost predicate ChildrenOk(nodes: Nodes, n: nat)
    requires n in nodes
  {
    && Distinct(nodes[n].children)
    && (nodes[n].removed ==> nodes[n].children == [])
    && forall c :: c in nodes[n].children ==> n < c && InTree(nodes, c) && nodes[c].parent == n
  }

  ghost predicate ParentOk(nodes: Nodes, n: nat)
    requires n in nodes
  {
    && nodes[n].parent < n
    && InTree(nodes, nodes[n].parent)
    && n in nodes[nodes[n].parent].children
  }

  /** A node is in the tree until it is removed, and then has no children. */
  ghost predicate TreeOk(nodes: Nodes)
  {
    && InTree(nodes, ROOT)
    && (forall n {:trigger ChildrenOk(nodes, n)} :: n in nodes ==> ChildrenOk(nodes, n))
    && (forall n {:trigger ParentOk(nodes, n)} :: n != ROOT && InTree(nodes, n) ==> ParentOk(nodes, n))
  }

  ghost predicate NamesOk(nodes: Nodes)
  {
    forall n :: n in nodes ==> |nodes[n].name| <= NAME_MAX
  }

  /** Node m of the tree is n or below it. */
  predicate Under(nodes: Nodes, m: nat, n: nat)
    requires TreeOk(nodes) && InTree(nodes, m)
    decreases m
  {
    m == n || (m != ROOT && assert ParentOk(nodes, m); Under(nodes, nodes[m].parent, n))
  }

  /** `cut` is n and everything below it: apart from n, a node is in it just when its parent is. */
  ghost predicate IsCut(nodes: Nodes, n: nat, cut: set<nat>)
  {
    && n in cut
    && (forall m :: m in cut ==> n <= m && InTree(nodes, m))
    && (forall m :: m != ROOT && m != n && InTree(nodes, m) ==> (m in cut <==> nodes[m].parent in cut))
  }

  lemma {:induction false} CutIsSubtree(nodes: Nodes, n: nat, cut: set<nat>, m: nat)
    requires TreeOk(nodes) && n != ROOT && IsCut(nodes, n, cut) && InTree(nodes, m)
    ensures m in cut <==> Under(nodes, m, n)
    decreases m
  {
    if m != ROOT && m != n {
      assert ParentOk(nodes, m);
      CutIsSubtree(nodes, n, cut, nodes[m].parent);
    }
  }

  /** s without its first x. */
  function Drop(s: seq<nat>, x: nat): seq<nat>
  {
    if s == [] then [] else if s[0] == x then s[1..] else [s[0]] + Drop(s[1..], x)
  }

  lemma {:induction false} DropIsRest(s: seq<nat>, k: nat)
    requires Distinct(s) && k < |s|
    ensures Drop(s, s[k]) == s[..k] + s[k + 1..]
  {
    if k > 0 {
      DropIsRest(s[1..], k - 1);
      assert s[..k] + s[k + 1..] == [s[0]] + (s[1..][..k - 1] + s[1..][k..]);
    } else {
      assert s[..0] + s[1..] == s[1..];
    }
  }

  /** A node taken out of the tree goes at once, unless fids are on it. */
  function Detached(node: Node): Node
  {
    node.(children := [], removed := true)
  }

  /** b is the tree a with n and everything below it, the set `cut`, taken out, and the rest as it was. */
  ghost predicate Pruned(a: Nodes, b: Nodes, n: nat, cut: set<nat>)
    requires n in a
  {
    && b.Keys <= a.Keys
    && (forall m :: m in a && m in cut && a[m].refs == 0 ==> m !in b)
    && (forall m :: m in a && m in cut && a[m].refs != 0 ==> m in b && b[m] == Detached(a[m]))
    && (forall m :: m in a && m !in cut && m != a[n].parent ==> m in b && b[m] == a[m])
    && (a[n].parent in a && a[n].parent !in cut ==>
          a[n].parent in b && b[a[n].parent] == a[a[n].parent].(children := Drop(a[a[n].parent].children, n)))
  }

  /** b is the tree a after the first k children of n have been taken out, `gone` being what went. */
  ghost predicate Pruning(a: Nodes, b: Nodes, n: nat, k: nat, gone: set<nat>)
    requires n in a && k <= |a[n].children|
  {
    && b.Keys <= a.Keys && n in b && b[n] == a[n].(children := a[n].children[k..])
    && (forall m :: m in gone ==> n < m && InTree(a, m))
    && (forall m :: m != ROOT && m != n && InTree(a, m) ==>
          (m in gone <==> a[m].parent in gone || (a[m].parent == n && m in a[n].children[..k])))
    && (forall m :: m in gone && a[m].refs == 0 ==> m !in b)
    && (forall m :: m in gone && a[m].refs != 0 ==> m in b && b[m] == Detached(a[m]))
    && (forall m :: m in a && m !in gone && m != n ==> m in b && b[m] == a[m])
  }

  lemma PruneStart(a: Nodes, n: nat)
    requires n in a
    ensures Pruning(a, a, n, 0, {})
  {
    assert a[n].children[0..] == a[n].children && a[n].children[..0] == [];
  }

  lemma PruneStep(a: Nodes, b: Nodes, b': Nodes, n: nat, k: nat, gone: set<nat>, cut: set<nat>)
    requires n in a && k < |a[n].children| && Pruning(a, b, n, k, gone)
    requires TreeOk(a) && TreeOk(b) && InTree(a, n)
    requires a[n].children[k] in b && IsCut(b, a[n].children[k], cut) && Pruned(b, b', a[n].children[k], cut)
    ensures Pruning(a, b', n, k + 1, gone + cut)
  {
    var c := a[n].children[k];
    assert ChildrenOk(a, n) && ChildrenOk(b, n);
    assert c in a[n].children && c !in gone && n < c && a[c].parent == n && b[c] == a[c];
    assert b[n].children[0] == c && Drop(b[n].children, c) == b[n].children[1..] == a[n].children[k + 1..];
    assert n !in cut;
    assert forall x :: x in a[n].children[..k + 1] <==> x in a[n].children[..k] || x == c by {
      assert a[n].children[..k + 1] == a[n].children[..k] + [c];
    }
    forall m | m in cut ensures n < m && InTree(a, m) && m !in gone && b[m] == a[m] {
      assert InTree(b, m);
    }
    forall m | m != ROOT && m != n && InTree(a, m)
      ensures m in gone + cut <==> a[m].parent in gone + cut || (a[m].parent == n && m in a[n].children[..k + 1])
    {
      if m !in gone && m != c {
        assert b[m] == a[m] && InTree(b, m);
      }
    }
  }

  lemma PruneEnd(a: Nodes, b: Nodes, n: nat, gone: set<nat>)
    requires n in a && n != ROOT && InTree(a, n) && TreeOk(a) && Pruning(a, b, n, |a[n].children|, gone)
    ensures IsCut(a, n, gone + {n})
  {
    assert a[n].children[..|a[n].children|] == a[n].children;
    forall m | m != ROOT && m != n && InTree(a, m) ensures m in gone + {n} <==> a[m].parent in gone + {n} {
      assert ParentOk(a, m);
    }
  }

  /** Last the node itself is unlinked, as its parent's k-th child, and freed if no fid is on it. */
  lemma PruneSelf(a: Nodes, b: Nodes, b': Nodes, n: nat, gone: set<nat>, k: nat)
    requires n in a && n != ROOT && InTree(a, n) && TreeOk(a) && Pruning(a, b, n, |a[n].children|, gone)
    requires a[n].parent in b && k < |b[a[n].parent].children| && b[a[n].parent].children[k] == n
    requires b' == (if a[n].refs == 0 then Unlinked(b, n, k) - {n} else Unlinked(b, n, k))
    ensures Pruned(a, b', n, gone + {n})
  {
    var p := a[n].parent;
    assert ParentOk(a, n) && ChildrenOk(a, p);
    assert p !in gone && b[p] == a[p];
    DropIsRest(a[p].children, k);
  }

  lemma TreeAdd(nodes: Nodes, dir: nat, n: nat, node: Node)
    requires TreeOk(nodes) && InTree(nodes, dir) && n !in nodes && dir < n
    requires node.parent == dir && node.children == [] && !node.removed
    ensures TreeOk(nodes[n := node][dir := nodes[dir].(children := nodes[dir].children + [n])])
  {
    var after := nodes[n := node][dir := nodes[dir].(children := nodes[dir].children + [n])];
    forall m | m in after ensures ChildrenOk(after, m) {
      if m == dir {
        assert ChildrenOk(nodes, dir);
        SnocChild(nodes, after, dir, n);
      } else if m != n {
        assert ChildrenOk(nodes, m) && after[m] == nodes[m];
      }
    }
    hide ChildrenOk;
    forall m | m != ROOT && InTree(after, m) ensures ParentOk(after, m) {
      if m == n {
        assert after[dir].children[|nodes[dir].children|] == n;
      } else {
        assert ParentOk(nodes, m);
      }
    }
  }

  lemma SnocChild(nodes: Nodes, after: Nodes, dir: nat, n: nat)
    requires dir in nodes && dir in after && !nodes[dir].removed && ChildrenOk(nodes, dir)
    requires n !in nodes && dir < n && InTree(after, n) && after[n].parent == dir
    requires forall m :: m in nodes && m != dir ==> m in after && after[m] == nodes[m]
    requires after[dir] == nodes[dir].(children := nodes[dir].children + [n])
    ensures ChildrenOk(after, dir)
  {
    var cs := nodes[dir].children;
    forall i | 0 <= i < |cs| ensures cs[i] != n {
      assert cs[i] in cs;
    }
    forall c | c in after[dir].children ensures dir < c && InTree(after, c) && after[c].parent == dir {
      assert c in cs || c == n;
    }
  }

  lemma RestOf(s: seq<nat>, k: nat)
    requires Distinct(s) && k < |s|
    ensures Distinct(s[..k] + s[k + 1..])
    ensures forall x :: x in s[..k] + s[k + 1..] <==> x in s && x != s[k]
  {
    var rest := s[..k] + s[k + 1..];
    forall x | x in s && x != s[k] ensures x in rest {
      var i :| 0 <= i < |s| && s[i] == x;
      assert x == if i < k then rest[i] else rest[i - 1];
    }
  }

  lemma TreeUnlink(nodes: Nodes, n: nat, k: nat)
    requires TreeOk(nodes) && n != ROOT && InTree(nodes, n) && nodes[n].children == []
    requires nodes[n].parent in nodes && k < |nodes[nodes[n].parent].children|
             && nodes[nodes[n].parent].children[k] == n
    ensures var p := nodes[n].parent;
            var rest := nodes[p].children[..k] + nodes[p].children[k + 1..];
            TreeOk(nodes[p := nodes[p].(children := rest)][n := nodes[n].(removed := true)])
  {
    var p := nodes[n].parent;
    assert ParentOk(nodes, n) && ChildrenOk(nodes, p);
    var rest := nodes[p].children[..k] + nodes[p].children[k + 1..];
    RestOf(nodes[p].children, k);
    var after := nodes[p := nodes[p].(children := rest)][n := nodes[n].(removed := true)];
    forall m | m in after ensures ChildrenOk(after, m) {
      assert ChildrenOk(nodes, m);
      forall c | c in after[m].children ensures m < c && InTree(after, c) && after[c].parent == m {
        assert c in nodes[m].children;
        assert c != n;
      }
    }
    forall m | m != ROOT && InTree(after, m) ensures ParentOk(after, m) {
      assert ParentOk(nodes, m);
    }
  }

  lemma TreeFree(nodes: Nodes, n: nat)
    requires TreeOk(nodes) && n in nodes && nodes[n].removed
    ensures TreeOk(nodes - {n})
  {
    var after := nodes - {n};
    forall m | m in after ensures ChildrenOk(after, m) {
      assert ChildrenOk(nodes, m);
    }
    forall m | m != ROOT && InTree(after, m) ensures ParentOk(after, m) {
      assert ParentOk(nodes, m);
    }
  }

  /** What a node says of itself (its refs, its length) is no part of the tree's shape. */
  lemma TreeRetouch(nodes: Nodes, n: nat, refs: int, length: nat)
    requires TreeOk(nodes) && n in nodes
    ensures TreeOk(nodes[n := nodes[n].(refs := refs, length := length)])
  {
    var after := nodes[n := nodes[n].(refs := refs, length := length)];
    forall m | m in after ensures ChildrenOk(after, m) {
      assert ChildrenOk(nodes, m);
    }
    forall m | m != ROOT && InTree(after, m) ensures ParentOk(after, m) {
      assert ParentOk(nodes, m);
    }
  }

  // ----- fids and reference counts -----

  ghost predicate FidsOk(fids: seq<Fid>, next: nat)
  {
    && (forall i, j :: 0 <= i < j < |fids| ==> fids[i].id != fids[j].id && fids[i].ptr != fids[j].ptr)
    && (forall i :: 0 <= i < |fids| ==> fids[i].ptr < next)
  }

  function Count(fids: seq<Fid>, n: nat): nat
  {
    if fids == [] then 0 else (if fids[0].node == n then 1 else 0) + Count(fids[1..], n)
  }

  /** Each node's refs is the fids on it, one more for the root, and one more for `held`
      (-1 for no node). */
  ghost predicate RefsOk(nodes: Nodes, fids: seq<Fid>, held: int)
  {
    && (forall n :: n in nodes ==> nodes[n].refs == Count(fids, n) + (if n == ROOT then 1 else 0)
                                                    + (if n == held then 1 else 0))
    && (forall i :: 0 <= i < |fids| ==> fids[i].node in nodes)
  }

  /** A node that was removed is there only while fids are on it. */
  ghost predicate LingersOk(nodes: Nodes)
  {
    forall n :: n in nodes && nodes[n].removed ==> nodes[n].refs > 0
  }

  /** Every node ever made is either there or was freed, and was freed once. */
  ghost predicate FreedOk(nodes: Nodes, freed: seq<nat>, next: nat)
  {
    && Distinct(freed)
    && (forall n :: n in nodes ==> n < next && n !in freed)
    && (forall n :: 0 <= n < next ==> n in nodes || n in freed)
    && (forall n :: n in freed ==> 0 < n < next)
  }

  lemma {:induction false} CountIsZero(fids: seq<Fid>, n: nat)
    ensures Count(fids, n) == 0 <==> forall i :: 0 <= i < |fids| ==> fids[i].node != n
  {
    if fids != [] {
      CountIsZero(fids[1..], n);
      if Count(fids, n) == 0 {
        forall i | 0 <= i < |fids| ensures fids[i].node != n {
          assert i > 0 ==> fids[i] == fids[1..][i - 1];
        }
      } else if fids[0].node != n {
        var i :| 0 <= i < |fids[1..]| && fids[1..][i].node == n;
        assert fids[i + 1].node == n;
      }
    }
  }

  lemma {:induction false} CountWithout(fids: seq<Fid>, k: nat, n: nat)
    requires k < |fids|
    ensures Count(fids, n) == Count(fids[..k] + fids[k + 1..], n) + (if fids[k].node == n then 1 else 0)
  {
    if k == 0 {
      assert fids[..0] + fids[1..] == fids[1..];
    } else {
      CountWithout(fids[1..], k - 1, n);
      var less := fids[..k] + fids[k + 1..];
      assert less[1..] == fids[1..][..k - 1] + fids[1..][k..];
    }
  }

  /** Everything the server promises about its nodes, with one reference on `held` still to be put. */
  ghost predicate NodesOk(nodes: Nodes, fids: seq<Fid>, held: int, freed: seq<nat>, next: nat)
  {
    && TreeOk(nodes) && NamesOk(nodes) && LingersOk(nodes)
    && RefsOk(nodes, fids, held)
    && FreedOk(nodes, freed, next)
  }

  lemma NodesHaveTree(nodes: Nodes, fids: seq<Fid>, held: int, freed: seq<nat>, next: nat)
    requires NodesOk(nodes, fids, held, freed, next)
    ensures TreeOk(nodes) && Forest(nodes) && FreedOk(nodes, freed, next)
  {
    hide ChildrenOk, ParentOk, RefsOk, FreedOk;
  }

  /** The tree with the new node `next` at the end of the directory `dir`. */
  function Added(nodes: Nodes, dir: nat, next: nat, name: seq<Byte>, kind: Byte): Nodes
    requires dir in nodes
  {
    var node := Node(name, kind, 0, dir, [], 0, false);
    nodes[next := node][dir := nodes[dir].(children := nodes[dir].children + [next])]
  }

  lemma NodesAdd(nodes: Nodes, fids: seq<Fid>, freed: seq<nat>, next: nat, dir: nat, name: seq<Byte>, kind: Byte)
    requires NodesOk(nodes, fids, -1, freed, next) && InTree(nodes, dir) && |name| <= NAME_MAX
    ensures NodesOk(Added(nodes, dir, next, name, kind), fids, -1, freed, next + 1)
  {
    var after := Added(nodes, dir, next, name, kind);
    assert next !in nodes && dir < next;
    TreeAdd(nodes, dir, next, Node(name, kind, 0, dir, [], 0, false));
    hide TreeOk;
    CountIsZero(fids, next);
    assert forall i :: 0 <= i < |fids| ==> fids[i].node != next;
  }

  /** The tree with the leaf n unlinked from its parent, as its k-th child. */
  function Unlinked(nodes: Nodes, n: nat, k: nat): Nodes
    requires n in nodes && nodes[n].parent in nodes && k < |nodes[nodes[n].parent].children|
  {
    var p := nodes[n].parent;
    nodes[p := nodes[p].(children := nodes[p].children[..k] + nodes[p].children[k + 1..])]
         [n := nodes[n].(removed := true)]
  }

  lemma NodesUnlink(nodes: Nodes, fids: seq<Fid>, freed: seq<nat>, next: nat, n: nat, k: nat)
    requires NodesOk(nodes, fids, -1, freed, next)
    requires n != ROOT && InTree(nodes, n) && nodes[n].children == []
    requires nodes[n].parent in nodes && nodes[n].parent != n
    requires k < |nodes[nodes[n].parent].children| && nodes[nodes[n].parent].children[k] == n
    ensures nodes[n].refs != 0 ==> NodesOk(Unlinked(nodes, n, k), fids, -1, freed, next)
    ensures nodes[n].refs == 0 ==> NodesOk(Unlinked(nodes, n, k) - {n}, fids, -1, freed + [n], next)
  {
    var after := Unlinked(nodes, n, k);
    TreeUnlink(nodes, n, k);
    TreeFree(after, n);
    hide TreeOk;
    if nodes[n].refs == 0 {
      FreeUnheld(after, fids, -1, freed, next, n);
    }
  }

  lemma FreeUnheld(nodes: Nodes, fids: seq<Fid>, held: int, freed: seq<nat>, next: nat, n: nat)
    requires RefsOk(nodes, fids, held) && FreedOk(nodes, freed, next) && NamesOk(nodes)
    requires n in nodes && n != ROOT && nodes[n].refs == 0
    ensures RefsOk(nodes - {n}, fids, held) && FreedOk(nodes - {n}, freed + [n], next) && NamesOk(nodes - {n})
  {
    CountIsZero(fids, n);
  }

  lemma NodesNewFid(nodes: Nodes, fids: seq<Fid>, freed: seq<nat>, next: nat, f: Fid)
    requires NodesOk(nodes, fids, -1, freed, next) && f.node in nodes
    ensures NodesOk(nodes[f.node := nodes[f.node].(refs := nodes[f.node].refs + 1)], [f] + fids, -1, freed, next)
  {
    var n := f.node;
    TreeRetouch(nodes, n, nodes[n].refs + 1, nodes[n].length);
    hide TreeOk;
    assert ([f] + fids)[1..] == fids;
    assert forall m :: Count([f] + fids, m) == (if m == n then 1 else 0) + Count(fids, m);
  }

  lemma NodesSetLength(nodes: Nodes, fids: seq<Fid>, freed: seq<nat>, next: nat, n: nat, length: nat)
    requires NodesOk(nodes, fids, -1, freed, next) && n in nodes
    ensures NodesOk(nodes[n := nodes[n].(length := length)], fids, -1, freed, next)
  {
    TreeRetouch(nodes, n, nodes[n].refs, length);
    hide TreeOk, Count;
  }

  lemma NodesDropFid(nodes: Nodes, fids: seq<Fid>, freed: seq<nat>, next: nat, k: nat)
    requires NodesOk(nodes, fids, -1, freed, next) && k < |fids|
    ensures NodesOk(nodes, fids[..k] + fids[k + 1..], fids[k].node, freed, next)
  {
    hide TreeOk, FreedOk, LingersOk, NamesOk;
    var rest := fids[..k] + fids[k + 1..];
    forall m | m in nodes ensures nodes[m].refs == Count(rest, m) + (if m == ROOT then 1 else 0)
                                                     + (if m == fids[k].node then 1 else 0) {
      CountWithout(fids, k, m);
    }
  }

  /** The nodes after a reference on n is put: a removed node goes with its last one. */
  function Put(nodes: Nodes, n: nat): Nodes
    requires n in nodes
  {
    var node := nodes[n].(refs := nodes[n].refs - 1);
    if node.refs == 0 && node.removed then nodes - {n} else nodes[n := node]
  }

  lemma NodesPut(nodes: Nodes, fids: seq<Fid>, freed: seq<nat>, next: nat, n: nat)
    requires NodesOk(nodes, fids, n, freed, next) && n in nodes
    ensures NodesOk(Put(nodes, n), fids, -1, if n in Put(nodes, n) then freed else freed + [n], next)
  {
    assert n == ROOT ==> !nodes[n].removed;
    TreeRetouch(nodes, n, nodes[n].refs - 1, nodes[n].length);
    var after := nodes[n := nodes[n].(refs := nodes[n].refs - 1)];
    if after[n].refs == 0 && after[n].removed {
      TreeFree(after, n);
      hide TreeOk;
      FreeUnheld(after, fids, -1, freed, next, n);
      assert nodes - {n} == after - {n};
    }
  }

  // ----- freeing the whole tree -----

  ghost predicate Forest(nodes: Nodes)
  {
    forall n {:trigger ChildrenOk(nodes, n)} :: n in nodes ==> ChildrenOk(nodes, n)
  }

  /** `gone` is the first k children of dir and everything below them. */
  ghost predicate GoneSet(a: Nodes, dir: nat, k: nat, gone: set<nat>)
    requires dir in a && k <= |a[dir].children|
  {
    && (forall m | m in gone ::
          dir < m && m in a && (a[m].parent in gone || (a[m].parent == dir && m in a[dir].children[..k])))
    && (forall m, c :: m in gone && c in a[m].children ==> c in gone)
    && (forall c :: c in a[dir].children[..k] ==> c in gone)
  }

  /** b is a without the nodes `gone`, and with the first k children of dir unlinked. */
  ghost predicate Without(a: Nodes, b: Nodes, dir: nat, k: nat, gone: set<nat>)
    requires dir in a && k <= |a[dir].children|
  {
    && (forall m :: m in b <==> m in a && m !in gone)
    && dir in b && b[dir] == a[dir].(children := a[dir].children[k..])
    && (forall m :: m in b && m != dir ==> b[m] == a[m])
  }

  /** b is a after those have been freed. */
  ghost predicate Freeing(a: Nodes, b: Nodes, dir: nat, k: nat, gone: set<nat>)
    requires dir in a && k <= |a[dir].children|
  {
    Without(a, b, dir, k, gone) && GoneSet(a, dir, k, gone)
  }

  lemma FreeingStart(a: Nodes, dir: nat)
    requires dir in a
    ensures Freeing(a, a, dir, 0, {})
  {
    assert a[dir].children[0..] == a[dir].children && a[dir].children[..0] == [];
  }

  /** b1 is b with the next child of dir unlinked, and b2 is b1 with what is below that child, `below`, freed. */
  ghost predicate NextFreed(a: Nodes, b: Nodes, b1: Nodes, b2: Nodes, dir: nat, k: nat, gone: set<nat>, below: set<nat>)
  {
    && dir in a && k < |a[dir].children| && Forest(a) && Freeing(a, b, dir, k, gone)
    && b1 == b[dir := b[dir].(children := b[dir].children[1..])]
    && var c := a[dir].children[k];
       c in b1 && Freeing(b1, b2, c, |b1[c].children|, below)
  }

  lemma FreeingStep(a: Nodes, b: Nodes, b1: Nodes, b2: Nodes, dir: nat, k: nat, gone: set<nat>, below: set<nat>)
    requires NextFreed(a, b, b1, b2, dir, k, gone, below)
    ensures Freeing(a, b2 - {a[dir].children[k]}, dir, k + 1, gone + below + {a[dir].children[k]})
  {
    var c := a[dir].children[k];
    FreeingStepGone(a, b, b1, b2, dir, k, gone, below);
    hide GoneSet, Forest;
    WithoutStep(a, b, b1, b2, dir, k, gone, below);
  }

  lemma WithoutStep(a: Nodes, b: Nodes, b1: Nodes, b2: Nodes, dir: nat, k: nat, gone: set<nat>, below: set<nat>)
    requires dir in a && k < |a[dir].children| && Without(a, b, dir, k, gone)
    requires b1 == b[dir := b[dir].(children := b[dir].children[1..])]
    requires var c := a[dir].children[k];
             c in b1 && c != dir && dir !in below && Without(b1, b2, c, |b1[c].children|, below)
    ensures Without(a, b2 - {a[dir].children[k]}, dir, k + 1, gone + below + {a[dir].children[k]})
  {
    assert b[dir].children[1..] == a[dir].children[k + 1..];
  }

  lemma FreeingStepGone(a: Nodes, b: Nodes, b1: Nodes, b2: Nodes, dir: nat, k: nat, gone: set<nat>, below: set<nat>)
    requires NextFreed(a, b, b1, b2, dir, k, gone, below)
    ensures var c := a[dir].children[k];
            && c in a && dir < c && c !in gone && b1[c] == a[c]
            && (forall m :: m in below ==> c < m && m in b1)
            && GoneSet(a, dir, k + 1, gone + below + {c})
  {
    var c := a[dir].children[k];
    assert ChildrenOk(a, dir);
    ChildNotGone(a, dir, k, gone);
    hide Forest, ChildrenOk;
    BelowIsLater(b1, c, |b1[c].children|, below);
    GoneStep(a, b1, dir, k, gone, below);
  }

  lemma ChildNotGone(a: Nodes, dir: nat, k: nat, gone: set<nat>)
    requires dir in a && k < |a[dir].children| && ChildrenOk(a, dir) && GoneSet(a, dir, k, gone)
    ensures var c := a[dir].children[k]; c !in gone && c in a && a[c].parent == dir && dir < c
  {
    assert a[dir].children[k] in a[dir].children;
  }

  lemma BelowIsLater(b: Nodes, c: nat, k: nat, below: set<nat>)
    requires c in b && k <= |b[c].children| && GoneSet(b, c, k, below)
    ensures forall m :: m in below ==> c < m && m in b
  {
  }

  lemma GoneStep(a: Nodes, b1: Nodes, dir: nat, k: nat, gone: set<nat>, below: set<nat>)
    requires dir in a && k < |a[dir].children| && GoneSet(a, dir, k, gone)
    requires var c := a[dir].children[k];
             && c in a && c in b1 && b1[c] == a[c] && a[c].parent == dir && dir < c
             && GoneSet(b1, c, |b1[c].children|, below)
    requires forall m :: m in below ==> m in a && m in b1 && b1[m] == a[m]
    ensures GoneSet(a, dir, k + 1, gone + below + {a[dir].children[k]})
  {
    var c := a[dir].children[k];
    var now := gone + below + {c};
    assert a[dir].children[..k + 1] == a[dir].children[..k] + [c];
    assert b1[c].children[..|b1[c].children|] == a[c].children;
    forall m | m in now
      ensures dir < m && m in a && (a[m].parent in now || (a[m].parent == dir && m in a[dir].children[..k + 1]))
    {
    }
    forall m, x | m in now && x in a[m].children ensures x in now {
    }
  }

  lemma ForestUnlinkFirst(nodes: Nodes, dir: nat)
    requires Forest(nodes) && dir in nodes && nodes[dir].children != []
    ensures Forest(nodes[dir := nodes[dir].(children := nodes[dir].children[1..])])
  {
    var after := nodes[dir := nodes[dir].(children := nodes[dir].children[1..])];
    forall n | n in after ensures ChildrenOk(after, n) {
      assert ChildrenOk(nodes, n);
      assert forall c :: c in after[n].children ==> c in nodes[n].children;
    }
  }

  lemma ForestAfter(a: Nodes, b: Nodes, dir: nat, k: nat, gone: set<nat>)
    requires dir in a && k <= |a[dir].children| && Forest(a) && Freeing(a, b, dir, k, gone)
    ensures Forest(b)
  {
    forall n | n in b ensures ChildrenOk(b, n) {
      assert ChildrenOk(a, n);
      forall c | c in b[n].children ensures n < c && InTree(b, c) && b[c].parent == n {
        assert c in a[n].children;
        if n == dir {
          var i :| k <= i < |a[dir].children| && a[dir].children[i] == c;
          assert c !in a[dir].children[..k];
        }
        assert c !in gone;
      }
    }
  }

  /** With no fids left every node is in the tree, so freeing what is below the root frees them all. */
  lemma {:induction false} AllFreed(a: Nodes, b: Nodes, fids: seq<Fid>, freed: seq<nat>, next: nat, gone: set<nat>,
                                    m: nat)
    requires NodesOk(a, fids, -1, freed, next) && fids == [] && m in a && m != ROOT
    requires Freeing(a, b, ROOT, |a[ROOT].children|, gone)
    ensures m in gone
    decreases m
  {
    assert !a[m].removed;
    assert ParentOk(a, m);
    assert a[ROOT].children[..|a[ROOT].children|] == a[ROOT].children;
    if a[m].parent != ROOT {
      AllFreed(a, b, fids, freed, next, gone, a[m].parent);
    }
  }

  // ----- deferred reads -----

  ghost predicate Live(fids: seq<Fid>, ptr: nat)
  {
    exists i :: 0 <= i < |fids| && fids[i].ptr == ptr
  }

  /** A deferred read's fid is live, and its answer fits in a reply. */
  ghost predicate DeferredOk(deferred: seq<Req>, fids: seq<Fid>, msize: nat)
  {
    forall i :: 0 <= i < |deferred| ==> Live(fids, deferred[i].fid) && deferred[i].count + HEADER + 4 <= msize
  }

  /** The reads that stay when those on the fids `doomed` fail. */
  function Keep(d: seq<Req>, doomed: set<nat>): seq<Req>
  {
    if d == [] then [] else
      var r := d[|d| - 1];
      Keep(d[..|d| - 1], doomed) + if r.fid in doomed then [] else [r]
  }

  const RERROR: Byte := 64
  const EIO := 5

  function ErrorFrame(tag: nat, err: nat): seq<Byte>
  {
    Frame(RERROR, tag, Bytes(err, 2))
  }

  /** And what is sent for the others. */
  function FailReplies(d: seq<Req>, doomed: set<nat>): seq<seq<Byte>>
  {
    if d == [] then [] else
      var r := d[|d| - 1];
      FailReplies(d[..|d| - 1], doomed) + if r.fid in doomed then [ErrorFrame(r.tag, EIO)] else []
  }

  lemma {:induction false} KeepIsWhatStays(d: seq<Req>, doomed: set<nat>)
    ensures forall r :: r in Keep(d, doomed) <==> r in d && r.fid !in doomed
  {
    if d != [] {
      KeepIsWhatStays(d[..|d| - 1], doomed);
      assert d == d[..|d| - 1] + [d[|d| - 1]];
    }
  }

  /** The list when the first j reads of it have been looked at, how many of them stay, and what has been sent. */
  function Partly(d: seq<Req>, doomed: set<nat>, j: nat): seq<Req>
    requires j <= |d|
  {
    Keep(d[..j], doomed) + d[j..]
  }

  function Kept(d: seq<Req>, doomed: set<nat>, j: nat): nat
    requires j <= |d|
  {
    |Keep(d[..j], doomed)|
  }

  function Failed(d: seq<Req>, doomed: set<nat>, j: nat): seq<seq<Byte>>
    requires j <= |d|
  {
    FailReplies(d[..j], doomed)
  }

  lemma NoneLooked(d: seq<Req>, doomed: set<nat>)
    ensures Partly(d, doomed, 0) == d && Kept(d, doomed, 0) == 0 && Failed(d, doomed, 0) == []
  {
    assert d[..0] == [] && d[0..] == d;
  }

  lemma AllLooked(d: seq<Req>, doomed: set<nat>)
    ensures Partly(d, doomed, |d|) == Keep(d, doomed) && Failed(d, doomed, |d|) == FailReplies(d, doomed)
  {
    assert d[..|d|] == d && d[|d|..] == [];
  }

  /** One step along the list, failing or keeping its j-th read. */
  lemma KeepStep(d: seq<Req>, doomed: set<nat>, j: nat)
    requires j <= |d|
    ensures |Partly(d, doomed, j)| == Kept(d, doomed, j) + |d| - j
    ensures j < |d| ==>
              var now, i := Partly(d, doomed, j), Kept(d, doomed, j);
              && now[i] == d[j]
              && (d[j].fid in doomed ==>
                    && Partly(d, doomed, j + 1) == now[..i] + now[i + 1..] && Kept(d, doomed, j + 1) == i
                    && Failed(d, doomed, j + 1) == Failed(d, doomed, j) + [ErrorFrame(d[j].tag, EIO)])
              && (d[j].fid !in doomed ==>
                    && Partly(d, doomed, j + 1) == now && Kept(d, doomed, j + 1) == i + 1
                    && Failed(d, doomed, j + 1) == Failed(d, doomed, j))
  {
    if j < |d| {
      assert d[..j + 1][..j] == d[..j];
      assert d[j..] == [d[j]] + d[j + 1..];
    }
  }

  lemma {:induction false} KeepTwice(d: seq<Req>, a: set<nat>, b: set<nat>)
    ensures Keep(Keep(d, a), b) == Keep(d, a + b)
  {
    if d != [] {
      var init, r := d[..|d| - 1], d[|d| - 1];
      KeepTwice(init, a, b);
      if r.fid !in a {
        assert (Keep(init, a) + [r])[..|Keep(init, a)|] == Keep(init, a);
      } else {
        assert Keep(d, a) == Keep(init, a);
      }
    }
  }

  lemma DeferredKeep(d: seq<Req>, fids: seq<Fid>, msize: nat, doomed: set<nat>)
    requires DeferredOk(d, fids, msize)
    ensures DeferredOk(Keep(d, doomed), fids, msize)
  {
    KeepIsWhatStays(d, doomed);
    var kept := Keep(d, doomed);
    forall i | 0 <= i < |kept| ensures Live(fids, kept[i].fid) && kept[i].count + HEADER + 4 <= msize {
      assert kept[i] in d;
    }
  }

  lemma {:induction false} KeepNone(d: seq<Req>, doomed: set<nat>)
    requires forall i :: 0 <= i < |d| ==> d[i].fid !in doomed
    ensures Keep(d, doomed) == d && FailReplies(d, doomed) == []
  {
    if d != [] {
      KeepNone(d[..|d| - 1], doomed);
      assert d == d[..|d| - 1] + [d[|d| - 1]];
    }
  }

  /** The fids on some of the nodes. */
  function PtrsOn(fids: seq<Fid>, some: set<nat>): set<nat>
  {
    set i | 0 <= i < |fids| && fids[i].node in some :: fids[i].ptr
  }

  // ----- the book of requests and replies -----

  function SerialsOf(d: seq<Req>): multiset<nat>
  {
    if d == [] then multiset{} else multiset{d[0].serial} + SerialsOf(d[1..])
  }

  function UpTo(n: nat): multiset<nat>
  {
    if n == 0 then multiset{} else UpTo(n - 1) + multiset{n - 1}
  }

  /** The i-th well-framed request had tag requests[i]; log[j] is the reply to request answered[j]. */
  ghost predicate TagsOk(requests: seq<nat>, log: seq<seq<Byte>>, answered: seq<nat>, deferred: seq<Req>)
  {
    && |log| == |answered|
    && (forall i :: 0 <= i < |requests| ==> requests[i] < 0x10000)
    && (forall j :: 0 <= j < |log| ==>
          answered[j] < |requests| && WellFramed(log[j]) && TagOf(log[j]) == requests[answered[j]])
    && (forall j :: 0 <= j < |deferred| ==>
          deferred[j].serial < |requests| && deferred[j].tag == requests[deferred[j].serial])
  }

  /** Each request is answered, or deferred, or current (being performed), and is
      exactly one of these, once. */
  ghost predicate TallyOk(n: nat, answered: seq<nat>, deferred: seq<Req>, current: multiset<nat>)
  {
    multiset(answered) + SerialsOf(deferred) + current == UpTo(n)
  }

  ghost predicate BookOk(requests: seq<nat>, log: seq<seq<Byte>>, answered: seq<nat>, deferred: seq<Req>,
                         current: multiset<nat>)
  {
    && TagsOk(requests, log, answered, deferred)
    && TallyOk(|requests|, answered, deferred, current)
  }

  lemma {:induction false} UpToCounts(n: nat, x: nat)
    ensures UpTo(n)[x] == if x < n then 1 else 0
  {
    if n > 0 {
      UpToCounts(n - 1, x);
    }
  }

  lemma PlusAssoc(x: multiset<nat>, y: multiset<nat>, z: multiset<nat>)
    ensures x + (y + z) == (x + y) + z
  {
  }

  lemma {:induction false} SerialsWithout(d: seq<Req>, k: nat)
    requires k < |d|
    ensures SerialsOf(d) == SerialsOf(d[..k] + d[k + 1..]) + multiset{d[k].serial}
  {
    if k == 0 {
      assert d[..0] + d[1..] == d[1..];
    } else {
      var rest := d[..k] + d[k + 1..];
      SerialsWithout(d[1..], k - 1);
      assert rest[1..] == d[1..][..k - 1] + d[1..][k..];
      assert SerialsOf(rest) == multiset{d[0].serial} + SerialsOf(rest[1..]);
      assert SerialsOf(d) == multiset{d[0].serial} + SerialsOf(d[1..]);
      hide SerialsOf;
      PlusAssoc(multiset{d[0].serial}, SerialsOf(rest[1..]), multiset{d[k].serial});
    }
  }

  lemma TallyMove(n: nat, answered: seq<nat>, serial: nat, before: multiset<nat>, after: multiset<nat>)
    requires multiset(answered) + before == UpTo(n) && before == after + multiset{serial}
    ensures multiset(answered + [serial]) + after == UpTo(n)
  {
    hide UpTo;
    assert multiset(answered + [serial]) == multiset(answered) + multiset{serial};
  }

  lemma BookAnswerDeferred(requests: seq<nat>, log: seq<seq<Byte>>, answered: seq<nat>, d: seq<Req>,
                           current: multiset<nat>, k: nat, m: seq<Byte>)
    requires BookOk(requests, log, answered, d, current)
    requires k < |d| && WellFramed(m) && TagOf(m) == d[k].tag
    ensures BookOk(requests, log + [m], answered + [d[k].serial], d[..k] + d[k + 1..], current)
  {
    var rest, serial := d[..k] + d[k + 1..], d[k].serial;
    assert TallyOk(|requests|, answered + [serial], rest, current) by {
      hide SerialsOf, UpTo, TagsOk;
      SerialsWithout(d, k);
      TallyMove(|requests|, answered, serial, SerialsOf(d) + current, SerialsOf(rest) + current);
    }
    hide TallyOk, WellFramed, TagOf;
  }

  lemma BookAnswerCurrent(requests: seq<nat>, log: seq<seq<Byte>>, answered: seq<nat>, d: seq<Req>,
                          serial: nat, m: seq<Byte>)
    requires BookOk(requests, log, answered, d, multiset{serial})
    requires WellFramed(m) && serial < |requests| && TagOf(m) == requests[serial]
    ensures BookOk(requests, log + [m], answered + [serial], d, multiset{})
  {
    assert TallyOk(|requests|, answered + [serial], d, multiset{}) by {
      hide SerialsOf, UpTo, TagsOk;
      TallyMove(|requests|, answered, serial, SerialsOf(d) + multiset{serial}, SerialsOf(d));
    }
    hide TallyOk, WellFramed, TagOf;
  }

  lemma BookDefer(requests: seq<nat>, log: seq<seq<Byte>>, answered: seq<nat>, d: seq<Req>, r: Req)
    requires BookOk(requests, log, answered, d, multiset{r.serial})
    requires r.serial < |requests| && r.tag == requests[r.serial]
    ensures BookOk(requests, log, answered, [r] + d, multiset{})
  {
    assert TallyOk(|requests|, answered, [r] + d, multiset{}) by {
      hide UpTo, TagsOk;
      assert ([r] + d)[1..] == d;
    }
    hide TallyOk, WellFramed, TagOf;
  }

  lemma BookArrive(requests: seq<nat>, log: seq<seq<Byte>>, answered: seq<nat>, d: seq<Req>, tag: nat)
    requires BookOk(requests, log, answered, d, multiset{})
    requires tag < 0x10000
    ensures BookOk(requests + [tag], log, answered, d, multiset{|requests|})
  {
    assert TallyOk(|requests| + 1, answered, d, multiset{|requests|}) by {
      hide SerialsOf, TagsOk;
      assert UpTo(|requests| + 1) == UpTo(|requests|) + multiset{|requests|};
    }
    hide TallyOk, WellFramed, TagOf;
  }

  /** Every request that is not still deferred has been answered by exactly one message
      carrying its tag, and one that is deferred by none. */
  lemma AnsweredExactlyOnce(requests: seq<nat>, log: seq<seq<Byte>>, answered: seq<nat>, d: seq<Req>, i: nat)
    requires BookOk(requests, log, answered, d, multiset{}) && i < |requests|
    ensures (exists k :: 0 <= k < |d| && d[k].serial == i) ==> i !in answered
    ensures (forall k :: 0 <= k < |d| ==> d[k].serial != i) ==>
              exists j :: 0 <= j < |log| && answered[j] == i && TagOf(log[j]) == requests[i]
                          && forall k :: 0 <= k < |log| && answered[k] == i ==> k == j
  {
    UpToCounts(|requests|, i);
    SerialsCount(d, i);
    assert multiset(answered)[i] + SerialsOf(d)[i] == 1;
    if forall k :: 0 <= k < |d| ==> d[k].serial != i {
      assert i in multiset(answered);
      var j :| 0 <= j < |answered| && answered[j] == i;
      forall k | 0 <= k < |log| && answered[k] == i ensures k == j {
        if k != j {
          TwiceCounts(answered, if k < j then k else j, if k < j then j else k);
        }
      }
    }
  }

  lemma {:induction false} SerialsCount(d: seq<Req>, x: nat)
    ensures x in SerialsOf(d) <==> exists k :: 0 <= k < |d| && d[k].serial == x
  {
    if d != [] {
      SerialsCount(d[1..], x);
      if exists k :: 0 <= k < |d[1..]| && d[1..][k].serial == x {
        var k :| 0 <= k < |d[1..]| && d[1..][k].serial == x;
        assert d[k + 1].serial == x;
      }
      if k :| 0 <= k < |d| && d[k].serial == x {
        assert k > 0 ==> d[1..][k - 1].serial == x;
      }
    }
  }

  lemma TwiceCounts(s: seq<nat>, a: nat, b: nat)
    requires a < b < |s| && s[a] == s[b]
    ensures multiset(s)[s[a]] >= 2
  {
    assert s == s[..a] + [s[a]] + s[a + 1..b] + [s[b]] + s[b + 1..];
  }

  // ----- what the server says about a node -----

  function Stat(n: Node): seq<Byte>
  {
    Bytes(n.kind, 1) + Bytes(n.length, 4) + Str(n.name)
  }
}

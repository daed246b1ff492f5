/**
 The heap of libc/malloc.c as memory and as what it stands for.

 Memory is 32-bit words at byte addresses that are multiples of four. Each block starts with a 16-byte
 header: its size, a magic number that tells used from free, and the next free block (0 for none).
 The blocks tile the heap from its base to the break; `Headers` ties memory to the tiles.
 */
module MallocHeap {

  const HEADER := 16
  const MAGIC_USED := 0x4D414C55
  const MAGIC_FREE := 0x4D414C46

  type Memory = map<int, int>

  datatype Tile = Tile(addr: nat, size: nat, used: bool)

  function End(t: Tile): nat
  {
    t.addr + t.size
  }

  // ----- the tiles -----

  ghost predicate Adjoin(ts: seq<Tile>)
  {
    forall i :: 0 <= i < |ts| - 1 ==> End(ts[i]) == ts[i + 1].addr
  }

  ghost predicate TileOk(t: Tile)
  {
    t.size >= 2 * HEADER && t.size % 16 == 0 && t.addr % 16 == 0 && t.addr > 0
  }

  ghost predicate Sized(ts: seq<Tile>)
  {
    forall i :: 0 <= i < |ts| ==> TileOk(ts[i])
  }

  /** The tiles lie end to end from base to brk. */
  ghost predicate Tiling(base: nat, brk: nat, ts: seq<Tile>)
    decreases ts
  {
    if ts == [] then base == brk
    else ts[0].addr == base && TileOk(ts[0]) && Tiling(End(ts[0]), brk, ts[1..])
  }

  /** Where tiles laid from base on come to. */
  function EndOf(base: nat, ts: seq<Tile>): nat
    decreases ts
  {
    if ts == [] then base else EndOf(End(ts[0]), ts[1..])
  }

  lemma {:induction false} TilingConcat(base: nat, brk: nat, a: seq<Tile>, b: seq<Tile>)
    ensures Tiling(base, brk, a + b) <==> Tiling(base, EndOf(base, a), a) && Tiling(EndOf(base, a), brk, b)
    decreases a
  {
    if a == [] {
      assert a + b == b;
    } else {
      assert (a + b)[1..] == a[1..] + b;
      TilingConcat(End(a[0]), brk, a[1..], b);
    }
  }

  lemma {:induction false} TilingShape(base: nat, brk: nat, ts: seq<Tile>)
    requires Tiling(base, brk, ts)
    ensures Sized(ts) && Adjoin(ts) && EndOf(base, ts) == brk && base <= brk
    ensures ts != [] ==> ts[0].addr == base
    decreases ts
  {
    if ts != [] {
      TilingShape(End(ts[0]), brk, ts[1..]);
      var tail := ts[1..];
      assert forall i :: 0 < i < |ts| ==> ts[i] == tail[i - 1];
      forall i | 0 <= i < |ts| - 1 ensures End(ts[i]) == ts[i + 1].addr {
        if i > 0 {
          assert End(tail[i - 1]) == tail[i].addr;
        }
      }
    }
  }

  /** No two free tiles touch. */
  ghost predicate Separate(ts: seq<Tile>)
  {
    forall i :: 0 <= i < |ts| - 1 ==> ts[i].used || ts[i + 1].used
  }

  lemma SeparateConcat(a: seq<Tile>, b: seq<Tile>)
    ensures Separate(a + b) <==> Separate(a) && Separate(b) && (a == [] || b == [] || a[|a| - 1].used || b[0].used)
  {
    var ts := a + b;
    if Separate(ts) {
      forall i | 0 <= i < |b| - 1 ensures b[i].used || b[i + 1].used {
        assert ts[|a| + i].used || ts[|a| + i + 1].used;
      }
      forall i | 0 <= i < |a| - 1 ensures a[i].used || a[i + 1].used {
        assert ts[i].used || ts[i + 1].used;
      }
      if a != [] && b != [] {
        assert ts[|a| - 1].used || ts[|a| - 1 + 1].used;
      }
    }
    if Separate(a) && Separate(b) && (a == [] || b == [] || a[|a| - 1].used || b[0].used) {
      forall i | 0 <= i < |ts| - 1 ensures ts[i].used || ts[i + 1].used {
        if i < |a| - 1 {
          assert a[i].used || a[i + 1].used;
        } else if i >= |a| {
          assert b[i - |a|].used || b[i - |a| + 1].used;
        }
      }
    }
  }

  /** The first free tile's address, or z. */
  function First(ts: seq<Tile>, z: nat): nat
  {
    if ts == [] then z else if !ts[0].used then ts[0].addr else First(ts[1..], z)
  }

  lemma {:induction false} FirstConcat(a: seq<Tile>, b: seq<Tile>, z: nat)
    ensures First(a + b, z) == First(a, First(b, z))
  {
    if a == [] {
      assert a + b == b;
    } else {
      assert (a + b)[1..] == a[1..] + b;
      FirstConcat(a[1..], b, z);
    }
  }

  lemma {:induction false} FirstUsed(ts: seq<Tile>, z: nat)
    requires forall i :: 0 <= i < |ts| ==> ts[i].used
    ensures First(ts, z) == z
  {
    if ts != [] {
      FirstUsed(ts[1..], z);
    }
  }

  lemma {:induction false} TilesInOrder(ts: seq<Tile>, i: nat, j: nat)
    requires Sized(ts) && Adjoin(ts) && i < j < |ts|
    ensures End(ts[i]) <= ts[j].addr
    decreases j
  {
    if i < j - 1 {
      TilesInOrder(ts, i, j - 1);
    }
    assert End(ts[j - 1]) == ts[j].addr;
  }

  // ----- memory -----

  ghost predicate Has(mem: Memory, a: int)
  {
    a in mem && a + 4 in mem && a + 8 in mem
  }

  ghost predicate HeaderOk(mem: Memory, t: Tile, next: nat)
  {
    && Has(mem, t.addr)
    && mem[t.addr] == t.size
    && mem[t.addr + 4] == (if t.used then MAGIC_USED else MAGIC_FREE)
    && (!t.used ==> mem[t.addr + 8] == next)
  }

  /** Memory holds the tiles' headers, where after the last of them the next free block is at z. */
  ghost predicate Headers(mem: Memory, ts: seq<Tile>, z: nat)
  {
    ts == [] || (HeaderOk(mem, ts[0], First(ts[1..], z)) && Headers(mem, ts[1..], z))
  }

  lemma {:induction false} HeadersConcat(mem: Memory, a: seq<Tile>, b: seq<Tile>, z: nat)
    ensures Headers(mem, a + b, z) <==> Headers(mem, a, First(b, z)) && Headers(mem, b, z)
  {
    if a == [] {
      assert a + b == b;
    } else {
      assert (a + b)[1..] == a[1..] + b;
      FirstConcat(a[1..], b, z);
      HeadersConcat(mem, a[1..], b, z);
    }
  }

  /** The header of one tile among the others. */
  lemma HeaderOf(mem: Memory, ts: seq<Tile>, z: nat, i: nat)
    requires i < |ts| && Headers(mem, ts, z)
    ensures HeaderOk(mem, ts[i], First(ts[i + 1..], z))
  {
    assert ts == ts[..i] + ts[i..];
    HeadersConcat(mem, ts[..i], ts[i..], z);
    assert ts[i..][1..] == ts[i + 1..];
  }

  /** The 16-byte line an address is in. */
  function Line(a: int): int
  {
    a - a % 16
  }

  lemma LineOfHeader(a: int)
    requires a % 16 == 0
    ensures Line(a) == Line(a + 4) == Line(a + 8) == a
  {
  }

  /** m and m' differ only in the lines s. */
  ghost predicate OnlyAt(m: Memory, m': Memory, s: set<int>)
  {
    forall a :: a in m ==> a in m' && (m'[a] == m[a] || Line(a) in s)
  }

  lemma OnlyAtTrans(m0: Memory, m1: Memory, m2: Memory, s: set<int>, t: set<int>, u: set<int>)
    requires OnlyAt(m0, m1, s) && OnlyAt(m1, m2, t) && s <= u && t <= u
    ensures OnlyAt(m0, m2, u)
  {
  }

  lemma HeaderElsewhere(m: Memory, m': Memory, t: Tile, next: nat, s: set<int>)
    requires OnlyAt(m, m', s) && t.addr % 16 == 0 && t.addr !in s && HeaderOk(m, t, next)
    ensures HeaderOk(m', t, next)
  {
    hide Line;
    LineOfHeader(t.addr);
  }

  /** Headers elsewhere are as they were. */
  lemma {:induction false} HeadersElsewhere(m: Memory, m': Memory, ts: seq<Tile>, z: nat, s: set<int>)
    requires Headers(m, ts, z) && Sized(ts) && OnlyAt(m, m', s)
    requires forall i :: 0 <= i < |ts| ==> ts[i].addr !in s
    ensures Headers(m', ts, z)
  {
    if ts != [] {
      HeaderElsewhere(m, m', ts[0], First(ts[1..], z), s);
      HeadersElsewhere(m, m', ts[1..], z, s);
    }
  }

  /** With no free tile there is no link to the next. */
  lemma {:induction false} HeadersAllUsed(m: Memory, ts: seq<Tile>, z: nat, z': nat)
    requires Headers(m, ts, z) && forall i :: 0 <= i < |ts| ==> ts[i].used
    ensures Headers(m, ts, z')
  {
    if ts != [] {
      HeadersAllUsed(m, ts[1..], z, z');
    }
  }

  ghost predicate NoneAt(ts: seq<Tile>, a: int)
  {
    forall i :: 0 <= i < |ts| ==> ts[i].addr != a
  }

  /** Different tiles are at different addresses. */
  lemma AddrsDiffer(ts: seq<Tile>, k: nat)
    requires Sized(ts) && Adjoin(ts) && k < |ts|
    ensures NoneAt(ts[..k], ts[k].addr) && NoneAt(ts[k + 1..], ts[k].addr)
    ensures Sized(ts[..k]) && Sized(ts[k + 1..]) && Sized(ts[k..])
  {
    var before, after := ts[..k], ts[k + 1..];
    forall i | 0 <= i < |before| ensures before[i].addr != ts[k].addr {
      TilesInOrder(ts, i, k);
      assert TileOk(ts[i]);
    }
    forall i | 0 <= i < |after| ensures after[i].addr != ts[k].addr {
      TilesInOrder(ts, k, k + 1 + i);
      assert TileOk(ts[k]);
    }
  }

  /** The last free tile's link, and only that, is what leads out of the list. */
  lemma Relink(m: Memory, ts: seq<Tile>, z: nat, z': nat, last: nat)
    requires Headers(m, ts, z) && Sized(ts) && Adjoin(ts)
    requires last < |ts| && !ts[last].used && forall i :: last < i < |ts| ==> ts[i].used
    ensures Headers(m[ts[last].addr + 8 := z'], ts, z')
    ensures OnlyAt(m, m[ts[last].addr + 8 := z'], {ts[last].addr as int})
  {
    var m' := m[ts[last].addr + 8 := z'];
    assert TileOk(ts[last]);
    LineOfHeader(ts[last].addr);
    hide Line, Headers, TileOk, HeaderOk;
    assert OnlyAt(m, m', {ts[last].addr as int});
    hide OnlyAt;
    var before, t, after := ts[..last], ts[last], ts[last + 1..];
    assert ts == before + ([t] + after) && ([t] + after)[1..] == after;
    HeadersConcat(m, before, [t] + after, z);
    HeadersConcat(m', before, [t] + after, z');
    AddrsDiffer(ts, last);
    HeadersElsewhere(m, m', before, t.addr, {t.addr as int});
    LinkOut(m, m', t, after, z, z');
  }

  lemma LinkOut(m: Memory, m': Memory, t: Tile, after: seq<Tile>, z: nat, z': nat)
    requires Headers(m, [t] + after, z) && Sized([t] + after) && !t.used && m' == m[t.addr + 8 := z']
    requires forall i :: 0 <= i < |after| ==> after[i].used && after[i].addr != t.addr
    requires OnlyAt(m, m', {t.addr as int})
    ensures Headers(m', [t] + after, z')
  {
    assert ([t] + after)[1..] == after && ([t] + after)[0] == t;
    assert Sized(after) by {
      assert forall i :: 0 <= i < |after| ==> after[i] == ([t] + after)[i + 1];
    }
    HeadersElsewhere(m, m', after, z, {t.addr as int});
    HeadersAllUsed(m', after, z, z');
    FirstUsed(after, z');
  }

  // ----- taking and freeing tiles -----

  /** The tile that is taken for `need` bytes: all of tile k, unless what is left is worth having. */
  function TakenTile(ts: seq<Tile>, k: nat, need: nat): Tile
    requires k < |ts| && need <= ts[k].size
  {
    Tile(ts[k].addr, if ts[k].size - need >= 2 * HEADER then need else ts[k].size, true)
  }

  /** What comes after it: the rest of tile k, if that is worth having, and the tiles after tile k. */
  function TakenRest(ts: seq<Tile>, k: nat, need: nat): seq<Tile>
    requires k < |ts| && need <= ts[k].size
  {
    if ts[k].size - need >= 2 * HEADER then [Tile(ts[k].addr + need, ts[k].size - need, false)] + ts[k + 1..]
    else ts[k + 1..]
  }

  function Taken(ts: seq<Tile>, k: nat, need: nat): seq<Tile>
    requires k < |ts| && need <= ts[k].size
  {
    ts[..k] + [TakenTile(ts, k, need)] + TakenRest(ts, k, need)
  }

  /** Tile k, and the free tile after it if there is one. */
  function WithNext(ts: seq<Tile>, k: nat): Tile
    requires k < |ts|
  {
    if k + 1 < |ts| && !ts[k + 1].used then Tile(ts[k].addr, ts[k].size + ts[k + 1].size, false)
    else Tile(ts[k].addr, ts[k].size, false)
  }

  /** What comes after that. */
  function After(ts: seq<Tile>, k: nat): seq<Tile>
    requires k < |ts|
  {
    if k + 1 < |ts| && !ts[k + 1].used then ts[k + 2..] else ts[k + 1..]
  }

  /** The tiles that become one when tile k is freed: it, and the free tiles it touches. */
  function Merging(ts: seq<Tile>, k: nat): seq<Tile>
    requires k < |ts|
  {
    var here := if k + 1 < |ts| && !ts[k + 1].used then [ts[k], ts[k + 1]] else [ts[k]];
    if k > 0 && !ts[k - 1].used then [ts[k - 1]] + here else here
  }

  function Before(ts: seq<Tile>, k: nat): seq<Tile>
    requires k < |ts|
  {
    if k > 0 && !ts[k - 1].used then ts[..k - 1] else ts[..k]
  }

  function MergedTile(ts: seq<Tile>, k: nat): Tile
    requires k < |ts|
  {
    var t := WithNext(ts, k);
    if k > 0 && !ts[k - 1].used then Tile(ts[k - 1].addr, ts[k - 1].size + t.size, false) else t
  }

  function Freed(ts: seq<Tile>, k: nat): seq<Tile>
    requires k < |ts|
  {
    Before(ts, k) + [MergedTile(ts, k)] + After(ts, k)
  }

  /** A stretch of tiles replaced by another of the same extent. */
  lemma Replace(base: nat, brk: nat, a: seq<Tile>, mid: seq<Tile>, mid': seq<Tile>, c: seq<Tile>)
    requires Tiling(base, brk, a + mid + c)
    requires EndOf(EndOf(base, a), mid) == EndOf(EndOf(base, a), mid')
    requires Tiling(EndOf(base, a), EndOf(EndOf(base, a), mid), mid) ==>
             Tiling(EndOf(base, a), EndOf(EndOf(base, a), mid), mid')
    ensures Tiling(base, brk, a + mid' + c)
  {
    hide Tiling, EndOf;
    assert a + mid + c == a + (mid + c) && a + mid' + c == a + (mid' + c);
    TilingConcat(base, brk, a, mid + c);
    TilingConcat(EndOf(base, a), brk, mid, c);
    TilingConcat(EndOf(base, a), brk, mid', c);
    TilingConcat(base, brk, a, mid' + c);
  }

  lemma Tiling1(base: nat, brk: nat, t: Tile)
    ensures EndOf(base, [t]) == End(t)
    ensures Tiling(base, brk, [t]) <==> t.addr == base && TileOk(t) && End(t) == brk
  {
    assert [t][1..] == [];
  }

  lemma Tiling2(base: nat, brk: nat, t: Tile, u: Tile)
    ensures EndOf(base, [t, u]) == End(u)
    ensures Tiling(base, brk, [t, u]) <==> t.addr == base && TileOk(t) && u.addr == End(t) && TileOk(u) && End(u) == brk
  {
    assert [t, u][1..] == [u];
    Tiling1(End(t), brk, u);
  }

  lemma TakenTiles(base: nat, brk: nat, ts: seq<Tile>, k: nat, need: nat)
    requires Tiling(base, brk, ts) && Separate(ts) && k < |ts| && !ts[k].used
    requires 2 * HEADER <= need <= ts[k].size && need % 16 == 0
    ensures Tiling(base, brk, Taken(ts, k, need)) && Separate(Taken(ts, k, need))
  {
    hide Tiling, EndOf, Separate;
    var a, t, c := ts[..k], ts[k], ts[k + 1..];
    assert ts == a + [t] + c;
    var at := EndOf(base, a);
    var u, v, w := Tile(t.addr, need, true), Tile(t.addr + need, t.size - need, false), Tile(t.addr, t.size, true);
    Tiling1(at, End(t), t);
    Tiling1(at, End(t), w);
    Tiling2(at, End(t), u, v);
    Replace(base, brk, a, [t], if t.size - need >= 2 * HEADER then [u, v] else [w], c);
    assert Taken(ts, k, need) == a + (if t.size - need >= 2 * HEADER then [u, v] else [w]) + c;
    SeparateConcat(a + [t], c);
    SeparateConcat(a, [t]);
    SeparateConcat(a, [w]);
    SeparateConcat(a + [w], c);
    SeparateConcat(a, [u, v]);
    SeparateConcat(a + [u, v], c);
    SeparateFew(u, v, w);
  }

  lemma SeparateFew(u: Tile, v: Tile, w: Tile)
    ensures Separate([w]) && (u.used || v.used ==> Separate([u, v]))
  {
  }

  lemma FreedParts(ts: seq<Tile>, k: nat)
    requires k < |ts|
    ensures ts == Before(ts, k) + Merging(ts, k) + After(ts, k)
  {
    var lo, mid, c := |Before(ts, k)|, Merging(ts, k), After(ts, k);
    var hi := |ts| - |c|;
    assert Before(ts, k) == ts[..lo] && c == ts[hi..];
    assert mid == ts[lo..hi];
    assert ts == ts[..lo] + ts[lo..hi] + ts[hi..];
  }

  function Total(ts: seq<Tile>): nat
  {
    if ts == [] then 0 else ts[0].size + Total(ts[1..])
  }

  /** Tiles that lie end to end can be one tile. */
  lemma {:induction false} OneTile(at: nat, e: nat, mid: seq<Tile>)
    requires Tiling(at, e, mid) && mid != []
    ensures mid[0].addr == at && e == at + Total(mid) && TileOk(Tile(at, Total(mid), false))
    decreases mid
  {
    var rest := mid[1..];
    if rest == [] {
      assert Total(rest) == 0;
    } else {
      OneTile(End(mid[0]), e, rest);
    }
  }

  lemma MergedTotal(ts: seq<Tile>, k: nat)
    requires k < |ts|
    ensures var mid := Merging(ts, k);
            mid != [] && MergedTile(ts, k) == Tile(mid[0].addr, Total(mid), false)
  {
    var mid := Merging(ts, k);
    if |mid| == 1 {
      assert Total(mid[1..]) == 0;
    } else if |mid| == 2 {
      assert Total(mid[1..]) == mid[1].size + Total(mid[1..][1..]);
    } else {
      assert mid[1..][1..] == [mid[2]];
      assert Total([mid[2]]) == mid[2].size + Total([mid[2]][1..]);
    }
  }

  lemma MergingIsOne(ts: seq<Tile>, k: nat, at: nat)
    requires k < |ts|
    ensures var mid, m := Merging(ts, k), MergedTile(ts, k);
            Tiling(at, EndOf(at, mid), mid) ==> EndOf(at, mid) == End(m) && Tiling(at, EndOf(at, mid), [m])
  {
    hide Tiling, EndOf, TileOk, Merging, MergedTile, Total;
    var mid, m := Merging(ts, k), MergedTile(ts, k);
    MergedTotal(ts, k);
    Tiling1(at, EndOf(at, mid), m);
    if Tiling(at, EndOf(at, mid), mid) {
      OneTile(at, EndOf(at, mid), mid);
    }
  }

  lemma FreedTiles(base: nat, brk: nat, ts: seq<Tile>, k: nat)
    requires Tiling(base, brk, ts) && Separate(ts) && k < |ts| && ts[k].used
    ensures Tiling(base, brk, Freed(ts, k)) && Separate(Freed(ts, k))
  {
    var a, mid, m, c := Before(ts, k), Merging(ts, k), MergedTile(ts, k), After(ts, k);
    FreedParts(ts, k);
    FreedSeparate(ts, k);
    hide Tiling, EndOf, Separate, Before, Merging, After, MergedTile, Freed;
    var at := EndOf(base, a);
    MergingIsOne(ts, k, at);
    assert a + mid + c == a + (mid + c);
    TilingConcat(base, brk, a, mid + c);
    TilingConcat(at, brk, mid, c);
    Tiling1(at, End(m), m);
    Replace(base, brk, a, mid, [m], c);
  }

  lemma FreedSeparate(ts: seq<Tile>, k: nat)
    requires Separate(ts) && k < |ts|
    ensures Separate(Freed(ts, k))
  {
    var a, c := Before(ts, k), After(ts, k);
    var m := MergedTile(ts, k);
    FreedParts(ts, k);
    if k >= 2 {
      assert ts[k - 2].used || ts[k - 1].used;
    }
    if k + 2 < |ts| {
      assert ts[k + 1].used || ts[k + 2].used;
    }
    assert a != [] ==> a[|a| - 1].used;
    assert c != [] ==> c[0].used;
    assert ts == ts[..|a|] + ts[|a|..] && a == ts[..|a|];
    SeparateConcat(ts[..|a|], ts[|a|..]);
    var n := |ts| - |c|;
    assert ts == ts[..n] + ts[n..] && c == ts[n..];
    SeparateConcat(ts[..n], ts[n..]);
    SeparateConcat(a, [m]);
    SeparateConcat(a + [m], c);
  }

  // ----- memory after taking and freeing -----

  /** Headers of a list put together around one tile. */
  lemma Assemble(m: Memory, a: seq<Tile>, t: Tile, c: seq<Tile>, z: nat)
    ensures Headers(m, a + [t] + c, z) <==>
            Headers(m, a, if t.used then First(c, z) else t.addr) && HeaderOk(m, t, First(c, z)) && Headers(m, c, z)
  {
    var tc := [t] + c;
    assert a + [t] + c == a + tc && tc[1..] == c;
    HeadersConcat(m, a, tc, z);
  }

  /** What leads out of the tiles `a`: the last free one of them, or with none the start of the free list. */
  ghost predicate IsLast(a: seq<Tile>, last: int)
  {
    && -1 <= last < |a| && (last >= 0 ==> !a[last].used)
    && forall i :: last < i < |a| ==> a[i].used
  }

  function Linked(m: Memory, a: seq<Tile>, last: int, n: nat): Memory
    requires last < |a|
  {
    if last >= 0 then m[a[last].addr + 8 := n] else m
  }

  lemma LinkedHeaders(m: Memory, a: seq<Tile>, last: int, z: nat, n: nat)
    requires Headers(m, a, z) && Sized(a) && Adjoin(a) && IsLast(a, last)
    ensures Headers(Linked(m, a, last, n), a, n)
    ensures OnlyAt(m, Linked(m, a, last, n), LastLine(a, last))
    ensures First(a, n) == if last < 0 then n else First(a, z)
  {
    hide Headers;
    if last < 0 {
      HeadersAllUsed(m, a, z, n);
      FirstUsed(a, n);
    } else {
      Relink(m, a, z, n, last);
      FirstSame(a, z, n, last);
    }
  }

  lemma {:induction false} FirstSame(ts: seq<Tile>, z: nat, z': nat, k: nat)
    requires k < |ts| && !ts[k].used
    ensures First(ts, z) == First(ts, z')
  {
    if ts[0].used {
      FirstSame(ts[1..], z, z', k - 1);
    }
  }

  lemma SlicesOk(ts: seq<Tile>, i: nat, j: nat)
    requires Sized(ts) && Adjoin(ts) && i <= j <= |ts|
    ensures Sized(ts[i..j]) && Adjoin(ts[i..j])
  {
    var s := ts[i..j];
    forall x | 0 <= x < |s| ensures TileOk(s[x]) {
      assert TileOk(ts[i + x]);
    }
    forall x | 0 <= x < |s| - 1 ensures End(s[x]) == s[x + 1].addr {
      assert End(ts[i + x]) == ts[i + x + 1].addr;
    }
  }

  lemma OnlyAtMore(m: Memory, m': Memory, s: set<int>, u: set<int>)
    requires OnlyAt(m, m', s) && s <= u
    ensures OnlyAt(m, m', u)
  {
  }

  /** The tiles around tile k, away from it and the one before it. */
  lemma Around(ts: seq<Tile>, k: nat)
    requires Sized(ts) && Adjoin(ts) && k < |ts|
    ensures NoneAt(ts[..k], ts[k].addr) && Sized(ts[..k]) && Adjoin(ts[..k])
    ensures NoneAt(After(ts, k), ts[k].addr) && Sized(After(ts, k)) && Sized(ts[k + 1..])
    ensures k > 0 ==> NoneAt(ts[..k - 1], ts[k].addr) && NoneAt(ts[..k - 1], ts[k - 1].addr) && Sized(ts[..k - 1])
    ensures forall i :: 0 <= i < k ==> NoneAt(After(ts, k), ts[i].addr) && ts[i].addr != ts[k].addr && TileOk(ts[i])
    ensures TileOk(ts[k])
  {
    AddrsDiffer(ts, k);
    SlicesOk(ts, 0, k);
    if k > 0 {
      AddrsDiffer(ts, k - 1);
      assert forall i :: 0 <= i < k - 1 ==> ts[..k - 1][i] == ts[..k][i];
    }
    var after, n := After(ts, k), |ts| - |After(ts, k)|;
    assert after == ts[n..];
    forall i | 0 <= i < |after| ensures TileOk(after[i]) && after[i].addr != ts[k].addr {
      assert after[i] == ts[n + i] && TileOk(ts[n + i]);
      TilesInOrder(ts, k, n + i);
      assert TileOk(ts[k]);
    }
    forall i | 0 <= i < k ensures NoneAt(after, ts[i].addr) && ts[i].addr != ts[k].addr && TileOk(ts[i]) {
      assert TileOk(ts[i]);
      TilesInOrder(ts, i, k);
      forall x | 0 <= x < |after| ensures after[x].addr != ts[i].addr {
        assert after[x] == ts[n + x];
        TilesInOrder(ts, i, n + x);
      }
    }
  }

  lemma AfterHeaders(m: Memory, ts: seq<Tile>, k: nat)
    requires k < |ts| && Headers(m, ts[k + 1..], 0)
    ensures Headers(m, After(ts, k), 0)
  {
    if k + 1 < |ts| && !ts[k + 1].used {
      assert ts[k + 1..][1..] == ts[k + 2..];
    }
  }

  /** Tile k freed, where the tile before it is free and takes it in. */
  lemma FreedIntoPrev(m0: Memory, m1: Memory, m2: Memory, ts: seq<Tile>, k: nat)
    requires Sized(ts) && Adjoin(ts) && 0 < k < |ts| && !ts[k - 1].used && ts[k].used
    requires Headers(m0, ts[..k], First(ts[k + 1..], 0)) && Headers(m0, ts[k + 1..], 0)
    requires OnlyAt(m0, m1, {ts[k].addr as int}) && OnlyAt(m1, m2, {ts[k - 1].addr as int})
    requires HeaderOk(m2, MergedTile(ts, k), First(After(ts, k), 0))
    ensures Headers(m2, Freed(ts, k), 0) && First(Freed(ts, k), 0) == First(ts, 0)
    ensures OnlyAt(m0, m2, {ts[k].addr as int, ts[k - 1].addr})
  {
    hide Headers, First, OnlyAt, HeaderOk, TileOk, After;
    var a, p, c, s := ts[..k - 1], ts[k - 1], After(ts, k), {ts[k].addr as int, ts[k - 1].addr};
    Around(ts, k);
    AfterHeaders(m0, ts, k);
    OnlyAtTrans(m0, m1, m2, {ts[k].addr as int}, {ts[k - 1].addr as int}, s);
    assert ts[..k] == a + [p] + [];
    Assemble(m0, a, p, [], First(ts[k + 1..], 0));
    HeadersElsewhere(m0, m2, a, p.addr, s);
    HeadersElsewhere(m0, m2, c, 0, s);
    Assemble(m2, a, MergedTile(ts, k), c, 0);
    FirstPast(a, p, ts[k..], MergedTile(ts, k), c);
    assert ts == a + [p] + ts[k..];
  }

  lemma FirstPast(a: seq<Tile>, p: Tile, x: seq<Tile>, q: Tile, y: seq<Tile>)
    requires !p.used && !q.used && p.addr == q.addr
    ensures First(a + [p] + x, 0) == First(a + [q] + y, 0)
  {
    assert a + [p] + x == a + ([p] + x) && a + [q] + y == a + ([q] + y);
    FirstConcat(a, [p] + x, 0);
    FirstConcat(a, [q] + y, 0);
  }

  /** Tile k freed, where the tile before it is used or there is none: it is linked in after `last`. */
  lemma FreedAlone(m0: Memory, m1: Memory, ts: seq<Tile>, k: nat, last: int)
    requires Sized(ts) && Adjoin(ts) && k < |ts| && ts[k].used && (k > 0 ==> ts[k - 1].used)
    requires Headers(m0, ts[..k], First(ts[k + 1..], 0)) && Headers(m0, ts[k + 1..], 0)
    requires OnlyAt(m0, m1, {ts[k].addr as int}) && HeaderOk(m1, WithNext(ts, k), First(After(ts, k), 0))
    requires IsLast(ts[..k], last)
    ensures var m2 := Linked(m1, ts[..k], last, ts[k].addr);
            && Headers(m2, Freed(ts, k), 0)
            && First(Freed(ts, k), 0) == (if last < 0 then ts[k].addr else First(ts, 0))
            && OnlyAt(m0, m2, {ts[k].addr as int} + if last >= 0 then {ts[last].addr as int} else {})
            && OnlyAt(m1, m2, if last >= 0 then {ts[last].addr as int} else {})
  {
    hide Headers, First, OnlyAt, HeaderOk, TileOk, After;
    var a, t, c := ts[..k], WithNext(ts, k), After(ts, k);
    var m2 := Linked(m1, a, last, t.addr);
    var s := if last >= 0 then {a[last].addr as int} else {};
    Around(ts, k);
    AfterHeaders(m0, ts, k);
    HeadersElsewhere(m0, m1, a, First(ts[k + 1..], 0), {ts[k].addr as int});
    LinkedHeaders(m1, a, last, First(ts[k + 1..], 0), t.addr);
    OnlyAtTrans(m0, m1, m2, {ts[k].addr as int}, s, {ts[k].addr as int} + s);
    HeadersElsewhere(m0, m2, c, 0, {ts[k].addr as int} + s);
    assert t.addr % 16 == 0 by { AlignedTile(ts[k]); }
    HeaderElsewhere(m1, m2, t, First(c, 0), s);
    Assemble(m2, a, t, c, 0);
    assert Freed(ts, k) == a + ([t] + c) && ts == a + ts[k..];
    FirstConcat(a, [t] + c, 0);
    FirstConcat(a, ts[k..], 0);
    FirstHead(t, c);
    FirstHead(ts[k], ts[k + 1..]);
    assert [ts[k]] + ts[k + 1..] == ts[k..];
  }

  lemma AlignedTile(t: Tile)
    requires TileOk(t)
    ensures t.addr % 16 == 0 && t.addr > 0 && t.size > 0
  {
  }

  lemma FirstHead(t: Tile, c: seq<Tile>)
    ensures First([t] + c, 0) == if t.used then First(c, 0) else t.addr
  {
    assert ([t] + c)[1..] == c;
  }

  /** No tile starts inside another. */
  lemma NoneInside(ts: seq<Tile>, k: nat, p: nat)
    requires Sized(ts) && Adjoin(ts) && k < |ts| && ts[k].addr < p < End(ts[k])
    ensures NoneAt(ts[..k], p) && NoneAt(ts[k + 1..], p) && NoneAt(ts, p)
  {
    forall i | 0 <= i < |ts| ensures ts[i].addr != p {
      if i < k {
        TilesInOrder(ts, i, k);
        assert TileOk(ts[i]);
      } else if i > k {
        TilesInOrder(ts, k, i);
      }
    }
  }

  /** What tile k leads to once it is taken: its own rest, or the next free tile. */
  function NextTaken(ts: seq<Tile>, k: nat, need: nat): nat
    requires k < |ts| && need <= ts[k].size
  {
    if ts[k].size - need >= 2 * HEADER then ts[k].addr + need else First(ts[k + 1..], 0)
  }

  /** The lines written in taking tile k. */
  function TakenLines(ts: seq<Tile>, k: nat, need: nat): set<int>
    requires k < |ts| && need <= ts[k].size
  {
    {ts[k].addr as int} + if ts[k].size - need >= 2 * HEADER then {ts[k].addr + need} else {}
  }

  /** Tile k taken: m1 is memory with its header (and that of its rest) written, m2 with the free list past it,
      and m3 with it marked used. */
  lemma TakenHeaders(m0: Memory, m1: Memory, m3: Memory, ts: seq<Tile>, k: nat, need: nat, last: int)
    requires Sized(ts) && Adjoin(ts) && k < |ts| && !ts[k].used && Headers(m0, ts, 0) && IsLast(ts[..k], last)
    requires 2 * HEADER <= need <= ts[k].size && need % 16 == 0
    requires OnlyAt(m0, m1, TakenLines(ts, k, need))
    requires OnlyAt(Linked(m1, ts[..k], last, NextTaken(ts, k, need)), m3, {ts[k].addr as int})
    requires ts[k].size - need >= 2 * HEADER ==>
               HeaderOk(m1, Tile(ts[k].addr + need, ts[k].size - need, false), First(ts[k + 1..], 0))
    requires HeaderOk(m3, TakenTile(ts, k, need), 0)
    ensures Headers(m3, Taken(ts, k, need), 0)
    ensures First(Taken(ts, k, need), 0) == if last < 0 then NextTaken(ts, k, need) else First(ts, 0)
    ensures OnlyAt(m0, m3, TakenLines(ts, k, need) + LastLine(ts[..k], last))
  {
    TakenAway(ts, k, need, last);
    hide Headers, First, OnlyAt, HeaderOk, TileOk, Sized, Adjoin, TakenLines, NextTaken, Taken, TakenTile, Linked,
      IsLast, LastLine;
    var a, t, c, n := ts[..k], ts[k], ts[k + 1..], NextTaken(ts, k, need);
    var lines, prevLine, at := TakenLines(ts, k, need), LastLine(a, last), {t.addr as int};
    var m2 := Linked(m1, a, last, n);
    assert ts == a + [t] + c;
    Assemble(m0, a, t, c, 0);
    HeadersElsewhere(m0, m1, a, t.addr, lines);
    LinkedHeaders(m1, a, last, t.addr, n);
    HeadersElsewhere(m2, m3, a, n, at);
    OnlyAtTrans(m0, m1, m2, lines, prevLine, lines + prevLine);
    OnlyAtTrans(m0, m2, m3, lines + prevLine, at, lines + prevLine);
    HeadersElsewhere(m0, m3, c, 0, lines + prevLine);
    if t.size - need >= 2 * HEADER {
      OnlyAtTrans(m1, m2, m3, prevLine, at, prevLine + at);
      HeaderElsewhere(m1, m3, Tile(t.addr + need, t.size - need, false), First(c, 0), prevLine + at);
    }
    TakenAssemble(m3, ts, k, need);
    FirstThrough(ts, k);
  }

  lemma FirstThrough(ts: seq<Tile>, k: nat)
    requires k < |ts| && !ts[k].used
    ensures First(ts, 0) == First(ts[..k], ts[k].addr)
  {
    assert ts == ts[..k] + ts[k..];
    FirstConcat(ts[..k], ts[k..], 0);
  }

  function LastLine(a: seq<Tile>, last: int): set<int>
    requires last < |a|
  {
    if last >= 0 then {a[last].addr as int} else {}
  }

  /** The lines written in taking tile k are in no other tile's header. */
  lemma TakenAway(ts: seq<Tile>, k: nat, need: nat, last: int)
    requires Sized(ts) && Adjoin(ts) && k < |ts| && IsLast(ts[..k], last)
    requires 2 * HEADER <= need <= ts[k].size && need % 16 == 0
    ensures last < k && Sized(ts[..k]) && Adjoin(ts[..k]) && Sized(ts[k + 1..])
    ensures var a, c, lines, prevLine := ts[..k], ts[k + 1..], TakenLines(ts, k, need), LastLine(ts[..k], last);
            && ts[k].addr as int in lines
            && (forall i :: 0 <= i < |a| ==> a[i].addr !in lines && a[i].addr !in {ts[k].addr as int})
            && (forall i :: 0 <= i < |c| ==> c[i].addr !in lines + prevLine)
            && (ts[k].size - need >= 2 * HEADER ==>
                  (ts[k].addr + need) % 16 == 0 && ts[k].addr + need !in prevLine + {ts[k].addr as int})
  {
    AddrsDiffer(ts, k);
    SlicesOk(ts, 0, k);
    assert TileOk(ts[k]);
    if ts[k].size - need >= 2 * HEADER {
      NoneInside(ts, k, ts[k].addr + need);
    }
    LaterThan(ts, k, last);
    if last >= 0 {
      assert ts[..k][last] == ts[last];
    }
  }

  lemma TakenAssemble(m: Memory, ts: seq<Tile>, k: nat, need: nat)
    requires k < |ts| && need <= ts[k].size
    requires Headers(m, ts[..k], NextTaken(ts, k, need)) && Headers(m, ts[k + 1..], 0)
    requires HeaderOk(m, TakenTile(ts, k, need), 0)
    requires ts[k].size - need >= 2 * HEADER ==>
               HeaderOk(m, Tile(ts[k].addr + need, ts[k].size - need, false), First(ts[k + 1..], 0))
    ensures Headers(m, Taken(ts, k, need), 0)
    ensures First(Taken(ts, k, need), 0) == First(ts[..k], NextTaken(ts, k, need))
  {
    var a, u, rest := ts[..k], TakenTile(ts, k, need), TakenRest(ts, k, need);
    RestHeaders(m, ts, k, need);
    assert HeaderOk(m, u, First(rest, 0)) && u.used;
    hide Headers, First, HeaderOk, TakenTile, TakenRest, NextTaken;
    Assemble(m, a, u, rest, 0);
    assert a + [u] + rest == a + ([u] + rest);
    FirstConcat(a, [u] + rest, 0);
    FirstHead(u, rest);
  }

  lemma RestHeaders(m: Memory, ts: seq<Tile>, k: nat, need: nat)
    requires k < |ts| && need <= ts[k].size && Headers(m, ts[k + 1..], 0)
    requires ts[k].size - need >= 2 * HEADER ==>
               HeaderOk(m, Tile(ts[k].addr + need, ts[k].size - need, false), First(ts[k + 1..], 0))
    ensures Headers(m, TakenRest(ts, k, need), 0) && First(TakenRest(ts, k, need), 0) == NextTaken(ts, k, need)
  {
    var c, rest := ts[k + 1..], TakenRest(ts, k, need);
    if ts[k].size - need >= 2 * HEADER {
      assert rest[1..] == c;
    }
  }

  lemma LaterThan(ts: seq<Tile>, k: nat, last: int)
    requires Sized(ts) && Adjoin(ts) && k < |ts| && last < k
    ensures last >= 0 ==> NoneAt(ts[k + 1..], ts[last].addr)
  {
    if last >= 0 {
      var c := ts[k + 1..];
      assert TileOk(ts[last]);
      forall i | 0 <= i < |c| ensures c[i].addr != ts[last].addr {
        TilesInOrder(ts, last, k + 1 + i);
      }
    }
  }
}

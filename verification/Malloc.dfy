/**
 malloc, free and realloc of libc/malloc.c: first fit over a free list in address order, so that freeing
 joins a block with both its neighbours. The kernel's sbrk is a parameter: whether it grants the n-th
 request (`grants`), and what is in the memory it gives (`junk`). Only malloc calls it.
 */
module Malloc {
  import opened MallocHeap

  const GROW_MIN := 16384
  const INTPTR_MAX := 0x7FFF_FFFF

  function Live(ts: seq<Tile>): set<Tile>
  {
    set t | t in ts && t.used
  }

  function Addrs(ts: seq<Tile>): set<int>
  {
    set i | 0 <= i < |ts| :: ts[i].addr
  }

  /** A free block of at least `need` bytes there. */
  ghost predicate Fits(ts: seq<Tile>, need: nat)
  {
    exists i :: 0 <= i < |ts| && !ts[i].used && ts[i].size >= need
  }

  /** The whole block a request takes: its header too, in units of 16. */
  function Need(size: nat): nat
  {
    ((if size == 0 then 1 else size) + HEADER + 15) / 16 * 16
  }

  ghost predicate Domain(mem: Memory, base: nat, brk: nat)
  {
    forall a :: base <= a < brk && a % 4 == 0 ==> a in mem
  }

  /** The next free tile from i on. */
  lemma {:induction false} FirstFree(ts: seq<Tile>, i: nat) returns (j: nat)
    requires i <= |ts| && Sized(ts)
    ensures i <= j <= |ts| && forall x :: i <= x < j ==> ts[x].used
    ensures First(ts[i..], 0) == if j < |ts| then ts[j].addr else 0
    ensures j < |ts| ==> !ts[j].used && ts[j].addr > 0
    decreases |ts| - i
  {
    j := i;
    if i < |ts| {
      assert ts[i..][1..] == ts[i + 1..];
      assert TileOk(ts[i]);
      if ts[i].used {
        j := FirstFree(ts, i + 1);
      }
    }
  }

  // ----- what is asked of the tiles -----

  /** The first free tile of at least `need` bytes; with none, the number of tiles. */
  function FirstFit(ts: seq<Tile>, need: nat): nat
  {
    if ts == [] || (!ts[0].used && ts[0].size >= need) then 0 else 1 + FirstFit(ts[1..], need)
  }

  lemma {:induction false} FirstFitIs(ts: seq<Tile>, need: nat, k: nat)
    requires k <= |ts| && forall i :: 0 <= i < k ==> ts[i].used || ts[i].size < need
    requires k < |ts| ==> !ts[k].used && ts[k].size >= need
    ensures FirstFit(ts, need) == k && (Fits(ts, need) <==> k < |ts|)
  {
    if k > 0 {
      FirstFitIs(ts[1..], need, k - 1);
    }
    if k < |ts| {
      assert !ts[k].used && ts[k].size >= need;
    }
  }

  /** What the system is asked for when nothing fits. */
  function Growth(need: nat): nat
  {
    if need < GROW_MIN then GROW_MIN else need
  }

  /** The tiles with that much more memory, joined to the free tile before it. */
  function Grown(ts: seq<Tile>, brk: nat, need: nat): seq<Tile>
  {
    Freed(ts + [Tile(brk, Growth(need), true)], |ts|)
  }

  /** The tiles malloc takes its block from. */
  ghost function Searched(ts: seq<Tile>, brk: nat, need: nat): seq<Tile>
  {
    if Fits(ts, need) then ts else Grown(ts, brk, need)
  }

  ghost predicate LiveAt(ts: seq<Tile>, ptr: nat, k: nat)
  {
    k < |ts| && ts[k].used && ts[k].addr + HEADER == ptr
  }

  /** ptr is the start of a live block. */
  ghost predicate IsLive(ts: seq<Tile>, ptr: nat)
  {
    exists k :: LiveAt(ts, ptr, k)
  }

  /** Which one. */
  ghost function At(ts: seq<Tile>, ptr: nat): (k: nat)
    requires IsLive(ts, ptr)
    ensures LiveAt(ts, ptr, k)
  {
    var k :| LiveAt(ts, ptr, k);
    k
  }

  // ----- where the magic is -----

  /** Where a header has its magic, if there is a header there. */
  predicate Slot(a: int)
  {
    a % 16 == 4
  }

  /** The magic of a block in use is nowhere that it was not, but perhaps at `here`. */
  ghost predicate NoneForged(m: Memory, m': Memory, here: set<int>)
  {
    forall a :: Slot(a) && a in m' && m'[a] == MAGIC_USED && a !in here ==> a in m && m[a] == MAGIC_USED
  }

  lemma ForgedSame(m: Memory)
    ensures NoneForged(m, m, {})
  {
  }

  lemma ForgedPut(m: Memory, m': Memory, here: set<int>, a: int, v: int)
    requires NoneForged(m, m', here) && (!Slot(a) || v != MAGIC_USED || a in here)
    ensures NoneForged(m, m'[a := v], here)
  {
  }

  lemma ForgedTrans(m0: Memory, m1: Memory, m2: Memory, s: set<int>, t: set<int>)
    requires NoneForged(m0, m1, s) && NoneForged(m1, m2, t) && s <= t
    ensures NoneForged(m0, m2, t)
  {
  }

  lemma HeaderSlots(b: int)
    requires b % 16 == 0
    ensures !Slot(b) && Slot(b + 4) && !Slot(b + 8)
  {
  }

  /** Writing a free header forges nothing. */
  lemma JoinForged(m: Memory, b: int, next: int, x: int, y: int)
    requires b % 16 == 0
    ensures NoneForged(m, m[b + 4 := MAGIC_FREE][b + 8 := next], {})
    ensures NoneForged(m, m[b + 4 := MAGIC_FREE][b + 8 := next][b := x][b + 8 := y], {})
  {
    HeaderSlots(b);
    hide Slot, NoneForged;
    ForgedSame(m);
    ForgedPut(m, m, {}, b + 4, MAGIC_FREE);
    var m1 := m[b + 4 := MAGIC_FREE];
    ForgedPut(m, m1, {}, b + 8, next);
    var m2 := m1[b + 8 := next];
    ForgedPut(m, m2, {}, b, x);
    ForgedPut(m, m2[b := x], {}, b + 8, y);
  }

  lemma SplitForged(m: Memory, m': Memory, b: int, rest: int)
    requires b % 16 == 0 && rest % 16 == 0 && rest + 4 in m' && m'[rest + 4] == MAGIC_FREE
    requires forall a :: a in m' && a != rest + 4 ==>
               (a in m && m'[a] == m[a]) || a == b || a == b + 8 || a == rest || a == rest + 8
    ensures NoneForged(m, m', {})
  {
    HeaderSlots(b);
    HeaderSlots(rest);
  }

  lemma GivenForged(m: Memory, b: nat, bytes: nat, junk: int -> int)
    requires b % 16 == 0 && CleanJunk(junk)
    ensures NoneForged(m, Given(m, b, bytes, junk), {})
  {
    HeaderSlots(b);
  }

  /** A block in use has its magic there. */
  ghost predicate UsedAt(ts: seq<Tile>, a: int)
  {
    exists t <- Live(ts) :: t.addr + 4 == a
  }

  /** The magic of a block in use is nowhere else. */
  ghost predicate Genuine(m: Memory, ts: seq<Tile>)
  {
    forall a :: Slot(a) && a in m && m[a] == MAGIC_USED ==> UsedAt(ts, a)
  }

  /** A block more, with its magic. */
  lemma StillGenuine(m: Memory, m': Memory, ts: seq<Tile>, ts': seq<Tile>, here: set<int>, t: Tile)
    requires Genuine(m, ts) && NoneForged(m, m', here) && Live(ts') == Live(ts) + {t}
    requires forall a <- here :: a == t.addr + 4
    ensures Genuine(m', ts')
  {
    hide Live;
    forall a | Slot(a) && a in m' && m'[a] == MAGIC_USED ensures UsedAt(ts', a) {
      if a in here {
        assert t in Live(ts');
      } else {
        assert UsedAt(ts, a);
        var u :| u in Live(ts) && u.addr + 4 == a;
        assert u in Live(ts');
      }
    }
  }

  /** A block less, without its magic. */
  lemma GenuineLess(m: Memory, m': Memory, ts: seq<Tile>, ts': seq<Tile>, t: Tile)
    requires Genuine(m, ts) && NoneForged(m, m', {}) && Live(ts') == Live(ts) - {t}
    requires t.addr + 4 in m' && m'[t.addr + 4] != MAGIC_USED
    ensures Genuine(m', ts')
  {
    hide Live;
    forall a | Slot(a) && a in m' && m'[a] == MAGIC_USED ensures UsedAt(ts', a) {
      assert UsedAt(ts, a);
      var u :| u in Live(ts) && u.addr + 4 == a;
      assert u != t && u in Live(ts');
    }
  }

  /** So a word that is copied from one block to the same place in another is not the magic where that tells. */
  lemma PayloadHasNone(m: Memory, ts: seq<Tile>, t: nat, u: nat, w: nat, n: nat)
    requires Genuine(m, ts) && Sized(ts) && Adjoin(ts) && t < |ts| && u < |ts| && w < n
    requires ts[u].addr + HEADER + 4 * n <= End(ts[u]) && Word(ts[u].addr + HEADER, w) in m
    ensures !Slot(Word(ts[t].addr + HEADER, w)) || m[Word(ts[u].addr + HEADER, w)] != MAGIC_USED
  {
    var p, q := ts[t].addr + HEADER, ts[u].addr + HEADER;
    assert TileOk(ts[t]) && TileOk(ts[u]);
    SameSlot(p, q, w);
    hide Slot, Genuine;
    if Slot(Word(p, w)) && m[Word(q, w)] == MAGIC_USED {
      assert UsedAt(ts, Word(q, w)) by { GenuineAt(m, ts, Word(q, w)); }
      var x :| x in Live(ts) && x.addr + 4 == Word(q, w);
      var i :| 0 <= i < |ts| && ts[i] == x;
      assert x.addr in Addrs(ts) && ts[u].addr < x.addr < End(ts[u]);
      NoneInside(ts, u, x.addr);
    }
  }

  lemma GenuineAt(m: Memory, ts: seq<Tile>, a: int)
    requires Genuine(m, ts) && Slot(a) && a in m && m[a] == MAGIC_USED
    ensures UsedAt(ts, a)
  {
  }

  lemma SameSlot(p: int, q: int, w: nat)
    requires p % 16 == 0 && q % 16 == 0
    ensures Slot(Word(p, w)) <==> Slot(Word(q, w))
    ensures Slot(Word(p, w)) <==> w % 4 == 1
  {
    SlotIs(p / 16, w);
    SlotIs(q / 16, w);
    assert p == 16 * (p / 16) && q == 16 * (q / 16);
  }

  lemma SlotIs(i: int, w: nat)
    ensures Slot(16 * i + 4 * w) <==> w % 4 == 1
  {
    Rest16(i + w / 4, 4 * (w % 4));
    assert w == 4 * (w / 4) + w % 4;
    assert 16 * i + 4 * w == 16 * (i + w / 4) + 4 * (w % 4);
  }

  lemma Rest16(x: int, y: int)
    requires 0 <= y < 16
    ensures (16 * x + y) % 16 == y
  {
  }

  /** The system's memory has it nowhere. */
  ghost predicate CleanJunk(junk: int -> int)
  {
    forall a :: Slot(a) ==> junk(a) != MAGIC_USED
  }

  /** What `header` goes by: the pointer is aligned, and the magic of a block in use is before it. */
  predicate Vouched(m: Memory, ptr: nat)
  {
    ptr % 16 == 0 && ptr - 12 in m && m[ptr - 12] == MAGIC_USED
  }

  /** What may be given to free: a null or live pointer, or one that `header` can tell is not. */
  ghost predicate CanTell(m: Memory, ts: seq<Tile>, ptr: nat)
  {
    ptr == 0 || ptr % 16 != 0 || IsLive(ts, ptr) || (ptr - 12 in m && m[ptr - 12] != MAGIC_USED)
  }

  /** Memory in the tile's payload is as it was. */
  ghost predicate Kept(m: Memory, m': Memory, t: Tile)
  {
    forall a :: t.addr + HEADER <= a < End(t) && a in m ==> a in m' && m'[a] == m[a]
  }

  ghost predicate AllKept(m: Memory, m': Memory, ts: set<Tile>)
  {
    forall t <- ts :: Kept(m, m', t)
  }

  function Word(p: int, w: int): int
  {
    p + 4 * w
  }

  lemma Multiple4(p: int, w: int)
    requires p % 16 == 0
    ensures p % 4 == 0 && Word(p, w) % 4 == 0
  {
    var q := p / 16;
    assert p == 4 * (4 * q) && p + 4 * w == 4 * (4 * q + w);
  }

  ghost predicate HasWords(m: Memory, p: int, n: nat)
  {
    forall w :: 0 <= w < n ==> Word(p, w) in m
  }

  /** The n words from p on in m are those from q on in m'. */
  ghost predicate SameWords(m: Memory, p: int, m': Memory, q: int, n: nat)
  {
    forall w :: 0 <= w < n ==> Word(p, w) in m && Word(q, w) in m' && m'[Word(q, w)] == m[Word(p, w)]
  }

  /** The words of was's payload, in m, are those of now's, in m'. */
  ghost predicate Moved(m: Memory, m': Memory, was: Tile, now: Tile)
    requires was.size >= HEADER
  {
    SameWords(m, was.addr + HEADER, m', now.addr + HEADER, (was.size - HEADER) / 4)
  }

  lemma LiveConcat(a: seq<Tile>, b: seq<Tile>)
    ensures Live(a + b) == Live(a) + Live(b)
  {
  }

  lemma LiveOne(t: Tile)
    ensures Live([t]) == if t.used then {t} else {}
  {
    assert t in [t];
  }

  lemma LiveTaken(ts: seq<Tile>, k: nat, need: nat)
    requires k < |ts| && !ts[k].used && need <= ts[k].size
    ensures Live(Taken(ts, k, need)) == Live(ts) + {TakenTile(ts, k, need)}
  {
    hide Live;
    var a, t, u, c := ts[..k], ts[k], TakenTile(ts, k, need), ts[k + 1..];
    var rest := TakenRest(ts, k, need);
    assert ts == a + [t] + c;
    LiveConcat(a + [t], c);
    LiveConcat(a, [t]);
    LiveConcat(a + [u], rest);
    LiveConcat(a, [u]);
    LiveOne(t);
    LiveOne(u);
    assert Live(rest) == Live(c) by {
      if t.size - need >= 2 * HEADER {
        LiveConcat([rest[0]], c);
        LiveOne(rest[0]);
      }
    }
  }

  lemma LiveFreed(ts: seq<Tile>, k: nat)
    requires Sized(ts) && Adjoin(ts) && k < |ts| && ts[k].used
    ensures Live(Freed(ts, k)) == Live(ts) - {ts[k]}
  {
    var a, t, c := ts[..k], ts[k], ts[k + 1..];
    assert ts == a + [t] + c;
    AddrsDiffer(ts, k);
    assert t !in a && t !in c;
    LiveAround(ts, k);
    hide Freed, Before, After, MergedTile;
    LiveConcat(a + [t], c);
    LiveConcat(a, [t]);
    LiveOne(t);
  }

  lemma LiveAround(ts: seq<Tile>, k: nat)
    requires k < |ts| && ts[k].used
    ensures Live(Freed(ts, k)) == Live(ts[..k]) + Live(ts[k + 1..])
  {
    hide Live;
    var a, m, c := Before(ts, k), MergedTile(ts, k), After(ts, k);
    LiveConcat(a + [m], c);
    LiveConcat(a, [m]);
    LiveOne(m);
    if k > 0 && !ts[k - 1].used {
      assert ts[..k] == a + [ts[k - 1]];
      LiveConcat(a, [ts[k - 1]]);
      LiveOne(ts[k - 1]);
    }
    if k + 1 < |ts| && !ts[k + 1].used {
      assert ts[k + 1..] == [ts[k + 1]] + c;
      LiveConcat([ts[k + 1]], c);
      LiveOne(ts[k + 1]);
    }
  }

  /** Two live blocks share nothing. */
  lemma LiveDisjoint(ts: seq<Tile>, t: Tile, u: Tile)
    requires Sized(ts) && Adjoin(ts) && t in ts && u in ts && t != u
    ensures End(t) <= u.addr || End(u) <= t.addr
  {
    var i :| 0 <= i < |ts| && ts[i] == t;
    var j :| 0 <= j < |ts| && ts[j] == u;
    if i < j {
      TilesInOrder(ts, i, j);
    } else {
      TilesInOrder(ts, j, i);
    }
  }

  /** Writing only headers leaves every payload alone. */
  lemma HeadersOnly(m: Memory, m': Memory, ts: seq<Tile>, s: set<int>)
    requires Sized(ts) && Adjoin(ts) && OnlyAt(m, m', s)
    requires forall l <- s :: l in Addrs(ts) || exists i :: 0 <= i < |ts| && !ts[i].used && ts[i].addr <= l < End(ts[i])
    ensures AllKept(m, m', Live(ts))
  {
    forall t, a | t in Live(ts) && t.addr + HEADER <= a < End(t) && a in m ensures a in m' && m'[a] == m[a] {
      if Line(a) in s {
        var i :| 0 <= i < |ts| && ts[i] == t;
        assert TileOk(ts[i]);
        NotAHeader(ts, i, a, s);
      }
    }
  }

  lemma NotAHeader(ts: seq<Tile>, i: nat, a: int, s: set<int>)
    requires Sized(ts) && Adjoin(ts) && i < |ts| && ts[i].used && ts[i].addr + HEADER <= a < End(ts[i])
    requires forall l <- s :: l in Addrs(ts) || exists j :: 0 <= j < |ts| && !ts[j].used && ts[j].addr <= l < End(ts[j])
    ensures Line(a) !in s
  {
    var l := Line(a);
    assert TileOk(ts[i]);
    assert ts[i].addr < l < End(ts[i]);
    if l in s {
      if l in Addrs(ts) {
        NoneInside(ts, i, l);
      } else {
        var j :| 0 <= j < |ts| && !ts[j].used && ts[j].addr <= l < End(ts[j]);
        LiveDisjoint(ts, ts[i], ts[j]);
      }
    }
  }

  class Heap {
    var mem: Memory
    var freeList: nat
    var brk: nat
    const base: nat
    var asks: nat
    const grants: nat -> bool
    const junk: int -> int
    ghost var tiles: seq<Tile>

    ghost predicate Shape()
      reads this
    {
      Tiling(base, brk, tiles) && Separate(tiles) && freeList == First(tiles, 0) && Domain(mem, base, brk)
      && base % 16 == 0 && base > 0
    }

    ghost predicate Valid()
      reads this
    {
      Shape() && Headers(mem, tiles, 0)
    }

    /** Valid, but for tile k: only its size has been written. */
    ghost predicate Loose(k: nat)
      reads this
    {
      && Shape() && k < |tiles| && tiles[k].used
      && Headers(mem, tiles[..k], First(tiles[k + 1..], 0)) && Headers(mem, tiles[k + 1..], 0)
      && Has(mem, tiles[k].addr) && mem[tiles[k].addr] == tiles[k].size
    }

    /** A walk along the free list: past the tiles before i, with `last` the last free one of them. */
    ghost predicate Walk(prev: nat, cur: nat, i: nat, last: int)
      reads this
    {
      && i <= |tiles| && IsLast(tiles[..i], last)
      && prev == (if last >= 0 then tiles[last].addr else 0)
      && cur == First(tiles[i..], 0)
    }

    constructor (base: nat, grants: nat -> bool, junk: int -> int)
      requires base % 16 == 0 && base > 0
      ensures Valid() && tiles == [] && mem == map[] && brk == base
      ensures this.base == base && this.grants == grants && this.junk == junk
    {
      this.base, this.grants, this.junk := base, grants, junk;
      mem, freeList, brk, asks, tiles := map[], 0, base, 0, [];
    }

    // ----- the free list -----

    /** Puts a block on the free list, joining it with the free blocks it touches. */
    method InsertFree(b: nat, ghost k: nat)
      requires Loose(k) && b == tiles[k].addr
      modifies this`mem, this`freeList, this`tiles
      ensures Valid()
      ensures tiles == Freed(old(tiles), k)
      ensures OnlyAt(old(mem), mem, Addrs(old(tiles)))
      ensures b + 4 in mem && mem[b + 4] == MAGIC_FREE && NoneForged(old(mem), mem, {})
    {
      hide Headers, First, Tiling, Domain, OnlyAt, Freed, HeaderOk, Separate, NoneForged;
      TilingShape(base, brk, tiles);
      var prev: nat, cur: nat := 0, freeList;
      ghost var i, last: int := 0, -1;
      assert tiles[0..] == tiles && tiles[..0] == [];
      ghost var j := FirstFree(tiles, 0);
      while cur != 0 && cur < b
        invariant Walk(prev, cur, i, last) && i <= k && last < k
        invariant i <= j <= |tiles| && (forall x :: i <= x < j ==> tiles[x].used)
        invariant cur == (if j < |tiles| then tiles[j].addr else 0)
                  && (j < |tiles| ==> !tiles[j].used && tiles[j].addr > 0)
        modifies {}
        decreases |tiles| - i
      {
        BeforeBlock(j, k);
        ReadHeader(j, k);
        prev := cur;
        cur := mem[cur + 8];
        i, last := j + 1, j;
        assert tiles[..i][j] == tiles[j];
        j := FirstFree(tiles, i);
      }
      AtBlock(i, last, j, k, cur);
      Splice(b, prev, cur, last, k);
    }

    lemma BeforeBlock(j: nat, k: nat)
      requires Sized(tiles) && Adjoin(tiles) && j < |tiles| && k < |tiles| && tiles[j].addr < tiles[k].addr
      ensures j < k
    {
      if j > k {
        TilesInOrder(tiles, k, j);
      }
    }

    /** A free block's link, read on the way to tile k. */
    lemma ReadHeader(j: nat, k: nat)
      requires Loose(k) && j < k && !tiles[j].used
      ensures tiles[j].addr + 8 in mem && mem[tiles[j].addr + 8] == First(tiles[j + 1..], 0)
    {
      hide Domain, Tiling;
      HeaderOf(mem, tiles[..k], First(tiles[k + 1..], 0), j);
      assert tiles[..k][j + 1..] == tiles[j + 1..k];
      assert tiles[j + 1..] == tiles[j + 1..k] + tiles[k..] && tiles[k..][1..] == tiles[k + 1..];
      FirstConcat(tiles[j + 1..k], tiles[k..], 0);
    }

    /** Where the walk to tile k ends: between the free blocks before it and those after it. */
    lemma AtBlock(i: nat, last: int, j: nat, k: nat, cur: nat)
      requires Sized(tiles) && Adjoin(tiles) && k < |tiles| && tiles[k].used && i <= k
      requires i <= j <= |tiles| && (forall x :: i <= x < j ==> tiles[x].used)
      requires cur == (if j < |tiles| then tiles[j].addr else 0)
               && (j < |tiles| ==> !tiles[j].used && tiles[j].addr > 0)
      requires IsLast(tiles[..i], last) && (cur == 0 || cur >= tiles[k].addr)
      ensures IsLast(tiles[..k], last) && cur == First(tiles[k + 1..], 0) && k < j
      ensures j == k + 1 && j < |tiles| <==> k + 1 < |tiles| && !tiles[k + 1].used
      ensures j > k + 1 && j < |tiles| ==> End(tiles[k]) < tiles[j].addr
    {
      assert j < |tiles| ==> TileOk(tiles[j]);
      if j < k {
        TilesInOrder(tiles, j, k);
      }
      assert forall x :: 0 <= x < i ==> tiles[..i][x] == tiles[x];
      var j' := FirstFree(tiles, k + 1);
      if j > k + 1 && j < |tiles| {
        TilesInOrder(tiles, k, k + 1);
        TilesInOrder(tiles, k + 1, j);
        assert TileOk(tiles[k + 1]);
      }
    }

    /** Links the block in between the free blocks before and after it, joining it with those it touches. */
    method Splice(b: nat, prev: nat, cur: nat, ghost last: int, ghost k: nat)
      requires Loose(k) && b == tiles[k].addr && Sized(tiles) && Adjoin(tiles)
      requires IsLast(tiles[..k], last) && prev == (if last >= 0 then tiles[last].addr else 0)
      requires cur == First(tiles[k + 1..], 0)
      modifies this`mem, this`freeList, this`tiles
      ensures Valid()
      ensures tiles == Freed(old(tiles), k)
      ensures OnlyAt(old(mem), mem, Addrs(old(tiles)))
      ensures b + 4 in mem && mem[b + 4] == MAGIC_FREE && NoneForged(old(mem), mem, {})
    {
      hide Headers, First, Tiling, Domain, OnlyAt, HeaderOk, Separate, Addrs, Freed, MergedTile, WithNext, After,
        TileOk, IsLast, Slot, NoneForged;
      ghost var m0, ts := mem, tiles;
      JoinNext(b, cur, k);
      ghost var m1 := mem;
      FreedTiles(base, brk, tiles, k);
      PrevAdjacent(m0, m1, tiles, last, k);
      ghost var s := {b as int} + if last >= 0 then {tiles[last].addr as int} else {};
      if prev != 0 && prev + mem[prev] == b {
        PrevTakesIt(m1, tiles, k);
        mem := mem[prev := mem[prev] + mem[b]];
        mem := mem[prev + 8 := mem[b + 8]];
        FreedIntoPrev(m0, m1, mem, tiles, k);
        assert s == {ts[k].addr as int, ts[k - 1].addr};
      } else {
        FreedAlone(m0, m1, tiles, k, last);
        if prev != 0 {
          mem := mem[prev + 8 := b];
        } else {
          freeList := b;
        }
        assert mem == Linked(m1, ts[..k], last, b);
      }
      LinkForged(m0, m1, mem, ts, k, last, prev);
      StillFree(m0, m1, mem, ts, k, s, last);
      DomainKept(m0, mem, base, brk, s);
      AddrsHave(tiles, k, last);
      OnlyAtMore(m0, mem, s, Addrs(tiles));
      tiles := Freed(tiles, k);
    }

    static lemma LinkForged(m0: Memory, m1: Memory, m2: Memory, ts: seq<Tile>, k: nat, last: int, prev: nat)
      requires NoneForged(m0, m1, {}) && Sized(ts) && k < |ts| && IsLast(ts[..k], last)
      requires prev == if last >= 0 then ts[last].addr else 0
      requires forall a :: a in m2 ==> (a in m1 && m2[a] == m1[a]) || (prev != 0 && (a == prev || a == prev + 8))
      ensures NoneForged(m0, m2, {})
    {
      if last >= 0 {
        assert TileOk(ts[last]);
        HeaderSlots(prev);
      }
    }

    lemma AlignedAt(k: nat)
      requires Sized(tiles) && k < |tiles|
      ensures tiles[k].addr % 16 == 0 && tiles[k].addr > 0
    {
      assert TileOk(tiles[k]);
    }

    /** Marks the block free and joins the free block after it, if it touches one. */
    method JoinNext(b: nat, cur: nat, ghost k: nat)
      requires Loose(k) && b == tiles[k].addr && Sized(tiles) && Adjoin(tiles) && cur == First(tiles[k + 1..], 0)
      modifies this`mem
      ensures OnlyAt(old(mem), mem, {b as int})
      ensures HeaderOk(mem, WithNext(tiles, k), First(After(tiles, k), 0))
      ensures Has(mem, b) && NoneForged(old(mem), mem, {})
    {
      hide Headers, First, Tiling, Domain, Separate, Sized, Adjoin, TileOk, Line, Slot, NoneForged;
      ghost var m0 := mem;
      NextAdjacent(mem, tiles, k, cur);
      LineOfHeader(b);
      mem := mem[b + 4 := MAGIC_FREE];
      mem := mem[b + 8 := cur];
      ghost var x, y := mem[b], mem[b];
      if cur != 0 && b + mem[b] == cur {
        x := mem[b] + mem[cur];
        mem := mem[b := mem[b] + mem[cur]];
        y := mem[cur + 8];
        mem := mem[b + 8 := mem[cur + 8]];
      }
      AlignedAt(k);
      JoinForged(m0, b, cur, x, y);
    }

    // ----- taking a block -----

    /** First fit: the first free block that is large enough, and the free block before it. */
    method Find(need: nat) returns (b: nat, prev: nat, ghost k: nat, ghost last: int)
      requires Valid()
      ensures k == FirstFit(tiles, need) && k <= |tiles| && (Fits(tiles, need) <==> k < |tiles|)
      ensures b == (if k < |tiles| then tiles[k].addr else 0)
      ensures k < |tiles| ==> b > 0 && !tiles[k].used && tiles[k].size >= need
      ensures k < |tiles| ==> IsLast(tiles[..k], last) && prev == (if last >= 0 then tiles[last].addr else 0)
    {
      hide Headers, First, Tiling, Domain, Separate, HeaderOk, FirstFit, Fits;
      TilingShape(base, brk, tiles);
      b, prev := freeList, 0;
      last := -1;
      ghost var i := 0;
      assert tiles[0..] == tiles && tiles[..0] == [];
      k := FirstFree(tiles, 0);
      while b != 0
        invariant Walk(prev, b, i, last)
        invariant i <= k <= |tiles| && (forall x :: i <= x < k ==> tiles[x].used)
        invariant b == (if k < |tiles| then tiles[k].addr else 0)
                  && (k < |tiles| ==> !tiles[k].used && tiles[k].addr > 0)
        invariant forall x :: 0 <= x < i ==> tiles[x].used || tiles[x].size < need
        decreases |tiles| - i
      {
        HeaderOf(mem, tiles, 0, k);
        ReadFree(mem, tiles[k], First(tiles[k + 1..], 0));
        if mem[b] >= need {
          FirstFitIs(tiles, need, k);
          LastUpTo(tiles, i, k, last);
          return;
        }
        prev, b := b, mem[b + 8];
        i, last := k + 1, k;
        assert tiles[..i][k] == tiles[k];
        k := FirstFree(tiles, i);
      }
      FirstFitIs(tiles, need, k);
    }

    /** Takes the free block b for `need` bytes, keeping the rest of it free if it is worth having. */
    method Take(b: nat, prev: nat, need: nat, ghost k: nat, ghost last: int)
      requires Valid() && k < |tiles| && !tiles[k].used && b == tiles[k].addr
      requires 2 * HEADER <= need <= tiles[k].size && need % 16 == 0
      requires IsLast(tiles[..k], last) && prev == (if last >= 0 then tiles[last].addr else 0)
      modifies this`mem, this`freeList, this`tiles
      ensures Valid()
      ensures tiles == Taken(old(tiles), k, need)
      ensures AllKept(old(mem), mem, Live(old(tiles)))
      ensures NoneForged(old(mem), mem, {b + 4})
    {
      hide Headers, First, Tiling, Domain, OnlyAt, HeaderOk, Separate, Addrs, Taken, TakenTile, TakenLines, NextTaken,
        TileOk, AllKept, Live, NoneForged, Slot;
      ghost var m0, ts := mem, tiles;
      TilingShape(base, brk, tiles);
      LastTile(ts, k, last);
      SplitOff(b, need, k);
      ghost var m1 := mem;
      if prev != 0 {
        mem := mem[prev + 8 := mem[b + 8]];
      } else {
        freeList := mem[b + 8];
      }
      ghost var m2 := mem;
      assert m2 == Linked(m1, ts[..k], last, NextTaken(ts, k, need));
      mem := mem[b + 4 := MAGIC_USED];
      mem := mem[b + 8 := 0];
      TakeForged(m0, m1, mem, ts, k, last, prev);
      MarkUsed(m1, m2, mem, ts, k, need, last);
      TakenHeaders(m0, m1, mem, ts, k, need, last);
      TakenTiles(base, brk, ts, k, need);
      DomainKept(m0, mem, base, brk, TakenLines(ts, k, need) + LastLine(ts[..k], last));
      TakenKept(m0, mem, ts, k, need, last);
      tiles := Taken(ts, k, need);
    }

    static lemma TakeForged(m0: Memory, m1: Memory, m2: Memory, ts: seq<Tile>, k: nat, last: int, prev: nat)
      requires NoneForged(m0, m1, {}) && Sized(ts) && k < |ts| && IsLast(ts[..k], last)
      requires prev == if last >= 0 then ts[last].addr else 0
      requires var b := ts[k].addr;
               forall a :: a in m2 ==> || (a in m1 && m2[a] == m1[a]) || (prev != 0 && a == prev + 8)
                                       || a == b + 4 || a == b + 8
      ensures NoneForged(m0, m2, {ts[k].addr + 4})
    {
      assert TileOk(ts[k]);
      HeaderSlots(ts[k].addr);
      if last >= 0 {
        assert TileOk(ts[last]);
        HeaderSlots(prev);
      }
    }

    /** Cuts the rest off a free block, if it is worth having. */
    method SplitOff(b: nat, need: nat, ghost k: nat)
      requires Valid() && k < |tiles| && !tiles[k].used && b == tiles[k].addr
      requires 2 * HEADER <= need <= tiles[k].size && need % 16 == 0
      modifies this`mem
      ensures OnlyAt(old(mem), mem, TakenLines(tiles, k, need))
      ensures Has(mem, b) && mem[b] == TakenTile(tiles, k, need).size && mem[b + 8] == NextTaken(tiles, k, need)
      ensures tiles[k].size - need >= 2 * HEADER ==>
                HeaderOk(mem, Tile(b + need, tiles[k].size - need, false), First(tiles[k + 1..], 0))
      ensures NoneForged(old(mem), mem, {})
    {
      hide Headers, First, Tiling, Domain, Separate, Line, OnlyAt, HeaderOk, TakenTile, NextTaken, TakenLines,
        NoneForged, Slot;
      ForgedSame(mem);
      TilingShape(base, brk, tiles);
      HeaderOf(mem, tiles, 0, k);
      assert TileOk(tiles[k]);
      HeaderIs(mem, tiles, k, need);
      if mem[b] - need >= 2 * HEADER {
        ghost var m0, t, next := mem, Tile(b + need, mem[b] - need, false), First(tiles[k + 1..], 0);
        var rest := b + need;
        WriteHeader(mem, t, next);
        mem := mem[rest := mem[b] - need];
        mem := mem[rest + 4 := MAGIC_FREE];
        mem := mem[rest + 8 := mem[b + 8]];
        ghost var m1 := mem;
        WriteSizeAndNext(mem, b, need, rest);
        mem := mem[b := need];
        mem := mem[b + 8 := rest];
        SplitForged(m0, mem, b, rest);
        HeaderElsewhere(m1, mem, t, next, {b as int});
        OnlyAtTrans(m0, m1, mem, {rest as int}, {b as int}, TakenLines(tiles, k, need));
      }
    }

    /** Asks the system for more memory and frees it. */
    method Grow(need: nat) returns (ok: bool)
      requires Valid() && need % 16 == 0
      modifies this
      ensures Valid()
      ensures ok <==> Growth(need) <= INTPTR_MAX && grants(old(asks))
      ensures ok ==> tiles == Grown(old(tiles), old(brk), need) && brk == old(brk) + Growth(need)
      ensures !ok ==> tiles == old(tiles) && mem == old(mem) && brk == old(brk)
      ensures asks == if Growth(need) <= INTPTR_MAX then old(asks) + 1 else old(asks)
      ensures AllKept(old(mem), mem, Live(old(tiles)))
      ensures CleanJunk(junk) ==> NoneForged(old(mem), mem, {})
    {
      hide Freed, AllKept, Live, NoneForged, CleanJunk;
      AllKeptSame(mem, Live(tiles));
      ForgedSame(mem);
      var bytes := if need < GROW_MIN then GROW_MIN else need;
      if bytes > INTPTR_MAX {
        return false;
      }
      ok := grants(asks);
      asks := asks + 1;
      if ok {
        Extend(bytes);
      }
    }

    /** The system gives that many bytes from the break on; they are freed as one block. */
    method Extend(bytes: nat)
      requires Valid() && bytes % 16 == 0 && bytes >= 2 * HEADER
      modifies this`mem, this`brk, this`freeList, this`tiles
      ensures Valid()
      ensures tiles == Freed(old(tiles) + [Tile(old(brk), bytes, true)], |old(tiles)|) && brk == old(brk) + bytes
      ensures AllKept(old(mem), mem, Live(old(tiles)))
      ensures CleanJunk(junk) ==> NoneForged(old(mem), mem, {})
    {
      hide Headers, First, Tiling, Domain, Separate, HeaderOk, TileOk, OnlyAt, Freed, Addrs, Sized, Adjoin, Live,
        AllKept, Given, NoneForged, CleanJunk;
      ghost var m0, ts, t := mem, tiles, Tile(brk, bytes, true);
      var b := brk;
      BrkAligned(base, b, ts);
      GivenMemory(m0, base, b, bytes, junk);
      GivenTiles(base, b, ts, bytes);
      TilingShape(base, b, ts);
      TilingShape(base, b + bytes, ts + [t]);
      mem := Given(mem, b, bytes, junk);
      ghost var m1 := mem;
      HeadersElsewhere(m0, m1, ts, 0, {b as int});
      brk := brk + bytes;
      tiles := ts + [t];
      assert tiles[..|ts|] == ts && tiles[|ts| + 1..] == [];
      NoHeaders(mem);
      InsertFree(b, |ts|);
      GrownKept(m0, m1, mem, ts, t);
      if CleanJunk(junk) {
        GivenForged(m0, b, bytes, junk);
        ForgedTrans(m0, m1, mem, {}, {});
      }
    }

    /** First fit, growing the heap once if nothing fits. */
    method Malloc(size: nat) returns (p: nat, ghost t: Tile)
      requires Valid()
      modifies this
      ensures Valid()
      ensures p == 0 <==>
              || size > INTPTR_MAX
              || (!Fits(old(tiles), Need(size)) && !(Growth(Need(size)) <= INTPTR_MAX && grants(old(asks))))
      ensures p == 0 ==> tiles == old(tiles) && mem == old(mem) && brk == old(brk)
      ensures p != 0 ==>
              var ts := Searched(old(tiles), old(brk), Need(size));
              var k := FirstFit(ts, Need(size));
              && k < |ts| && Need(size) <= ts[k].size && tiles == Taken(ts, k, Need(size))
              && t == TakenTile(ts, k, Need(size))
      ensures p != 0 ==>
              && p == t.addr + HEADER && t.used && t.size >= Need(size)
              && Live(tiles) == Live(old(tiles)) + {t} && t !in Live(old(tiles))
      ensures AllKept(old(mem), mem, Live(old(tiles)))
      ensures CleanJunk(junk) && old(Genuine(mem, tiles)) ==> Genuine(mem, tiles)
    {
      hide Headers, First, Tiling, Domain, Separate, HeaderOk, TileOk, OnlyAt, Freed, Addrs, FirstFit, Fits, Taken,
        TakenTile, Live, Grown, NoneForged, CleanJunk, Genuine;
      AllKeptSame(mem, Live(tiles));
      ForgedSame(mem);
      t := Tile(0, 0, false);
      if size > INTPTR_MAX {
        return 0, t;
      }
      var n := if size == 0 then 1 else size;
      var need := (n + HEADER + 15) / 16 * 16;
      ghost var m0, ts := mem, tiles;
      var b, prev, k, last := Find(need);
      if b == 0 {
        var ok := Grow(need);
        if !ok {
          return 0, t;
        }
        GrownFits(base, ts, old(brk), need);
        b, prev, k, last := Find(need);
      }
      ghost var m1, ts1 := mem, tiles;
      TilingShape(base, brk, ts1);
      Take(b, prev, need, k, last);
      LiveTaken(ts1, k, need);
      TakenIsNew(ts1, k, need);
      AllKeptTrans(m0, m1, mem, Live(ts));
      t := TakenTile(ts1, k, need);
      TakenTileIs(ts1, k, need);
      p := b + HEADER;
      if CleanJunk(junk) && Genuine(m0, ts) {
        ForgedTrans(m0, m1, mem, {}, {b + 4});
        StillGenuine(m0, mem, ts, tiles, {b + 4}, t);
      }
    }

    // ----- giving it back -----

    /** The block of a pointer; the program is aborted (!ok) if the pointer is not vouched for. */
    method Header(ptr: nat) returns (ok: bool, b: int)
      requires Valid() && ptr != 0 && (ptr % 16 == 0 ==> ptr - 12 in mem)
      ensures ok <==> Vouched(mem, ptr)
      ensures b == ptr - HEADER
      ensures IsLive(tiles, ptr) ==> ok && b in mem && b > 0 && mem[b] == tiles[At(tiles, ptr)].size
    {
      LiveVouched(ptr);
      hide Headers, First, Tiling, Domain, Separate;
      b := ptr - HEADER;
      if ptr % 16 != 0 || mem[b + 4] != MAGIC_USED {
        return false, b;
      }
      ok := true;
    }

    lemma LiveVouched(ptr: nat)
      requires Valid()
      ensures IsLive(tiles, ptr) ==> && Vouched(mem, ptr) && ptr > HEADER && ptr - HEADER in mem
                                     && mem[ptr - HEADER] == tiles[At(tiles, ptr)].size
    {
      hide Headers, First, Tiling, Domain, Separate;
      TilingShape(base, brk, tiles);
      if IsLive(tiles, ptr) {
        ghost var k := At(tiles, ptr);
        HeaderOf(mem, tiles, 0, k);
        assert TileOk(tiles[k]);
      }
    }

    /** It aborts on exactly the pointers to no live block when, and only when, it can tell. */
    lemma HeaderExactly(ptr: nat)
      requires Valid() && ptr != 0 && (ptr % 16 == 0 ==> ptr - 12 in mem)
      ensures (Vouched(mem, ptr) <==> IsLive(tiles, ptr)) <==> CanTell(mem, tiles, ptr)
    {
      LiveVouched(ptr);
    }

    /** With the magic nowhere else, it can tell of any pointer. */
    lemma GenuineTells(ptr: nat)
      requires Valid() && Genuine(mem, tiles) && ptr != 0 && (ptr % 16 == 0 ==> ptr - 12 in mem)
      ensures Vouched(mem, ptr) <==> IsLive(tiles, ptr)
    {
      LiveVouched(ptr);
      if Vouched(mem, ptr) {
        HeaderSlots(ptr - HEADER);
        GenuineAt(mem, tiles, ptr - 12);
        var t :| t in Live(tiles) && t.addr + 4 == ptr - 12;
        var k :| 0 <= k < |tiles| && tiles[k] == t;
        assert LiveAt(tiles, ptr, k);
      }
    }

    /** It can't tell of a pointer into a block where the program has written the magic itself. */
    lemma Forged(k: nat)
      requires Valid() && k < |tiles| && tiles[k].used && tiles[k].size >= 3 * HEADER
      requires var a := tiles[k].addr + HEADER + 4; a in mem && mem[a] == MAGIC_USED
      ensures var ptr := tiles[k].addr + 2 * HEADER; Vouched(mem, ptr) && !IsLive(tiles, ptr)
    {
      hide Headers, First, Domain, Separate, Tiling;
      TilingShape(base, brk, tiles);
      var t, ptr := tiles[k], tiles[k].addr + 2 * HEADER;
      assert TileOk(t);
      if IsLive(tiles, ptr) {
        var u := tiles[At(tiles, ptr)];
        assert TileOk(u);
        LiveDisjoint(tiles, t, u);
      }
    }

    method Free(ptr: nat) returns (ok: bool)
      requires Valid() && CanTell(mem, tiles, ptr)
      modifies this`mem, this`freeList, this`tiles
      ensures Valid()
      ensures ok <==> ptr == 0 || IsLive(old(tiles), ptr)
      ensures !ok || ptr == 0 ==> tiles == old(tiles) && mem == old(mem)
      ensures ok && ptr != 0 ==>
              && tiles == Freed(old(tiles), At(old(tiles), ptr))
              && Live(tiles) == Live(old(tiles)) - {old(tiles)[At(old(tiles), ptr)]}
              && !IsLive(tiles, ptr) && CanTell(mem, tiles, ptr)
      ensures AllKept(old(mem), mem, Live(old(tiles)))
      ensures old(Genuine(mem, tiles)) ==> Genuine(mem, tiles)
    {
      hide Headers, First, Tiling, Domain, Separate, HeaderOk, Freed, Live, AllKept, TileOk, OnlyAt, Addrs, Sized,
        Adjoin, Genuine, NoneForged;
      AllKeptSame(mem, Live(tiles));
      if ptr == 0 {
        return true;
      }
      LiveVouched(ptr);
      HeaderExactly(ptr);
      var b;
      ok, b := Header(ptr);
      if ok {
        ghost var m0, ts, k := mem, tiles, At(tiles, ptr);
        TilingShape(base, brk, ts);
        LooseHere(k);
        InsertFree(b, k);
        LiveFreed(ts, k);
        FreedDead(ts, tiles, k);
        HeadersOnly(m0, mem, ts, Addrs(ts));
        if Genuine(m0, ts) {
          GenuineLess(m0, mem, ts, tiles, ts[k]);
        }
      }
    }

    lemma LooseHere(k: nat)
      requires Valid() && k < |tiles| && tiles[k].used
      ensures Loose(k)
    {
      hide Tiling, Domain, Separate, First;
      assert tiles == tiles[..k] + [tiles[k]] + tiles[k + 1..];
      Assemble(mem, tiles[..k], tiles[k], tiles[k + 1..], 0);
    }

    /** The program writes in a block it holds. */
    method Store(a: nat, v: int, ghost k: nat)
      requires Valid() && k < |tiles| && tiles[k].used && tiles[k].addr + HEADER <= a < End(tiles[k]) && a % 4 == 0
      modifies this`mem
      ensures Valid() && mem == old(mem)[a := v]
      ensures old(Genuine(mem, tiles)) && (!Slot(a) || v != MAGIC_USED) ==> Genuine(mem, tiles)
    {
      hide Tiling, First, Separate, Headers, Live;
      TilingShape(base, brk, tiles);
      ghost var m0 := mem;
      mem := mem[a := v];
      NotAHeader(tiles, k, a, Addrs(tiles));
      assert OnlyAt(m0, mem, {Line(a)});
      AddrsNot(tiles, Line(a));
      hide Line, OnlyAt, Addrs, Sized, Adjoin;
      HeadersElsewhere(m0, mem, tiles, 0, {Line(a)});
    }

    /** Copies n words into the block t from another. */
    method Copy(p: nat, ptr: nat, n: nat, ghost t: nat, ghost u: nat)
      requires Valid() && LiveAt(tiles, p, t) && LiveAt(tiles, ptr, u) && t != u
      requires p + 4 * n <= End(tiles[t]) && ptr + 4 * n <= End(tiles[u])
      modifies this`mem
      ensures Valid()
      ensures SameWords(old(mem), ptr, mem, p, n)
      ensures forall a :: a in old(mem) ==> a in mem && (mem[a] == old(mem)[a] || p <= a < p + 4 * n)
      ensures old(Genuine(mem, tiles)) ==> Genuine(mem, tiles)
    {
      hide Tiling, First, Separate, Headers, Domain, Word, Sized, Adjoin, Genuine, Slot;
      TilingShape(base, brk, tiles);
      CopyApart(mem, base, brk, tiles, t, u, p, ptr, n);
      var w := 0;
      while w < n
        invariant 0 <= w <= n && Valid()
        invariant HasWords(mem, ptr, n) && SameWords(old(mem), ptr, mem, p, w) && SameWords(old(mem), ptr, mem, ptr, n)
        invariant old(Genuine(mem, tiles)) ==> Genuine(mem, tiles)
        invariant forall a :: a in old(mem) ==> a in mem && (mem[a] == old(mem)[a] || p <= a < p + 4 * n)
      {
        ghost var m := mem;
        assert Word(ptr, w) in mem;
        WordIn(p, w, n);
        if Genuine(mem, tiles) {
          PayloadHasNone(mem, tiles, t, u, w, n);
        }
        Store(Word(p, w), mem[Word(ptr, w)], t);
        Copied(old(mem), m, mem, p, ptr, n, w);
        w := w + 1;
      }
    }

    /** Moves the contents of the block at ptr to the new one at p, and frees it. */
    method Move(p: nat, ptr: nat, have: nat, ghost was: Tile, ghost now: Tile) returns (ok: bool)
      requires Valid() && was in Live(tiles) && now in Live(tiles) && was != now && HEADER <= was.size < now.size
      requires p == now.addr + HEADER && ptr == was.addr + HEADER && have == was.size - HEADER
      modifies this`mem, this`freeList, this`tiles
      ensures Valid() && ok
      ensures Live(tiles) == Live(old(tiles)) - {was}
      ensures Moved(old(mem), mem, was, now)
      ensures AllKept(old(mem), mem, Live(old(tiles)) - {now})
      ensures old(Genuine(mem, tiles)) ==> Genuine(mem, tiles)
    {
      hide Headers, First, Tiling, Domain, Separate, HeaderOk, Freed, AllKept, TileOk, OnlyAt, Addrs, Sized, Adjoin,
        Genuine;
      ghost var m0, ts, live := mem, tiles, Live(tiles);
      TilingShape(base, brk, tiles);
      ghost var t := LiveIndex(tiles, now);
      ghost var u := LiveIndex(tiles, was);
      assert was.size % 16 == 0 by { SizeAligned(tiles, u); }
      Copy(p, ptr, have / 4, t, u);
      ghost var m1 := mem;
      CopyKept(m0, m1, ts, now, p, have);
      assert LiveAt(tiles, ptr, u);
      SameTile(tiles, At(tiles, ptr), u);
      ok := Free(ptr);
      AllKeptLess(m1, mem, live, live - {now});
      AllKeptTrans(m0, m1, mem, live - {now});
      MovedOn(m0, m1, mem, live, was, now);
    }

    method Realloc(ptr: nat, size: nat) returns (ok: bool, p: nat, ghost was: Tile, ghost now: Tile)
      requires Valid() && CanTell(mem, tiles, ptr)
      modifies this
      ensures Valid()
      ensures ok <==> ptr == 0 || IsLive(old(tiles), ptr)
      ensures ok && ptr != 0 ==> was == old(tiles)[At(old(tiles), ptr)]
      // a failure, or a block that is large enough already, changes nothing
      ensures !ok || p == 0 || p == ptr ==> tiles == old(tiles) && mem == old(mem)
      ensures ok && ptr != 0 ==> (p == ptr <==> was.size - HEADER >= (if size == 0 then 1 else size))
      // otherwise there is a new block, with the old one's contents; with ptr null, as malloc
      ensures ok && p != 0 && p != ptr ==>
              && now.used && p == now.addr + HEADER && now.size >= size + HEADER && now !in Live(old(tiles))
              && Live(tiles) == Live(old(tiles)) + {now} - (if ptr == 0 then {} else {was})
      ensures ok && p != 0 && p != ptr && ptr != 0 ==>
              now.size > was.size >= HEADER && Moved(old(mem), mem, was, now)
      ensures AllKept(old(mem), mem, Live(old(tiles)))
      ensures ok && (ptr == 0 || was.size - HEADER < (if size == 0 then 1 else size)) ==>
              (p == 0 <==>
               || size > INTPTR_MAX
               || (!Fits(old(tiles), Need(size)) && !(Growth(Need(size)) <= INTPTR_MAX && grants(old(asks)))))
      ensures CleanJunk(junk) && old(Genuine(mem, tiles)) ==> Genuine(mem, tiles)
    {
      hide Headers, First, Tiling, Domain, Separate, HeaderOk, Freed, Live, AllKept, TileOk, OnlyAt, Addrs, Sized,
        Adjoin, Taken, Searched, Genuine, CleanJunk;
      was, now := Tile(0, 0, false), Tile(0, 0, false);
      AllKeptSame(mem, Live(tiles));
      if ptr == 0 {
        p, now := Malloc(size);
        return true, p, was, now;
      }
      var n := if size == 0 then 1 else size;
      LiveVouched(ptr);
      HeaderExactly(ptr);
      var b;
      ok, b := Header(ptr);
      if !ok {
        return ok, 0, was, now;
      }
      ghost var m0, ts0, u := mem, tiles, At(tiles, ptr);
      was := tiles[u];
      LiveHas(base, brk, ts0, u);
      var have := mem[b] - HEADER;
      if have >= n {
        return ok, ptr, was, now;
      }
      p, now := Malloc(n);
      if p != 0 {
        ghost var m1, live := mem, Live(tiles);
        LiveApart(base, brk, tiles, was, now);
        ok := Move(p, ptr, have, was, now);
        AllKeptLess(m1, mem, live - {now}, Live(ts0));
        AllKeptTrans(m0, m1, mem, Live(ts0));
        PayloadThere(m0, base, old(brk), ts0, u, (was.size - HEADER) / 4);
        MovedFrom(m0, m1, mem, Live(ts0), was, now);
      }
    }
  }

  lemma WriteHeader(m: Memory, t: Tile, next: nat)
    requires t.addr % 16 == 0 && !t.used
    ensures var m' := m[t.addr := t.size][t.addr + 4 := MAGIC_FREE][t.addr + 8 := next];
            OnlyAt(m, m', {t.addr as int}) && HeaderOk(m', t, next)
  {
    LineOfHeader(t.addr);
    hide Line;
  }

  lemma WriteSizeAndNext(m: Memory, b: nat, size: nat, next: nat)
    requires b % 16 == 0
    ensures OnlyAt(m, m[b := size][b + 8 := next], {b as int})
  {
    LineOfHeader(b);
    hide Line;
  }

  lemma HeaderIs(m: Memory, ts: seq<Tile>, k: nat, need: nat)
    requires k < |ts| && need <= ts[k].size && !ts[k].used && HeaderOk(m, ts[k], First(ts[k + 1..], 0))
    ensures OnlyAt(m, m, TakenLines(ts, k, need)) && Has(m, ts[k].addr)
    ensures m[ts[k].addr] == ts[k].size && m[ts[k].addr + 8] == First(ts[k + 1..], 0)
    ensures ts[k].size - need < 2 * HEADER ==>
              m[ts[k].addr] == TakenTile(ts, k, need).size && m[ts[k].addr + 8] == NextTaken(ts, k, need)
    ensures ts[k].size - need >= 2 * HEADER ==>
              need == TakenTile(ts, k, need).size && ts[k].addr + need == NextTaken(ts, k, need)
              && TakenLines(ts, k, need) == {ts[k].addr as int, ts[k].addr + need}
  {
  }

  lemma NoHeaders(m: Memory)
    ensures Headers(m, [], 0) && First([], 0) == 0
  {
  }

  lemma TakenTileIs(ts: seq<Tile>, k: nat, need: nat)
    requires k < |ts| && need <= ts[k].size
    ensures var t := TakenTile(ts, k, need); t.addr == ts[k].addr && t.used && t.size >= need
  {
  }

  lemma ReadFree(m: Memory, t: Tile, n: nat)
    requires HeaderOk(m, t, n) && !t.used
    ensures Has(m, t.addr) && m[t.addr] == t.size && m[t.addr + 8] == n
  {
  }

  lemma LastUpTo(ts: seq<Tile>, i: nat, k: nat, last: int)
    requires i <= k <= |ts| && IsLast(ts[..i], last) && forall x :: i <= x < k ==> ts[x].used
    ensures IsLast(ts[..k], last)
  {
    assert forall x :: 0 <= x < i ==> ts[..i][x] == ts[x];
  }

  lemma LastTile(ts: seq<Tile>, k: nat, last: int)
    requires Sized(ts) && Adjoin(ts) && k < |ts| && IsLast(ts[..k], last)
    ensures last < k && (last >= 0 ==> ts[last].addr > 0 && ts[last].addr % 16 == 0 && ts[last].addr != ts[k].addr)
    ensures ts[k].addr % 16 == 0 && ts[k].addr > 0
    ensures last >= 0 ==> ts[..k][last] == ts[last]
  {
    assert TileOk(ts[k]);
    if last >= 0 {
      assert TileOk(ts[last]);
      TilesInOrder(ts, last, k);
    }
  }

  lemma MarkUsed(m1: Memory, m2: Memory, m3: Memory, ts: seq<Tile>, k: nat, need: nat, last: int)
    requires Sized(ts) && Adjoin(ts) && k < |ts| && need <= ts[k].size && IsLast(ts[..k], last)
    requires Has(m1, ts[k].addr) && m1[ts[k].addr] == TakenTile(ts, k, need).size
    requires m2 == Linked(m1, ts[..k], last, NextTaken(ts, k, need))
    requires m3 == m2[ts[k].addr + 4 := MAGIC_USED][ts[k].addr + 8 := 0]
    ensures OnlyAt(m2, m3, {ts[k].addr as int})
    ensures HeaderOk(m3, TakenTile(ts, k, need), 0)
  {
    LastTile(ts, k, last);
    LineOfHeader(ts[k].addr);
    hide Line, NextTaken, Sized, Adjoin;
  }

  lemma TakenKept(m: Memory, m': Memory, ts: seq<Tile>, k: nat, need: nat, last: int)
    requires Sized(ts) && Adjoin(ts) && k < |ts| && need <= ts[k].size && !ts[k].used && IsLast(ts[..k], last)
    requires OnlyAt(m, m', TakenLines(ts, k, need) + LastLine(ts[..k], last))
    ensures AllKept(m, m', Live(ts))
  {
    var s := TakenLines(ts, k, need) + LastLine(ts[..k], last);
    AddrsHave(ts, k, last);
    forall l <- s ensures l in Addrs(ts) || exists i :: 0 <= i < |ts| && !ts[i].used && ts[i].addr <= l < End(ts[i]) {
      if l == ts[k].addr + need {
        assert ts[k].addr <= l && (ts[k].size - need >= 2 * HEADER ==> l < End(ts[k]));
      }
    }
    HeadersOnly(m, m', ts, s);
  }

  /** Memory after the system has given `bytes` more from b on, and the block's size is written. */
  function Given(m: Memory, b: nat, bytes: nat, junk: int -> int): Memory
  {
    (m + map a: int | b <= a < b + bytes && a % 4 == 0 && a !in m :: junk(a))[b := bytes]
  }

  lemma GivenMemory(m: Memory, base: nat, b: nat, bytes: nat, junk: int -> int)
    requires b % 16 == 0 && bytes >= HEADER && Domain(m, base, b)
    ensures var m' := Given(m, b, bytes, junk);
            OnlyAt(m, m', {b as int}) && Has(m', b) && m'[b] == bytes && Domain(m', base, b + bytes)
  {
    LineOfHeader(b);
    hide Line;
  }

  /** The tiles with the memory the system gave as one more. */
  lemma GivenTiles(base: nat, b: nat, ts: seq<Tile>, bytes: nat)
    requires Tiling(base, b, ts) && Separate(ts) && b % 16 == 0 && b > 0 && bytes % 16 == 0 && bytes >= 2 * HEADER
    ensures var ts1 := ts + [Tile(b, bytes, true)];
            Tiling(base, b + bytes, ts1) && Separate(ts1) && First(ts1, 0) == First(ts, 0)
    ensures forall i :: 0 <= i < |ts| ==> ts[i].addr !in {b as int}
  {
    var t := Tile(b, bytes, true);
    var ts1 := ts + [t];
    TilingShape(base, b, ts);
    TilingConcat(base, b + bytes, ts, [t]);
    Tiling1(b, b + bytes, t);
    TilingShape(base, b + bytes, ts1);
    SeparateConcat(ts, [t]);
    FirstConcat(ts, [t], 0);
    FirstUsed([t], 0);
    AddrsDiffer(ts1, |ts|);
    assert ts1[..|ts|] == ts;
  }

  lemma BrkAligned(base: nat, brk: nat, ts: seq<Tile>)
    requires Tiling(base, brk, ts) && base % 16 == 0 && base > 0
    ensures brk % 16 == 0 && brk > 0
    decreases ts
  {
    if ts != [] {
      BrkAligned(End(ts[0]), brk, ts[1..]);
    }
  }

  lemma GrownKept(m0: Memory, m1: Memory, m2: Memory, ts: seq<Tile>, t: Tile)
    requires Sized(ts + [t]) && Adjoin(ts + [t]) && OnlyAt(m0, m1, {t.addr as int}) && OnlyAt(m1, m2, Addrs(ts + [t]))
    ensures AllKept(m0, m2, Live(ts))
  {
    var ts1 := ts + [t];
    assert ts1[|ts|].addr as int in Addrs(ts1);
    HeadersOnly(m0, m1, ts1, {t.addr as int});
    HeadersOnly(m1, m2, ts1, Addrs(ts1));
    LiveConcat(ts, [t]);
    AllKeptTrans(m0, m1, m2, Live(ts));
  }

  /** The grown heap has room, and the same live blocks. */
  lemma GrownFits(base: nat, ts: seq<Tile>, b: nat, need: nat)
    requires Tiling(base, b, ts) && Separate(ts) && base % 16 == 0 && base > 0 && need % 16 == 0
    ensures Fits(Grown(ts, b, need), need) && Live(Grown(ts, b, need)) == Live(ts)
  {
    var t := Tile(b, Growth(need), true);
    var ts1 := ts + [t];
    BrkAligned(base, b, ts);
    GivenTiles(base, b, ts, Growth(need));
    TilingShape(base, b + Growth(need), ts1);
    var at := |Before(ts1, |ts|)|;
    assert Grown(ts, b, need)[at] == MergedTile(ts1, |ts|);
    LiveFreed(ts1, |ts|);
    LiveConcat(ts, [t]);
    LiveOne(t);
    assert t !in Live(ts);
  }

  lemma TakenIsNew(ts: seq<Tile>, k: nat, need: nat)
    requires Sized(ts) && Adjoin(ts) && k < |ts| && !ts[k].used && need <= ts[k].size
    ensures TakenTile(ts, k, need) !in Live(ts)
  {
    AddrsDiffer(ts, k);
    assert ts == ts[..k] + [ts[k]] + ts[k + 1..];
  }

  lemma FreedDead(ts: seq<Tile>, ts': seq<Tile>, k: nat)
    requires Sized(ts) && Adjoin(ts) && k < |ts| && Live(ts') == Live(ts) - {ts[k]}
    ensures !IsLive(ts', ts[k].addr + HEADER)
  {
    AddrsDiffer(ts, k);
    assert ts == ts[..k] + [ts[k]] + ts[k + 1..];
    forall i | 0 <= i < |ts'| && ts'[i].used ensures ts'[i].addr != ts[k].addr {
      assert ts'[i] in Live(ts');
    }
  }

  lemma AddrsNot(ts: seq<Tile>, l: int)
    requires l !in Addrs(ts)
    ensures forall i :: 0 <= i < |ts| ==> ts[i].addr !in {l}
  {
    forall i | 0 <= i < |ts| ensures ts[i].addr != l {
      assert ts[i].addr as int in Addrs(ts);
    }
  }

  lemma AddrsDifferent(ts: seq<Tile>, i: nat, j: nat)
    requires Sized(ts) && Adjoin(ts) && i < |ts| && j < |ts| && i != j
    ensures ts[i].addr != ts[j].addr
  {
    assert TileOk(ts[i]) && TileOk(ts[j]);
    if i < j {
      TilesInOrder(ts, i, j);
    } else {
      TilesInOrder(ts, j, i);
    }
  }

  lemma {:induction false} InHeap(base: nat, brk: nat, ts: seq<Tile>, k: nat)
    requires Tiling(base, brk, ts) && k < |ts|
    ensures base <= ts[k].addr && End(ts[k]) <= brk
    decreases ts
  {
    TilingShape(base, brk, ts);
    if k > 0 {
      InHeap(End(ts[0]), brk, ts[1..], k - 1);
    } else {
      TilingShape(End(ts[0]), brk, ts[1..]);
    }
  }

  lemma LiveIndex(ts: seq<Tile>, t: Tile) returns (k: nat)
    requires t in Live(ts)
    ensures LiveAt(ts, t.addr + HEADER, k) && ts[k] == t
  {
    k :| 0 <= k < |ts| && ts[k] == t;
  }

  lemma LiveHas(base: nat, brk: nat, ts: seq<Tile>, k: nat)
    requires Tiling(base, brk, ts) && k < |ts| && ts[k].used
    ensures ts[k] in Live(ts) && ts[k].size >= 2 * HEADER
  {
    TilingShape(base, brk, ts);
    assert TileOk(ts[k]);
  }

  lemma LiveApart(base: nat, brk: nat, ts: seq<Tile>, t: Tile, u: Tile)
    requires Tiling(base, brk, ts) && t in Live(ts) && u in Live(ts) && t != u
    ensures t.addr != u.addr
  {
    TilingShape(base, brk, ts);
    LiveDisjoint(ts, t, u);
    assert forall i :: 0 <= i < |ts| ==> TileOk(ts[i]);
  }

  lemma SameTile(ts: seq<Tile>, i: nat, j: nat)
    requires Sized(ts) && Adjoin(ts) && i < |ts| && j < |ts| && ts[i].addr == ts[j].addr
    ensures i == j
  {
    if i != j {
      AddrsDifferent(ts, i, j);
    }
  }

  lemma SizeAligned(ts: seq<Tile>, k: nat)
    requires Sized(ts) && k < |ts|
    ensures ts[k].size % 16 == 0
  {
    assert TileOk(ts[k]);
  }

  lemma CopyKept(m: Memory, m': Memory, ts: seq<Tile>, now: Tile, p: nat, have: nat)
    requires Sized(ts) && Adjoin(ts) && now in Live(ts) && p == now.addr + HEADER && p + have <= End(now)
    requires forall a :: a in m ==> a in m' && (m'[a] == m[a] || p <= a < p + have)
    ensures AllKept(m, m', Live(ts) - {now})
  {
    forall t, a | t in Live(ts) - {now} && t.addr + HEADER <= a < End(t) && a in m ensures a in m' && m'[a] == m[a] {
      LiveDisjoint(ts, t, now);
    }
  }

  lemma AllKeptLess(m: Memory, m': Memory, s: set<Tile>, u: set<Tile>)
    requires AllKept(m, m', s) && u <= s
    ensures AllKept(m, m', u)
  {
    forall t <- u ensures Kept(m, m', t) {
      assert t in s;
    }
  }

  lemma MovedOn(m0: Memory, m1: Memory, m2: Memory, live: set<Tile>, was: Tile, now: Tile)
    requires HEADER <= was.size < now.size && now in live && Moved(m0, m1, was, now) && AllKept(m1, m2, live)
    ensures Moved(m0, m2, was, now)
  {
    assert Kept(m1, m2, now);
  }

  lemma PayloadThere(m: Memory, base: nat, brk: nat, ts: seq<Tile>, k: nat, n: nat)
    requires Tiling(base, brk, ts) && Domain(m, base, brk) && k < |ts| && HEADER + 4 * n <= ts[k].size
    ensures HasWords(m, ts[k].addr + HEADER, n)
  {
    InHeap(base, brk, ts, k);
    TilingShape(base, brk, ts);
    assert TileOk(ts[k]);
    var p := ts[k].addr + HEADER;
    hide Tiling;
    forall w | 0 <= w < n ensures Word(p, w) in m {
      Multiple4(p, w);
    }
  }

  /** The two blocks are apart, and their words are there. */
  lemma CopyApart(m: Memory, base: nat, brk: nat, ts: seq<Tile>, t: nat, u: nat, p: nat, ptr: nat, n: nat)
    requires Tiling(base, brk, ts) && Domain(m, base, brk) && LiveAt(ts, p, t) && LiveAt(ts, ptr, u) && t != u
    requires p + 4 * n <= End(ts[t]) && ptr + 4 * n <= End(ts[u])
    ensures (p + 4 * n <= ptr || ptr + 4 * n <= p) && p % 16 == 0
    ensures HasWords(m, ptr, n) && SameWords(m, ptr, m, ptr, n)
  {
    TilingShape(base, brk, ts);
    AddrsDifferent(ts, t, u);
    LiveDisjoint(ts, ts[t], ts[u]);
    assert TileOk(ts[t]);
    PayloadThere(m, base, brk, ts, u, n);
  }

  lemma WordIn(p: nat, w: nat, n: nat)
    requires w < n && p % 16 == 0
    ensures p <= Word(p, w) < p + 4 * n && Word(p, w) % 4 == 0
  {
    Multiple4(p, w);
  }

  lemma Copied(m0: Memory, m: Memory, m': Memory, p: nat, ptr: nat, n: nat, w: nat)
    requires w < n && (p + 4 * n <= ptr || ptr + 4 * n <= p)
    requires SameWords(m0, ptr, m, p, w) && SameWords(m0, ptr, m, ptr, n)
    requires Word(ptr, w) in m && m' == m[Word(p, w) := m[Word(ptr, w)]]
    ensures SameWords(m0, ptr, m', p, w + 1) && SameWords(m0, ptr, m', ptr, n) && HasWords(m', ptr, n)
  {
  }

  lemma MovedFrom(m0: Memory, m1: Memory, m2: Memory, live: set<Tile>, was: Tile, now: Tile)
    requires was.size >= HEADER && AllKept(m0, m1, live) && was in live && Moved(m1, m2, was, now)
    requires HasWords(m0, was.addr + HEADER, (was.size - HEADER) / 4)
    ensures Moved(m0, m2, was, now)
  {
    assert Kept(m0, m1, was);
  }

  lemma AllKeptSame(m: Memory, ts: set<Tile>)
    ensures AllKept(m, m, ts)
  {
  }

  lemma AllKeptTrans(m0: Memory, m1: Memory, m2: Memory, ts: set<Tile>)
    requires AllKept(m0, m1, ts) && AllKept(m1, m2, ts)
    ensures AllKept(m0, m2, ts)
  {
    forall t <- ts ensures Kept(m0, m2, t) {
      assert Kept(m0, m1, t) && Kept(m1, m2, t);
    }
  }

  /** Whether the next free block touches tile k, and what its header says if it does. */
  lemma NextAdjacent(m: Memory, ts: seq<Tile>, k: nat, cur: nat)
    requires Sized(ts) && Adjoin(ts) && k < |ts| && cur == First(ts[k + 1..], 0) && Headers(m, ts[k + 1..], 0)
    ensures ts[k].addr % 16 == 0
    ensures cur != 0 && End(ts[k]) == cur <==> k + 1 < |ts| && !ts[k + 1].used
    ensures k + 1 < |ts| && !ts[k + 1].used ==>
              && cur == ts[k + 1].addr && cur > ts[k].addr + 8
              && HeaderOk(m, ts[k + 1], First(After(ts, k), 0))
    ensures !(k + 1 < |ts| && !ts[k + 1].used) ==> cur == First(After(ts, k), 0)
  {
    assert TileOk(ts[k]);
    var j := FirstFree(ts, k + 1);
    if k + 1 < |ts| {
      assert TileOk(ts[k + 1]) && End(ts[k]) == ts[k + 1].addr;
      assert ts[k + 1..][1..] == ts[k + 2..];
      if k + 1 < j < |ts| {
        TilesInOrder(ts, k + 1, j);
      }
    }
  }

  /** Whether the last free block before tile k touches it. */
  lemma PrevAdjacent(m0: Memory, m1: Memory, ts: seq<Tile>, last: int, k: nat)
    requires Sized(ts) && Adjoin(ts) && k < |ts| && IsLast(ts[..k], last)
    requires Headers(m0, ts[..k], First(ts[k + 1..], 0)) && OnlyAt(m0, m1, {ts[k].addr as int})
    ensures -1 <= last < k
    ensures last < 0 ==> k > 0 ==> ts[k - 1].used
    ensures last >= 0 ==>
              && last < k && ts[last].addr > 0 && ts[last].addr != ts[k].addr && Has(m1, ts[last].addr)
              && m1[ts[last].addr] == ts[last].size && m1[ts[last].addr + 4] == MAGIC_FREE
              && (End(ts[last]) == ts[k].addr <==> !ts[k - 1].used)
              && (!ts[k - 1].used <==> last == k - 1)
              && !ts[last].used
  {
    var a := ts[..k];
    if k > 0 {
      assert a[k - 1] == ts[k - 1];
    }
    if last >= 0 {
      assert a[last] == ts[last] && TileOk(ts[last]);
      HeaderOf(m0, a, First(ts[k + 1..], 0), last);
      TilesInOrder(ts, last, k);
      HeaderElsewhere(m0, m1, ts[last], First(a[last + 1..], First(ts[k + 1..], 0)), {ts[k].addr as int});
      if last < k - 1 {
        TilesInOrder(ts, last, last + 1);
        TilesInOrder(ts, last + 1, k);
        assert TileOk(ts[last + 1]);
      }
    }
  }

  /** The block before takes the freed one in. */
  lemma PrevTakesIt(m1: Memory, ts: seq<Tile>, k: nat)
    requires Sized(ts) && Adjoin(ts) && 0 < k < |ts| && !ts[k - 1].used
    requires Has(m1, ts[k].addr) && HeaderOk(m1, WithNext(ts, k), First(After(ts, k), 0))
    requires var p := ts[k - 1].addr;
             Has(m1, p) && m1[p] == ts[k - 1].size && m1[p + 4] == MAGIC_FREE
    ensures var p, b := ts[k - 1].addr, ts[k].addr;
            var m2 := m1[p := m1[p] + m1[b]];
            var m3 := m2[p + 8 := m2[b + 8]];
            HeaderOk(m3, MergedTile(ts, k), First(After(ts, k), 0)) && OnlyAt(m1, m3, {p as int})
  {
    assert TileOk(ts[k - 1]) && End(ts[k - 1]) == ts[k].addr;
    LineOfHeader(ts[k - 1].addr);
    hide Line, First, Sized, Adjoin;
  }

  lemma StillFree(m0: Memory, m1: Memory, m2: Memory, ts: seq<Tile>, k: nat, s: set<int>, last: int)
    requires Sized(ts) && Adjoin(ts) && k < |ts| && HeaderOk(m1, WithNext(ts, k), First(After(ts, k), 0))
    requires -1 <= last < k && s == {ts[k].addr as int} + (if last >= 0 then {ts[last].addr as int} else {})
    requires OnlyAt(m1, m2, if last >= 0 then {ts[last].addr as int} else {})
    ensures ts[k].addr + 4 in m2 && m2[ts[k].addr + 4] == MAGIC_FREE
  {
    assert TileOk(ts[k]);
    LineOfHeader(ts[k].addr);
    if last >= 0 {
      TilesInOrder(ts, last, k);
      assert TileOk(ts[last]);
    }
    hide Line;
  }

  lemma DomainKept(m: Memory, m': Memory, base: nat, brk: nat, s: set<int>)
    requires Domain(m, base, brk) && OnlyAt(m, m', s)
    ensures Domain(m', base, brk)
  {
    hide Line;
  }

  lemma AddrsHave(ts: seq<Tile>, k: nat, last: int)
    requires k < |ts| && last < |ts|
    ensures ts[k].addr as int in Addrs(ts) && (last >= 0 ==> ts[last].addr as int in Addrs(ts))
  {
  }
}

/**
 A program that uses malloc, free and realloc, against what it may expect of them: buffers that have
 nothing to do with each other. However the heap splits, joins and moves blocks, the program reads back
 what it wrote, and the blocks in use are those it holds.
 */
module MallocClient {
  import opened MallocHeap
  import opened Malloc

  /** A buffer as the program knows it: where it is, and what it last wrote there. */
  datatype Buffer = Buffer(ptr: nat, words: seq<int>)

  datatype Event =
    | Get(words: seq<int>)             // allocate a buffer and fill it
    | Set(i: nat, w: nat, v: int)      // write a word of the i-th buffer
    | Put(i: nat)                      // free it
    | Size(i: nat, n: nat, v: int)     // make it n words, any new ones v

  function Sized(words: seq<int>, n: nat, v: int): seq<int>
  {
    if n <= |words| then words[..n] else words + seq(n - |words|, _ => v)
  }

  /** What an event does to independent buffers; `ok` is whether the heap had memory for it. */
  function Step(st: seq<seq<int>>, e: Event, ok: bool): seq<seq<int>>
  {
    match e
    case Get(words) => if ok then st + [words] else st
    case Set(i, w, v) => if i < |st| && w < |st[i]| then st[i := st[i][w := v]] else st
    case Put(i) => if i < |st| then st[..i] + st[i + 1..] else st
    case Size(i, n, v) => if i < |st| && ok then st[i := Sized(st[i], n, v)] else st
  }

  function Steps(events: seq<Event>, oks: seq<bool>): seq<seq<int>>
    requires |events| == |oks|
  {
    if events == [] then []
    else Step(Steps(events[..|events| - 1], oks[..|oks| - 1]), events[|events| - 1], oks[|oks| - 1])
  }

  function Contents(held: seq<Buffer>): seq<seq<int>>
  {
    seq(|held|, i requires 0 <= i < |held| => held[i].words)
  }

  /** Whether the request is one the system could ever be asked for. */
  predicate Small(e: Event)
  {
    match e
    case Get(words) => Growth(Need(4 * |words|)) <= INTPTR_MAX
    case Size(i, n, v) => Growth(Need(4 * n)) <= INTPTR_MAX
    case _ => true
  }

  predicate AllSmall(events: seq<Event>)
  {
    forall i :: 0 <= i < |events| ==> Small(events[i])
  }

  ghost predicate Generous(grants: nat -> bool)
  {
    forall k :: grants(k)
  }

  predicate AllOk(oks: seq<bool>)
  {
    forall i :: 0 <= i < |oks| ==> oks[i]
  }

  /** The magic of a block in use is not among the words, from the n-th on, where a header could have it. */
  predicate CleanFrom(words: seq<int>, n: nat)
  {
    forall w :: n <= w < |words| && w % 4 == 1 ==> words[w] != MAGIC_USED
  }

  /** The program writes it nowhere that a header could have it. */
  predicate Clean(e: Event)
  {
    match e
    case Get(words) => CleanFrom(words, 0)
    case Set(i, w, v) => w % 4 != 1 || v != MAGIC_USED
    case Put(i) => true
    case Size(i, n, v) => v != MAGIC_USED
  }

  predicate AllClean(events: seq<Event>)
  {
    forall i :: 0 <= i < |events| ==> Clean(events[i])
  }

  // ----- buffers in memory -----

  /** Memory holds the buffer, in block t. */
  ghost predicate Holds(m: Memory, b: Buffer, t: Tile)
  {
    && t.used && b.ptr == t.addr + HEADER && HEADER + 4 * |b.words| <= t.size
    && forall w :: 0 <= w < |b.words| ==> Word(b.ptr, w) in m && m[Word(b.ptr, w)] == b.words[w]
  }

  ghost predicate AllHeld(m: Memory, held: seq<Buffer>, blocks: seq<Tile>)
  {
    |held| == |blocks| && forall i :: 0 <= i < |held| ==> Holds(m, held[i], blocks[i])
  }

  /** The live blocks are these, each once. */
  ghost predicate Owned(ts: seq<Tile>, blocks: seq<Tile>)
  {
    && (forall i, j :: 0 <= i < j < |blocks| ==> blocks[i] != blocks[j])
    && (forall t :: t in Live(ts) <==> t in blocks)
  }

  ghost predicate Good(h: Heap, held: seq<Buffer>, blocks: seq<Tile>)
    reads h
  {
    h.Valid() && AllHeld(h.mem, held, blocks) && Owned(h.tiles, blocks)
  }

  lemma HoldsKept(m: Memory, m': Memory, b: Buffer, t: Tile)
    requires Holds(m, b, t) && Kept(m, m', t)
    ensures Holds(m', b, t)
  {
  }

  lemma AllHeldKept(m: Memory, m': Memory, held: seq<Buffer>, blocks: seq<Tile>, live: set<Tile>)
    requires AllHeld(m, held, blocks) && AllKept(m, m', live) && forall t :: t in blocks ==> t in live
    ensures AllHeld(m', held, blocks)
  {
    hide Holds, Kept;
    forall i | 0 <= i < |held| ensures Holds(m', held[i], blocks[i]) {
      assert blocks[i] in live;
      HoldsKept(m, m', held[i], blocks[i]);
    }
  }

  lemma OwnedMore(ts: seq<Tile>, ts': seq<Tile>, blocks: seq<Tile>, t: Tile)
    requires Owned(ts, blocks) && t !in Live(ts) && Live(ts') == Live(ts) + {t}
    ensures Owned(ts', blocks + [t])
  {
    hide Live;
  }

  lemma OwnedLess(ts: seq<Tile>, ts': seq<Tile>, blocks: seq<Tile>, i: nat)
    requires Owned(ts, blocks) && i < |blocks| && Live(ts') == Live(ts) - {blocks[i]}
    ensures Owned(ts', blocks[..i] + blocks[i + 1..])
  {
    hide Live;
    var rest := blocks[..i] + blocks[i + 1..];
    forall t ensures t in Live(ts') <==> t in rest {
      if t in rest {
        var j :| 0 <= j < |rest| && rest[j] == t;
        assert t == blocks[if j < i then j else j + 1];
      }
      if t in blocks && t != blocks[i] {
        var j :| 0 <= j < |blocks| && blocks[j] == t;
        assert t == rest[if j < i then j else j - 1];
      }
    }
  }

  lemma OwnedMoved(ts: seq<Tile>, ts': seq<Tile>, blocks: seq<Tile>, i: nat, t: Tile)
    requires Owned(ts, blocks) && i < |blocks| && t !in Live(ts) && Live(ts') == Live(ts) + {t} - {blocks[i]}
    ensures Owned(ts', blocks[i := t])
  {
    hide Live;
    var now := blocks[i := t];
    assert t == now[i];
    forall u ensures u in Live(ts') <==> u in now {
      if u in now {
        var j :| 0 <= j < |now| && now[j] == u;
        assert j != i ==> u == blocks[j];
      }
      if u in blocks && u != blocks[i] {
        var j :| 0 <= j < |blocks| && blocks[j] == u;
        assert u == now[j];
      }
    }
  }

  // ----- the program -----

  function Written(words: seq<int>, w: nat, v: int): seq<int>
    requires w <= |words|
  {
    if w < |words| then words[w := v] else words + [v]
  }

  lemma WrittenHolds(m: Memory, b: Buffer, t: Tile, w: nat, v: int)
    requires Holds(m, b, t) && w <= |b.words| && HEADER + 4 * (w + 1) <= t.size
    ensures Holds(m[Word(b.ptr, w) := v], Buffer(b.ptr, Written(b.words, w, v)), t)
  {
  }

  lemma ElsewhereHolds(m: Memory, b: Buffer, t: Tile, a: int, v: int)
    requires Holds(m, b, t) && !(t.addr <= a < End(t))
    ensures Holds(m[a := v], b, t)
  {
  }

  /** Writing in one block, and the others are as they were. */
  lemma WriteHeld(m: Memory, ts: seq<Tile>, held: seq<Buffer>, blocks: seq<Tile>, i: nat, w: nat, v: int)
    requires AllHeld(m, held, blocks) && Owned(ts, blocks) && MallocHeap.Sized(ts) && Adjoin(ts)
    requires i < |held| && w <= |held[i].words| && HEADER + 4 * (w + 1) <= blocks[i].size
    ensures AllHeld(m[Word(held[i].ptr, w) := v], held[i := Buffer(held[i].ptr, Written(held[i].words, w, v))], blocks)
  {
    hide Holds, Written, MallocHeap.Sized, Adjoin;
    var m' := m[Word(held[i].ptr, w) := v];
    var held' := held[i := Buffer(held[i].ptr, Written(held[i].words, w, v))];
    WordInside(m, held[i], blocks[i], w);
    forall j | 0 <= j < |held| ensures Holds(m', held'[j], blocks[j]) {
      if j == i {
        WrittenHolds(m, held[i], blocks[i], w, v);
      } else {
        assert blocks[i] in blocks && blocks[j] in blocks;
        assert blocks[i] in Live(ts) && blocks[j] in Live(ts);
        LiveDisjoint(ts, blocks[i], blocks[j]);
        ElsewhereHolds(m, held[j], blocks[j], Word(held[i].ptr, w), v);
      }
    }
  }

  lemma WordInside(m: Memory, b: Buffer, t: Tile, w: nat)
    requires Holds(m, b, t) && HEADER + 4 * (w + 1) <= t.size
    ensures t.addr + HEADER <= Word(b.ptr, w) < End(t)
  {
  }

  method Write(h: Heap, held: seq<Buffer>, ghost blocks: seq<Tile>, i: nat, w: nat, v: int) returns (held': seq<Buffer>)
    requires Good(h, held, blocks) && i < |held| && w <= |held[i].words| && HEADER + 4 * (w + 1) <= blocks[i].size
    modifies h`mem
    ensures held' == held[i := Buffer(held[i].ptr, Written(held[i].words, w, v))]
    ensures Good(h, held', blocks)
    ensures old(Genuine(h.mem, h.tiles)) && (w % 4 != 1 || v != MAGIC_USED) ==> Genuine(h.mem, h.tiles)
  {
    hide Tiling, Headers, First, Domain, Separate, Live, MallocHeap.Sized, Adjoin, Genuine, Slot;
    TilingShape(h.base, h.brk, h.tiles);
    WriteHeld(h.mem, h.tiles, held, blocks, i, w, v);
    WordInside(h.mem, held[i], blocks[i], w);
    assert blocks[i] in blocks;
    ghost var k := LiveIndex(h.tiles, blocks[i]);
    TileAligned(h.tiles, k, w);
    h.Store(Word(held[i].ptr, w), v, k);
    held' := held[i := Buffer(held[i].ptr, Written(held[i].words, w, v))];
  }

  lemma TileAligned(ts: seq<Tile>, k: nat, w: nat)
    requires MallocHeap.Sized(ts) && k < |ts|
    ensures Word(ts[k].addr + HEADER, w) % 4 == 0
    ensures Slot(Word(ts[k].addr + HEADER, w)) <==> w % 4 == 1
  {
    assert TileOk(ts[k]);
    Multiple4(ts[k].addr + HEADER, w);
    SameSlot(ts[k].addr + HEADER, ts[k].addr + HEADER, w);
  }

  /** Writes the rest of the words of the i-th buffer. */
  method Fill(h: Heap, held: seq<Buffer>, ghost blocks: seq<Tile>, i: nat, words: seq<int>) returns (held': seq<Buffer>)
    requires Good(h, held, blocks) && i < |held| && held[i].words <= words && HEADER + 4 * |words| <= blocks[i].size
    modifies h`mem
    ensures Good(h, held', blocks) && held' == held[i := Buffer(held[i].ptr, words)]
    ensures old(Genuine(h.mem, h.tiles)) && CleanFrom(words, |held[i].words|) ==> Genuine(h.mem, h.tiles)
  {
    hide Good, Genuine;
    held' := held;
    var s := |held[i].words|;
    assert words[..s] == held[i].words;
    while s < |words|
      invariant |held[i].words| <= s <= |words|
      invariant Good(h, held', blocks) && held' == held[i := Buffer(held[i].ptr, words[..s])]
      invariant old(Genuine(h.mem, h.tiles)) && CleanFrom(words, |held[i].words|) ==> Genuine(h.mem, h.tiles)
      modifies h`mem
    {
      held' := Write(h, held', blocks, i, s, words[s]);
      s := s + 1;
      assert words[..s] == words[..s - 1] + [words[s - 1]];
    }
    assert words[..s] == words;
  }

  method Allocate(h: Heap, held: seq<Buffer>, ghost blocks: seq<Tile>, words: seq<int>)
    returns (ok: bool, held': seq<Buffer>, ghost blocks': seq<Tile>)
    requires Good(h, held, blocks)
    modifies h
    ensures Good(h, held', blocks')
    ensures Contents(held') == Step(Contents(held), Get(words), ok)
    ensures h.grants(old(h.asks)) && Small(Get(words)) ==> ok
    ensures CleanJunk(h.junk) && old(Genuine(h.mem, h.tiles)) && Clean(Get(words)) ==> Genuine(h.mem, h.tiles)
  {
    hide Holds, Live, Tiling, Headers, First, Domain, Separate, MallocHeap.Sized, Adjoin, Searched, Taken, TakenTile,
      FirstFit, Fits, Kept, Genuine, CleanJunk, CleanFrom;
    ghost var m0, ts0 := h.mem, h.tiles;
    held', blocks' := held, blocks;
    var p, t := h.Malloc(4 * |words|);
    AllHeldKept(m0, h.mem, held, blocks, Live(ts0));
    ok := p != 0;
    if ok {
      OwnedMore(ts0, h.tiles, blocks, t);
      held', blocks' := held + [Buffer(p, [])], blocks + [t];
      EmptyHolds(h.mem, p, t);
      RoomFor(words, t);
      held' := Fill(h, held', blocks', |held|, words);
    }
  }

  lemma EmptyHolds(m: Memory, p: nat, t: Tile)
    requires t.used && p == t.addr + HEADER && t.size >= HEADER
    ensures Holds(m, Buffer(p, []), t)
  {
  }

  lemma RoomFor(words: seq<int>, t: Tile)
    requires t.size >= Need(4 * |words|)
    ensures HEADER + 4 * |words| <= t.size
  {
  }

  method Release(h: Heap, held: seq<Buffer>, ghost blocks: seq<Tile>, i: nat)
    returns (held': seq<Buffer>, ghost blocks': seq<Tile>)
    requires Good(h, held, blocks) && i < |held|
    modifies h
    ensures Good(h, held', blocks')
    ensures Contents(held') == Step(Contents(held), Put(i), true)
    ensures old(Genuine(h.mem, h.tiles)) ==> Genuine(h.mem, h.tiles)
  {
    hide Holds, Live, Tiling, Headers, First, Domain, Separate, MallocHeap.Sized, Adjoin, Freed, Kept, Genuine;
    ghost var m0, ts0 := h.mem, h.tiles;
    HeldAt(h, held, blocks, i);
    var ok := h.Free(held[i].ptr);
    AllHeldKept(m0, h.mem, held, blocks, Live(ts0));
    OwnedLess(ts0, h.tiles, blocks, i);
    held', blocks' := held[..i] + held[i + 1..], blocks[..i] + blocks[i + 1..];
  }

  /** A buffer's pointer is live, and its block is the i-th. */
  lemma HeldAt(h: Heap, held: seq<Buffer>, blocks: seq<Tile>, i: nat)
    requires Good(h, held, blocks) && i < |held|
    ensures IsLive(h.tiles, held[i].ptr) && h.tiles[At(h.tiles, held[i].ptr)] == blocks[i] && held[i].ptr > 0
  {
    hide Tiling, Headers, First, Domain, Separate;
    TilingShape(h.base, h.brk, h.tiles);
    assert blocks[i] in blocks;
    var k := LiveIndex(h.tiles, blocks[i]);
    SameTile(h.tiles, k, At(h.tiles, held[i].ptr));
  }

  method Resize(h: Heap, held: seq<Buffer>, ghost blocks: seq<Tile>, i: nat, n: nat, v: int)
    returns (ok: bool, held': seq<Buffer>, ghost blocks': seq<Tile>)
    requires Good(h, held, blocks) && i < |held|
    modifies h
    ensures Good(h, held', blocks')
    ensures Contents(held') == Step(Contents(held), Size(i, n, v), ok)
    ensures h.grants(old(h.asks)) && Small(Size(i, n, v)) ==> ok
    ensures CleanJunk(h.junk) && old(Genuine(h.mem, h.tiles)) && Clean(Size(i, n, v)) ==> Genuine(h.mem, h.tiles)
  {
    hide Holds, Live, Tiling, Headers, First, Domain, Separate, MallocHeap.Sized, Adjoin, Fits, Kept, SameWords, Moved,
      Genuine, CleanJunk;
    ghost var m0, ts0 := h.mem, h.tiles;
    var b := held[i];
    held', blocks' := held, blocks;
    HeldAt(h, held, blocks, i);
    var fine, p, was, now := h.Realloc(b.ptr, 4 * n);
    AllHeldKept(m0, h.mem, held, blocks, Live(ts0));
    ok := p != 0;
    if ok {
      var kept := if n <= |b.words| then b.words[..n] else b.words;
      held' := held[i := Buffer(p, kept)];
      if p != b.ptr {
        OwnedMoved(ts0, h.tiles, blocks, i, now);
        blocks' := blocks[i := now];
        MovedHolds(m0, h.mem, b, was, now, kept);
      } else {
        FewerHolds(h.mem, b, blocks[i], kept);
      }
      held' := Fill(h, held', blocks', i, Sized(b.words, n, v));
    }
  }

  lemma FewerHolds(m: Memory, b: Buffer, t: Tile, words: seq<int>)
    requires Holds(m, b, t) && words <= b.words
    ensures Holds(m, Buffer(b.ptr, words), t)
  {
  }

  lemma MovedHolds(m: Memory, m': Memory, b: Buffer, was: Tile, now: Tile, words: seq<int>)
    requires Holds(m, b, was) && HEADER <= was.size < now.size && now.used && Moved(m, m', was, now) && words <= b.words
    ensures Holds(m', Buffer(now.addr + HEADER, words), now)
  {
  }

  method Do(h: Heap, held: seq<Buffer>, ghost blocks: seq<Tile>, e: Event)
    returns (ok: bool, held': seq<Buffer>, ghost blocks': seq<Tile>)
    requires Good(h, held, blocks)
    modifies h
    ensures Good(h, held', blocks')
    ensures Contents(held') == Step(Contents(held), e, ok)
    ensures h.grants(old(h.asks)) && Small(e) ==> ok
    ensures CleanJunk(h.junk) && old(Genuine(h.mem, h.tiles)) && Clean(e) ==> Genuine(h.mem, h.tiles)
  {
    hide AllHeld, Owned, Sized, Genuine, CleanJunk, CleanFrom;
    ok, held', blocks' := true, held, blocks;
    match e
    case Get(words) =>
      ok, held', blocks' := Allocate(h, held, blocks, words);
    case Set(i, w, v) =>
      if i < |held| && w < |held[i].words| {
        RoomAt(h, held, blocks, i, w);
        held' := Write(h, held, blocks, i, w, v);
      }
    case Put(i) =>
      if i < |held| {
        held', blocks' := Release(h, held, blocks, i);
      }
    case Size(i, n, v) =>
      if i < |held| {
        ok, held', blocks' := Resize(h, held, blocks, i, n, v);
      }
  }

  lemma RoomAt(h: Heap, held: seq<Buffer>, blocks: seq<Tile>, i: nat, w: nat)
    requires Good(h, held, blocks) && i < |held| && w < |held[i].words|
    ensures i < |blocks| && HEADER + 4 * (w + 1) <= blocks[i].size
  {
    assert Holds(h.mem, held[i], blocks[i]);
  }

  lemma GoodAtFirst(h: Heap)
    requires h.Valid() && h.tiles == []
    ensures Good(h, [], []) && Contents([]) == Steps([], [])
  {
  }

  lemma StepsMore(events: seq<Event>, oks: seq<bool>, ok: bool)
    requires |oks| < |events|
    ensures var n := |oks|; Steps(events[..n + 1], oks + [ok]) == Step(Steps(events[..n], oks), events[n], ok)
  {
    var n := |oks|;
    assert events[..n + 1][..n] == events[..n] && (oks + [ok])[..n] == oks;
  }

  /** Whatever the program does, its buffers are as if they were independent. */
  method Run(h: Heap, events: seq<Event>) returns (held: seq<Buffer>, oks: seq<bool>, ghost blocks: seq<Tile>)
    requires h.Valid() && h.tiles == []
    modifies h
    ensures |oks| == |events| && Contents(held) == Steps(events, oks)
    ensures Good(h, held, blocks)
    ensures Generous(h.grants) && AllSmall(events) ==> AllOk(oks)
    ensures CleanJunk(h.junk) && old(Genuine(h.mem, h.tiles)) && AllClean(events) ==> Genuine(h.mem, h.tiles)
  {
    hide Good, Step, Steps, Small, Contents, AllHeld, Owned, Genuine, CleanJunk, Clean;
    held, oks, blocks := [], [], [];
    GoodAtFirst(h);
    assert events[..0] == [];
    var n := 0;
    while n < |events|
      invariant 0 <= n <= |events| && |oks| == n
      invariant Good(h, held, blocks) && Contents(held) == Steps(events[..n], oks)
      invariant Generous(h.grants) && AllSmall(events) ==> AllOk(oks)
      invariant CleanJunk(h.junk) && old(Genuine(h.mem, h.tiles)) && AllClean(events) ==> Genuine(h.mem, h.tiles)
    {
      var ok;
      assert Generous(h.grants) && AllSmall(events) ==> h.grants(h.asks) && Small(events[n]);
      ok, held, blocks := Do(h, held, blocks, events[n]);
      StepsMore(events, oks, ok);
      oks := oks + [ok];
      n := n + 1;
    }
    assert events[..n] == events;
  }

  /** Reads the buffers out of memory. */
  method ReadBack(h: Heap, held: seq<Buffer>, ghost blocks: seq<Tile>) returns (read: seq<seq<int>>)
    requires Good(h, held, blocks)
    ensures read == Contents(held)
  {
    hide Tiling, Headers, First, Domain, Separate, Owned;
    read := [];
    while |read| < |held|
      invariant |read| <= |held| && read == Contents(held)[..|read|]
    {
      var b, words := held[|read|], [];
      assert Holds(h.mem, b, blocks[|read|]);
      while |words| < |b.words|
        invariant |words| <= |b.words| && words == b.words[..|words|]
      {
        words := words + [h.mem[Word(b.ptr, |words|)]];
      }
      assert words == b.words == Contents(held)[|read|];
      read := read + [words];
    }
  }

  /** A program on a fresh heap, which at the end reads all its buffers. */
  method Session(base: nat, grants: nat -> bool, junk: int -> int, events: seq<Event>)
    returns (read: seq<seq<int>>, oks: seq<bool>)
    requires base % 16 == 0 && base > 0
    ensures |oks| == |events| && read == Steps(events, oks)
    ensures Generous(grants) && AllSmall(events) ==> AllOk(oks)
  {
    hide Small, Steps, Good;
    var h := new Heap(base, grants, junk);
    var held, done, blocks := Run(h, events);
    oks := done;
    read := ReadBack(h, held, blocks);
  }

  /** After any run of a program that writes the magic nowhere a header could have it, free and realloc abort on exactly
      the pointers into the heap that the program does not hold: to no block, or to one it has given back. */
  method FoundOut(base: nat, grants: nat -> bool, junk: int -> int, events: seq<Event>, ptr: nat)
    returns (readable: bool, ok: bool, held: seq<Buffer>)
    requires base % 16 == 0 && base > 0 && ptr != 0 && CleanJunk(junk) && AllClean(events)
    ensures readable ==> (ok <==> exists i :: 0 <= i < |held| && held[i].ptr == ptr)
  {
    hide AllHeld, Owned, Heap.Valid, Steps, Small, Genuine, CleanJunk, Vouched, AllClean;
    var h := new Heap(base, grants, junk);
    assert Genuine(h.mem, h.tiles) by { NoMagicYet(h.tiles); }
    var bs, oks, blocks := Run(h, events);
    held := bs;
    readable, ok := ptr % 16 != 0 || ptr - 12 in h.mem, false;
    if readable {
      var b;
      ok, b := h.Header(ptr);
      h.GenuineTells(ptr);
      HeldIsLive(h, held, blocks, ptr);
    }
  }

  lemma NoMagicYet(ts: seq<Tile>)
    ensures Genuine(map[], ts)
  {
  }

  lemma HeldIsLive(h: Heap, held: seq<Buffer>, blocks: seq<Tile>, ptr: nat)
    requires Good(h, held, blocks)
    ensures IsLive(h.tiles, ptr) <==> exists i :: 0 <= i < |held| && held[i].ptr == ptr
  {
    hide Tiling, Headers, First, Domain, Separate;
    if IsLive(h.tiles, ptr) {
      var t := h.tiles[At(h.tiles, ptr)];
      assert t in Live(h.tiles) && t in blocks;
      var i :| 0 <= i < |blocks| && blocks[i] == t;
      assert Holds(h.mem, held[i], blocks[i]);
    }
    if i :| 0 <= i < |held| && held[i].ptr == ptr {
      HeldAt(h, held, blocks, i);
    }
  }
}

/**
 Whole runs of DOS programs over the memory services (userland/dosrun/dosapi.c): programs that allocate, free,
 resize, run others, end, and write their memory. What each step leaves alone, and so what a program finds as it
 left it.
 */
module McbRuns {
  import opened Mcb
  import opened McbServices

  /** What a run is made of: the services, EXEC and a program's end, and programs writing memory. */
  datatype Event =
    | Alloc(paras: Word)
    | Free(seg: Word)
    | Realloc(seg: Word, paras: Word)
    | Spawn(envParas: Word, min: Word, max: Word, loads: bool)
    | Exit
    | Poke(a: nat, v: Byte)

  /** Memory, the list it stands for, the program that runs and those that wait for it. */
  datatype Moment = Moment(mem: Memory, blocks: seq<Block>, psp: Word, parents: seq<Word>)

  /** The running program may not resize its own block to nothing: by EndAtNothing, memory would not stand for the list
      of blocks after that. */
  ghost predicate Ruinous(e: Event, s: Moment)
  {
    e == Realloc(s.psp, 0) && exists i :: OwnBlock(s.blocks, i, s.psp) && !SafeAtNothing(s.blocks, i, s.psp)
  }

  /** Block i is the one a program's segment names. */
  ghost predicate OwnBlock(bs: seq<Block>, i: nat, psp: nat)
  {
    i < |bs| && bs[i].owner != 0 && bs[i].seg + 1 == psp
  }

  /** Which blocks change hands. */
  ghost predicate OwnersStay(e: Event, s: Moment, t: Moment)
  {
    var was, now := Owned(s.blocks), Owned(t.blocks);
    match e
    case Alloc(paras) => was <= now && forall b :: b in now - was ==> b.size == paras && b.owner == s.psp
    case Free(seg) => now == Dos.Others(s.blocks, seg - 1)
    case Realloc(seg, paras) =>
      && Dos.Others(t.blocks, seg - 1) == Dos.Others(s.blocks, seg - 1)
      && forall b :: b in was && b.seg + 1 == seg ==> exists c :: c in now && c.seg == b.seg && c.owner == b.owner
    case Spawn(_, _, _, _) => was <= now && forall b :: b in now - was ==> b.owner == t.psp
    case Exit => now == set b | b in was && (s.parents == [] || b.owner != s.psp)
    case Poke(_, _) => t.blocks == s.blocks
  }

  /** A byte of a block's data that the event itself is to change: the one written, or the end of a block in its own
      program's PSP. */
  predicate Changes(e: Event, s: Moment, b: Block, a: int)
  {
    || (e.Poke? && e.a == a)
    || (e.Realloc? && e.seg == s.psp == b.seg + 1 && 16 * s.psp + PSP_MEMSIZE <= a < 16 * s.psp + PSP_MEMSIZE + 2)
  }

  /** No other byte changes, of the data that a block has before and after. */
  ghost predicate DataStays(e: Event, s: Moment, t: Moment)
  {
    forall b, c, a | b in Owned(s.blocks) && c in Owned(t.blocks) && b.seg == c.seg && InData(b, a) && InData(c, a)
                     && 0 <= a < MEM_SIZE && !Changes(e, s, b, a) :: s.mem[a] == t.mem[a]
  }

  /** Who runs next: a program that was started, the one that started this, or this one still. */
  predicate Turn(e: Event, s: Moment, t: Moment)
  {
    if e.Spawn? then t.parents == [s.psp] + s.parents || (t.psp == s.psp && t.parents == s.parents)
    else if e.Exit? && s.parents != [] then t.psp == s.parents[0] && t.parents == s.parents[1..]
    else t.psp == s.psp && t.parents == s.parents
  }

  ghost predicate Stepped(e: Event, s: Moment, t: Moment)
  {
    if Ruinous(e, s) then t == s
    else
      && OwnersStay(e, s, t) && DataStays(e, s, t) && Turn(e, s, t)
      && (e.Poke? && e.a < MEM_SIZE && e.a / 16 !in Segs(s.blocks) ==> t.mem == s.mem[e.a := e.v])
  }

  /** A run: every step is one of these, and memory always stands for the list. */
  ghost predicate IsRun(arena: nat, events: seq<Event>, hist: seq<Moment>)
  {
    && |hist| == |events| + 1
    && (forall n :: 0 <= n < |hist| ==> Represents(hist[n].mem, arena, hist[n].blocks))
    && forall n :: 0 <= n < |events| ==> Stepped(events[n], hist[n], hist[n + 1])
  }

  // ----- the steps -----

  /** Where only headers are written, and perhaps the end in a program's PSP, data stays. */
  lemma HeadersOnly(e: Event, arena: nat, s: Moment, t: Moment, clean: Memory)
    requires Represents(s.mem, arena, s.blocks) && Chain(arena, t.blocks)
    requires OnlyIn(s.mem, clean, Segs(s.blocks) + Segs(t.blocks))
    requires forall a :: 0 <= a < MEM_SIZE && clean[a] != t.mem[a] ==>
               forall b, c | b in Owned(s.blocks) && c in Owned(t.blocks) && b.seg == c.seg && InData(c, a) ::
                 Changes(e, s, b, a)
    ensures DataStays(e, s, t)
  {
    hide OnlyIn, HeaderIs, Segs, Changes;
    forall b, c, a | b in Owned(s.blocks) && c in Owned(t.blocks) && b.seg == c.seg && InData(b, a) && InData(c, a)
                     && 0 <= a < MEM_SIZE && !Changes(e, s, b, a)
      ensures s.mem[a] == t.mem[a]
    {
      var i :| 0 <= i < |s.blocks| && s.blocks[i] == b;
      var j :| 0 <= j < |t.blocks| && t.blocks[j] == c;
      RetainedDataIntact(arena, s.blocks, t.blocks, s.mem, clean, i, j, a);
    }
  }

  /** The word at psp:2 is in no block's data but the program's own. */
  lemma EndIsOwn(arena: nat, bs: seq<Block>, x: Block, c: Block, psp: nat, a: int)
    requires Chain(arena, bs) && x in bs && c in bs && x.seg + 1 == psp && InData(c, a) && a / 16 == psp
    ensures c == x
  {
    var i :| 0 <= i < |bs| && bs[i] == x;
    var j :| 0 <= j < |bs| && bs[j] == c;
    if i < j {
      ChainOrder(arena, bs, i, j);
    } else if j < i {
      ChainOrder(arena, bs, j, i);
    }
  }

  lemma TellStays(e: Event, arena: nat, s: Moment, t: Moment, clean: Memory, x: Block, v: Word)
    requires Represents(s.mem, arena, s.blocks) && Chain(arena, t.blocks)
    requires OnlyIn(s.mem, clean, Segs(s.blocks) + Segs(t.blocks))
    requires e.Realloc? && x in t.blocks && x.seg + 1 == e.seg
    requires t.mem == clean || (e.seg == s.psp && t.mem == SetPspEnd(clean, s.psp, v))
    ensures DataStays(e, s, t)
  {
    hide OnlyIn, Represents, Chain, Segs, DataStays;
    forall a, b, c | 0 <= a < MEM_SIZE && clean[a] != t.mem[a] && b in Owned(s.blocks) && c in Owned(t.blocks)
                     && b.seg == c.seg && InData(c, a)
      ensures Changes(e, s, b, a)
    {
      EndIsOwn(arena, t.blocks, x, c, s.psp, a);
    }
    HeadersOnly(e, arena, s, t, clean);
  }

  lemma PlainStays(e: Event, arena: nat, s: Moment, t: Moment)
    requires Represents(s.mem, arena, s.blocks) && Represents(t.mem, arena, t.blocks)
    requires OnlyIn(s.mem, t.mem, Segs(s.blocks) + Segs(t.blocks))
    ensures DataStays(e, s, t)
  {
    HeadersOnly(e, arena, s, t, t.mem);
  }

  lemma SameStays(e: Event, s: Moment, t: Moment, u: Moment)
    requires DataStays(e, s, t) && t.mem == u.mem && t.blocks == u.blocks
    ensures DataStays(e, s, u)
  {
  }

  /** A block of another size in the place of one. */
  lemma Resized(e: Event, arena: nat, s: Moment, t: Moment, i: nat, x: Block)
    requires Represents(s.mem, arena, s.blocks) && i < |s.blocks| && s.blocks[i].owner != 0
    requires e.Realloc? && s.blocks[i].seg + 1 == e.seg && x.seg == s.blocks[i].seg && x.owner == s.blocks[i].owner
    requires Owned(t.blocks) == Dos.Others(s.blocks, e.seg - 1) + {x}
    ensures OwnersStay(e, s, t)
  {
    hide Represents;
    assert Dos.Others(t.blocks, e.seg - 1) == Dos.Others(s.blocks, e.seg - 1);
    forall b | b in Owned(s.blocks) && b.seg + 1 == e.seg ensures b == s.blocks[i] {
      var j :| 0 <= j < |s.blocks| && s.blocks[j] == b;
      OneBlock(arena, s.mem, s.blocks, i, j);
    }
    assert x in Owned(t.blocks);
  }

  lemma NotResized(e: Event, arena: nat, s: Moment, t: Moment)
    requires Represents(s.mem, arena, s.blocks) && t.mem == s.mem && t.blocks == s.blocks && e.Realloc?
    requires forall b :: b in Owned(s.blocks) ==> b.seg + 1 != e.seg
    ensures OwnersStay(e, s, t) && DataStays(e, s, t)
  {
    hide Represents;
    NothingNew(s.mem, s.blocks, t.blocks);
    PlainStays(e, arena, s, t);
  }

  lemma NothingNew(m: Memory, bs: seq<Block>, cs: seq<Block>)
    ensures OnlyIn(m, m, Segs(bs) + Segs(cs))
  {
  }

  lemma KeptStays(e: Event, s: Moment, t: Moment)
    requires DataKept(s.mem, t.mem, s.blocks)
    ensures DataStays(e, s, t)
  {
  }

  // ----- whether a program may give up all of its own block -----

  /** The paragraphs of a block and the free ones after it. */
  method Room(d: Dos, seg: Word, ghost i: nat) returns (room: nat)
    requires d.Valid() && i < |d.blocks| && d.blocks[i].seg == seg
    ensures room == RunSize(d.blocks[i..])
  {
    hide Represents, Chain, Owner, Size, Kind, McbValid, Span, Lead;
    ghost var bs, k := d.blocks, 0;
    ghost var after := bs[i + 1..];
    WalkIsSafe(d.mem[..], d.arena, bs, i);
    room := Size(d.mem[..], seg);
    var at := seg;
    SpanNone(after);
    assert bs[i..][1..] == after;
    while Kind(d.mem[..], at) == KIND_M
      invariant k <= Lead(after) && at == bs[i + k].seg && at < TOP
      invariant room == bs[i].size + Span(after, k)
      decreases |bs| - k
    {
      WalkIsSafe(d.mem[..], d.arena, bs, i + k);
      var next := at + 1 + Size(d.mem[..], at);
      WalkIsSafe(d.mem[..], d.arena, bs, i + k + 1);
      assert after[k] == bs[i + 1 + k];
      if Owner(d.mem[..], next) != 0 {
        break;
      }
      SpanOne(after, k);
      room := room + 1 + Size(d.mem[..], next);
      at, k := next, k + 1;
    }
    WalkIsSafe(d.mem[..], d.arena, bs, i + k);
    assert k == Lead(after);
  }

  lemma SpanNone(bs: seq<Block>)
    ensures Span(bs, 0) == 0
  {
  }

  lemma SpanOne(bs: seq<Block>, k: nat)
    requires k < |bs|
    ensures Span(bs, k + 1) == Span(bs, k) + 1 + bs[k].size
  {
  }

  /** Whether the running program may resize its own block, if ES names it, to nothing. */
  method MayGiveAll(d: Dos) returns (may: bool)
    requires d.Valid() && d.es == d.psp
    ensures may <==> forall i :: OwnBlock(d.blocks, i, d.psp) ==> SafeAtNothing(d.blocks, i, d.psp)
  {
    hide Represents, Chain, Owner, Size, Kind, McbValid, RunSize;
    var m, i := d.Find();
    if m < 0 {
      return true;
    }
    var seg: Word := m;
    forall j | OwnBlock(d.blocks, j, d.psp) ensures i == j {
      OneBlock(d.arena, d.mem[..], d.blocks, i, j);
    }
    assert OwnBlock(d.blocks, i, d.psp);
    var room := Room(d, seg, i);
    WalkIsSafe(d.mem[..], d.arena, d.blocks, i);
    if room > 0 {
      may := d.psp % 256 == 0 && (room - 1) % 256 == d.psp / 256;
    } else if Kind(d.mem[..], seg) == KIND_Z {
      may := true;
    } else {
      WalkIsSafe(d.mem[..], d.arena, d.blocks, i + 1);
      var next := seg + 1 + Size(d.mem[..], seg);
      may := Owner(d.mem[..], next) / 256 == d.psp % 256 && Size(d.mem[..], next) % 256 == d.psp / 256;
    }
  }

  lemma OneBlock(arena: nat, m: Memory, bs: seq<Block>, i: nat, j: nat)
    requires Represents(m, arena, bs) && i < |bs| && j < |bs| && bs[i].seg == bs[j].seg
    ensures i == j
  {
    if i != j {
      SegsDiffer(arena, bs, i, j);
    }
  }

  // ----- runs -----

  ghost function Now(d: Dos, parents: seq<Word>): Moment
    reads d, d.mem
    requires d.Valid()
  {
    Moment(d.mem[..], d.blocks, d.psp, parents)
  }

  /** Between two events: EXEC is not under way. */
  ghost predicate Steady(d: Dos, parents: seq<Word>)
    reads d, d.mem
  {
    && d.Valid() && d.NobodySuspended() && d.psp != SUSPENDED
    && forall i :: 0 <= i < |parents| ==> parents[i] != 0 && parents[i] != SUSPENDED
  }

  method StepAlloc(d: Dos, paras: Word, ghost parents: seq<Word>)
    requires Steady(d, parents)
    modifies d, d.mem
    ensures Steady(d, parents) && Stepped(Alloc(paras), old(Now(d, parents)), Now(d, parents))
  {
    hide Represents, OnlyIn, MaxRun, Owned, Segs, DataStays;
    ghost var s := Now(d, parents);
    d.bx := paras;
    d.Allocate();
    PlainStays(Alloc(paras), d.arena, s, Now(d, parents));
  }

  method StepFree(d: Dos, seg: Word, ghost parents: seq<Word>)
    requires Steady(d, parents)
    modifies d, d.mem
    ensures Steady(d, parents) && Stepped(Free(seg), old(Now(d, parents)), Now(d, parents))
  {
    hide Represents, OnlyIn, Owned, Segs, DataStays;
    ghost var s := Now(d, parents);
    d.es := seg;
    d.FreeBlock();
    OnlyInMore(s.mem, d.mem[..], Segs(s.blocks), Segs(s.blocks) + Segs(d.blocks));
    PlainStays(Free(seg), d.arena, s, Now(d, parents));
  }

  method StepRealloc(d: Dos, seg: Word, paras: Word, ghost parents: seq<Word>)
    requires Steady(d, parents)
    modifies d, d.mem
    ensures Steady(d, parents) && Stepped(Realloc(seg, paras), old(Now(d, parents)), Now(d, parents))
  {
    hide Represents, Chain, OnlyIn, Owned, Segs, DataStays, SetPspEnd, SafeAtNothing, RunSize;
    ghost var s, e := Now(d, parents), Realloc(seg, paras);
    d.es, d.bx := seg, paras;
    if seg == d.psp && paras == 0 {
      var may := MayGiveAll(d);
      if !may {
        return;
      }
    }
    assert !Ruinous(e, s);
    var clean, at := d.Resize();
    if at < 0 {
      NotResized(e, d.arena, s, Now(d, parents));
    } else {
      assert OwnBlock(s.blocks, at, seg);
      OwnerWasThere(s.blocks, at);
      ghost var x := Block(seg - 1, if d.cf then RunSize(s.blocks[at..]) else d.bx, s.blocks[at].owner);
      OwnedIn(d.blocks, x);
      ChainIs(clean, d.arena, d.blocks);
      Resized(e, d.arena, s, Now(d, parents), at, x);
      TellStays(e, d.arena, s, Now(d, parents), clean, x, (seg + x.size) % 0x1_0000);
    }
  }

  lemma OwnerWasThere(bs: seq<Block>, i: nat)
    requires i < |bs| && bs[i].owner != 0
    ensures bs[i] in Owned(bs)
  {
  }

  lemma OwnedIn(bs: seq<Block>, x: Block)
    requires x in Owned(bs)
    ensures x in bs
  {
  }

  lemma ChainIs(m: Memory, arena: nat, bs: seq<Block>)
    requires Represents(m, arena, bs)
    ensures Chain(arena, bs)
  {
  }

  method StepSpawn(d: Dos, e: Event, parents: seq<Word>) returns (after: seq<Word>)
    requires Steady(d, parents) && e.Spawn?
    modifies d, d.mem
    ensures Steady(d, after) && Stepped(e, old(Now(d, parents)), Now(d, after))
  {
    hide Represents, OnlyIn, Owned, Segs, DataStays, DataKept;
    ghost var s := Now(d, parents);
    var child, _, _ := d.Exec(e.envParas, e.min, e.max, e.loads);
    after := parents;
    if child != 0 {
      after := [d.psp] + parents;
      d.psp := child;
    }
    KeptStays(e, s, Now(d, after));
  }

  method StepExit(d: Dos, parents: seq<Word>) returns (after: seq<Word>)
    requires Steady(d, parents)
    modifies d, d.mem
    ensures Steady(d, after) && Stepped(Exit, old(Now(d, parents)), Now(d, after))
  {
    hide Represents, OnlyIn, Owned, Segs, DataStays, DataKept;
    ghost var s := Now(d, parents);
    after := parents;
    if parents == [] {
      Dos.KeptAtFirst(s.mem, s.blocks);
      KeptStays(Exit, s, s);
      return;
    }
    d.Release(d.psp);
    OnlyInMore(s.mem, d.mem[..], Segs(s.blocks), Segs(s.blocks) + Segs(d.blocks));
    PlainStays(Exit, d.arena, s, Now(d, parents));
    d.psp, after := parents[0], parents[1..];
    SameStays(Exit, s, Now(d, parents), Now(d, after));
  }

  method StepPoke(d: Dos, a: nat, v: Byte, ghost parents: seq<Word>)
    requires Steady(d, parents)
    modifies d, d.mem
    ensures Steady(d, parents) && Stepped(Poke(a, v), old(Now(d, parents)), Now(d, parents))
  {
    hide Represents, OnlyIn, Owned, Segs;
    if a < MEM_SIZE {
      var header := d.IsHeader(a / 16);
      if !header {
        d.GuestWrite(a, v);
      }
    }
  }

  /** Any run keeps the chain a partition of the arena, moves only the blocks its events name, and leaves the data of
      all that stay. The one call that is not made is a program giving up all of its own block where memory would then
      not stand for the list. */
  method Run(d: Dos, events: seq<Event>) returns (ghost hist: seq<Moment>)
    requires Steady(d, [])
    modifies d, d.mem
    ensures d.Valid() && Chain(d.arena, d.blocks)
    ensures IsRun(d.arena, events, hist)
    ensures hist[0] == old(Now(d, [])) && hist[|events|].mem == d.mem[..] && hist[|events|].blocks == d.blocks
  {
    hide Represents, Chain, Stepped;
    var parents: seq<Word> := [];
    hist := [Now(d, [])];
    for n := 0 to |events|
      invariant Steady(d, parents) && |hist| == n + 1 && hist[0] == old(Now(d, [])) && hist[n] == Now(d, parents)
      invariant forall k :: 0 <= k <= n ==> Represents(hist[k].mem, d.arena, hist[k].blocks)
      invariant forall k :: 0 <= k < n ==> Stepped(events[k], hist[k], hist[k + 1])
    {
      match events[n] {
        case Alloc(paras) => StepAlloc(d, paras, parents);
        case Free(seg) => StepFree(d, seg, parents);
        case Realloc(seg, paras) => StepRealloc(d, seg, paras, parents);
        case Spawn(_, _, _, _) => parents := StepSpawn(d, events[n], parents);
        case Exit => parents := StepExit(d, parents);
        case Poke(a, v) => StepPoke(d, a, v, parents);
      }
      hist := hist + [Now(d, parents)];
    }
    d.ChainOf();
  }

  // ----- what a program can count on -----

  /** A block that no event between two moments frees or resizes, and whose owner does not end, is there still. */
  ghost predicate LeftAlone(events: seq<Event>, hist: seq<Moment>, n: nat, m: nat, b: Block)
    requires n <= m <= |events| < |hist|
  {
    forall k :: n <= k < m ==>
      && events[k] != Free(Seg(b)) && !(events[k].Realloc? && events[k].seg == Seg(b))
      && !(events[k].Exit? && hist[k].parents != [] && hist[k].psp == b.owner)
  }

  /** The segment a program knows a block by. */
  function Seg(b: Block): Word
  {
    (b.seg + 1) % 0x1_0000
  }

  lemma {:induction false} StaysOwned(arena: nat, events: seq<Event>, hist: seq<Moment>, n: nat, m: nat, b: Block)
    requires IsRun(arena, events, hist) && n <= m <= |events|
    requires b in Owned(hist[n].blocks) && LeftAlone(events, hist, n, m, b)
    ensures forall k :: n <= k <= m ==> b in Owned(hist[k].blocks)
    decreases m - n
  {
    hide Represents, Owned, DataStays;
    if n < m {
      BlockBelowTop(arena, hist[n], b);
      StepKeeps(events[n], hist[n], hist[n + 1], b);
      StaysOwned(arena, events, hist, n + 1, m, b);
    }
  }

  lemma StepKeeps(e: Event, s: Moment, t: Moment, b: Block)
    requires Stepped(e, s, t) && b in Owned(s.blocks) && b.seg + 1 < 0x1_0000
    requires e != Free(Seg(b)) && !(e.Realloc? && e.seg == Seg(b))
    requires !(e.Exit? && s.parents != [] && s.psp == b.owner)
    ensures b in Owned(t.blocks)
  {
    hide Owned, DataStays, Ruinous;
    if e.Realloc? && !Ruinous(e, s) {
      assert b in Dos.Others(s.blocks, e.seg - 1);
    }
  }

  lemma BlockBelowTop(arena: nat, s: Moment, b: Block)
    requires Represents(s.mem, arena, s.blocks) && b in Owned(s.blocks)
    ensures b.seg + 1 < 0x1_0000 && 16 * Next(b) <= MEM_SIZE
  {
    var i :| 0 <= i < |s.blocks| && s.blocks[i] == b;
    ChainBelowTop(arena, s.blocks, i);
  }

  /** And what its program has in it is there too, whatever other programs do, until it writes there itself. */
  lemma {:induction false} DataLives(arena: nat, events: seq<Event>, hist: seq<Moment>, n: nat, m: nat, b: Block,
                                     a: nat)
    requires IsRun(arena, events, hist) && n <= m <= |events|
    requires b in Owned(hist[n].blocks) && LeftAlone(events, hist, n, m, b) && InData(b, a) && a < MEM_SIZE
    requires forall k :: n <= k < m && events[k].Poke? ==> events[k].a != a
    ensures b in Owned(hist[m].blocks) && hist[m].mem[a] == hist[n].mem[a]
    decreases m - n
  {
    hide Represents, Owned, OwnersStay;
    StaysOwned(arena, events, hist, n, m, b);
    if n < m {
      BlockBelowTop(arena, hist[n], b);
      var s, t := hist[n], hist[n + 1];
      assert Stepped(events[n], s, t);
      assert !Changes(events[n], s, b, a);
      assert s.mem[a] == t.mem[a];
      DataLives(arena, events, hist, n + 1, m, b, a);
    }
  }
}

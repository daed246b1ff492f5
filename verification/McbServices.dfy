/**
 The DOS memory services (INT 21h functions 48h, 49h and 4Ah) and what EXEC does to the
 arena, over headers in guest memory (userland/dosrun/dosapi.c).
 */
module McbServices {
  import opened Mcb
  import opened McbGaps

  const SUSPENDED: Word := NOBODY
  const PSP_MEMSIZE := 2

  ghost predicate HasFree(bs: seq<Block>)
  {
    exists i :: 0 <= i < |bs| && bs[i].owner == 0
  }

  /** No two free blocks are next to each other. */
  ghost predicate Coalesced(bs: seq<Block>)
  {
    forall i :: 0 <= i < |bs| - 1 ==> bs[i].owner != 0 || bs[i + 1].owner != 0
  }

  function Larger(a: nat, b: nat): nat
  {
    if a > b then a else b
  }

  /** Memory with the word at psp:2, where a program finds the end of its block, set. */
  function SetPspEnd(m: Memory, psp: Word, v: Word): Memory
  {
    m[16 * psp + PSP_MEMSIZE := v % 256][16 * psp + PSP_MEMSIZE + 1 := v / 256]
  }

  /** A byte of a block's data. */
  predicate InData(b: Block, a: int)
  {
    16 * (b.seg + 1) <= a < 16 * Next(b)
  }

  /** The data of every owned block is as it was. */
  ghost predicate DataKept(m: Memory, m': Memory, bs: seq<Block>)
  {
    forall b, a :: b in Owned(bs) && InData(b, a) && a < MEM_SIZE ==> m[a] == m'[a]
  }

  /** A paragraph of a free block's data. */
  ghost predicate InFree(bs: seq<Block>, p: int)
  {
    exists i :: 0 <= i < |bs| && bs[i].owner == 0 && bs[i].seg < p < Next(bs[i])
  }

  /** The paragraphs that are nobody's: headers, and free memory. */
  ghost function Nobodys(bs: seq<Block>): set<int>
  {
    Segs(bs) + set p: int | 0 <= p < TOP && InFree(bs, p)
  }

  class Dos {
    const mem: array<Byte>
    const arena: nat
    var psp: Word
    var ax: Word
    var bx: Word
    var es: Word
    var cf: bool
    ghost var blocks: seq<Block>

    ghost predicate Valid()
      reads this, mem
    {
      mem.Length == MEM_SIZE && psp != 0 && Represents(mem[..], arena, blocks)
    }

    // ----- the header accessors -----

    method WriteKind(seg: Word, v: Byte)
      requires mem.Length == MEM_SIZE
      modifies mem
      ensures mem[..] == SetKind(old(mem[..]), seg, v)
    {
      mem[16 * seg] := v;
    }

    method WriteOwner(seg: Word, v: Word)
      requires mem.Length == MEM_SIZE
      modifies mem
      ensures mem[..] == SetOwner(old(mem[..]), seg, v)
    {
      mem[16 * seg + 1] := v % 256;
      mem[16 * seg + 2] := v / 256;
    }

    method WriteSize(seg: Word, v: Word)
      requires mem.Length == MEM_SIZE
      modifies mem
      ensures mem[..] == SetSize(old(mem[..]), seg, v)
    {
      mem[16 * seg + 3] := v % 256;
      mem[16 * seg + 4] := v / 256;
    }

    // ----- joining and splitting -----

    /** Joins the free blocks that follow a block to it. */
    method Join(seg: Word, ghost i: nat)
      requires Valid() && i < |blocks| && blocks[i].seg == seg
      modifies mem, this`blocks
      ensures Valid()
      ensures blocks == Joined(old(blocks), i)
      ensures OnlyIn(old(mem[..]), mem[..], {seg as int})
    {
      hide Represents, Chain, Owner, Size, Kind, SetKind, SetSize, McbValid, Span, Merged;
      ghost var bs, k := blocks, 0;
      JoinNone(bs, i);
      WalkIsSafe(mem[..], arena, blocks, i);
      while Kind(mem[..], seg) == KIND_M
        invariant mem.Length == MEM_SIZE && Represents(mem[..], arena, blocks)
        invariant k <= Lead(bs[i + 1..]) && blocks == JoinedSome(bs, i, k) && blocks[i].seg == seg
        invariant Kind(mem[..], seg) == KIND_Z <==> i == |blocks| - 1
        invariant Kind(mem[..], seg) in {KIND_M, KIND_Z}
        invariant OnlyIn(old(mem[..]), mem[..], {seg as int})
        decreases |bs| - k
      {
        WalkIsSafe(mem[..], arena, blocks, i);
        var next := seg + 1 + Size(mem[..], seg);
        WalkIsSafe(mem[..], arena, blocks, i + 1);
        JoinMore(bs, i, k);
        assert bs[i + 1..][k] == bs[i + 1 + k];
        if !McbValid(mem[..], next) || Owner(mem[..], next) != 0 {
          break;
        }
        MergeRepresents(mem[..], arena, blocks, i);
        ghost var before := mem[..];
        WriteSize(seg, Size(mem[..], seg) + 1 + Size(mem[..], next));
        KindUnmoved(before, seg, Size(before, seg) + 1 + Size(before, next), next);
        WriteKind(seg, Kind(mem[..], next));
        assert mem[..] == MergedMemory(before, blocks[i], blocks[i + 1]);
        MergeOnlyIn(before, blocks[i], blocks[i + 1]);
        blocks := Merged(blocks, i);
        k := k + 1;
        WalkIsSafe(mem[..], arena, blocks, i);
      }
      if i == |blocks| - 1 {
        assert k == |bs| - i - 1;
      }
    }

    static lemma JoinNone(bs: seq<Block>, i: nat)
      requires i < |bs|
      ensures JoinedSome(bs, i, 0) == bs
    {
    }

    static lemma KindUnmoved(m: Memory, seg: Word, v: Word, t: Word)
      ensures Kind(SetSize(m, seg, v), t) == Kind(m, t)
    {
    }

    static lemma MergeOnlyIn(m: Memory, b: Block, c: Block)
      requires b.seg < TOP && c.seg < TOP && b.size + 1 + c.size < 0x1_0000
      ensures OnlyIn(m, MergedMemory(m, b, c), {b.seg as int})
    {
    }

    /** Cuts a block to `wanted` paragraphs, if it has more; the rest is free. */
    method Split(seg: Word, wanted: Word, ghost i: nat)
      requires Valid() && i < |blocks| && blocks[i].seg == seg
      modifies mem, this`blocks
      ensures Valid()
      ensures blocks == Trimmed(old(blocks), i, wanted)
      ensures OnlyIn(old(mem[..]), mem[..], Segs(blocks))
    {
      hide Represents, Chain, Owner, Size, Kind, SetKind, SetSize, SetOwner, Joined;
      WalkIsSafe(mem[..], arena, blocks, i);
      var size := Size(mem[..], seg);
      if wanted >= size {
        return;
      }
      ghost var before, bs := mem[..], blocks;
      CutRepresents(mem[..], arena, blocks, i, wanted);
      var next := seg + 1 + wanted;
      WriteKind(next, Kind(mem[..], seg));
      WriteOwner(next, 0);
      WriteSize(next, size - wanted - 1);
      WriteKind(seg, KIND_M);
      WriteSize(seg, wanted);
      assert mem[..] == CutMemory(before, blocks[i], wanted);
      CutOnlyIn(before, blocks[i], wanted);
      blocks := Cut(blocks, i, wanted);
      ghost var middle := mem[..];
      Join(next, i + 1);
      JoinedParts(Cut(bs, i, wanted), i + 1);
      hide OnlyIn;
      assert blocks[i + 1].seg == next && blocks[..i + 1][i].seg == seg;
      OnlyInTrans(before, middle, mem[..], {seg as int, next as int}, {next as int}, Segs(blocks));
    }

    static lemma CutOnlyIn(m: Memory, b: Block, wanted: nat)
      requires b.seg + 1 + wanted < TOP && wanted < b.size < 0x1_0000
      ensures OnlyIn(m, CutMemory(m, b, wanted), {b.seg as int, b.seg + 1 + wanted})
    {
    }

    /** Marks a block with an owner. */
    method Give(seg: Word, owner: Word, ghost i: nat)
      requires Valid() && i < |blocks| && blocks[i].seg == seg
      modifies mem, this`blocks
      ensures Valid()
      ensures blocks == Given(old(blocks), i, owner)
      ensures OnlyIn(old(mem[..]), mem[..], {seg as int})
    {
      hide Represents, Chain;
      GivenRepresents(mem[..], arena, blocks, i, owner);
      WriteOwner(seg, owner);
      blocks := Given(blocks, i, owner);
    }

    // ----- the services -----

    /** A walk along the chain has come to block i from the state (m0, bs0), having joined the free blocks
        it met: what is owned is as it was, only headers were written, and no free block passed has more
        than `most` paragraphs or another one after it. */
    ghost predicate Walking(m0: Memory, bs0: seq<Block>, i: nat, most: int)
      reads this, mem
    {
      Valid() && i < |blocks| && Seen(m0, mem[..], bs0, blocks, i, most)
    }

    static ghost predicate Seen(m0: Memory, m: Memory, bs0: seq<Block>, bs: seq<Block>, i: nat, most: int)
    {
      && i <= |bs| && Segs(bs) <= Segs(bs0) && OnlyIn(m0, m, Segs(bs0)) && Owned(bs) == Owned(bs0)
      && CoalescedTo(bs, i)
      && forall j :: 0 <= j < i && bs[j].owner == 0 ==> bs[j].size <= most
    }

    static lemma SeenKept(m0: Memory, m: Memory, bs0: seq<Block>, bs: seq<Block>, i: nat, most: int)
      requires Seen(m0, m, bs0, bs, i, most)
      ensures OnlyIn(m0, m, Segs(bs0) + Segs(bs)) && Owned(bs) == Owned(bs0)
    {
      hide OnlyIn;
      OnlyInMore(m0, m, Segs(bs0), Segs(bs0) + Segs(bs));
    }

    /** One block further. */
    static lemma Onward(m0: Memory, m: Memory, bs0: seq<Block>, bs: seq<Block>, i: nat, most: int, more: int)
      requires Seen(m0, m, bs0, bs, i, most) && i < |bs| && most <= more
      requires bs[i].owner == 0 ==> bs[i].size <= more && (i + 1 < |bs| ==> bs[i + 1].owner != 0)
      ensures Seen(m0, m, bs0, bs, i + 1, more)
    {
      hide OnlyIn;
    }

    /** A walk that stops at the first free block of `need` paragraphs has found the lowest gap that has them. */
    lemma Found(m0: Memory, bs0: seq<Block>, i: nat, most: int, need: nat)
      requires Walking(m0, bs0, i, most) && blocks[i].owner == 0 && blocks[i].size >= need > most
      requires i + 1 < |blocks| ==> blocks[i + 1].owner != 0
      ensures LowestGap(arena, Owned(bs0), need, blocks[i].seg, blocks[i].size)
      ensures LowestPlace(arena, Owned(bs0), need, blocks[i].seg) && HasRoom(arena, Owned(bs0), need)
      ensures HasGap(arena, Owned(bs0), blocks[i].size)
    {
      ChainOf();
      hide Represents, Chain, Owned, Segs, OnlyIn, Gap;
      assert i > 0 ==> blocks[i - 1].owner != 0;
      GapHere(arena, blocks, i);
      forall t: nat, k: nat | Gap(arena, Owned(bs0), t, k) && k >= need
        ensures blocks[i].seg <= t
      {
        if t < blocks[i].seg {
          var j := GapIsBlock(arena, blocks, i, t, k);
          assert false;
        }
      }
    }

    /** A walk that has come to the end has seen every gap. */
    lemma SeenAll(m0: Memory, bs0: seq<Block>, most: int)
      requires Valid() && Seen(m0, mem[..], bs0, blocks, |blocks|, most)
      ensures NoneLarger(arena, Owned(bs0), most)
      ensures forall need: nat :: need > most ==> !HasRoom(arena, Owned(bs0), need)
    {
      ChainOf();
      hide Represents, Chain, Owned, Segs, OnlyIn, Taken;
      forall s: nat, n: nat | Gap(arena, Owned(bs0), s, n)
        ensures n <= most
      {
        var j := GapIsBlock(arena, blocks, |blocks|, s, n);
      }
    }

    /** Walks to the first free block of `wanted` paragraphs, if that is not 0: -1 if there is none. `largest` is what
        the free blocks before it have at most. */
    method Search(wanted: Word) returns (m: int, largest: nat, ghost i: nat)
      requires Valid()
      modifies mem, this`blocks
      ensures Valid() && largest < 0x1_0000 && (wanted > 0 ==> largest < wanted)
      ensures m >= 0 ==> && Walking(old(mem[..]), old(blocks), i, largest) && blocks[i].seg == m < TOP
                         && blocks[i].owner == 0 && (i + 1 < |blocks| ==> blocks[i + 1].owner != 0)
                         && 0 < wanted <= blocks[i].size <= MaxRun(old(blocks))
      ensures m < 0 ==> && Seen(old(mem[..]), mem[..], old(blocks), blocks, |blocks|, largest)
                        && largest == MaxRun(old(blocks)) == MaxRun(blocks)
                        && (largest > 0 ==> HasGap(arena, Owned(old(blocks)), largest))
    {
      hide Represents, Chain, Owner, Size, Kind, McbValid, Joined, MaxRun, Owned, Segs, OnlyIn, Seen, HasGap, LowestGap,
        LowestPlace, HasRoom;
      largest := 0;
      var at := arena;
      i := 0;
      Start(0);
      while at < TOP
        invariant Walking(old(mem[..]), old(blocks), i, largest) && at == blocks[i].seg
        invariant MaxRun(old(blocks)) == Larger(largest, MaxRun(blocks[i..])) && MaxRun(blocks) == MaxRun(old(blocks))
        invariant wanted > 0 ==> largest < wanted
        invariant largest > 0 ==> HasGap(arena, Owned(old(blocks)), largest)
        invariant largest < 0x1_0000 && at < TOP
        decreases |blocks| - i
      {
        WalkIsSafe(mem[..], arena, blocks, i);
        var seg: Word := at;
        assert McbValid(mem[..], seg);
        MaxRunStep(blocks, i);
        if Owner(mem[..], seg) == 0 {
          MaxRunJoined(blocks, i);
          Look(seg, old(mem[..]), old(blocks), i, largest);
          var size := Size(mem[..], seg);
          if wanted > 0 && size >= wanted {
            m := seg;
            return;
          }
          Onward(old(mem[..]), mem[..], old(blocks), blocks, i, largest, Larger(largest, size));
          if size > largest {
            Found(old(mem[..]), old(blocks), i, largest, size);
            largest := size;
          }
        } else {
          Onward(old(mem[..]), mem[..], old(blocks), blocks, i, largest, largest);
        }
        assert MaxRun(old(blocks)) == Larger(largest, MaxRun(blocks[i + 1..]));
        WalkIsSafe(mem[..], arena, blocks, i);
        if Kind(mem[..], seg) == KIND_Z {
          Ended(i);
          break;
        }
        at := at + 1 + Size(mem[..], seg);
        i := i + 1;
        WalkIsSafe(mem[..], arena, blocks, i);
      }
      m := -1;
    }

    /** Function 48h: BX paragraphs for the current program, from the lowest free space that has
        them. It fails just when no free space does, and then says how much the largest has. */
    method Allocate()
      requires Valid()
      modifies mem, this`blocks, this`ax, this`bx, this`cf
      ensures Valid()
      ensures cf <==> !(0 < old(bx) <= MaxRun(old(blocks)))
      ensures cf <==> old(bx) == 0 || !HasRoom(arena, Owned(old(blocks)), old(bx))
      ensures cf ==> ax == 8 && bx == MaxRun(old(blocks)) == MaxRun(blocks) && Owned(blocks) == Owned(old(blocks))
      ensures cf ==> && NoneLarger(arena, Owned(old(blocks)), bx)
                     && (bx > 0 ==> HasGap(arena, Owned(old(blocks)), bx))
      ensures !cf ==> ax > 0 && LowestPlace(arena, Owned(old(blocks)), bx, ax - 1)
      ensures !cf ==> && bx == old(bx) && ax > 0
                      && Owned(blocks) == Owned(old(blocks)) + {Block(ax - 1, bx, psp)}
                      && (forall b :: b in Owned(old(blocks)) ==> b.seg != ax - 1)
                      && (forall b :: b in blocks && b.owner == 0 && b.seg < ax - 1 ==> b.size < bx)
      ensures OnlyIn(old(mem[..]), mem[..], Segs(old(blocks)) + Segs(blocks))
    {
      hide Represents, Chain, MaxRun, Owned, Segs, OnlyIn, Seen, LowestGap, LowestPlace, HasRoom, HasGap, NoneLarger;
      var wanted := bx;
      var m, largest, i := Search(wanted);
      if m >= 0 {
        Found(old(mem[..]), old(blocks), i, largest, wanted);
        Grant(m, wanted, psp, old(mem[..]), old(blocks), i, largest);
        ax, cf := m + 1, false;
      } else {
        SeenAll(old(mem[..]), old(blocks), largest);
        SeenKept(old(mem[..]), mem[..], old(blocks), blocks, |blocks|, largest);
        ax, bx, cf := 8, largest, true;
      }
    }

    /** Looks at a free block on a walk: it is joined to those after it. */
    method Look(m: Word, ghost m0: Memory, ghost bs0: seq<Block>, ghost i: nat, ghost most: int)
      requires Walking(m0, bs0, i, most) && blocks[i].seg == m && blocks[i].owner == 0
      modifies mem, this`blocks
      ensures Walking(m0, bs0, i, most) && blocks == Joined(old(blocks), i) && |blocks| <= |old(blocks)|
      ensures blocks[i].seg == m && blocks[i].owner == 0 && Size(mem[..], m) == blocks[i].size
      ensures i + 1 < |blocks| ==> blocks[i + 1].owner != 0
      ensures blocks[..i] == old(blocks)[..i]
    {
      hide Represents, Chain, Joined, OnlyIn, RunSize, Lead, Owner, Size, Kind, McbValid, Owned, Segs;
      ghost var before, bs := mem[..], blocks;
      Join(m, i);
      Looked(m0, before, mem[..], bs0, bs, i);
      assert forall j :: 0 <= j < i ==> blocks[j] == blocks[..i][j] == bs[j];
      WalkIsSafe(mem[..], arena, blocks, i);
    }

    /** Ends a walk at a free block, with `wanted` of its paragraphs going to an owner. */
    method Grant(m: Word, wanted: Word, owner: Word, ghost m0: Memory, ghost bs0: seq<Block>, ghost i: nat,
                 ghost most: int)
      requires Walking(m0, bs0, i, most) && blocks[i].seg == m && blocks[i].owner == 0 && owner != 0
      modifies mem, this`blocks
      ensures Valid()
      ensures var got := if wanted < old(blocks)[i].size then wanted as nat else old(blocks)[i].size;
              Owned(blocks) == Owned(bs0) + {Block(m, got, owner)}
      ensures forall b :: b in Owned(bs0) ==> b.seg != m
      ensures forall b :: b in blocks && b.owner == 0 && b.seg < m ==> b.size <= most
      ensures OnlyIn(m0, mem[..], Segs(bs0) + Segs(blocks))
    {
      hide Represents, Chain, OnlyIn, Owned, Segs, Trimmed;
      ghost var before, bs := mem[..], blocks;
      TakenFree(i, wanted, owner);
      Take(m, wanted, owner, i);
      OnlyInTrans(m0, before, mem[..], Segs(bs0), Segs(blocks), Segs(bs0) + Segs(blocks));
      Lowest(i, most + 1, bs);
    }

    /** Takes `wanted` paragraphs of a free block for an owner. */
    method Take(m: Word, wanted: Word, owner: Word, ghost i: nat)
      requires Valid() && i < |blocks| && blocks[i].seg == m
      modifies mem, this`blocks
      ensures Valid()
      ensures i < |Trimmed(old(blocks), i, wanted)| && blocks == Given(Trimmed(old(blocks), i, wanted), i, owner)
      ensures i < |blocks| && blocks[..i] == old(blocks)[..i] && blocks[i].seg == m
      ensures OnlyIn(old(mem[..]), mem[..], Segs(blocks))
    {
      hide Represents, Chain, OnlyIn, Trimmed, Segs;
      TrimmedParts(blocks, i, wanted);
      ghost var m0 := mem[..];
      Split(m, wanted, i);
      ghost var m1, bs1 := mem[..], blocks;
      SegsHas(blocks, i);
      SegsGiven(blocks, i, owner);
      Give(m, owner, i);
      OnlyInTrans(m0, m1, mem[..], Segs(bs1), {m as int}, Segs(bs1));
    }

    /** On a walk: the free block i, joined, is still free, and what is owned and where the headers
        are is as it was. */
    static lemma Looked(m0: Memory, m1: Memory, m2: Memory, bs0: seq<Block>, bs: seq<Block>, i: nat)
      requires i < |bs| && bs[i].owner == 0 && Segs(bs) <= Segs(bs0) && Owned(bs) == Owned(bs0)
      requires OnlyIn(m0, m1, Segs(bs0)) && OnlyIn(m1, m2, {bs[i].seg as int})
      ensures var js := Joined(bs, i);
              && i < |js| <= |bs| && js[..i] == bs[..i] && js[i].seg == bs[i].seg && js[i].owner == 0
              && Segs(js) <= Segs(bs0) && Owned(js) == Owned(bs0) && OnlyIn(m0, m2, Segs(bs0))
              && (i + 1 < |js| ==> js[i + 1].owner != 0)
    {
      hide Joined, OnlyIn, RunSize, Lead, Owned, Segs;
      JoinedParts(bs, i);
      OwnedLooked(bs, i);
      SegsHas(bs, i);
      OnlyInTrans(m0, m1, m2, Segs(bs0), {bs[i].seg as int}, Segs(bs0));
    }

    lemma TakenFree(i: nat, wanted: nat, owner: nat)
      requires Valid() && i < |blocks| && blocks[i].owner == 0 && owner != 0
      ensures var ts := Trimmed(blocks, i, wanted);
              var got := if wanted < blocks[i].size then wanted else blocks[i].size;
              i < |ts| && Owned(Given(ts, i, owner)) == Owned(blocks) + {Block(blocks[i].seg, got, owner)}
      ensures forall b :: b in Owned(blocks) ==> b.seg != blocks[i].seg
    {
      hide Represents, Chain, Trimmed, Owned;
      RestNotHere(i);
      OwnedParts(blocks, i);
      OwnedSingle(blocks[i]);
      OwnedTaken(blocks, i, wanted, owner);
      OwnedSingle(Block(blocks[i].seg, if wanted < blocks[i].size then wanted else blocks[i].size, owner));
    }

    /** No other block has the header of the i-th. */
    lemma RestNotHere(i: nat)
      requires Valid() && i < |blocks|
      ensures forall b :: b in Owned(blocks[..i]) || b in Owned(blocks[i + 1..]) ==> b.seg != blocks[i].seg
    {
      NotElsewhere(arena, blocks, i);
    }

    static lemma SegsHas(bs: seq<Block>, i: nat)
      requires i < |bs|
      ensures bs[i].seg as int in Segs(bs)
    {
    }

    static lemma SegsGiven(bs: seq<Block>, i: nat, owner: nat)
      requires i < |bs|
      ensures Segs(Given(bs, i, owner)) == Segs(bs)
    {
      var gs := Given(bs, i, owner);
      assert forall j :: 0 <= j < |bs| ==> gs[j].seg == bs[j].seg;
      forall x ensures x in Segs(gs) <==> x in Segs(bs) {
        if j :| 0 <= j < |bs| && gs[j].seg == x {
          assert bs[j].seg == x;
        }
        if j :| 0 <= j < |bs| && bs[j].seg == x {
          assert gs[j].seg == x;
        }
      }
    }

    /** Where a walk starts. */
    lemma Start(most: int)
      requires Valid()
      ensures blocks != [] && blocks[0].seg == arena && arena < TOP && blocks[0..] == blocks
      ensures OnlyIn(mem[..], mem[..], Segs(blocks)) && Seen(mem[..], mem[..], blocks, blocks, 0, most)
    {
      WalkIsSafe(mem[..], arena, blocks, 0);
    }

    /** Where it ends: nothing is left to look at. */
    lemma Ended(i: nat)
      requires Valid() && i == |blocks| - 1
      ensures blocks[i + 1..] == [] && MaxRun(blocks[i + 1..]) == 0
    {
    }

    /** On a walk that has looked at every free block before i, those are too small. */
    lemma Lowest(i: nat, wanted: int, bs: seq<Block>)
      requires Valid() && i < |blocks| && i <= |bs| && blocks[..i] == bs[..i]
      requires forall j :: 0 <= j < i && bs[j].owner == 0 ==> bs[j].size < wanted
      ensures forall b :: b in blocks && b.owner == 0 && b.seg < blocks[i].seg ==> b.size < wanted
    {
      forall b | b in blocks && b.owner == 0 && b.seg < blocks[i].seg ensures b.size < wanted {
        var j :| 0 <= j < |blocks| && blocks[j] == b;
        if j > i {
          ChainOrder(arena, blocks, i, j);
        } else if j < i {
          assert blocks[j] == blocks[..i][j] == bs[j];
        }
      }
    }

    /** What is owned, but for the block whose header is at `seg`. */
    static function Others(bs: seq<Block>, seg: int): set<Block>
    {
      set b | b in Owned(bs) && b.seg != seg
    }

    lemma OthersAreRest(i: nat)
      requires Valid() && i < |blocks|
      ensures Owned(blocks[..i]) + Owned(blocks[i + 1..]) == Others(blocks, blocks[i].seg)
    {
      RestNotHere(i);
      OwnedParts(blocks, i);
    }

    /** The block that ES names, if it is owned: -1 if there is none. */
    method Find() returns (m: int, ghost i: nat)
      requires Valid()
      ensures m < 0 <==> forall b :: b in Owned(blocks) ==> b.seg + 1 != es
      ensures m < 0 ==> forall j :: 0 <= j < |blocks| && blocks[j].owner != 0 ==> blocks[j].seg + 1 != es
      ensures m >= 0 ==> i < |blocks| && blocks[i].seg == m == es - 1 && blocks[i].owner != 0
    {
      hide Represents, Chain, Owner, Size, Kind, McbValid;
      var at := arena;
      i := 0;
      Start(0);
      while at < TOP
        invariant i < |blocks| && at == blocks[i].seg && at < TOP
        invariant forall j :: 0 <= j < i && blocks[j].owner != 0 ==> blocks[j].seg + 1 != es
        decreases |blocks| - i
      {
        WalkIsSafe(mem[..], arena, blocks, i);
        var seg: Word := at;
        assert McbValid(mem[..], seg);
        if seg + 1 == es && Owner(mem[..], seg) != 0 {
          assert blocks[i] in Owned(blocks);
          m := seg;
          return;
        }
        if Kind(mem[..], seg) == KIND_Z {
          break;
        }
        at := at + 1 + Size(mem[..], seg);
        i := i + 1;
        WalkIsSafe(mem[..], arena, blocks, i);
      }
      m := -1;
    }

    /** Function 49h: frees the block ES names. Only that block stops being owned. */
    method FreeBlock()
      requires Valid()
      modifies mem, this`blocks, this`ax, this`cf
      ensures Valid()
      ensures cf <==> forall b :: b in Owned(old(blocks)) ==> b.seg + 1 != es
      ensures cf ==> ax == 9 && blocks == old(blocks) && mem[..] == old(mem[..])
      ensures Owned(blocks) == Others(old(blocks), es - 1)
      ensures OnlyIn(old(mem[..]), mem[..], Segs(old(blocks)))
    {
      hide Represents, Chain, OnlyIn, Joined, Segs, Owned;
      var m, i := Find();
      if m < 0 {
        ax, cf := 9, true;
        NoneChanged(mem[..], blocks);
        return;
      }
      ghost var m0, bs0 := mem[..], blocks;
      FreedOwned(i);
      SegsHas(blocks, i);
      SegsGiven(blocks, i, 0);
      Give(m, 0, i);
      ghost var m1 := mem[..];
      Join(m, i);
      OnlyInTrans(m0, m1, mem[..], {m}, {m}, Segs(bs0));
      cf := false;
    }

    static lemma NoneChanged(m: Memory, bs: seq<Block>)
      ensures OnlyIn(m, m, Segs(bs))
    {
    }

    lemma FreedOwned(i: nat)
      requires Valid() && i < |blocks|
      ensures Owned(Joined(Given(blocks, i, 0), i)) == Others(blocks, blocks[i].seg)
    {
      hide Represents, Chain, Owned, Joined;
      var gs := Given(blocks, i, 0);
      OthersAreRest(i);
      OwnedParts(gs, i);
      OwnedSingle(gs[i]);
      OwnedLooked(gs, i);
      assert gs[..i] == blocks[..i] && gs[i + 1..] == blocks[i + 1..];
    }

    /** Function 4Ah: makes the block ES names BX paragraphs, growing it into the free blocks after it.
        `clean` is memory before a program that resizes its own block is told of its new end: the
        chain there stands for the list, and no other owned block has changed. */
    method Resize() returns (ghost clean: Memory, ghost at: int)
      requires Valid()
      modifies mem, this`blocks, this`ax, this`bx, this`cf
      ensures Represents(clean, arena, blocks)
      ensures at < 0 <==> forall b :: b in Owned(old(blocks)) ==> b.seg + 1 != es
      ensures at < 0 ==> cf && ax == 9 && blocks == old(blocks) && mem[..] == clean == old(mem[..])
      ensures at >= 0 ==>
                && at < |old(blocks)| && old(blocks)[at].owner != 0 && old(blocks)[at].seg + 1 == es
                && var room := RunSize(old(blocks)[at..]);
                && Reaches(Owned(old(blocks)), old(blocks)[at], room)
                && (cf <==> room < old(bx))
                && (cf ==> ax == 8 && bx == room && mem[..] == clean)
                && (!cf ==> bx == old(bx))
                && (!cf ==> mem[..] == if es == psp then SetPspEnd(clean, psp, (es + bx) % 0x1_0000) else clean)
                && Owned(blocks) == Others(old(blocks), es - 1)
                                    + {Block(es - 1, if cf then room else bx, old(blocks)[at].owner)}
                && (es == psp && old(bx) == 0 ==> (Valid() <==> SafeAtNothing(old(blocks), at, psp)))
      ensures OnlyIn(old(mem[..]), clean, Segs(old(blocks)) + Segs(blocks))
      ensures es != psp || old(bx) != 0 ==> Valid()
    {
      hide Represents, Chain, OnlyIn, Joined, Segs, Owned, Trimmed, SetPspEnd, RunSize, Owner, Kind, Size, McbValid,
        Lead, SafeAtNothing, Reaches;
      var m, i := Find();
      at, clean := -1, mem[..];
      if m < 0 {
        ax, cf := 9, true;
        NoneChanged(clean, blocks);
        OnlyInMore(clean, clean, Segs(blocks), Segs(blocks) + Segs(blocks));
        return;
      }
      at := i;
      ghost var m0, bs0 := mem[..], blocks;
      ChainOf();
      RunReaches(arena, blocks, i);
      GrownOwned(i);
      SegsHas(blocks, i);
      Join(m, i);
      clean := mem[..];
      OnlyInMore(m0, clean, {m}, Segs(bs0) + Segs(blocks));
      WalkIsSafe(mem[..], arena, blocks, i);
      var size := Size(mem[..], m);
      if size < bx {
        ax, bx, cf := 8, size, true;
        return;
      }
      ghost var m1 := mem[..];
      CutOwned(blocks, i, bx);
      Split(m, bx, i);
      clean := mem[..];
      OnlyInTrans(m0, m1, clean, {m}, Segs(blocks), Segs(bs0) + Segs(blocks));
      cf := false;
      if m + 1 == psp {
        TellEnd(m + 1 + bx, bs0, i);
      }
    }

    /** Tells the program whose block was just resized where it ends. */
    method TellEnd(end: nat, ghost bs0: seq<Block>, ghost i: nat)
      requires Valid() && i < |blocks| && blocks[i].seg + 1 == psp && end == psp + blocks[i].size
      requires i < |bs0| && bs0[i].seg + 1 == psp && i < |Joined(bs0, i)|
               && blocks == Trimmed(Joined(bs0, i), i, blocks[i].size)
      modifies mem
      ensures mem[..] == SetPspEnd(old(mem[..]), psp, end % 0x1_0000)
      ensures blocks[i].size != 0 ==> Valid()
      ensures blocks[i].size == 0 ==> (Valid() <==> SafeAtNothing(bs0, i, psp))
    {
      hide Represents, Chain, Joined, Trimmed, SetPspEnd, SafeAtNothing;
      ghost var clean := mem[..];
      WritePspEnd(end % 0x1_0000);
      if blocks[i].size != 0 {
        PspEndInData(clean, i);
      } else {
        EndAtNothing(clean, arena, bs0, i, psp);
      }
    }

    method WritePspEnd(v: Word)
      requires mem.Length == MEM_SIZE
      modifies mem
      ensures mem[..] == SetPspEnd(old(mem[..]), psp, v)
    {
      mem[16 * psp + PSP_MEMSIZE] := v % 256;
      mem[16 * psp + PSP_MEMSIZE + 1] := v / 256;
    }

    /** The word at psp:2 is in the block's own data when the block has any. */
    lemma PspEndInData(m: Memory, i: nat)
      requires Represents(m, arena, blocks) && i < |blocks| && blocks[i].seg + 1 == psp && blocks[i].size != 0
      ensures forall v: Word :: Represents(SetPspEnd(m, psp, v), arena, blocks)
    {
      forall v: Word ensures Represents(SetPspEnd(m, psp, v), arena, blocks) {
        forall j | 0 <= j < |blocks| ensures blocks[j].seg != psp {
          if j != i {
            SegsDiffer(arena, blocks, i, j);
          }
        }
        PspEndKeepsChain(m, arena, blocks, psp, v);
      }
    }

    lemma GrownOwned(i: nat)
      requires Valid() && i < |blocks| && blocks[i].owner != 0
      ensures var js := Joined(blocks, i);
              && i < |js| && js[i] == Block(blocks[i].seg, RunSize(blocks[i..]), blocks[i].owner)
              && Owned(js[..i]) + Owned(js[i + 1..]) == Others(blocks, blocks[i].seg)
              && Owned(js) == Others(blocks, blocks[i].seg) + {js[i]}
    {
      hide Represents, Chain, Owned, Joined, RunSize, Lead;
      var js := Joined(blocks, i);
      OthersAreRest(i);
      JoinedParts(blocks, i);
      OwnedParts(js, i);
      OwnedSingle(js[i]);
    }

    static lemma CutOwned(js: seq<Block>, i: nat, wanted: nat)
      requires i < |js| && js[i].owner != 0 && wanted <= js[i].size
      ensures var ts := Trimmed(js, i, wanted);
              && i < |ts| && ts[i] == Block(js[i].seg, wanted, js[i].owner)
              && Owned(ts) == Owned(js[..i]) + Owned(js[i + 1..]) + {ts[i]}
    {
      hide Owned, Trimmed;
      TrimmedParts(js, i, wanted);
      OwnedParts(Trimmed(js, i, wanted), i);
      OwnedSingle(Trimmed(js, i, wanted)[i]);
    }

    /** EXEC's allocation: the lowest free space of at least `min` paragraphs, as much of it as `max`,
        marked as no program's yet. 0 when there is none. */
    method ExecAlloc(min: Word, max: Word) returns (r: Word, ghost room: nat)
      requires Valid()
      modifies mem, this`blocks
      ensures Valid()
      ensures r == 0 <==> !HasFree(old(blocks)) || MaxRun(old(blocks)) < min
      ensures r == 0 <==> !HasRoom(arena, Owned(old(blocks)), min)
      ensures r != 0 ==> LowestGap(arena, Owned(old(blocks)), min, r - 1, room)
      ensures r == 0 ==> Owned(blocks) == Owned(old(blocks))
      ensures r <= TOP
      ensures r != 0 ==> && min <= room
                         && Owned(blocks) == Owned(old(blocks))
                                             + {Block(r - 1, if room < max then room else max as nat, SUSPENDED)}
                         && (forall b :: b in Owned(old(blocks)) ==> b.seg != r - 1)
                         && (forall b :: b in blocks && b.owner == 0 && b.seg < r - 1 ==> b.size < min)
      ensures OnlyIn(old(mem[..]), mem[..], Segs(old(blocks)) + Segs(blocks))
    {
      hide Represents, Chain, Owner, Size, Kind, McbValid, Joined, MaxRun, Owned, Segs, OnlyIn, Seen,
        LowestGap, LowestPlace, HasRoom, HasGap, NoneLarger;
      var at := arena;
      ghost var i := 0;
      ghost var any, low: nat := false, 0;
      Start(min - 1);
      room := 0;
      while at < TOP
        invariant Walking(old(mem[..]), old(blocks), i, min - 1) && at == blocks[i].seg && at < TOP
        invariant low < Larger(min, 1) && MaxRun(old(blocks)) == Larger(low, MaxRun(blocks[i..]))
        invariant any ==> min > 0
        invariant HasFree(old(blocks)) <==> any || HasFree(blocks[i..])
        decreases |blocks| - i
      {
        WalkIsSafe(mem[..], arena, blocks, i);
        var m: Word := at;
        assert McbValid(mem[..], m);
        MaxRunStep(blocks, i);
        HasFreeStep(blocks, i);
        if Owner(mem[..], m) == 0 {
          Look(m, old(mem[..]), old(blocks), i, min - 1);
          var size := Size(mem[..], m);
          if size >= min {
            Found(old(mem[..]), old(blocks), i, min - 1, min);
            Grant(m, if size < max then size else max, SUSPENDED, old(mem[..]), old(blocks), i, min - 1);
            r, room := m + 1, size;
            return;
          }
          any := true;
          low := Larger(low, size);
        }
        Onward(old(mem[..]), mem[..], old(blocks), blocks, i, min - 1, min - 1);
        assert low < Larger(min, 1) && MaxRun(old(blocks)) == Larger(low, MaxRun(blocks[i + 1..]));
        WalkIsSafe(mem[..], arena, blocks, i);
        if Kind(mem[..], m) == KIND_Z {
          Ended(i);
          SeenAll(old(mem[..]), old(blocks), min - 1);
          SeenKept(old(mem[..]), mem[..], old(blocks), blocks, |blocks|, min - 1);
          break;
        }
        at := at + 1 + Size(mem[..], m);
        i := i + 1;
        WalkIsSafe(mem[..], arena, blocks, i);
      }
      r := 0;
    }

    /** EXEC's release: every block of an owner is freed, the blocks of all others are as they were,
        and no two free blocks are left next to each other. */
    method Release(owner: Word)
      requires Valid()
      modifies mem, this`blocks
      ensures Valid()
      ensures Owned(blocks) == set b | b in Owned(old(blocks)) && b.owner != owner
      ensures Coalesced(blocks)
      ensures OnlyIn(old(mem[..]), mem[..], Segs(old(blocks)))
    {
      hide Represents, Chain, Owner, Size, Kind, McbValid, Joined, Owned, Segs, OnlyIn;
      var at := arena;
      ghost var i := 0;
      ghost var m0, bs0 := mem[..], blocks;
      Start(0);
      while at < TOP
        invariant Valid() && i < |blocks| == |bs0| && at == blocks[i].seg && at < TOP
        invariant Segs(blocks) == Segs(bs0) && OnlyIn(m0, mem[..], Segs(bs0))
        invariant forall j :: i <= j < |bs0| ==> blocks[j] == bs0[j]
        invariant forall j :: 0 <= j < i ==> blocks[j] == Disowned(bs0[j], owner)
        decreases |blocks| - i
      {
        WalkIsSafe(mem[..], arena, blocks, i);
        var m: Word := at;
        assert McbValid(mem[..], m);
        if Owner(mem[..], m) == owner {
          ghost var before := mem[..];
          SegsHas(blocks, i);
          SegsGiven(blocks, i, 0);
          Give(m, 0, i);
          OnlyInTrans(m0, before, mem[..], Segs(bs0), {m as int}, Segs(bs0));
        }
        WalkIsSafe(mem[..], arena, blocks, i);
        if Kind(mem[..], m) == KIND_Z {
          break;
        }
        at := at + 1 + Size(mem[..], m);
        i := i + 1;
        WalkIsSafe(mem[..], arena, blocks, i);
      }
      OwnedDisowned(bs0, blocks, owner);
      CoalesceAll(m0, bs0);
    }

    /** A block when all of an owner's are freed. */
    static function Disowned(b: Block, owner: nat): Block
    {
      if b.owner == owner then Block(b.seg, b.size, 0) else b
    }

    static lemma OwnedDisowned(bs: seq<Block>, after: seq<Block>, owner: nat)
      requires |bs| == |after| && forall j :: 0 <= j < |bs| ==> after[j] == Disowned(bs[j], owner)
      ensures Owned(after) == set b | b in Owned(bs) && b.owner != owner
    {
      forall b ensures b in Owned(after) <==> b in Owned(bs) && b.owner != owner {
        if b in Owned(after) {
          var j :| 0 <= j < |after| && after[j] == b;
          assert bs[j] in bs;
        }
        if b in Owned(bs) && b.owner != owner {
          var j :| 0 <= j < |bs| && bs[j] == b;
          assert after[j] in after;
        }
      }
    }

    /** The second walk of a release: every free block is joined to the free ones after it. */
    method CoalesceAll(ghost m0: Memory, ghost bs0: seq<Block>)
      requires Valid() && Segs(blocks) <= Segs(bs0) && OnlyIn(m0, mem[..], Segs(bs0))
      modifies mem, this`blocks
      ensures Valid() && Coalesced(blocks) && Owned(blocks) == Owned(old(blocks))
      ensures Segs(blocks) <= Segs(bs0) && OnlyIn(m0, mem[..], Segs(bs0))
    {
      hide Represents, Chain, Owner, Size, Kind, McbValid, Joined, Owned, Segs, OnlyIn;
      var at := arena;
      ghost var i := 0;
      Start(0);
      while at < TOP
        invariant Valid() && i < |blocks| && at == blocks[i].seg && at < TOP
        invariant Segs(blocks) <= Segs(bs0) && OnlyIn(m0, mem[..], Segs(bs0)) && Owned(blocks) == Owned(old(blocks))
        invariant forall j :: 0 <= j < i ==> blocks[j].owner != 0 || blocks[j + 1].owner != 0
        decreases |blocks| - i
      {
        WalkIsSafe(mem[..], arena, blocks, i);
        var m: Word := at;
        assert McbValid(mem[..], m);
        if Owner(mem[..], m) == 0 {
          ghost var before, bs := mem[..], blocks;
          Join(m, i);
          JoinedKeeps(m0, before, mem[..], bs0, bs, i);
        }
        WalkIsSafe(mem[..], arena, blocks, i);
        if Kind(mem[..], m) == KIND_Z {
          break;
        }
        at := at + 1 + Size(mem[..], m);
        i := i + 1;
        WalkIsSafe(mem[..], arena, blocks, i);
      }
    }

    static lemma JoinedKeeps(m0: Memory, m1: Memory, m2: Memory, bs0: seq<Block>, bs: seq<Block>, i: nat)
      requires i < |bs| && bs[i].owner == 0 && Segs(bs) <= Segs(bs0)
      requires OnlyIn(m0, m1, Segs(bs0)) && OnlyIn(m1, m2, {bs[i].seg as int})
      requires forall j :: 0 <= j < i ==> bs[j].owner != 0 || bs[j + 1].owner != 0
      ensures var js := Joined(bs, i);
              && i < |js| <= |bs| && js[i].seg == bs[i].seg
              && Segs(js) <= Segs(bs0) && Owned(js) == Owned(bs) && OnlyIn(m0, m2, Segs(bs0))
              && (i + 1 < |js| ==> js[i + 1].owner != 0)
              && forall j :: 0 <= j < i ==> js[j].owner != 0 || js[j + 1].owner != 0
    {
      hide Joined, OnlyIn, RunSize, Lead, Owned, Segs;
      JoinedParts(bs, i);
      OwnedLooked(bs, i);
      SegsHas(bs, i);
      OnlyInTrans(m0, m1, m2, Segs(bs0), {bs[i].seg as int}, Segs(bs0));
      var js := Joined(bs, i);
      assert forall j :: 0 <= j < i ==> js[j] == js[..i][j] == bs[j];
    }

    static lemma HasFreeStep(bs: seq<Block>, i: nat)
      requires i < |bs|
      ensures HasFree(bs[i..]) <==> bs[i].owner == 0 || HasFree(bs[i + 1..])
    {
      var here, tail := bs[i..], bs[i + 1..];
      if j :| 0 <= j < |here| && here[j].owner == 0 {
        assert j > 0 ==> tail[j - 1].owner == 0;
      }
      if j :| 0 <= j < |tail| && tail[j].owner == 0 {
        assert here[j + 1].owner == 0;
      }
      assert here[0] == bs[i];
    }

    // ----- programs that run programs -----

    /** Passes an owned block to another owner. */
    method PassTo(seg: Word, owner: Word, ghost b: Block)
      requires Valid() && b in Owned(blocks) && b.seg == seg && owner != 0
      modifies mem, this`blocks
      ensures Valid()
      ensures Owned(blocks) == Others(old(blocks), seg) + {Block(seg, b.size, owner)}
      ensures OnlyIn(old(mem[..]), mem[..], Segs(old(blocks)) + Segs(blocks))
    {
      hide Represents, Chain, OnlyIn;
      ghost var i :| 0 <= i < |blocks| && blocks[i] == b;
      PassedOwned(i, owner);
      SegsHas(blocks, i);
      Give(seg, owner, i);
      OnlyInMore(old(mem[..]), mem[..], {seg as int}, Segs(old(blocks)) + Segs(blocks));
    }

    lemma PassedOwned(i: nat, owner: nat)
      requires Valid() && i < |blocks| && owner != 0
      ensures Owned(Given(blocks, i, owner))
              == Others(blocks, blocks[i].seg) + {Block(blocks[i].seg, blocks[i].size, owner)}
    {
      hide Represents, Chain, Owned;
      var gs := Given(blocks, i, owner);
      OthersAreRest(i);
      OwnedParts(gs, i);
      OwnedSingle(gs[i]);
      assert gs[..i] == blocks[..i] && gs[i + 1..] == blocks[i + 1..];
    }

    ghost predicate NobodySuspended()
      reads this
    {
      forall b :: b in Owned(blocks) ==> b.owner != SUSPENDED
    }

    /** EXEC, as far as the arena goes: a block for the child's environment and one for the child, or
        (no room, or the program does not load) everything given back. 0 when it fails. */
    method Exec(envParas: Word, min: Word, max: Word, loads: bool)
      returns (child: Word, ghost env: Word, ghost size: nat)
      requires Valid() && NobodySuspended()
      modifies mem, this`blocks
      ensures Valid()
      // when it succeeds, and where: the lowest gap for the environment, then the lowest of those left for the child
      ensures child != 0 <==> loads && RoomForTwo(arena, Owned(old(blocks)), envParas, min)
      ensures child != 0 ==>
                env != 0 && PutBoth(arena, Owned(old(blocks)), envParas, min, max, env - 1, child - 1, size)
      // one gap with room for both is enough
      ensures loads && HasRoom(arena, Owned(old(blocks)), envParas + 1 + min) ==> child != 0
      ensures child == 0 ==> Owned(blocks) == Owned(old(blocks))
      ensures child != 0 ==> && loads && env != 0 && env != child
                             && (forall b :: b in Owned(old(blocks)) ==> b.seg != env - 1 && b.seg != child - 1)
                             && child <= TOP
                             && Owned(blocks) == Owned(old(blocks))
                                                 + {Block(env - 1, envParas, child), Block(child - 1, size, child)}
      ensures DataKept(old(mem[..]), mem[..], old(blocks))
      ensures OnlyIn(old(mem[..]), mem[..], Nobodys(old(blocks)))
    {
      hide Represents, Chain, OnlyIn, MaxRun, Owned, HasFree, DataKept, Segs, Next, Nobodys, LowestGap, HasRoom,
        LowestPlace, RoomForTwo, PutBoth;
      ghost var m0, bs0, own := mem[..], blocks, Owned(blocks);
      KeptAtFirst(m0, bs0);
      ChainOf();
      child, size := 0, 0;
      var e, envRoom := ExecAlloc(envParas, envParas);
      env := e;
      StillKept(m0, bs0, m0, mem[..], bs0, blocks);
      if e == 0 {
        NoRoom(arena, own, envParas, min);
        ReleaseSuspended(m0, bs0);
        return;
      }
      ghost var m1, bs1, own1 := mem[..], blocks, Owned(blocks);
      RoomIs(arena, own, envParas, min, e - 1, envRoom);
      var c, room := ExecAlloc(min, max);
      StillKept(m0, bs0, m1, mem[..], bs1, blocks);
      if c == 0 || !loads {
        ReleaseSuspended(m0, bs0);
        return;
      }
      size := if room < max then room else max as nat;
      Placed(arena, own, envParas, min, max, e - 1, c - 1, room);
      ghost var eb, cb := Block(e - 1, envParas, SUSPENDED), Block(c - 1, size, SUSPENDED);
      assert eb in own1 && cb in Owned(blocks) && eb in Owned(blocks);
      ghost var m2, bs2 := mem[..], blocks;
      PassTo(c - 1, c, cb);
      assert eb in Owned(blocks);
      StillKept(m0, bs0, m2, mem[..], bs2, blocks);
      ghost var m3, bs3 := mem[..], blocks;
      PassTo(e - 1, c, eb);
      child := c;
      assert Owned(blocks) == own + {Block(e - 1, envParas, c), Block(c - 1, size, c)};
      StillKept(m0, bs0, m3, mem[..], bs3, blocks);
    }

    /** Gives back what EXEC has taken so far. */
    method ReleaseSuspended(ghost m0: Memory, ghost bs0: seq<Block>)
      requires Valid() && DataKept(m0, mem[..], bs0) && OnlyIn(m0, mem[..], Nobodys(bs0)) && Owned(bs0) <= Owned(blocks)
      requires Chain(arena, bs0)
      requires forall b :: b in Owned(blocks) ==> (b in Owned(bs0) <==> b.owner != SUSPENDED)
      modifies mem, this`blocks
      ensures Valid() && Owned(blocks) == Owned(bs0) && DataKept(m0, mem[..], bs0)
      ensures OnlyIn(m0, mem[..], Nobodys(bs0))
    {
      hide Represents, Chain, OnlyIn, Owned, DataKept, Segs, Nobodys;
      ghost var m, bs := mem[..], blocks;
      Release(SUSPENDED);
      assert Owned(blocks) == Owned(bs0);
      OnlyInMore(m, mem[..], Segs(bs), Segs(bs) + Segs(blocks));
      StillKept(m0, bs0, m, mem[..], bs, blocks);
    }

    static lemma KeptAtFirst(m: Memory, bs: seq<Block>)
      ensures DataKept(m, m, bs) && OnlyIn(m, m, Nobodys(bs))
    {
    }

    /** What writes only headers leaves the data of blocks that are owned before and after. */
    lemma StillKept(m0: Memory, bs0: seq<Block>, m: Memory, m': Memory, bs: seq<Block>, bs': seq<Block>)
      requires Represents(m, arena, bs) && Represents(m', arena, bs') && OnlyIn(m, m', Segs(bs) + Segs(bs'))
      requires DataKept(m0, m, bs0) && Owned(bs0) <= Owned(bs) && Owned(bs0) <= Owned(bs')
      requires Chain(arena, bs0) && OnlyIn(m0, m, Nobodys(bs0))
      ensures DataKept(m0, m', bs0) && OnlyIn(m0, m', Nobodys(bs0))
    {
      hide OnlyIn, HeaderIs, Segs, Nobodys;
      forall p | p in Segs(bs) + Segs(bs') ensures p in Nobodys(bs0) {
        if p in Segs(bs) {
          HeaderWasNobodys(arena, bs0, bs, p);
        } else {
          HeaderWasNobodys(arena, bs0, bs', p);
        }
      }
      OnlyInTrans(m0, m, m', Nobodys(bs0), Segs(bs) + Segs(bs'), Nobodys(bs0));
      forall b, a | b in Owned(bs0) && InData(b, a) && a < MEM_SIZE ensures m0[a] == m'[a] {
        assert b in bs && b in bs';
        var i :| 0 <= i < |bs| && bs[i] == b;
        var j :| 0 <= j < |bs'| && bs'[j] == b;
        RetainedDataIntact(arena, bs, bs', m, m', i, j, a);
      }
    }

    /** A program writes its own memory: anywhere but a header. */
    method GuestWrite(a: nat, v: Byte)
      requires Valid() && a < MEM_SIZE && a / 16 !in Segs(blocks)
      modifies mem
      ensures Valid() && mem[..] == old(mem[..])[a := v]
    {
      DataIsNotHeaders(mem[..], arena, blocks, a, v);
      mem[a] := v;
    }

    /** Whether a paragraph is a header of the chain. */
    method IsHeader(p: nat) returns (yes: bool)
      requires Valid()
      ensures yes <==> p in Segs(blocks)
    {
      hide Represents, Chain, Owner, Size, Kind, McbValid;
      var at := arena;
      ghost var i := 0;
      Start(0);
      while at < TOP
        invariant i < |blocks| && at == blocks[i].seg && at < TOP
        invariant forall j :: 0 <= j < i ==> blocks[j].seg != p
        decreases |blocks| - i
      {
        WalkIsSafe(mem[..], arena, blocks, i);
        if at == p {
          return true;
        }
        if Kind(mem[..], at) == KIND_Z {
          break;
        }
        at := at + 1 + Size(mem[..], at);
        i := i + 1;
        WalkIsSafe(mem[..], arena, blocks, i);
      }
      yes := false;
    }

    lemma ChainOf()
      requires Valid()
      ensures Chain(arena, blocks)
    {
    }

    static lemma DataIsNotHeaders(m: Memory, arena: nat, bs: seq<Block>, a: nat, v: Byte)
      requires Represents(m, arena, bs) && a < MEM_SIZE && a / 16 !in Segs(bs)
      ensures Represents(m[a := v], arena, bs)
    {
      forall i | 0 <= i < |bs| ensures HeaderIs(m[a := v], bs[i], i == |bs| - 1) {
        assert HeaderIs(m, bs[i], i == |bs| - 1) && bs[i].seg as int in Segs(bs);
      }
    }

    constructor (arena: nat, psp: Word, mem: array<Byte>, ghost blocks: seq<Block>)
      requires mem.Length == MEM_SIZE && psp != 0 && Represents(mem[..], arena, blocks)
      ensures Valid() && this.mem == mem && this.arena == arena && this.blocks == blocks && this.psp == psp
    {
      this.arena, this.psp, this.mem := arena, psp, mem;
      ax, bx, es, cf := 0, 0, 0, false;
      this.blocks := blocks;
    }
  }

  /** A header that is put in while all that is owned stays is put where nothing was owned. */
  lemma HeaderWasNobodys(arena: nat, bs0: seq<Block>, bs: seq<Block>, p: int)
    requires Chain(arena, bs0) && Chain(arena, bs) && Owned(bs0) <= Owned(bs) && p in Segs(bs)
    ensures p in Nobodys(bs0)
  {
    var k :| 0 <= k < |bs| && bs[k].seg == p;
    ChainBelowTop(arena, bs, k);
    if k > 0 {
      ChainOrder(arena, bs, 0, k);
    }
    hide Chain;
    var i := BlockOf(arena, bs0, 0, p) by { FirstIs(arena, bs0); }
    if bs0[i].seg != p && bs0[i].owner != 0 {
      assert bs0[i] in Owned(bs);
      var j :| 0 <= j < |bs| && bs[j] == bs0[i];
      DataHasNoHeader(arena, bs, j, p);
    }
  }

  lemma FirstIs(arena: nat, bs: seq<Block>)
    requires Chain(arena, bs)
    ensures bs != [] && bs[0].seg == arena
  {
  }

  /** Whether a program may resize its own block, the i-th, to nothing: the header that then follows is at the
      program's own segment, and must hold the two bytes that are stored there. */
  ghost predicate SafeAtNothing(bs: seq<Block>, i: nat, psp: nat)
    requires i < |bs|
  {
    var room := RunSize(bs[i..]);
    if room > 0 then psp % 256 == 0 && (room - 1) % 256 == psp / 256
    else i == |bs| - 1 || (bs[i + 1].owner / 256 == psp % 256 && bs[i + 1].size % 256 == psp / 256)
  }

  /** Telling the end then leaves memory standing for the list of blocks exactly when that is so. */
  lemma EndAtNothing(m: Memory, arena: nat, bs: seq<Block>, i: nat, psp: Word)
    requires i < |bs| && bs[i].seg + 1 == psp
    requires var js := Joined(bs, i); i < |js| && Represents(m, arena, Trimmed(js, i, 0))
    ensures Represents(SetPspEnd(m, psp, psp), arena, Trimmed(Joined(bs, i), i, 0)) <==> SafeAtNothing(bs, i, psp)
  {
    hide Represents, Joined, Trimmed, RunSize;
    var ts := Trimmed(Joined(bs, i), i, 0);
    NextAtNothing(bs, i);
    PspEndKeepsChain(m, arena, ts, psp, psp);
    OnlyNextAt(m, arena, ts, i, psp);
  }

  lemma OnlyNextAt(m: Memory, arena: nat, ts: seq<Block>, i: nat, psp: nat)
    requires Represents(m, arena, ts) && i < |ts| && ts[i].seg + 1 == psp && ts[i].size == 0
    ensures forall k :: 0 <= k < |ts| && ts[k].seg == psp ==> k == i + 1
    ensures i + 1 < |ts| ==> ts[i + 1].seg == psp
  {
    hide HeaderIs;
    forall k | 0 <= k < |ts| && ts[k].seg == psp ensures k == i + 1 {
      if k < i {
        ChainOrder(arena, ts, k, i);
      } else if k > i + 1 {
        ChainOrder(arena, ts, i + 1, k);
      }
    }
  }

  /** The block that follows one that has been resized to nothing. */
  lemma NextAtNothing(bs: seq<Block>, i: nat)
    requires i < |bs|
    ensures var js := Joined(bs, i);
            var ts := Trimmed(js, i, 0);
            && i < |js| && i < |ts| && ts[i] == Block(bs[i].seg, 0, bs[i].owner)
            && (RunSize(bs[i..]) > 0 ==> i + 1 < |ts| && ts[i + 1] == Block(bs[i].seg + 1, RunSize(bs[i..]) - 1, 0))
            && (RunSize(bs[i..]) == 0 ==> ts == bs)
  {
    hide Owned, Segs, RunSize, Joined, Lead;
    var js := Joined(bs, i);
    JoinedParts(bs, i);
    if js[i].size > 0 {
      CutAtNothing(js, i);
    } else {
      EmptyRun(bs, i);
    }
  }

  lemma CutAtNothing(js: seq<Block>, i: nat)
    requires i < |js| && js[i].size > 0 && (i + 1 < |js| ==> js[i + 1].owner != 0)
    ensures var ts := Trimmed(js, i, 0);
            && i + 1 < |ts| && ts[i] == Block(js[i].seg, 0, js[i].owner)
            && ts[i + 1] == Block(js[i].seg + 1, js[i].size - 1, 0)
  {
    hide Owned, Segs, RunSize, Joined, Lead;
    var cs := Cut(js, i, 0);
    TrimmedParts(js, i, 0);
    JoinedParts(cs, i + 1);
    RunSizeNext(cs[i + 1..]);
    assert cs[i + 1..][0] == cs[i + 1];
    assert i + 1 < |js| ==> cs[i + 1..][1] == js[i + 1];
  }

  lemma EmptyRun(bs: seq<Block>, i: nat)
    requires i < |bs| && RunSize(bs[i..]) == 0
    ensures Joined(bs, i) == bs && bs[i].size == 0
  {
    RunSizeNext(bs[i..]);
    assert bs[i..][1..] == bs[i + 1..];
    assert Lead(bs[i + 1..]) == 0;
  }

  /** The first program, owning all of memory, does it: the chain no longer stands for the list, and the next
      walk finds the header at the program's segment invalid. */
  lemma FirstProgramAtNothing(m: Memory)
    requires Represents(m, 0x0FFF, [Block(0x0FFF, 0, 0x1000), Block(0x1000, 0x8FFF, 0)])
    ensures !Represents(SetPspEnd(m, 0x1000, 0x1000), 0x0FFF, [Block(0x0FFF, 0, 0x1000), Block(0x1000, 0x8FFF, 0)])
    ensures !McbValid(SetPspEnd(m, 0x1000, 0x1000), 0x1000)
  {
    var bs := [Block(0x0FFF, 0, 0x1000), Block(0x1000, 0x8FFF, 0)];
    PspEndKeepsChain(m, 0x0FFF, bs, 0x1000, 0x1000);
    assert bs[1].seg == 0x1000 && bs[1].size % 256 == 0xFF;
    assert HeaderIs(m, bs[1], true);
    PspEndHeader(m, 0x1000, 0x1000, 0x1000);
    assert HeaderAt(m, 0x1000).size == 0x8FFF;
  }

  /** Telling a program its block's end leaves the chain standing for the list just when no header is
      at the program's own segment, or the one there happens to hold the two bytes already: the high
      byte of its owner and the low byte of its size. */
  lemma PspEndKeepsChain(m: Memory, arena: nat, bs: seq<Block>, psp: Word, v: Word)
    requires Represents(m, arena, bs)
    ensures Represents(SetPspEnd(m, psp, v), arena, bs) <==>
            forall i | 0 <= i < |bs| && bs[i].seg == psp :: bs[i].owner / 256 == v % 256 && bs[i].size % 256 == v / 256
  {
    var m' := SetPspEnd(m, psp, v);
    forall i | 0 <= i < |bs|
      ensures HeaderIs(m', bs[i], i == |bs| - 1) <==>
              (bs[i].seg == psp ==> bs[i].owner / 256 == v % 256 && bs[i].size % 256 == v / 256)
    {
      assert HeaderIs(m, bs[i], i == |bs| - 1);
      PspEndHeader(m, psp, v, bs[i].seg);
    }
  }

  /** Where only the owner's high byte is another, the chain still is one, of the same blocks with that owner. */
  lemma OtherOwner(m: Memory, arena: nat, bs: seq<Block>, i: nat, v: Word)
    requires Represents(m, arena, bs) && i < |bs| && bs[i].size % 256 == v / 256
    ensures Represents(SetPspEnd(m, bs[i].seg, v), arena, Given(bs, i, bs[i].owner % 256 + 256 * (v % 256)))
  {
    var owner := bs[i].owner % 256 + 256 * (v % 256);
    ChainGiven(arena, bs, i, owner);
    forall k | 0 <= k < |bs| ensures HeaderIs(SetPspEnd(m, bs[i].seg, v), Given(bs, i, owner)[k], k == |bs| - 1) {
      assert HeaderIs(m, bs[k], k == |bs| - 1);
      PspEndHeader(m, bs[i].seg, v, bs[k].seg);
      if k != i {
        SegsDiffer(arena, bs, i, k);
      }
    }
  }

  lemma PspEndHeader(m: Memory, psp: Word, v: Word, t: Word)
    ensures var h := HeaderAt(m, t);
            HeaderAt(SetPspEnd(m, psp, v), t) ==
            if t == psp then Header(h.kind, h.owner % 256 + 256 * (v % 256), h.size / 256 * 256 + v / 256) else h
  {
  }

  /** Whatever a service does to headers, the data of an owned block that is still there, as much of it
      as the block keeps, is untouched. */
  lemma RetainedDataIntact(arena: nat, bs: seq<Block>, bs': seq<Block>, m: Memory, m': Memory, i: nat, j: nat, a: nat)
    requires Chain(arena, bs) && Chain(arena, bs') && OnlyIn(m, m', Segs(bs) + Segs(bs'))
    requires i < |bs| && j < |bs'| && bs[i].seg == bs'[j].seg
    requires 16 * (bs[i].seg + 1) <= a < 16 * Next(bs[i]) && a < 16 * Next(bs'[j])
    ensures a < MEM_SIZE && m[a] == m'[a]
  {
    ChainBelowTop(arena, bs, i);
    assert bs[i].seg < a / 16 < Next(bs[i]) && bs'[j].seg < a / 16 < Next(bs'[j]);
    DataHasNoHeader(arena, bs, i, a / 16);
    DataHasNoHeader(arena, bs', j, a / 16);
  }

  lemma DataHasNoHeader(arena: nat, bs: seq<Block>, i: nat, p: nat)
    requires Chain(arena, bs) && i < |bs| && bs[i].seg < p < Next(bs[i])
    ensures p !in Segs(bs)
  {
    forall k | 0 <= k < |bs| ensures bs[k].seg != p {
      if k != i {
        SegsDiffer(arena, bs, i, k);
      }
    }
  }
}

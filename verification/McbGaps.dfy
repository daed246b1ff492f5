/**
 The free space of the DOS arena as a program sees it: the gaps between the blocks that are owned, with nothing
 said of how the free blocks in them are cut.
 */
module McbGaps {
  import opened Mcb

  /** A paragraph of an owned block, or its header. */
  ghost predicate Taken(owned: set<Block>, p: int)
  {
    exists b :: b in owned && b.seg <= p < Next(b)
  }

  /** From paragraph s on, room for a header and n paragraphs: all of a gap, and nothing else. */
  ghost predicate Gap(arena: nat, owned: set<Block>, s: nat, n: nat)
  {
    && arena <= s && s + 1 + n <= TOP && (forall p :: s <= p < s + 1 + n ==> !Taken(owned, p))
    && (s == arena || Taken(owned, s - 1)) && (s + 1 + n == TOP || Taken(owned, s + 1 + n))
  }

  /** Some gap has `need` paragraphs. */
  ghost predicate HasRoom(arena: nat, owned: set<Block>, need: nat)
  {
    exists s: nat, n: nat :: Gap(arena, owned, s, n) && n >= need
  }

  /** The lowest gap that has `need` paragraphs. */
  ghost predicate LowestGap(arena: nat, owned: set<Block>, need: nat, s: nat, n: nat)
  {
    && Gap(arena, owned, s, n) && n >= need
    && forall t: nat, k: nat :: Gap(arena, owned, t, k) && k >= need ==> s <= t
  }

  /** A gap has just n paragraphs. */
  ghost predicate HasGap(arena: nat, owned: set<Block>, n: nat)
  {
    exists s: nat :: Gap(arena, owned, s, n)
  }

  /** No gap has more than `most` paragraphs. */
  ghost predicate NoneLarger(arena: nat, owned: set<Block>, most: int)
  {
    forall s: nat, n: nat :: Gap(arena, owned, s, n) ==> n <= most
  }

  /** Where it starts. */
  ghost predicate LowestPlace(arena: nat, owned: set<Block>, need: nat, s: nat)
  {
    exists n: nat :: LowestGap(arena, owned, need, s, n)
  }

  // ----- gaps are apart -----

  lemma GapsApart(arena: nat, owned: set<Block>, s: nat, n: nat, t: nat, k: nat)
    requires Gap(arena, owned, s, n) && Gap(arena, owned, t, k) && s <= t < s + 1 + n
    ensures s == t && n == k
  {
    hide Taken;
  }

  lemma LowestOnly(arena: nat, owned: set<Block>, need: nat, s: nat, n: nat, t: nat, k: nat)
    requires LowestGap(arena, owned, need, s, n) && LowestGap(arena, owned, need, t, k)
    ensures s == t && n == k
  {
    hide Gap;
    GapsApart(arena, owned, s, n, t, k);
  }

  /** When a block is taken from the front of a gap, what is left of it is a gap, and the other gaps
      are as they were. */
  lemma GapAfter(arena: nat, owned: set<Block>, b: Block, n: nat, t: nat, k: nat)
    requires Gap(arena, owned, b.seg, n) && b.size <= n && Gap(arena, owned, t, k)
    ensures t != b.seg ==> Gap(arena, owned + {b}, t, k)
    ensures t == b.seg && b.size < n ==> Gap(arena, owned + {b}, Next(b), n - b.size - 1)
  {
    TakenMore(owned, b);
    hide Taken;
    if t != b.seg {
      if b.seg <= t {
        if t < b.seg + 1 + n {
          GapsApart(arena, owned, b.seg, n, t, k);
        }
      } else if b.seg < t + 1 + k {
        GapsApart(arena, owned, t, k, b.seg, n);
      }
    }
  }

  lemma TakenMore(owned: set<Block>, b: Block)
    ensures forall p :: Taken(owned + {b}, p) <==> Taken(owned, p) || b.seg <= p < Next(b)
  {
    forall p
      ensures Taken(owned + {b}, p) <==> Taken(owned, p) || b.seg <= p < Next(b)
    {
      assert b in owned + {b};
      if Taken(owned, p) {
        var c :| c in owned && c.seg <= p < Next(c);
        assert c in owned + {b};
      }
    }
  }

  /** One gap with room for both, and a header between, is enough for one after the other. */
  lemma RoomForBoth(arena: nat, owned: set<Block>, b: Block, n: nat, need: nat)
    requires LowestGap(arena, owned, b.size, b.seg, n) && HasRoom(arena, owned, b.size + 1 + need)
    ensures HasRoom(arena, owned + {b}, need)
  {
    var t: nat, k: nat :| Gap(arena, owned, t, k) && k >= b.size + 1 + need;
    hide Gap;
    GapAfter(arena, owned, b, n, t, k);
    if t == b.seg {
      SameGap(arena, owned, t, n, k);
    }
  }

  lemma SameGap(arena: nat, owned: set<Block>, s: nat, n: nat, k: nat)
    requires Gap(arena, owned, s, n) && Gap(arena, owned, s, k)
    ensures n == k
  {
    GapsApart(arena, owned, s, n, s, k);
  }

  // ----- one block after another -----

  const NOBODY := 0xFFFF

  /** The first of two blocks goes at s, the lowest place for it, and then there is room for the second. */
  ghost predicate RoomAfter(arena: nat, owned: set<Block>, first: nat, second: nat, s: nat)
  {
    LowestPlace(arena, owned, first, s) && HasRoom(arena, owned + {Block(s, first, NOBODY)}, second)
  }

  ghost predicate RoomForTwo(arena: nat, owned: set<Block>, first: nat, second: nat)
  {
    exists s: nat :: RoomAfter(arena, owned, first, second, s)
  }

  /** Where the two are put, the second with as much of its gap as `max`. */
  ghost predicate PutBoth(arena: nat, owned: set<Block>, first: nat, second: nat, max: nat, s: nat, t: nat, size: nat)
  {
    && LowestPlace(arena, owned, first, s)
    && exists room: nat ::
         && LowestGap(arena, owned + {Block(s, first, NOBODY)}, second, t, room)
         && size == if room < max then room else max
  }

  lemma RoomIs(arena: nat, owned: set<Block>, first: nat, second: nat, s: nat, n: nat)
    requires LowestGap(arena, owned, first, s, n)
    ensures LowestPlace(arena, owned, first, s)
    ensures RoomForTwo(arena, owned, first, second) <==> HasRoom(arena, owned + {Block(s, first, NOBODY)}, second)
    ensures HasRoom(arena, owned, first + 1 + second) ==> HasRoom(arena, owned + {Block(s, first, NOBODY)}, second)
  {
    hide LowestGap, HasRoom;
    if t: nat :| RoomAfter(arena, owned, first, second, t) {
      var k: nat :| LowestGap(arena, owned, first, t, k);
      LowestOnly(arena, owned, first, s, n, t, k);
    }
    if HasRoom(arena, owned + {Block(s, first, NOBODY)}, second) {
      assert RoomAfter(arena, owned, first, second, s);
    }
    if HasRoom(arena, owned, first + 1 + second) {
      RoomForBoth(arena, owned, Block(s, first, NOBODY), n, second);
    }
  }

  lemma Placed(arena: nat, owned: set<Block>, first: nat, second: nat, max: nat, s: nat, t: nat, room: nat)
    requires LowestPlace(arena, owned, first, s) && LowestGap(arena, owned + {Block(s, first, NOBODY)}, second, t, room)
    ensures PutBoth(arena, owned, first, second, max, s, t, if room < max then room else max)
  {
    hide LowestGap, LowestPlace;
  }

  lemma NoRoom(arena: nat, owned: set<Block>, first: nat, second: nat)
    requires !HasRoom(arena, owned, first)
    ensures !HasRoom(arena, owned, first + 1 + second)
    ensures !RoomForTwo(arena, owned, first, second)
  {
    hide Gap;
  }

  // ----- the chain -----

  /** The paragraphs of the chain's blocks are taken exactly when the block is owned. */
  lemma TakenBlock(arena: nat, bs: seq<Block>, i: nat, p: int)
    requires Chain(arena, bs) && i < |bs| && bs[i].seg <= p < Next(bs[i])
    ensures Taken(Owned(bs), p) <==> bs[i].owner != 0
  {
    if bs[i].owner != 0 {
      assert bs[i] in Owned(bs);
    } else if Taken(Owned(bs), p) {
      var b :| b in Owned(bs) && b.seg <= p < Next(b);
      var j :| 0 <= j < |bs| && bs[j] == b;
      ChainOrder(arena, bs, if i < j then i else j, if i < j then j else i);
    }
  }

  lemma {:induction false} BlockOf(arena: nat, bs: seq<Block>, i: nat, p: int) returns (k: nat)
    requires Chain(arena, bs) && i < |bs| && bs[i].seg <= p < TOP
    ensures i <= k < |bs| && bs[k].seg <= p < Next(bs[k])
    decreases |bs| - i
  {
    if p < Next(bs[i]) {
      k := i;
    } else {
      k := BlockOf(arena, bs, i + 1, p);
    }
  }

  /** Up to block i no two free blocks are next to each other. */
  ghost predicate CoalescedTo(bs: seq<Block>, i: nat)
  {
    forall j :: 0 < j <= i && j < |bs| ==> bs[j - 1].owner != 0 || bs[j].owner != 0
  }

  /** A free block with no other next to it is a whole gap. */
  lemma GapHere(arena: nat, bs: seq<Block>, i: nat)
    requires Chain(arena, bs) && i < |bs| && bs[i].owner == 0
    requires (i > 0 ==> bs[i - 1].owner != 0) && (i + 1 < |bs| ==> bs[i + 1].owner != 0)
    ensures Gap(arena, Owned(bs), bs[i].seg, bs[i].size)
  {
    hide Taken, Owned;
    ChainBelowTop(arena, bs, i);
    if i > 0 {
      ChainOrder(arena, bs, 0, i);
      assert Next(bs[i - 1]) == bs[i].seg;
      TakenBlock(arena, bs, i - 1, bs[i].seg - 1);
    }
    if i + 1 < |bs| {
      TakenBlock(arena, bs, i + 1, bs[i + 1].seg);
    }
    forall p | bs[i].seg <= p < Next(bs[i])
      ensures !Taken(Owned(bs), p)
    {
      TakenBlock(arena, bs, i, p);
    }
  }

  /** Where a list ends. */
  function EndOf(bs: seq<Block>, k: nat): nat
  {
    if k < |bs| then bs[k].seg else TOP
  }

  /** A gap that starts before block k, where free blocks are not next to each other, is no more than one of them. */
  lemma GapIsBlock(arena: nat, bs: seq<Block>, k: nat, s: nat, n: nat) returns (j: nat)
    requires Chain(arena, bs) && k <= |bs| && CoalescedTo(bs, k)
    requires Gap(arena, Owned(bs), s, n) && s < EndOf(bs, k)
    ensures j < k && bs[j].owner == 0 && n <= bs[j].size
  {
    j := BlockOf(arena, bs, 0, s);
    if k < |bs| && j >= k {
      InOrder(arena, bs, k, j);
    }
    assert j < k;
    hide Taken, Owned, CoalescedTo;
    TakenBlock(arena, bs, j, s);
    if s > bs[j].seg {
      FirstSeg(arena, bs, j);
      TakenBlock(arena, bs, j, s - 1);
      assert false;
    }
    if s + 1 + n > Next(bs[j]) {
      NextTaken(arena, bs, k, j);
      assert false;
    }
  }

  lemma InOrder(arena: nat, bs: seq<Block>, k: nat, j: nat)
    requires Chain(arena, bs) && k <= j < |bs|
    ensures bs[k].seg <= bs[j].seg
  {
    if k < j {
      ChainOrder(arena, bs, k, j);
    }
  }

  lemma FirstSeg(arena: nat, bs: seq<Block>, j: nat)
    requires Chain(arena, bs) && j < |bs|
    ensures arena <= bs[j].seg
  {
    InOrder(arena, bs, 0, j);
  }

  lemma NextTaken(arena: nat, bs: seq<Block>, k: nat, j: nat)
    requires Chain(arena, bs) && k <= |bs| && CoalescedTo(bs, k) && j < k && bs[j].owner == 0
    ensures Next(bs[j]) == TOP || Taken(Owned(bs), Next(bs[j]))
  {
    if j + 1 < |bs| {
      assert bs[j + 1 - 1].owner == 0;
      assert Next(bs[j]) == bs[j + 1].seg;
      TakenBlock(arena, bs, j + 1, bs[j + 1].seg);
    }
  }

  /** How far a block reaches with the free blocks after it: up to the next owned one. */
  ghost predicate Reaches(owned: set<Block>, b: Block, room: nat)
  {
    && b.size <= room && b.seg + 1 + room <= TOP
    && (forall p :: Next(b) <= p < b.seg + 1 + room ==> !Taken(owned, p))
    && (b.seg + 1 + room == TOP || Taken(owned, b.seg + 1 + room))
  }

  lemma {:induction false} RunReaches(arena: nat, bs: seq<Block>, i: nat)
    requires Chain(arena, bs) && i < |bs|
    ensures Reaches(Owned(bs), bs[i], RunSize(bs[i..]))
    decreases |bs| - i
  {
    hide Taken, Owned, RunSize;
    RunSizeNext(bs[i..]);
    ChainBelowTop(arena, bs, i);
    if i + 1 < |bs| {
      assert Next(bs[i]) == bs[i + 1].seg && bs[i..][1..] == bs[i + 1..];
      TakenBlock(arena, bs, i + 1, bs[i + 1].seg);
      if bs[i + 1].owner == 0 {
        RunReaches(arena, bs, i + 1);
        forall p | Next(bs[i]) <= p < Next(bs[i + 1])
          ensures !Taken(Owned(bs), p)
        {
          TakenBlock(arena, bs, i + 1, p);
        }
      }
    }
  }
}

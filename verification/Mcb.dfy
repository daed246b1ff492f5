/**
 The DOS memory-control-block arena of dosrun (userland/dosrun/dosapi.c).

 The headers live in guest memory, one paragraph before each block's data: a type byte,
 'M' or (for the last block) 'Z', the owner, and the size in paragraphs. `Represents` ties
 that memory to the list of blocks it stands for; the services are proved against the list.
 */
module Mcb {

  type Byte = n: int | 0 <= n < 256
  type Word = n: int | 0 <= n < 0x1_0000

  const MEM_SIZE := 0x10_0000
  const TOP := 0xA000
  const KIND_M: Byte := 0x4D
  const KIND_Z: Byte := 0x5A

  // ----- guest memory -----

  type Memory = m: seq<Byte> | |m| == MEM_SIZE witness seq(MEM_SIZE, _ => 0)

  function Kind(m: Memory, seg: Word): Byte
  {
    m[16 * seg]
  }

  function Owner(m: Memory, seg: Word): Word
  {
    m[16 * seg + 1] as int + 256 * m[16 * seg + 2] as int
  }

  function Size(m: Memory, seg: Word): Word
  {
    m[16 * seg + 3] as int + 256 * m[16 * seg + 4] as int
  }

  function SetKind(m: Memory, seg: Word, v: Byte): Memory
  {
    m[16 * seg := v]
  }

  function SetOwner(m: Memory, seg: Word, v: Word): Memory
  {
    m[16 * seg + 1 := v % 256][16 * seg + 2 := v / 256]
  }

  function SetSize(m: Memory, seg: Word, v: Word): Memory
  {
    m[16 * seg + 3 := v % 256][16 * seg + 4 := v / 256]
  }

  datatype Header = Header(kind: Byte, owner: Word, size: Word)

  function HeaderAt(m: Memory, seg: Word): Header
  {
    Header(Kind(m, seg), Owner(m, seg), Size(m, seg))
  }

  // A header reads back as it was written, and the other headers as they were.

  lemma KindReadsBack(m: Memory, seg: Word, v: Byte, t: Word)
    ensures HeaderAt(SetKind(m, seg, v), t) == if t == seg then HeaderAt(m, t).(kind := v) else HeaderAt(m, t)
  {
  }

  lemma OwnerReadsBack(m: Memory, seg: Word, v: Word, t: Word)
    ensures HeaderAt(SetOwner(m, seg, v), t) == if t == seg then HeaderAt(m, t).(owner := v) else HeaderAt(m, t)
  {
  }

  lemma SizeReadsBack(m: Memory, seg: Word, v: Word, t: Word)
    ensures HeaderAt(SetSize(m, seg, v), t) == if t == seg then HeaderAt(m, t).(size := v) else HeaderAt(m, t)
  {
  }

  /** m and m' differ only in the paragraphs `segs`. */
  ghost predicate OnlyIn(m: Memory, m': Memory, segs: set<int>)
  {
    forall a :: 0 <= a < MEM_SIZE && m[a] != m'[a] ==> a / 16 in segs
  }

  lemma OnlyInTrans(m0: Memory, m1: Memory, m2: Memory, s: set<int>, t: set<int>, u: set<int>)
    requires OnlyIn(m0, m1, s) && OnlyIn(m1, m2, t) && s <= u && t <= u
    ensures OnlyIn(m0, m2, u)
  {
  }

  // ----- the blocks -----

  datatype Block = Block(seg: nat, size: nat, owner: nat)

  function Next(b: Block): nat
  {
    b.seg + 1 + b.size
  }

  /** The blocks partition the paragraphs from the arena to TOP, each after its header. */
  ghost predicate Chain(arena: nat, bs: seq<Block>)
  {
    && bs != [] && bs[0].seg == arena
    && (forall i :: 0 <= i < |bs| - 1 ==> Next(bs[i]) == bs[i + 1].seg)
    && Next(bs[|bs| - 1]) == TOP
    && (forall i :: 0 <= i < |bs| ==> bs[i].owner < 0x1_0000)
  }

  lemma {:induction false} ChainOrder(arena: nat, bs: seq<Block>, i: nat, j: nat)
    requires Chain(arena, bs) && i < j < |bs|
    ensures Next(bs[i]) <= bs[j].seg
    decreases j
  {
    if i < j - 1 {
      ChainOrder(arena, bs, i, j - 1);
    }
    assert Next(bs[j - 1]) == bs[j].seg;
  }

  lemma ChainBelowTop(arena: nat, bs: seq<Block>, i: nat)
    requires Chain(arena, bs) && i < |bs|
    ensures Next(bs[i]) <= TOP && (i < |bs| - 1 ==> Next(bs[i]) < TOP)
  {
    if i < |bs| - 1 {
      ChainOrder(arena, bs, i, |bs| - 1);
    }
  }

  ghost predicate HeaderIs(m: Memory, b: Block, last: bool)
  {
    && b.seg < TOP && b.owner < 0x1_0000 && b.size < 0x1_0000
    && HeaderAt(m, b.seg) == Header(if last then KIND_Z else KIND_M, b.owner, b.size)
  }

  ghost predicate Represents(m: Memory, arena: nat, bs: seq<Block>)
  {
    && Chain(arena, bs)
    && forall i :: 0 <= i < |bs| ==> HeaderIs(m, bs[i], i == |bs| - 1)
  }

  function Segs(bs: seq<Block>): set<int>
  {
    set i | 0 <= i < |bs| :: bs[i].seg
  }

  function Owned(bs: seq<Block>): set<Block>
  {
    set b | b in bs && b.owner != 0
  }

  lemma OwnedConcat(a: seq<Block>, b: seq<Block>)
    ensures Owned(a + b) == Owned(a) + Owned(b)
  {
  }

  // ----- free space -----

  /** How many free blocks a list starts with. */
  function Lead(bs: seq<Block>): (k: nat)
    ensures k <= |bs| && (forall i :: 0 <= i < k ==> bs[i].owner == 0) && (k < |bs| ==> bs[k].owner != 0)
  {
    if bs == [] || bs[0].owner != 0 then 0 else 1 + Lead(bs[1..])
  }

  /** The paragraphs that the first k blocks, headers and all, take up. */
  function Span(bs: seq<Block>, k: nat): nat
    requires k <= |bs|
  {
    if k == 0 then 0 else Span(bs, k - 1) + 1 + bs[k - 1].size
  }

  /** The size the first block has once the free ones that follow are joined to it. */
  function RunSize(bs: seq<Block>): nat
    requires bs != []
  {
    bs[0].size + Span(bs[1..], Lead(bs[1..]))
  }

  /** The largest block that can be had anywhere in the list. */
  function MaxRun(bs: seq<Block>): nat
  {
    if bs == [] then 0
    else if bs[0].owner == 0 && RunSize(bs) > MaxRun(bs[1..]) then RunSize(bs)
    else MaxRun(bs[1..])
  }

  lemma {:induction false} SpanTail(bs: seq<Block>, k: nat)
    requires 0 < k <= |bs|
    ensures Span(bs, k) == 1 + bs[0].size + Span(bs[1..], k - 1)
  {
    if k > 1 {
      SpanTail(bs, k - 1);
    }
  }

  /** Of a run of free blocks only the whole counts: what follows it is all that is left to look at. */
  lemma {:induction false} MaxRunSkips(bs: seq<Block>)
    requires bs != [] && bs[0].owner == 0
    ensures var rest := bs[1..][Lead(bs[1..])..];
            MaxRun(bs) == if RunSize(bs) > MaxRun(rest) then RunSize(bs) else MaxRun(rest)
  {
    var tail := bs[1..];
    if tail != [] && tail[0].owner == 0 {
      MaxRunSkips(tail);
      assert tail[1..][Lead(tail[1..])..] == tail[Lead(tail)..];
      SpanTail(tail, Lead(tail));
      assert RunSize(bs) == bs[0].size + 1 + RunSize(tail);
    } else {
      assert tail[0..] == tail;
    }
  }

  // ----- what the services do to the list -----

  /** Blocks i and i + 1 made one. */
  function Merged(bs: seq<Block>, i: nat): seq<Block>
    requires i + 1 < |bs|
  {
    bs[..i] + [Block(bs[i].seg, bs[i].size + 1 + bs[i + 1].size, bs[i].owner)] + bs[i + 2..]
  }

  /** Block i with the free blocks after it joined to it. */
  function Joined(bs: seq<Block>, i: nat): seq<Block>
    requires i < |bs|
  {
    JoinedSome(bs, i, Lead(bs[i + 1..]))
  }

  function JoinedSome(bs: seq<Block>, i: nat, k: nat): seq<Block>
    requires i < |bs| && k <= |bs| - i - 1
  {
    bs[..i] + [Block(bs[i].seg, bs[i].size + Span(bs[i + 1..], k), bs[i].owner)] + bs[i + 1 + k..]
  }

  lemma JoinMore(bs: seq<Block>, i: nat, k: nat)
    requires i < |bs| && k < |bs| - i - 1
    ensures Merged(JoinedSome(bs, i, k), i) == JoinedSome(bs, i, k + 1)
    ensures JoinedSome(bs, i, k)[i + 1] == bs[i + 1 + k]
  {
    assert bs[i + 1..][k] == bs[i + 1 + k];
  }

  /** Block i cut to `wanted` paragraphs, a free block taking the rest. */
  function Cut(bs: seq<Block>, i: nat, wanted: nat): seq<Block>
    requires i < |bs| && wanted < bs[i].size
  {
    bs[..i] + [Block(bs[i].seg, wanted, bs[i].owner), Block(bs[i].seg + 1 + wanted, bs[i].size - wanted - 1, 0)]
    + bs[i + 1..]
  }

  /** Block i given up all but `wanted` of its paragraphs. */
  function Trimmed(bs: seq<Block>, i: nat, wanted: nat): seq<Block>
    requires i < |bs|
  {
    if wanted >= bs[i].size then bs else Joined(Cut(bs, i, wanted), i + 1)
  }

  function Given(bs: seq<Block>, i: nat, owner: nat): seq<Block>
    requires i < |bs|
  {
    bs[i := Block(bs[i].seg, bs[i].size, owner)]
  }

  lemma ChainMerged(arena: nat, bs: seq<Block>, i: nat)
    requires Chain(arena, bs) && i + 1 < |bs|
    ensures Chain(arena, Merged(bs, i))
  {
    var after := Merged(bs, i);
    assert Next(bs[i]) == bs[i + 1].seg;
    forall j | 0 <= j < |after| - 1 ensures Next(after[j]) == after[j + 1].seg {
      var k := if j < i then j else j + 1;
      assert Next(bs[k]) == bs[k + 1].seg;
    }
  }

  lemma ChainCut(arena: nat, bs: seq<Block>, i: nat, wanted: nat)
    requires Chain(arena, bs) && i < |bs| && wanted < bs[i].size
    ensures Chain(arena, Cut(bs, i, wanted))
  {
    var after := Cut(bs, i, wanted);
    forall j | 0 <= j < |after| - 1 ensures Next(after[j]) == after[j + 1].seg {
      if j < i {
        assert Next(bs[j]) == bs[j + 1].seg;
      } else if j > i {
        assert Next(bs[j - 1]) == bs[j].seg;
      }
    }
  }

  lemma ChainGiven(arena: nat, bs: seq<Block>, i: nat, owner: Word)
    requires Chain(arena, bs) && i < |bs|
    ensures Chain(arena, Given(bs, i, owner))
  {
    var after := Given(bs, i, owner);
    forall j | 0 <= j < |after| - 1 ensures Next(after[j]) == after[j + 1].seg {
      assert Next(bs[j]) == bs[j + 1].seg;
    }
  }

  /** Different blocks have different headers. */
  lemma SegsDiffer(arena: nat, bs: seq<Block>, i: nat, j: nat)
    requires Chain(arena, bs) && i < |bs| && j < |bs| && i != j
    ensures bs[i].seg != bs[j].seg
    ensures !(bs[i].seg < bs[j].seg < Next(bs[i]))
  {
    ChainOrder(arena, bs, if i < j then i else j, if i < j then j else i);
  }

  /** The memory after block i + 1 is joined to block i. */
  function MergedMemory(m: Memory, b: Block, c: Block): Memory
    requires b.seg < TOP && c.seg < TOP && b.size + 1 + c.size < 0x1_0000
  {
    SetKind(SetSize(m, b.seg, b.size + 1 + c.size), b.seg, Kind(m, c.seg))
  }

  lemma MergedHeaders(m: Memory, b: Block, c: Block, t: Word)
    requires b.seg < TOP && c.seg < TOP && b.size + 1 + c.size < 0x1_0000
    ensures HeaderAt(MergedMemory(m, b, c), t) ==
            if t == b.seg then HeaderAt(m, t).(kind := Kind(m, c.seg), size := b.size + 1 + c.size) else HeaderAt(m, t)
  {
    hide SetKind, SetSize, HeaderAt;
    SizeReadsBack(m, b.seg, b.size + 1 + c.size, t);
    KindReadsBack(SetSize(m, b.seg, b.size + 1 + c.size), b.seg, Kind(m, c.seg), t);
  }

  lemma MergeRepresents(m: Memory, arena: nat, bs: seq<Block>, i: nat)
    requires Represents(m, arena, bs) && i + 1 < |bs|
    ensures bs[i].seg < TOP && bs[i].size + 1 + bs[i + 1].size < 0x1_0000 && bs[i + 1].seg < TOP
    ensures Represents(MergedMemory(m, bs[i], bs[i + 1]), arena, Merged(bs, i))
  {
    ChainBelowTop(arena, bs, i + 1);
    ChainMerged(arena, bs, i);
    assert HeaderIs(m, bs[i], false) && HeaderIs(m, bs[i + 1], i + 1 == |bs| - 1);
    assert Next(bs[i]) == bs[i + 1].seg;
    hide Chain, MergedMemory, Kind, Owner, Size;
    var b, c, after := bs[i], bs[i + 1], Merged(bs, i);
    forall j | 0 <= j < |after| ensures HeaderIs(MergedMemory(m, b, c), after[j], j == |after| - 1) {
      MergedHeaders(m, b, c, after[j].seg) by { assert after[j].seg < TOP by { KeptBlock(m, arena, bs, i, j); } }
      KeptBlock(m, arena, bs, i, j);
    }
  }

  /** Block j after a merge at i: the same block as before, elsewhere, or the merged one. */
  lemma KeptBlock(m: Memory, arena: nat, bs: seq<Block>, i: nat, j: nat)
    requires Represents(m, arena, bs) && i + 1 < |bs| && j < |bs| - 1
    ensures j == i ==>
              && Merged(bs, i)[j] == Block(bs[i].seg, bs[i].size + 1 + bs[i + 1].size, bs[i].owner)
              && bs[i].seg < TOP
    ensures j != i ==> var k := if j < i then j else j + 1;
                       Merged(bs, i)[j] == bs[k] && bs[k].seg != bs[i].seg && HeaderIs(m, bs[k], k == |bs| - 1)
  {
    hide HeaderAt;
    var k := if j <= i then j else j + 1;
    assert HeaderIs(m, bs[k], k == |bs| - 1);
    if j != i {
      SegsDiffer(arena, bs, k, i);
    }
  }

  /** The memory after block b is cut to `wanted`: a header for the rest, then its own. */
  function CutMemory(m: Memory, b: Block, wanted: nat): Memory
    requires b.seg + 1 + wanted < TOP && wanted < b.size < 0x1_0000
  {
    var next := b.seg + 1 + wanted;
    var m1 := SetKind(m, next, Kind(m, b.seg));
    var m2 := SetOwner(m1, next, 0);
    var m3 := SetSize(m2, next, b.size - wanted - 1);
    SetSize(SetKind(m3, b.seg, KIND_M), b.seg, wanted)
  }

  lemma CutHeaders(m: Memory, b: Block, wanted: nat, t: Word)
    requires b.seg + 1 + wanted < TOP && wanted < b.size < 0x1_0000
    ensures HeaderAt(CutMemory(m, b, wanted), t) ==
            if t == b.seg then HeaderAt(m, t).(kind := KIND_M, size := wanted)
            else if t == b.seg + 1 + wanted then Header(Kind(m, b.seg), 0, b.size - wanted - 1)
            else HeaderAt(m, t)
  {
    hide SetKind, SetSize, SetOwner, HeaderAt;
    var next := b.seg + 1 + wanted;
    KindReadsBack(m, next, Kind(m, b.seg), t);
    var m1 := SetKind(m, next, Kind(m, b.seg));
    OwnerReadsBack(m1, next, 0, t);
    var m2 := SetOwner(m1, next, 0);
    SizeReadsBack(m2, next, b.size - wanted - 1, t);
    var m3 := SetSize(m2, next, b.size - wanted - 1);
    KindReadsBack(m3, b.seg, KIND_M, t);
    SizeReadsBack(SetKind(m3, b.seg, KIND_M), b.seg, wanted, t);
  }

  lemma CutRepresents(m: Memory, arena: nat, bs: seq<Block>, i: nat, wanted: nat)
    requires Represents(m, arena, bs) && i < |bs| && wanted < bs[i].size
    ensures bs[i].seg + 1 + wanted < TOP && bs[i].size < 0x1_0000
    ensures Represents(CutMemory(m, bs[i], wanted), arena, Cut(bs, i, wanted))
  {
    ChainBelowTop(arena, bs, i);
    ChainCut(arena, bs, i, wanted);
    assert HeaderIs(m, bs[i], i == |bs| - 1);
    hide Chain, CutMemory, Kind, Owner, Size;
    var b, after := bs[i], Cut(bs, i, wanted);
    forall j | 0 <= j < |after| ensures HeaderIs(CutMemory(m, b, wanted), after[j], j == |after| - 1) {
      var k := if j <= i then j else j - 1;
      assert HeaderIs(m, bs[k], k == |bs| - 1);
      if k != i {
        SegsDiffer(arena, bs, k, i);
        SegsDiffer(arena, bs, i, k);
      }
      CutHeaders(m, b, wanted, after[j].seg);
    }
  }

  lemma GivenRepresents(m: Memory, arena: nat, bs: seq<Block>, i: nat, owner: Word)
    requires Represents(m, arena, bs) && i < |bs|
    ensures bs[i].seg < TOP
    ensures Represents(SetOwner(m, bs[i].seg, owner), arena, Given(bs, i, owner))
  {
    assert HeaderIs(m, bs[i], i == |bs| - 1);
    ChainGiven(arena, bs, i, owner);
    hide SetOwner, HeaderAt, Chain;
    var after := Given(bs, i, owner);
    forall j | 0 <= j < |after| ensures HeaderIs(SetOwner(m, bs[i].seg, owner), after[j], j == |after| - 1) {
      assert HeaderIs(m, bs[j], j == |bs| - 1);
      if j != i {
        SegsDiffer(arena, bs, i, j);
      }
      OwnerReadsBack(m, bs[i].seg, owner, bs[j].seg);
    }
  }

  // ----- what the services keep and change -----

  lemma OwnedParts(bs: seq<Block>, i: nat)
    requires i < |bs|
    ensures Owned(bs) == Owned(bs[..i]) + Owned([bs[i]]) + Owned(bs[i + 1..])
  {
    assert bs == bs[..i] + [bs[i]] + bs[i + 1..];
    OwnedConcat(bs[..i] + [bs[i]], bs[i + 1..]);
    OwnedConcat(bs[..i], [bs[i]]);
  }

  /** No block is the same as another. */
  lemma NotElsewhere(arena: nat, bs: seq<Block>, i: nat)
    requires Chain(arena, bs) && i < |bs|
    ensures bs[i] !in bs[..i] && bs[i] !in bs[i + 1..]
    ensures forall b :: b in bs[..i] || b in bs[i + 1..] ==> b.seg != bs[i].seg
  {
    forall b | b in bs[..i] || b in bs[i + 1..] ensures b.seg != bs[i].seg {
      if b in bs[..i] {
        var j :| 0 <= j < i && bs[j] == b;
        SegsDiffer(arena, bs, i, j);
      } else {
        var j :| i < j < |bs| && bs[j] == b;
        SegsDiffer(arena, bs, i, j);
      }
    }
  }

  lemma SegsJoined(bs: seq<Block>, i: nat, k: nat)
    requires i < |bs| && k <= |bs| - i - 1
    ensures Segs(JoinedSome(bs, i, k)) <= Segs(bs)
  {
    hide Span;
    var js := JoinedSome(bs, i, k);
    forall x | x in Segs(js) ensures x in Segs(bs) {
      var j :| 0 <= j < |js| && js[j].seg == x;
      assert x == bs[if j <= i then j else j + k].seg;
    }
  }

  lemma SegsCut(bs: seq<Block>, i: nat, wanted: nat)
    requires i < |bs| && wanted < bs[i].size
    ensures Segs(Cut(bs, i, wanted)) <= Segs(bs) + {bs[i].seg + 1 + wanted}
  {
    var cs := Cut(bs, i, wanted);
    forall x | x in Segs(cs) ensures x in Segs(bs) + {bs[i].seg + 1 + wanted} {
      var j :| 0 <= j < |cs| && cs[j].seg == x;
      if j <= i {
        assert x == bs[j].seg;
      } else if j > i + 1 {
        assert x == bs[j - 1].seg;
      }
    }
  }

  /** The free blocks a list starts with are no part of what is owned. */
  lemma OwnedPastLead(tail: seq<Block>)
    ensures Owned(tail[Lead(tail)..]) == Owned(tail)
  {
    var k := Lead(tail);
    assert Owned(tail[..k]) == {};
    OwnedConcat(tail[..k], tail[k..]);
    assert tail == tail[..k] + tail[k..];
  }

  lemma JoinedParts(bs: seq<Block>, i: nat)
    requires i < |bs|
    ensures var js := Joined(bs, i);
            && i < |js| <= |bs| && js[..i] == bs[..i]
            && js[i] == Block(bs[i].seg, RunSize(bs[i..]), bs[i].owner)
            && js[i + 1..] == bs[i + 1 + Lead(bs[i + 1..])..]
            && Owned(js[i + 1..]) == Owned(bs[i + 1..])
            && (i + 1 < |js| ==> js[i + 1].owner != 0)
            && Segs(js) <= Segs(bs)
  {
    hide Owned, Segs, Span;
    var tail := bs[i + 1..];
    var k := Lead(tail);
    var js := Joined(bs, i);
    assert bs[i..][1..] == tail;
    assert js[i + 1..] == bs[i + 1 + k..] == tail[k..];
    assert i + 1 < |js| ==> js[i + 1] == tail[k];
    OwnedPastLead(tail);
    SegsJoined(bs, i, k);
  }

  lemma TrimmedParts(bs: seq<Block>, i: nat, wanted: nat)
    requires i < |bs|
    ensures var ts := Trimmed(bs, i, wanted);
            && i < |ts| && ts[..i] == bs[..i]
            && ts[i] == Block(bs[i].seg, if wanted < bs[i].size then wanted else bs[i].size, bs[i].owner)
            && Owned(ts[i + 1..]) == Owned(bs[i + 1..])
            && Segs(ts) <= Segs(bs) + {bs[i].seg + 1 + wanted}
  {
    hide Segs, Joined, Lead, Span, RunSize;
    if wanted < bs[i].size {
      var cs := Cut(bs, i, wanted);
      var ts := Joined(cs, i + 1);
      JoinedParts(cs, i + 1);
      SegsCut(bs, i, wanted);
      assert ts[..i] == ts[..i + 1][..i] == cs[..i + 1][..i] == bs[..i];
      assert ts[i] == ts[..i + 1][i] == cs[i];
      assert ts[i + 1..] == [ts[i + 1]] + ts[i + 2..];
      assert cs[i + 2..] == bs[i + 1..];
      OwnedConcat([ts[i + 1]], ts[i + 2..]);
    }
  }

  /** Looking at a free block, joined, leaves the rest of the list to look at. */
  lemma MaxRunStep(bs: seq<Block>, i: nat)
    requires i < |bs|
    ensures bs[i].owner != 0 ==> MaxRun(bs[i..]) == MaxRun(bs[i + 1..])
    ensures bs[i].owner == 0 ==>
              var js := Joined(bs, i);
              && i < |js|
              && MaxRun(bs[i..]) == if js[i].size > MaxRun(js[i + 1..]) then js[i].size else MaxRun(js[i + 1..])
  {
    assert bs[i..][1..] == bs[i + 1..];
    if bs[i].owner == 0 {
      MaxRunSkips(bs[i..]);
      JoinedParts(bs, i);
      var k := Lead(bs[i + 1..]);
      assert bs[i + 1..][k..] == bs[i + 1 + k..];
    }
  }

  /** The header check of every walk along the chain: a type, and an end at or below TOP. */
  predicate McbValid(m: Memory, seg: Word)
  {
    var kind, end := Kind(m, seg), seg + 1 + Size(m, seg);
    (kind == KIND_M || kind == KIND_Z) && end <= TOP && (kind != KIND_Z || end == TOP)
  }

  /** In a chain it always holds, the type tells the last block, and the sizes lead to the next. */
  lemma WalkIsSafe(m: Memory, arena: nat, bs: seq<Block>, i: nat)
    requires Represents(m, arena, bs) && i < |bs|
    ensures bs[i].seg < TOP && McbValid(m, bs[i].seg)
    ensures Kind(m, bs[i].seg) == KIND_Z <==> i == |bs| - 1
    ensures Owner(m, bs[i].seg) == bs[i].owner && Size(m, bs[i].seg) == bs[i].size
    ensures i < |bs| - 1 ==> bs[i + 1].seg == bs[i].seg + 1 + bs[i].size
  {
    assert HeaderIs(m, bs[i], i == |bs| - 1);
    ChainBelowTop(arena, bs, i);
  }

  lemma OwnedSingle(b: Block)
    ensures Owned([b]) == if b.owner == 0 then {} else {b}
  {
  }

  /** Joining free blocks to a free block leaves what is owned. */
  lemma OwnedLooked(bs: seq<Block>, i: nat)
    requires i < |bs| && bs[i].owner == 0
    ensures Owned(Joined(bs, i)) == Owned(bs)
  {
    hide Owned, Joined, Lead, RunSize;
    JoinedParts(bs, i);
    OwnedParts(bs, i);
    OwnedParts(Joined(bs, i), i);
    OwnedSingle(bs[i]);
    OwnedSingle(Joined(bs, i)[i]);
  }

  /** Block i, whatever it was, with `wanted` of its paragraphs given to an owner. */
  lemma OwnedTaken(bs: seq<Block>, i: nat, wanted: nat, owner: nat)
    requires i < |bs|
    ensures var ts := Trimmed(bs, i, wanted);
            var b := Block(bs[i].seg, if wanted < bs[i].size then wanted else bs[i].size, owner);
            i < |ts| && Owned(Given(ts, i, owner)) == Owned(bs[..i]) + Owned([b]) + Owned(bs[i + 1..])
  {
    hide Owned, Trimmed;
    TrimmedParts(bs, i, wanted);
    var gs := Given(Trimmed(bs, i, wanted), i, owner);
    assert gs[..i] == Trimmed(bs, i, wanted)[..i] && gs[i + 1..] == Trimmed(bs, i, wanted)[i + 1..];
    OwnedParts(gs, i);
  }

  lemma OnlyInMore(m: Memory, m': Memory, s: set<int>, u: set<int>)
    requires OnlyIn(m, m', s) && s <= u
    ensures OnlyIn(m, m', u)
  {
  }

  lemma RunSizeNext(bs: seq<Block>)
    requires bs != []
    ensures RunSize(bs) == bs[0].size + if |bs| > 1 && bs[1].owner == 0 then 1 + RunSize(bs[1..]) else 0
  {
    var tail := bs[1..];
    if |bs| > 1 && bs[1].owner == 0 {
      SpanTail(tail, Lead(tail));
    }
  }

  /** Joining blocks anywhere changes neither what can be had from the front nor the most that can be had. */
  lemma {:induction false} RunSizeJoined(bs: seq<Block>, i: nat)
    requires i < |bs| && bs[i].owner == 0
    ensures var js := Joined(bs, i); js != [] && RunSize(js) == RunSize(bs) && js[0].owner == bs[0].owner
  {
    hide RunSize, Lead;
    var js := Joined(bs, i);
    JoinedParts(bs, i);
    RunSizeNext(js);
    RunSizeNext(bs);
    if i == 0 {
      assert bs[0..] == bs;
    } else {
      JoinedTail(bs, i);
      RunSizeJoined(bs[1..], i - 1);
      assert js[0] == js[..i][0] == bs[0];
      assert js[1] == js[1..][0];
    }
  }

  lemma JoinedTail(bs: seq<Block>, i: nat)
    requires 0 < i < |bs|
    ensures Joined(bs, i)[1..] == Joined(bs[1..], i - 1)
  {
    assert bs[1..][i..] == bs[i + 1..];
    assert bs[1..][..i - 1] == bs[..i][1..];
  }

  lemma {:induction false} MaxRunJoined(bs: seq<Block>, i: nat)
    requires i < |bs| && bs[i].owner == 0
    ensures MaxRun(Joined(bs, i)) == MaxRun(bs)
  {
    var js := Joined(bs, i);
    JoinedParts(bs, i);
    RunSizeJoined(bs, i);
    hide RunSize, Lead, Joined;
    if i == 0 {
      MaxRunStep(bs, 0);
      assert bs[0..] == bs;
    } else {
      JoinedTail(bs, i);
      MaxRunJoined(bs[1..], i - 1);
      assert js[0] == js[..i][0] == bs[0];
    }
  }
}

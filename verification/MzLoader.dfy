/**
 The program loader of dosrun (userland/dosrun/loader.c): what .EXE and .COM files it accepts, where it puts
 them, and what relocation does to the image.

 The file is its bytes. With no memory given, the loader only checks, as its callers first have it do.
 */
module MzLoader {
  import opened Arithmetic

  const MEM_SIZE := 0x10_0000
  const STACK_TOP := 0xFFFE

  // ----- the MZ header -----

  ghost predicate Bytes(s: seq<nat>)
  {
    forall i :: 0 <= i < |s| ==> s[i] < 256
  }

  function Le16(s: seq<nat>, i: nat): nat
    requires i + 1 < |s|
  {
    s[i] + 256 * s[i + 1]
  }

  function Le32(s: seq<nat>, i: nat): nat
    requires i + 3 < |s|
  {
    Le16(s, i) + 0x1_0000 * Le16(s, i + 2)
  }

  predicate IsLha(f: seq<nat>)
  {
    |f| >= 7 && f[2] == '-' as nat && f[3] == 'l' as nat && f[4] == 'h' as nat && f[6] == '-' as nat
  }

  predicate IsExe(f: seq<nat>)
  {
    |f| >= 2 && f[0] == 'M' as nat && f[1] == 'Z' as nat
  }

  /** How long the header says the program is, with its header. */
  function FileLen(f: seq<nat>): int
    requires |f| >= 28
  {
    var pages, rest := Le16(f, 4), Le16(f, 2);
    if pages == 0 then 0 else (pages - 1) * 512 + if rest == 0 then 512 else rest
  }

  function HeaderLen(f: seq<nat>): nat
    requires |f| >= 28
  {
    Le16(f, 8) * 16
  }

  function ImageLen(f: seq<nat>): int
    requires |f| >= 28
  {
    FileLen(f) - HeaderLen(f)
  }

  /** The header, the image and the relocations are all in the file. */
  predicate WellFormed(f: seq<nat>)
  {
    && |f| >= 28 && Le16(f, 4) != 0 && Le16(f, 2) <= 512
    && 28 <= HeaderLen(f) <= FileLen(f) <= |f|
    && (Le16(f, 6) != 0 ==> 28 <= Le16(f, 24) && Le16(f, 24) + 4 * Le16(f, 6) <= HeaderLen(f))
  }

  /** The front of a DOS extender's executable. */
  predicate IsExtender(f: seq<nat>)
    requires WellFormed(f)
  {
    && HeaderLen(f) >= 64 && |f| >= 64
    && var next := Le32(f, 60);
       && HeaderLen(f) <= next <= |f| - 2
       && f[next] == 'L' as nat && (f[next + 1] == 'E' as nat || f[next + 1] == 'X' as nat)
  }

  /** Where in the image the i-th relocated word is. */
  function Site(f: seq<nat>, i: nat): nat
    requires WellFormed(f) && i < Le16(f, 6)
  {
    Le16(f, Le16(f, 24) + 4 * i + 2) * 16 + Le16(f, Le16(f, 24) + 4 * i)
  }

  function Sites(f: seq<nat>): seq<nat>
    requires WellFormed(f)
  {
    seq(Le16(f, 6), i requires 0 <= i < Le16(f, 6) => Site(f, i))
  }

  predicate SitesInside(f: seq<nat>)
    requires WellFormed(f)
  {
    forall i :: 0 <= i < Le16(f, 6) ==> Site(f, i) + 1 < ImageLen(f)
  }

  /** The paragraphs of the image and the PSP. */
  function ImageParas(f: seq<nat>): int
    requires |f| >= 28
  {
    (ImageLen(f) + 15) / 16 + 0x10
  }

  function Minimum(f: seq<nat>): int
    requires |f| >= 28
  {
    ImageParas(f) + Le16(f, 10)
  }

  /** Zero for both asks for the largest block, loaded at its high end. */
  predicate High(f: seq<nat>)
    requires |f| >= 28
  {
    Le16(f, 10) == 0 && Le16(f, 12) == 0
  }

  function Maximum(f: seq<nat>): int
    requires |f| >= 28
  {
    var max := if High(f) then 0xFFFF else ImageParas(f) + Le16(f, 12);
    if max < Minimum(f) then Minimum(f) else max
  }

  /** What fits below the video memory, computed in 32 bits. */
  predicate BelowVideo(f: seq<nat>, psp: nat)
    requires WellFormed(f)
  {
    ImageLen(f) <= (0xA_0000 - (psp + 0x10) % 0x1_0000 * 16) % 0x1_0000_0000
  }

  function LoadSegment(f: seq<nat>, psp: nat, paras: nat): int
    requires WellFormed(f)
  {
    if High(f) && ImageParas(f) <= paras then psp + paras - (ImageParas(f) - 0x10) else psp + 0x10
  }

  /** The files that are loaded. */
  predicate Accepted(f: seq<nat>, psp: nat, paras: nat)
  {
    && !IsLha(f)
    && if IsExe(f) then WellFormed(f) && !IsExtender(f) && BelowVideo(f, psp) && Minimum(f) <= paras && SitesInside(f)
       else |f| <= 0xFF00 && paras >= 0x1000
  }

  /** The files that would be, with more memory. */
  predicate NeedsMemory(f: seq<nat>, psp: nat, paras: nat)
  {
    && !IsLha(f)
    && if IsExe(f) then WellFormed(f) && !IsExtender(f) && BelowVideo(f, psp) && Minimum(f) > paras
       else |f| <= 0xFF00 && paras < 0x1000
  }

  /** Byte for byte: an archive says "-lh?-" at offset 2; an extender has "LE" or "LX" where the number at 60 points,
      past the header. */
  lemma RefusedKinds(f: seq<nat>)
    ensures IsLha(f) <==> |f| >= 7 && f[2..5] == [45, 108, 104] && f[6] == 45
    ensures WellFormed(f) ==>
              (IsExtender(f) <==>
               && |f| >= 64 && HeaderLen(f) >= 64
               && var next := f[60] + 0x100 * f[61] + 0x1_0000 * f[62] + 0x100_0000 * f[63];
                  && next >= HeaderLen(f) && next + 2 <= |f|
                  && (f[next..next + 2] == [76, 69] || f[next..next + 2] == [76, 88]))
  {
    if |f| >= 7 {
      assert f[2..5] == [f[2], f[3], f[4]];
    }
    if WellFormed(f) && |f| >= 64 {
      var next := f[60] + 0x100 * f[61] + 0x1_0000 * f[62] + 0x100_0000 * f[63];
      assert Le32(f, 60) == next;
      if next + 2 <= |f| {
        assert f[next..next + 2] == [f[next], f[next + 1]];
      }
    }
  }

  /** For a PSP below the video memory nothing wraps: the image would end below it too. */
  lemma VideoIsAbove(f: seq<nat>, psp: nat)
    requires WellFormed(f) && psp + 0x10 <= 0xA000
    ensures BelowVideo(f, psp) <==> (psp + 0x10) * 16 + ImageLen(f) <= 0xA_0000
  {
  }

  /** The image is put right after the PSP, or so that its last paragraph is the block's. */
  lemma LoadedLowOrHigh(f: seq<nat>, psp: nat, paras: nat)
    requires WellFormed(f) && Minimum(f) <= paras
    ensures var seg := LoadSegment(f, psp, paras);
            if Le16(f, 10) == 0 && Le16(f, 12) == 0
            then 0 <= (psp + paras) * 16 - (seg * 16 + ImageLen(f)) < 16 else seg == psp + 0x10
  {
  }

  // ----- the file a linker makes -----

  /** A program before it is a file: the relocated words are at seg:off in the image. */
  datatype Program = Program(image: seq<nat>, relocs: seq<(nat, nat)>, minAlloc: nat, maxAlloc: nat,
                             ss: nat, sp: nat, ip: nat, cs: nat)

  /** Words of 16 bits, low byte first. */
  function Flat(ws: seq<nat>): (t: seq<nat>)
    ensures |t| == 2 * |ws|
  {
    if ws == [] then [] else var x := ws[|ws| - 1]; Flat(ws[..|ws| - 1]) + [x % 256, x / 256 % 256]
  }

  /** The relocation table, offset before segment. */
  function Table(relocs: seq<(nat, nat)>): (t: seq<nat>)
    ensures |t| == 2 * |relocs|
  {
    seq(2 * |relocs|, k requires 0 <= k < 2 * |relocs| => if k % 2 == 0 then relocs[k / 2].1 else relocs[k / 2].0)
  }

  /** The paragraphs of the header and the table. */
  function HeadParas(p: Program): nat
  {
    (28 + 4 * |p.relocs| + 15) / 16
  }

  function TotalLen(p: Program): nat
  {
    HeadParas(p) * 16 + |p.image|
  }

  /** "MZ", then the fields in the order they have. */
  function Header(p: Program): (h: seq<nat>)
  {
    var n := TotalLen(p);
    [0x5A4D, n % 512, (n + 511) / 512, |p.relocs|, HeadParas(p), p.minAlloc, p.maxAlloc, p.ss, p.sp, 0,
     p.ip, p.cs, 28, 0]
  }

  function Linked(p: Program): (f: seq<nat>)
    ensures |f| == TotalLen(p)
  {
    var h := Flat(Header(p) + Table(p.relocs));
    h + seq(HeadParas(p) * 16 - |h|, _ => 0) + p.image
  }

  /** Every number fits its field. */
  predicate Linkable(p: Program)
  {
    && |p.relocs| < 0x1_0000 && TotalLen(p) <= 0xFFFF * 512 && p.minAlloc < 0x1_0000 && p.maxAlloc < 0x1_0000
    && p.ss < 0x1_0000 && p.sp < 0x1_0000 && p.ip < 0x1_0000 && p.cs < 0x1_0000
    && forall i :: 0 <= i < |p.relocs| ==> p.relocs[i].0 < 0x1_0000 && p.relocs[i].1 < 0x1_0000
  }

  lemma {:induction false} FlatAt(ws: seq<nat>, i: nat)
    requires i < |ws| && ws[i] < 0x1_0000
    ensures Flat(ws)[2 * i] < 256 && Le16(Flat(ws), 2 * i) == ws[i]
  {
    if i < |ws| - 1 {
      FlatAt(ws[..|ws| - 1], i);
    }
  }

  lemma FieldAt(f: seq<nat>, ws: seq<nat>, i: nat)
    requires |f| >= 2 * |ws| && f[..2 * |ws|] == Flat(ws) && i < |ws| && ws[i] < 0x1_0000
    ensures Le16(f, 2 * i) == ws[i]
  {
    FlatAt(ws, i);
    assert f[2 * i] == f[..2 * |ws|][2 * i] && f[2 * i + 1] == f[..2 * |ws|][2 * i + 1];
  }

  /** The loader finds in a linked file what the linker put there: the whole image, and each relocated word. */
  lemma LinkedReads(p: Program)
    requires Linkable(p)
    ensures var f := Linked(p);
            && IsExe(f) && !IsLha(f) && WellFormed(f) && HeaderLen(f) == HeadParas(p) * 16 && FileLen(f) == |f|
            && f[HeaderLen(f)..FileLen(f)] == p.image && ImageParas(f) == (|p.image| + 15) / 16 + 0x10
            && Minimum(f) == ImageParas(f) + p.minAlloc && (High(f) <==> p.minAlloc == 0 && p.maxAlloc == 0)
            && |Sites(f)| == |p.relocs|
            && (forall i :: 0 <= i < |p.relocs| ==> Sites(f)[i] == p.relocs[i].0 * 16 + p.relocs[i].1)
            && Le16(f, 14) == p.ss && Le16(f, 16) == p.sp && Le16(f, 20) == p.ip && Le16(f, 22) == p.cs
  {
    hide Flat, Le16, Table, Linked, Linkable;
    var f, ws := Linked(p), Header(p) + Table(p.relocs);
    LinkedParts(p);
    PagesMake(TotalLen(p));
    FirstFields(f, ws);
    assert WellFormed(f);
    forall i | 0 <= i < |p.relocs|
      ensures Site(f, i) == p.relocs[i].0 * 16 + p.relocs[i].1
    {
      TableAt(p.relocs, i);
      FieldAt(f, ws, 14 + 2 * i);
      FieldAt(f, ws, 14 + 2 * i + 1);
    }
  }

  lemma LinkedParts(p: Program)
    requires Linkable(p)
    ensures var f, ws, head := Linked(p), Header(p) + Table(p.relocs), HeadParas(p) * 16;
            && |ws| == 14 + 2 * |p.relocs| && 2 * |ws| <= head <= |f| && f[..2 * |ws|] == Flat(ws)
            && f[head..] == p.image
            && forall i :: 0 <= i < |ws| ==> ws[i] < 0x1_0000
  {
    hide Flat;
    var ws := Header(p) + Table(p.relocs);
    assert |Flat(ws)| == 2 * |ws|;
  }

  lemma TableAt(relocs: seq<(nat, nat)>, i: nat)
    requires i < |relocs|
    ensures Table(relocs)[2 * i] == relocs[i].1 && Table(relocs)[2 * i + 1] == relocs[i].0
  {
  }

  lemma FirstFields(f: seq<nat>, ws: seq<nat>)
    requires 14 <= |ws| && |f| >= 2 * |ws| && f[..2 * |ws|] == Flat(ws) && ws[0] == 0x5A4D && ws[1] < 512
    requires forall i :: 0 <= i < |ws| ==> ws[i] < 0x1_0000
    ensures f[0] == 0x4D && f[1] == 0x5A && f[3] < 2
    ensures && Le16(f, 2) == ws[1] && Le16(f, 4) == ws[2] && Le16(f, 6) == ws[3] && Le16(f, 8) == ws[4]
            && Le16(f, 10) == ws[5] && Le16(f, 12) == ws[6] && Le16(f, 14) == ws[7] && Le16(f, 16) == ws[8]
            && Le16(f, 20) == ws[10] && Le16(f, 22) == ws[11] && Le16(f, 24) == ws[12]
  {
    hide Flat;
    FieldAt(f, ws, 0);
    FieldAt(f, ws, 1);
    FlatAt(ws, 0);
    assert f[0] == f[..2 * |ws|][0];
    hide Le16;
    FieldAt(f, ws, 2);
    FieldAt(f, ws, 3);
    FieldAt(f, ws, 4);
    FieldAt(f, ws, 5);
    FieldAt(f, ws, 6);
    FieldAt(f, ws, 7);
    FieldAt(f, ws, 8);
    FieldAt(f, ws, 10);
    FieldAt(f, ws, 11);
    FieldAt(f, ws, 12);
  }

  lemma PagesMake(n: nat)
    requires n > 0
    ensures var pages, rest := (n + 511) / 512, n % 512;
            pages != 0 && (pages - 1) * 512 + (if rest == 0 then 512 else rest) == n
  {
  }

  // ----- where the image lands -----

  /** An accepted image is inside its memory block, past the PSP, wherever it is loaded. */
  lemma ImageInside(f: seq<nat>, psp: nat, paras: nat)
    requires Accepted(f, psp, paras) && IsExe(f) && psp + paras <= 0xA000
    ensures var seg := LoadSegment(f, psp, paras);
            psp + 0x10 <= seg && seg * 16 + ImageLen(f) <= (psp + paras) * 16
    ensures forall i :: 0 <= i < Le16(f, 6) ==>
              var at := LoadSegment(f, psp, paras) * 16 + Site(f, i);
              (psp + 0x10) * 16 <= at && at + 1 < (psp + paras) * 16
  {
    var n := ImageLen(f);
    assert ImageParas(f) * 16 >= n + 0x100;
  }

  // ----- relocation -----

  /** The word at r gets the segment added. */
  function Patch(img: seq<nat>, r: nat, seg: int): (p: seq<nat>)
    requires r + 1 < |img|
    ensures |p| == |img|
  {
    var w := (Le16(img, r) + seg) % 0x1_0000;
    img[r := w % 256][r + 1 := w / 256]
  }

  ghost predicate Inside(img: seq<nat>, sites: seq<nat>)
  {
    forall i :: 0 <= i < |sites| ==> sites[i] + 1 < |img|
  }

  function Relocated(img: seq<nat>, sites: seq<nat>, seg: int): (p: seq<nat>)
    requires Inside(img, sites)
    ensures |p| == |img|
  {
    if sites == [] then img
    else Patch(Relocated(img, sites[..|sites| - 1], seg), sites[|sites| - 1], seg)
  }

  /** No two relocated words overlap. */
  ghost predicate Apart(sites: seq<nat>)
  {
    forall i, j :: 0 <= i < j < |sites| ==> sites[i] + 2 <= sites[j] || sites[j] + 2 <= sites[i]
  }

  ghost predicate InWord(sites: seq<nat>, a: nat)
  {
    exists i :: 0 <= i < |sites| && sites[i] <= a < sites[i] + 2
  }

  /** Bytes in no relocated word are the file's. */
  lemma {:induction false} RelocatedElsewhere(img: seq<nat>, sites: seq<nat>, seg: int, a: nat)
    requires Inside(img, sites) && a < |img| && !InWord(sites, a)
    ensures Relocated(img, sites, seg)[a] == img[a]
  {
    if sites != [] {
      var t, x := sites[..|sites| - 1], sites[|sites| - 1];
      assert forall i :: 0 <= i < |t| ==> t[i] == sites[i];
      assert !(x <= a < x + 2);
      RelocatedElsewhere(img, t, seg, a);
    }
  }

  /** Relocated words are the file's, with the segment added. */
  lemma {:induction false} RelocatedWord(img: seq<nat>, sites: seq<nat>, seg: int, k: nat)
    requires Inside(img, sites) && Apart(sites) && k < |sites|
    ensures Le16(Relocated(img, sites, seg), sites[k]) == (Le16(img, sites[k]) + seg) % 0x1_0000
  {
    hide Patch;
    var t, x := sites[..|sites| - 1], sites[|sites| - 1];
    var before := Relocated(img, t, seg);
    assert forall i :: 0 <= i < |t| ==> t[i] == sites[i];
    if k < |t| {
      assert sites[k] + 2 <= x || x + 2 <= sites[k];
      RelocatedWord(img, t, seg, k);
      PatchElsewhere(before, x, seg, sites[k]);
    } else {
      assert !InWord(t, x) && !InWord(t, x + 1);
      RelocatedElsewhere(img, t, seg, x);
      RelocatedElsewhere(img, t, seg, x + 1);
      PatchWord(before, x, seg);
    }
  }

  lemma PatchWord(img: seq<nat>, r: nat, seg: int)
    requires r + 1 < |img|
    ensures Le16(Patch(img, r, seg), r) == (Le16(img, r) + seg) % 0x1_0000
  {
    Joined((Le16(img, r) + seg) % 0x1_0000);
  }

  lemma PatchElsewhere(img: seq<nat>, r: nat, seg: int, a: nat)
    requires r + 1 < |img| && a + 1 < |img| && (a + 2 <= r || r + 2 <= a)
    ensures Le16(Patch(img, r, seg), a) == Le16(img, a)
  {
  }

  lemma Joined(w: nat)
    ensures w % 256 + 256 * (w / 256) == w
  {
  }

  /** Loaded at two segments, the images differ only in the relocated words, and there by the segments' difference. */
  lemma TwoLoads(img: seq<nat>, sites: seq<nat>, s: int, t: int, k: nat, a: nat)
    requires Inside(img, sites) && Apart(sites)
    ensures k < |sites| ==>
              (Le16(Relocated(img, sites, s), sites[k]) - Le16(Relocated(img, sites, t), sites[k])) % 0x1_0000
              == (s - t) % 0x1_0000
    ensures a < |img| && !InWord(sites, a) ==> Relocated(img, sites, s)[a] == Relocated(img, sites, t)[a]
  {
    if k < |sites| {
      RelocatedWord(img, sites, s, k);
      RelocatedWord(img, sites, t, k);
      Residues(Le16(img, sites[k]), s, t, 0x1_0000);
    }
    if a < |img| && !InWord(sites, a) {
      RelocatedElsewhere(img, sites, s, a);
      RelocatedElsewhere(img, sites, t, a);
    }
  }

  lemma Residues(x: int, s: int, t: int, m: nat)
    requires m > 0
    ensures ((x + s) % m - (x + t) % m) % m == (s - t) % m
  {
    var p, q := (x + s) / m, (x + t) / m;
    assert x + s == p * m + (x + s) % m && x + t == q * m + (x + t) % m;
    assert (x + s) % m - (x + t) % m == (s - t) + (q - p) * m;
    DivModAdd(s - t, q - p, m);
  }

  // ----- loading -----

  /** The registers a program starts with; DS and ES are the PSP's segment. */
  datatype Start = Start(cs: nat, ip: nat, ss: nat, sp: nat)

  function Word(mem: seq<nat>, a: nat): nat
    requires |mem| == MEM_SIZE
  {
    mem[a % MEM_SIZE] + 256 * mem[(a + 1) % MEM_SIZE]
  }

  method Write8(mem: array<nat>, a: nat, v: nat)
    requires mem.Length == MEM_SIZE
    modifies mem
    ensures mem[..] == old(mem[..])[a % MEM_SIZE := v]
  {
    mem[a % MEM_SIZE] := v;
  }

  method Write16(mem: array<nat>, a: nat, v: nat)
    requires mem.Length == MEM_SIZE
    modifies mem
    ensures mem[..] == old(mem[..])[a % MEM_SIZE := v % 256][(a + 1) % MEM_SIZE := v / 256 % 256]
  {
    mem[a % MEM_SIZE] := v % 256;
    mem[(a + 1) % MEM_SIZE] := v / 256 % 256;
  }

  method Read16(mem: array<nat>, a: nat) returns (v: nat)
    requires mem.Length == MEM_SIZE
    ensures v == Word(mem[..], a)
  {
    v := mem[a % MEM_SIZE] + 256 * mem[(a + 1) % MEM_SIZE];
  }

  /** Memory with s put at `at`, and nothing else changed. */
  ghost predicate Placed(mem: seq<nat>, mem': seq<nat>, at: nat, s: seq<nat>)
  {
    && |mem| == |mem'| && at + |s| <= |mem|
    && mem' == mem[..at] + s + mem[at + |s|..]
  }

  /** Copies bytes of the file into memory. */
  method CopyIn(mem: array<nat>, at: nat, s: seq<nat>)
    requires mem.Length == MEM_SIZE && at + |s| <= MEM_SIZE
    modifies mem
    ensures Placed(old(mem[..]), mem[..], at, s)
  {
    ghost var was := mem[..];
    var i := 0;
    while i < |s|
      invariant 0 <= i <= |s|
      invariant forall a :: 0 <= a < MEM_SIZE ==> mem[a] == if at <= a < at + i then s[a - at] else was[a]
    {
      Write8(mem, at + i, s[i]);
      i := i + 1;
    }
  }

  /** Adds the segment to each relocated word. */
  method Relocate(mem: array<nat>, at: nat, f: seq<nat>, seg: nat, ghost img: seq<nat>, ghost was: seq<nat>)
    requires mem.Length == MEM_SIZE && WellFormed(f) && |img| == ImageLen(f) && Inside(img, Sites(f)) && Bytes(img)
    requires at + |img| <= MEM_SIZE && Placed(was, mem[..], at, img)
    modifies mem
    ensures Placed(was, mem[..], at, Relocated(img, Sites(f), seg))
  {
    hide Placed, Relocated, Patch, Inside, Word;
    var i := 0;
    ghost var sites := Sites(f);
    RelocatedNone(img, seg);
    assert sites[..0] == [];
    while i < Le16(f, 6)
      invariant 0 <= i <= Le16(f, 6)
      invariant Inside(img, sites[..i]) && Placed(was, mem[..], at, Relocated(img, sites[..i], seg))
    {
      var e := Le16(f, 24) + 4 * i;
      var site := at + Le16(f, e + 2) * 16 + Le16(f, e);
      assert sites[i] == Site(f, i);
      RelocatedMore(img, sites, i, seg);
      ghost var before := mem[..];
      var w := Read16(mem, site);
      Write16(mem, site, (w + seg) % 0x1_0000);
      PatchPlaced(was, before, mem[..], at, Relocated(img, sites[..i], seg), sites[i], seg);
      i := i + 1;
    }
    assert sites[..i] == sites;
  }

  lemma RelocatedNone(img: seq<nat>, seg: int)
    ensures Inside(img, []) && Relocated(img, [], seg) == img
  {
  }

  lemma RelocatedMore(img: seq<nat>, sites: seq<nat>, i: nat, seg: int)
    requires Inside(img, sites) && i < |sites|
    ensures Inside(img, sites[..i]) && Inside(img, sites[..i + 1]) && sites[i] + 1 < |img|
    ensures Relocated(img, sites[..i + 1], seg) == Patch(Relocated(img, sites[..i], seg), sites[i], seg)
  {
    assert sites[..i + 1][..i] == sites[..i];
  }

  /** Patching memory patches the image in it. */
  lemma PatchPlaced(was: seq<nat>, mem: seq<nat>, mem': seq<nat>, at: nat, img: seq<nat>, r: nat, seg: nat)
    requires |mem| == MEM_SIZE && Placed(was, mem, at, img) && r + 1 < |img|
    requires var w := (Word(mem, at + r) + seg) % 0x1_0000;
             mem' == mem[(at + r) % MEM_SIZE := w % 256][(at + r + 1) % MEM_SIZE := w / 256 % 256]
    ensures Placed(was, mem', at, Patch(img, r, seg))
  {
    assert (at + r) % MEM_SIZE == at + r && (at + r + 1) % MEM_SIZE == at + r + 1;
    assert mem[at + r] == img[r] && mem[at + r + 1] == img[r + 1];
    var w := (Le16(img, r) + seg) % 0x1_0000;
    assert w / 256 % 256 == w / 256;
  }

  function Clamp(n: int): int
  {
    if n > 0xFFFF then 0xFFFF else n
  }

  method LoadProgramAt(f: seq<nat>, psp: nat, paras: nat, mem: array?<nat>)
    returns (code: nat, minimum: int, maximum: int, start: Start)
    requires Bytes(f) && psp + paras <= 0xA000 && (mem != null ==> mem.Length == MEM_SIZE)
    modifies if mem != null then {mem} else {}
    ensures code == 0 <==> Accepted(f, psp, paras)
    ensures code == 8 <==> NeedsMemory(f, psp, paras)
    ensures code == 0 || code == 8 || code == 11
    ensures mem != null && code != 0 ==> mem[..] == old(mem[..])
    ensures (code == 0 || code == 8) && IsExe(f) ==> minimum == Clamp(Minimum(f)) && maximum == Clamp(Maximum(f))
    ensures (code == 0 || code == 8) && !IsExe(f) ==> minimum == 0x1000 && maximum == 0xFFFF
    ensures code == 0 && IsExe(f) ==>
              var seg := LoadSegment(f, psp, paras);
              && start == Start((seg + Le16(f, 22)) % 0x1_0000, Le16(f, 20), (seg + Le16(f, 14)) % 0x1_0000,
                                Le16(f, 16))
              && Inside(f[HeaderLen(f)..FileLen(f)], Sites(f))
              && (mem != null ==>
                    Placed(old(mem[..]), mem[..], seg * 16, Relocated(f[HeaderLen(f)..FileLen(f)], Sites(f), seg)))
    ensures code == 0 && !IsExe(f) ==>
              && start == Start(psp, 0x100, psp, STACK_TOP)
              && (mem != null ==>
                    && Placed(old(mem[..]), mem[..], psp * 16 + 0x100, ComImage(old(mem[..]), f, psp * 16)))
  {
    hide SitesInside, Relocated, Sites, Placed, Inside, ComImage, IsExtender, Bytes;
    minimum, maximum, start := 0, 0, Start(0, 0, 0, 0);
    if IsLha(f) {
      return 11, minimum, maximum, start;
    }
    if !IsExe(f) {
      code, minimum, maximum, start := LoadCom(f, psp, paras, mem);
      return;
    }
    if !WellFormed(f) || IsExtender(f) || !BelowVideo(f, psp) {
      return 11, minimum, maximum, start;
    }
    minimum, maximum := Clamp(Minimum(f)), Clamp(Maximum(f));
    if Minimum(f) > paras {
      return 8, minimum, maximum, start;
    }
    var ok := CheckSites(f);
    if !ok {
      return 11, minimum, maximum, start;
    }
    code := 0;
    ImageInside(f, psp, paras);
    SitesAreInside(f);
    var seg := LoadSegment(f, psp, paras);
    start := Start((seg + Le16(f, 22)) % 0x1_0000, Le16(f, 20), (seg + Le16(f, 14)) % 0x1_0000, Le16(f, 16));
    if mem != null {
      ghost var was := mem[..];
      CopyIn(mem, seg * 16, f[HeaderLen(f)..FileLen(f)]);
      Relocate(mem, seg * 16, f, seg, f[HeaderLen(f)..FileLen(f)], was);
    }
  }

  lemma SitesAreInside(f: seq<nat>)
    requires WellFormed(f) && SitesInside(f) && Bytes(f)
    ensures 0 <= HeaderLen(f) <= FileLen(f) <= |f| && Inside(f[HeaderLen(f)..FileLen(f)], Sites(f))
    ensures Bytes(f[HeaderLen(f)..FileLen(f)])
  {
  }

  /** Whether every relocated word is inside the image. */
  method CheckSites(f: seq<nat>) returns (ok: bool)
    requires WellFormed(f)
    ensures ok <==> SitesInside(f)
  {
    var i := 0;
    while i < Le16(f, 6)
      invariant 0 <= i <= Le16(f, 6) && forall j :: 0 <= j < i ==> Site(f, j) + 1 < ImageLen(f)
    {
      var e := Le16(f, 24) + 4 * i;
      var relative := Le16(f, e + 2) * 16 + Le16(f, e);
      assert relative == Site(f, i);
      if relative + 1 >= ImageLen(f) {
        return false;
      }
      i := i + 1;
    }
    ok := true;
  }

  // ----- .COM -----

  /** What a .COM's part of its segment holds: the file, and the zero word at the top of the stack. */
  ghost function ComImage(mem: seq<nat>, f: seq<nat>, at: nat): seq<nat>
    requires |mem| == MEM_SIZE && at + 0x1_0000 <= MEM_SIZE && |f| <= 0xFF00
  {
    (f + mem[at + 0x100 + |f|..at + 0x1_0000])[0xFEFE := 0][0xFEFF := 0]
  }

  method LoadCom(f: seq<nat>, psp: nat, paras: nat, mem: array?<nat>)
    returns (code: nat, minimum: int, maximum: int, start: Start)
    requires Bytes(f) && psp + paras <= 0xA000 && (mem != null ==> mem.Length == MEM_SIZE)
    modifies if mem != null then {mem} else {}
    ensures code == if |f| > 0xFF00 then 11 else if paras < 0x1000 then 8 else 0
    ensures |f| <= 0xFF00 ==> minimum == 0x1000 && maximum == 0xFFFF
    ensures mem != null && code != 0 ==> mem[..] == old(mem[..])
    ensures code == 0 ==>
              && start == Start(psp, 0x100, psp, STACK_TOP)
              && (mem != null ==> Placed(old(mem[..]), mem[..], psp * 16 + 0x100, ComImage(old(mem[..]), f, psp * 16)))
  {
    minimum, maximum, start := 0, 0, Start(0, 0, 0, 0);
    if |f| > 0xFF00 {
      return 11, minimum, maximum, start;
    }
    minimum, maximum := 0x1000, 0xFFFF;
    if paras < 0x1000 {
      return 8, minimum, maximum, start;
    }
    if mem != null {
      ghost var was := mem[..];
      CopyIn(mem, psp * 16 + 0x100, f);
      ghost var filled := mem[..];
      Write16(mem, psp * 16 + STACK_TOP, 0);
      ComPlaced(was, filled, mem[..], f, psp * 16);
    }
    return 0, minimum, maximum, Start(psp, 0x100, psp, STACK_TOP);
  }

  lemma ComPlaced(was: seq<nat>, filled: seq<nat>, now: seq<nat>, f: seq<nat>, at: nat)
    requires |was| == MEM_SIZE && |f| <= 0xFF00 && at + 0x1_0000 <= MEM_SIZE && Placed(was, filled, at + 0x100, f)
    requires now == filled[(at + STACK_TOP) % MEM_SIZE := 0][(at + STACK_TOP + 1) % MEM_SIZE := 0]
    ensures Placed(was, now, at + 0x100, ComImage(was, f, at))
  {
    assert (at + STACK_TOP) % MEM_SIZE == at + STACK_TOP && (at + STACK_TOP + 1) % MEM_SIZE == at + STACK_TOP + 1;
    var img := ComImage(was, f, at);
    assert |img| == 0xFF00;
    assert now == was[..at + 0x100] + img + was[at + 0x100 + |img|..];
  }

  /** A .COM is all there exactly when the stack's word takes no byte of it but zeros. */
  lemma ComIntact(mem: seq<nat>, f: seq<nat>, at: nat)
    requires |mem| == MEM_SIZE && at + 0x1_0000 <= MEM_SIZE && |f| <= 0xFF00
    ensures |ComImage(mem, f, at)| == 0xFF00
    ensures f <= ComImage(mem, f, at) <==> (|f| > 0xFEFE ==> f[0xFEFE] == 0) && (|f| > 0xFEFF ==> f[0xFEFF] == 0)
  {
    var img := ComImage(mem, f, at);
    if f <= img {
      assert forall i :: 0 <= i < |f| ==> f[i] == img[i];
    }
    if (|f| > 0xFEFE ==> f[0xFEFE] == 0) && (|f| > 0xFEFF ==> f[0xFEFF] == 0) {
      assert forall i :: 0 <= i < |f| ==> img[i] == f[i];
      assert img[..|f|] == f;
    }
  }

  /** The shortest file that can lose a byte does, if that byte is not zero. */
  lemma ComLoses(mem: seq<nat>, f: seq<nat>, at: nat)
    requires |mem| == MEM_SIZE && at + 0x1_0000 <= MEM_SIZE && |f| == 0xFEFF && f[0xFEFE] == 0xC3
    ensures !(f <= ComImage(mem, f, at)) && ComImage(mem, f, at)[0xFEFE] == 0
  {
    ComIntact(mem, f, at);
  }

  /** A file that passes the first look, with all the memory there is, passes again with the memory it then gets:
      as much as it asks for, if there is that much. */
  lemma SecondLook(f: seq<nat>, psp: nat, available: nat)
    requires Accepted(f, psp, available) && available <= 0xFFFF
    ensures var most := if IsExe(f) then Clamp(Maximum(f)) else 0xFFFF;
            Accepted(f, psp, if most < available then most else available)
  {
    hide SitesInside, IsExtender, IsLha;
  }
}

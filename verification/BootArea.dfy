/**
 The boot area: what tools/mkbootarea.py packs, and what stage 2 of the boot loader (boot/stage2.c) checks before
 it loads the kernel. An area packed from a good kernel passes every check.

 Bytes are numbers below 256. Reading the disk, the Multiboot information and the jump to the kernel are not part
 of this model.
 */
module BootArea {
  import opened Arithmetic
  import Crc
  import CrcBursts

  const ALIGN := 2048
  const AREA_MAX_SIZE := 0x100_0000
  const AREA_MIN_ADDR := 0x10_0000
  const BITMAP_ROOM := 0x2_0000
  const W32 := 0x1_0000_0000
  const BA_TOTAL := 12
  const BA_KERNEL_OFF := 32
  const BA_KERNEL_LEN := 36
  const BA_CRC32 := 40
  const BA_LOAD_ADDR := 64

  datatype Option<T> = None | Some(value: T)

  // ----- bytes -----

  ghost predicate AllBytes(s: seq<nat>)
  {
    forall i :: 0 <= i < |s| ==> s[i] < 256
  }

  function U16(s: seq<nat>, i: nat): nat
    requires i + 1 < |s|
  {
    s[i] + 0x100 * s[i + 1]
  }

  function U32(s: seq<nat>, i: nat): nat
    requires i + 3 < |s|
  {
    s[i] + 0x100 * s[i + 1] + 0x1_0000 * s[i + 2] + 0x100_0000 * s[i + 3]
  }

  function Le32(n: nat): (s: seq<nat>)
    ensures |s| == 4
  {
    [n % 256, n / 256 % 256, n / 0x1_0000 % 256, n / 0x100_0000 % 256]
  }

  lemma Le32Reads(n: nat)
    requires n < W32
    ensures U32(Le32(n), 0) == n && AllBytes(Le32(n))
  {
    DivModMul(n, 256, 256);
    DivModMul(n, 0x1_0000, 256);
    assert n / 0x100_0000 < 256;
  }

  function Zeros(n: nat): (s: seq<nat>)
    ensures |s| == n && forall i :: 0 <= i < n ==> s[i] == 0
  {
    seq(n, _ => 0)
  }

  /** What is written at `at` in a buffer, with the same length. */
  function Splice(h: seq<nat>, at: nat, s: seq<nat>): (r: seq<nat>)
    requires at + |s| <= |h|
    ensures |r| == |h|
  {
    h[..at] + s + h[at + |s|..]
  }

  lemma SpliceReads(h: seq<nat>, at: nat, s: seq<nat>, i: nat)
    requires at + |s| <= |h| && i + 3 < |h|
    ensures i + 4 <= at || at + |s| <= i ==> U32(Splice(h, at, s), i) == U32(h, i)
    ensures at <= i && i + 4 <= at + |s| ==> U32(Splice(h, at, s), i) == U32(s, i - at)
  {
    var r := Splice(h, at, s);
    assert forall k :: 0 <= k < |h| ==> r[k] == if k < at then h[k] else if k < at + |s| then s[k - at] else h[k];
  }

  /** Numbers one after another, as struct.pack_into writes them. */
  function Fields(vs: seq<nat>): (s: seq<nat>)
    ensures |s| == 4 * |vs|
  {
    if vs == [] then [] else Le32(vs[0]) + Fields(vs[1..])
  }

  lemma {:induction false} FieldReads(vs: seq<nat>, k: nat)
    requires k < |vs| && vs[k] < W32
    ensures U32(Fields(vs), 4 * k) == vs[k]
  {
    hide Le32;
    var s := Fields(vs);
    if k == 0 {
      Le32Reads(vs[0]);
      Shifted(Le32(vs[0]), Fields(vs[1..]), 0);
    } else {
      FieldReads(vs[1..], k - 1);
      Shifted(Le32(vs[0]), Fields(vs[1..]), 4 * k);
    }
  }

  lemma Shifted(a: seq<nat>, b: seq<nat>, i: nat)
    requires |a| == 4 && i + 3 < 4 + |b|
    ensures i == 0 ==> U32(a + b, i) == U32(a, 0)
    ensures i >= 4 ==> U32(a + b, i) == U32(b, i - 4)
  {
  }

  /** CRC-32 of bytes. */
  ghost function Checksum(s: seq<nat>): nat
    requires AllBytes(s)
  {
    Crc.Number(Crc.Crc32(AsBits(s)))
  }

  function AsBits(s: seq<nat>): seq<bv8>
    requires AllBytes(s)
  {
    seq(|s|, i requires 0 <= i < |s| => Crc.OfNumber(s[i]))
  }

  // ----- the kernel's ELF file -----

  const EHDR := 52
  const PHDR := 32

  function PhOff(f: seq<nat>): nat
    requires |f| >= EHDR
  {
    U32(f, 28)
  }

  function PhNum(f: seq<nat>): nat
    requires |f| >= EHDR
  {
    U16(f, 44)
  }

  /** A program header: where it is, and what it says. */
  datatype Segment = Segment(kind: nat, offset: nat, paddr: nat, filesz: nat, memsz: nat)

  function SegmentAt(f: seq<nat>, p: nat): Segment
    requires p + 24 <= |f|
  {
    Segment(U32(f, p), U32(f, p + 4), U32(f, p + 12), U32(f, p + 16), U32(f, p + 20))
  }

  predicate Loads(s: Segment)
  {
    s.kind == 1 && s.memsz != 0
  }

  predicate IsElf(f: seq<nat>)
  {
    && |f| >= EHDR && f[0] == 0x7F && f[1] == 'E' as nat && f[2] == 'L' as nat && f[3] == 'F' as nat
    && f[4] == 1 && U16(f, 18) == 3 && U16(f, 16) == 2
  }

  predicate MultibootAt(f: seq<nat>, i: nat)
  {
    i + 12 <= |f| && U32(f, i) == 0x1BAD_B002 && (U32(f, i) + U32(f, i + 4) + U32(f, i + 8)) % W32 == 0
  }

  /** A Multiboot kernel says so in its first 8 KiB. */
  ghost predicate HasMultiboot(f: seq<nat>)
  {
    exists k :: 0 <= k < 2048 && MultibootAt(f, 4 * k)
  }

  predicate HeadersInside(f: seq<nat>)
    requires |f| >= EHDR
  {
    PhOff(f) <= |f| && PhNum(f) * PHDR <= |f| - PhOff(f)
  }

  function Seg(f: seq<nat>, i: nat): Segment
    requires |f| >= EHDR && HeadersInside(f) && i < PhNum(f)
  {
    SegmentAt(f, PhOff(f) + i * PHDR)
  }

  /** The segment is in the file, and would be in memory between 1 MiB and the boot area. */
  predicate SegmentFits(s: Segment, size: nat, areaAddr: nat)
  {
    && s.filesz <= s.memsz && s.offset <= size && s.filesz <= size - s.offset
    && s.paddr >= AREA_MIN_ADDR && s.paddr <= areaAddr && s.memsz <= areaAddr - s.paddr
  }

  ghost predicate KernelLoads(f: seq<nat>, areaAddr: nat)
  {
    && IsElf(f) && HasMultiboot(f) && HeadersInside(f)
    && forall i :: 0 <= i < PhNum(f) && Loads(Seg(f, i)) ==> SegmentFits(Seg(f, i), |f|, areaAddr)
  }

  // ----- stage 2 -----

  type Memory = map<int, nat>

  /** Everything stage 2 asks of a boot area loaded at an address. */
  ghost predicate Accepts(area: seq<nat>, addr: nat)
    requires AllBytes(area) && |area| >= BA_LOAD_ADDR + 4
  {
    && U32(area, BA_TOTAL) == |area| && |area| >= ALIGN && U32(area, BA_LOAD_ADDR) == addr
    && Checksum(area[ALIGN..]) == U32(area, BA_CRC32)
    && U32(area, BA_KERNEL_OFF) <= |area| && U32(area, BA_KERNEL_LEN) <= |area| - U32(area, BA_KERNEL_OFF)
    && KernelLoads(KernelOf(area), addr)
  }

  datatype Boot = Failed | Started(entry: nat)

  /** Memory is the same but between 1 MiB and the boot area. */
  ghost predicate OnlyBetween(m: Memory, m': Memory, addr: nat)
  {
    forall a :: a < AREA_MIN_ADDR || a >= addr ==> (a in m <==> a in m') && (a in m ==> m[a] == m'[a])
  }

  /** The kernel's file in a boot area. */
  function KernelOf(area: seq<nat>): seq<nat>
    requires |area| >= BA_LOAD_ADDR + 4 && U32(area, BA_KERNEL_OFF) + U32(area, BA_KERNEL_LEN) <= |area|
  {
    area[U32(area, BA_KERNEL_OFF)..U32(area, BA_KERNEL_OFF) + U32(area, BA_KERNEL_LEN)]
  }

  method Stage2(area: seq<nat>, addr: nat, mem: Memory) returns (r: Boot, mem': Memory)
    requires AllBytes(area) && |area| >= BA_LOAD_ADDR + 4
    ensures r.Started? <==> Accepts(area, addr)
    ensures r.Started? ==> && HeadersInside(KernelOf(area)) && r.entry == U32(KernelOf(area), 24)
                           && IsLoaded(mem, mem', KernelOf(area), PhNum(KernelOf(area)))
    ensures OnlyBetween(mem, mem', addr)
  {
    hide KernelLoads, IsLoaded, PhNum, HeadersInside, Checksum, U32, AsBits, Crc.Number, Crc.Not, Crc.Bytes,
      OnlyBetween;
    OnlyBetweenSame(mem, addr);
    r, mem' := Failed, mem;
    var total := U32(area, BA_TOTAL);
    if total != |area| || total < ALIGN || U32(area, BA_LOAD_ADDR) != addr {
      return;
    }
    var crc := Crc.BootareaCrc32(0, AsBits(area[ALIGN..]));
    CrcIs(area[ALIGN..]);
    if Crc.Number(crc) != U32(area, BA_CRC32) {
      return;
    }
    var koff, klen := U32(area, BA_KERNEL_OFF), U32(area, BA_KERNEL_LEN);
    if koff > total || klen > total - koff {
      return;
    }
    r, mem' := LoadKernel(area[koff..koff + klen], addr, mem);
  }

  lemma OnlyBetweenSame(m: Memory, addr: nat)
    ensures OnlyBetween(m, m, addr)
  {
  }

  lemma CrcIs(s: seq<nat>)
    requires AllBytes(s)
    ensures Crc.Number(Crc.Not(Crc.Bytes(Crc.Not(0), AsBits(s)))) == Checksum(s)
  {
  }

  method LoadKernel(f: seq<nat>, addr: nat, mem: Memory) returns (r: Boot, mem': Memory)
    requires AllBytes(f)
    ensures r.Started? <==> KernelLoads(f, addr)
    ensures r.Started? ==> |f| >= EHDR && HeadersInside(f) && r.entry == U32(f, 24) && IsLoaded(mem, mem', f, PhNum(f))
    ensures OnlyBetween(mem, mem', addr)
  {
    hide U32, U16, HasMultiboot, SegmentAt, SegmentFits, IsLoaded;
    r, mem' := Failed, mem;
    if !IsElf(f) {
      return;
    }
    var multiboot := FindMultiboot(f);
    if !multiboot || !HeadersInside(f) {
      return;
    }
    var i := 0;
    NoneLoaded(mem, f);
    while i < PhNum(f)
      invariant 0 <= i <= PhNum(f) && OnlyBetween(mem, mem', addr) && IsLoaded(mem, mem', f, i)
      invariant forall j :: 0 <= j < i && Loads(Seg(f, j)) ==> SegmentFits(Seg(f, j), |f|, addr)
    {
      var s := Seg(f, i);
      if Loads(s) {
        if !SegmentFits(s, |f|, addr) {
          return;
        }
        LoadedBetween(mem', f, s, addr);
        OneLoaded(mem, mem', f, i);
        mem' := Loaded(mem', f, s);
      } else {
        NotLoaded(mem, mem', f, i);
      }
      i := i + 1;
    }
    r := Started(U32(f, 24));
  }

  /** Byte for byte: ELF, of 32 bits, an executable, for the i386. */
  lemma ElfBytes(f: seq<nat>)
    requires AllBytes(f)
    ensures IsElf(f) <==> |f| >= 52 && f[..5] == [0x7F, 0x45, 0x4C, 0x46, 1] && f[16..20] == [2, 0, 3, 0]
  {
    if |f| >= 52 && f[..5] == [0x7F, 0x45, 0x4C, 0x46, 1] && f[16..20] == [2, 0, 3, 0] {
      assert f[0] == f[..5][0] && f[1] == f[..5][1] && f[2] == f[..5][2] && f[3] == f[..5][3] && f[4] == f[..5][4];
      assert f[16] == f[16..20][0] && f[17] == f[16..20][1] && f[18] == f[16..20][2] && f[19] == f[16..20][3];
    }
  }

  /** A segment copied to its place, and the rest of it zeroed. */
  function Loaded(m: Memory, f: seq<nat>, s: Segment): Memory
    requires s.filesz <= s.memsz && s.offset <= |f| && s.filesz <= |f| - s.offset
  {
    m + map a: int | s.paddr <= a < s.paddr + s.memsz && InSegment(s, a) :: ByteOf(f, s, a)
  }

  predicate InSegment(s: Segment, a: int)
  {
    s.paddr <= a < s.paddr + s.memsz
  }

  function ByteOf(f: seq<nat>, s: Segment, a: int): nat
    requires s.offset <= |f| && s.filesz <= |f| - s.offset && InSegment(s, a)
  {
    if a < s.paddr + s.filesz then f[s.offset + a - s.paddr] else 0
  }

  /** Segment i of the first n is the last to put a byte at an address. */
  ghost predicate LastAt(f: seq<nat>, n: nat, i: nat, a: int)
    requires |f| >= EHDR && HeadersInside(f) && n <= PhNum(f)
  {
    i < n && PutsAt(f, i, a) && forall j :: i < j < n ==> !PutsAt(f, j, a)
  }

  predicate PutsAt(f: seq<nat>, i: nat, a: int)
    requires |f| >= EHDR && HeadersInside(f) && i < PhNum(f)
  {
    Loads(Seg(f, i)) && InSegment(Seg(f, i), a)
  }

  /** The byte at an address is segment i's: the file's, or zero past its end. */
  ghost predicate ByteLoaded(m: Memory, f: seq<nat>, i: nat, a: int)
    requires |f| >= EHDR && HeadersInside(f) && i < PhNum(f) && PutsAt(f, i, a)
  {
    var s := Seg(f, i);
    s.offset <= |f| && s.filesz <= |f| - s.offset && a in m && m[a] == ByteOf(f, s, a)
  }

  predicate SameAt(m: Memory, m': Memory, a: int)
  {
    (a in m' <==> a in m) && (a in m ==> m'[a] == m[a])
  }

  /** None of the first n segments has a byte at an address. */
  ghost predicate Nowhere(f: seq<nat>, n: nat, a: int)
    requires |f| >= EHDR && HeadersInside(f) && n <= PhNum(f)
  {
    forall i :: 0 <= i < n ==> !PutsAt(f, i, a)
  }

  /** The first n segments are in memory: every byte is from the last of them that has one there, and where none has,
      memory is as it was. */
  ghost predicate IsLoaded(m: Memory, m': Memory, f: seq<nat>, n: nat)
    requires |f| >= EHDR && HeadersInside(f) && n <= PhNum(f)
  {
    && (forall i: nat, a :: LastAt(f, n, i, a) ==> ByteLoaded(m', f, i, a))
    && (forall a :: Nowhere(f, n, a) ==> SameAt(m, m', a))
  }

  lemma NoneLoaded(m: Memory, f: seq<nat>)
    requires |f| >= EHDR && HeadersInside(f)
    ensures IsLoaded(m, m, f, 0)
  {
  }

  lemma NotLoaded(m: Memory, m': Memory, f: seq<nat>, n: nat)
    requires |f| >= EHDR && HeadersInside(f) && n < PhNum(f) && IsLoaded(m, m', f, n) && !Loads(Seg(f, n))
    ensures IsLoaded(m, m', f, n + 1)
  {
    assert forall a :: !PutsAt(f, n, a);
    hide PutsAt, ByteLoaded, SameAt, HeadersInside, PhNum;
    forall i: nat, a | LastAt(f, n + 1, i, a) ensures ByteLoaded(m', f, i, a) {
      assert !PutsAt(f, n, a) && LastAt(f, n, i, a);
    }
    forall a | Nowhere(f, n + 1, a) ensures SameAt(m, m', a) {
      assert Nowhere(f, n, a);
    }
  }

  lemma OneLoaded(m: Memory, m': Memory, f: seq<nat>, n: nat)
    requires |f| >= EHDR && HeadersInside(f) && n < PhNum(f) && IsLoaded(m, m', f, n) && Loads(Seg(f, n))
    requires var s := Seg(f, n); s.filesz <= s.memsz && s.offset <= |f| && s.filesz <= |f| - s.offset
    ensures IsLoaded(m, Loaded(m', f, Seg(f, n)), f, n + 1)
  {
    var after := Loaded(m', f, Seg(f, n));
    hide PutsAt, ByteLoaded, SameAt, HeadersInside, PhNum, Loaded, Seg;
    forall i: nat, a | LastAt(f, n + 1, i, a) ensures ByteLoaded(after, f, i, a) {
      if i < n {
        assert !PutsAt(f, n, a) && LastAt(f, n, i, a);
        Elsewhere(m', f, n, a);
        SameByte(m', after, f, i, a);
      } else {
        JustLoaded(m', f, n, a);
      }
    }
    forall a | Nowhere(f, n + 1, a) ensures SameAt(m, after, a) {
      assert !PutsAt(f, n, a) && Nowhere(f, n, a);
      Elsewhere(m', f, n, a);
      SameTwice(m, m', after, a);
    }
  }

  lemma JustLoaded(m: Memory, f: seq<nat>, n: nat, a: int)
    requires |f| >= EHDR && HeadersInside(f) && n < PhNum(f) && PutsAt(f, n, a)
    requires var s := Seg(f, n); s.filesz <= s.memsz && s.offset <= |f| && s.filesz <= |f| - s.offset
    ensures ByteLoaded(Loaded(m, f, Seg(f, n)), f, n, a)
  {
    hide Seg, HeadersInside, PhNum;
  }

  lemma Elsewhere(m: Memory, f: seq<nat>, n: nat, a: int)
    requires |f| >= EHDR && HeadersInside(f) && n < PhNum(f) && !PutsAt(f, n, a) && Loads(Seg(f, n))
    requires var s := Seg(f, n); s.filesz <= s.memsz && s.offset <= |f| && s.filesz <= |f| - s.offset
    ensures SameAt(m, Loaded(m, f, Seg(f, n)), a)
  {
    hide Seg, HeadersInside, PhNum;
  }

  lemma SameByte(m: Memory, m': Memory, f: seq<nat>, i: nat, a: int)
    requires |f| >= EHDR && HeadersInside(f) && i < PhNum(f) && PutsAt(f, i, a)
    requires SameAt(m, m', a) && ByteLoaded(m, f, i, a)
    ensures ByteLoaded(m', f, i, a)
  {
    hide Seg, HeadersInside, PhNum, ByteOf;
  }

  lemma SameTwice(m: Memory, m': Memory, m'': Memory, a: int)
    requires SameAt(m, m', a) && SameAt(m', m'', a)
    ensures SameAt(m, m'', a)
  {
  }

  lemma LoadedBetween(m: Memory, f: seq<nat>, s: Segment, addr: nat)
    requires SegmentFits(s, |f|, addr)
    ensures s.filesz <= s.memsz && s.offset <= |f| && s.filesz <= |f| - s.offset
    ensures OnlyBetween(m, Loaded(m, f, s), addr)
  {
  }

  method FindMultiboot(f: seq<nat>) returns (found: bool)
    ensures found <==> HasMultiboot(f)
  {
    hide MultibootAt;
    found := false;
    var k := 0;
    while 4 * k + 12 <= |f| && 4 * k < 8192
      invariant 0 <= k <= 2048 && (found <==> exists j :: 0 <= j < k && MultibootAt(f, 4 * j))
    {
      if MultibootAt(f, 4 * k) {
        found := true;
      }
      k := k + 1;
    }
    TooShort(f, k);
  }

  lemma TooShort(f: seq<nat>, k: nat)
    requires 4 * k + 12 > |f| || k >= 2048
    ensures forall j :: k <= j < 2048 ==> !MultibootAt(f, 4 * j)
  {
  }

  // ----- packing -----

  function Pad(s: seq<nat>): (r: seq<nat>)
    ensures |r| % ALIGN == 0 && |s| <= |r| < |s| + ALIGN && s <= r
  {
    s + Zeros((-|s|) % ALIGN)
  }

  lemma PadBytes(s: seq<nat>)
    requires AllBytes(s)
    ensures AllBytes(Pad(s))
  {
  }

  /** Where kernel_end looks for program header i; it trusts the file's own header size. */
  function PySegment(f: seq<nat>, i: nat): Option<Segment>
    requires |f| >= 46
  {
    var p := U32(f, 28) + i * U16(f, 42);
    if p + 24 <= |f| then Some(SegmentAt(f, p)) else None
  }

  /** The end of the kernel in memory: past every segment that loads, and right past one of them. */
  ghost predicate IsEnd(f: seq<nat>, end: nat)
    requires |f| >= 46
  {
    && (forall i :: 0 <= i < U16(f, 44) ==> PySegment(f, i).Some?)
    && (forall i :: 0 <= i < U16(f, 44) && Loads(PySegment(f, i).value) ==>
          PySegment(f, i).value.paddr + PySegment(f, i).value.memsz <= end)
    && (exists i :: 0 <= i < U16(f, 44) && Loads(PySegment(f, i).value)
          && PySegment(f, i).value.paddr + PySegment(f, i).value.memsz == end)
  }

  /** Nothing when a header is outside the file, or nothing loads. */
  method KernelEnd(f: seq<nat>) returns (r: Option<nat>)
    requires AllBytes(f)
    ensures r.Some? ==> |f| >= 46 && IsEnd(f, r.value)
    ensures r.None? ==> |f| < 46 || forall e :: !IsEnd(f, e)
  {
    hide SegmentAt, U32, U16;
    if |f| < 46 {
      return None;
    }
    var end := 0;
    ghost var best := 0;
    var i := 0;
    while i < U16(f, 44)
      invariant 0 <= i <= U16(f, 44) && end >= 0
      invariant forall j :: 0 <= j < i ==> PySegment(f, j).Some?
      invariant forall j :: 0 <= j < i && Loads(PySegment(f, j).value) ==>
                  PySegment(f, j).value.paddr + PySegment(f, j).value.memsz <= end
      invariant end > 0 ==> 0 <= best < i && Loads(PySegment(f, best).value)
                            && PySegment(f, best).value.paddr + PySegment(f, best).value.memsz == end
    {
      var s := PySegment(f, i);
      if s.None? {
        return None;
      }
      if Loads(s.value) && s.value.paddr + s.value.memsz > end {
        end, best := s.value.paddr + s.value.memsz, i;
      }
      i := i + 1;
    }
    if end == 0 {
      NothingLoads(f);
      return None;
    }
    r := Some(end);
  }

  lemma NothingLoads(f: seq<nat>)
    requires |f| >= 46 && forall j :: 0 <= j < U16(f, 44) ==> PySegment(f, j).Some?
    requires forall j :: 0 <= j < U16(f, 44) && Loads(PySegment(f, j).value) ==>
               PySegment(f, j).value.paddr + PySegment(f, j).value.memsz <= 0
    ensures forall e :: !IsEnd(f, e)
  {
  }

  /** Just past the kernel and its frame bitmap: the first 64 KiB boundary. */
  function LoadAddr(end: nat): (a: nat)
    ensures a >= end && a % 0x1_0000 == 0 && a - 0x1_0000 < end + BITMAP_ROOM <= a
  {
    (end + BITMAP_ROOM + 0xFFFF) / 0x1_0000 * 0x1_0000
  }

  function Body(mbr: seq<nat>, stage2: seq<nat>, kernel: seq<nat>): seq<nat>
  {
    Pad(mbr) + Pad(stage2) + Pad(kernel)
  }

  /** The header's numbers, from offset 8 on. */
  function Numbers(mbr: seq<nat>, stage2: seq<nat>, kernel: seq<nat>, crc: nat): seq<nat>
  {
    var stage2Off := ALIGN + |Pad(mbr)|;
    [2, ALIGN + |Body(mbr, stage2, kernel)|, ALIGN, |mbr|, stage2Off, |stage2|, stage2Off + |Pad(stage2)|, |kernel|,
     crc]
  }

  function Magic(): seq<nat>
  {
    [0x5A, 0x4B, 0x54, 0x42, 0x4F, 0x4F, 0x54, 0x31]
  }

  function Left16(s: seq<nat>): (r: seq<nat>)
    ensures |r| == 16
  {
    (s + Zeros(16))[..16]
  }

  /** The header before the command line goes in. */
  function Header(numbers: seq<nat>, version: seq<nat>, load: nat): (h: seq<nat>)
    requires |numbers| == 9
    ensures |h| == ALIGN
  {
    Splice(Splice(Splice(Splice(Zeros(ALIGN), 0, Magic()), 8, Fields(numbers)), 48, Left16(version)), BA_LOAD_ADDR,
           Le32(load))
  }

  /** What pack refuses. */
  ghost predicate Packs(mbr: seq<nat>, stage2: seq<nat>, kernel: seq<nat>, cmdline: seq<nat>)
  {
    && |mbr| == 446 && |kernel| >= 46 && kernel[..4] == [0x7F, 0x45, 0x4C, 0x46] && |cmdline| < 256
    && ALIGN + |Body(mbr, stage2, kernel)| <= AREA_MAX_SIZE
    && exists e :: IsEnd(kernel, e) && LoadAddr(e) < W32
  }

  /** A kernel that stage 2 could load, if the boot area is out of its way. */
  ghost predicate GoodKernel(f: seq<nat>)
  {
    && IsElf(f) && HasMultiboot(f) && HeadersInside(f) && U16(f, 42) == PHDR
    && forall i :: 0 <= i < PhNum(f) && Loads(Seg(f, i)) ==>
         var s := Seg(f, i);
         s.filesz <= s.memsz && s.offset <= |f| && s.filesz <= |f| - s.offset && s.paddr >= AREA_MIN_ADDR
  }

  /** The command line is `chars` characters long, and so many bytes; the slice it replaces is as long as the
      characters. */
  method Pack(mbr: seq<nat>, stage2: seq<nat>, kernel: seq<nat>, version: seq<nat>, chars: nat, cmdline: seq<nat>)
    returns (r: Option<seq<nat>>)
    requires AllBytes(mbr) && AllBytes(stage2) && AllBytes(kernel) && AllBytes(version) && AllBytes(cmdline)
             && chars <= |cmdline|
    ensures r.Some? <==> Packs(mbr, stage2, kernel, cmdline)
    ensures r.Some? ==> |r.value| >= ALIGN && AllBytes(r.value)
    // the area is as long as its header says exactly when the command line has a byte for every character
    ensures r.Some? ==> |r.value| == U32(r.value, BA_TOTAL) + |cmdline| - chars
    ensures r.Some? && chars == |cmdline| && GoodKernel(kernel) ==> Accepts(r.value, U32(r.value, BA_LOAD_ADDR))
    // the loader reads as many bytes as the header says: of a longer area, all after the header comes that much late
    ensures r.Some? ==> && U32(r.value, BA_TOTAL) <= |r.value| && AllBytes(Body(mbr, stage2, kernel))
                        && IsLate(AsRead(r.value), mbr, stage2, kernel, |cmdline| - chars)
  {
    hide AsRead, IsLate, U32, IsEnd, GoodKernel, Header, Accepts, Checksum, Splice, Body;
    if |mbr| != 446 || |kernel| < 4 || kernel[..4] != [0x7F, 0x45, 0x4C, 0x46] || |cmdline| >= 256 {
      return None;
    }
    var body := Body(mbr, stage2, kernel);
    BodyBytes(mbr, stage2, kernel);
    var total := ALIGN + |body|;
    if total > AREA_MAX_SIZE {
      return None;
    }
    var end := KernelEnd(kernel);
    if end.None? {
      return None;
    }
    var load := LoadAddr(end.value);
    EndUnique(kernel, end.value);
    if load >= W32 {
      return None;
    }
    var crc := Zlib(body);
    var numbers := Numbers(mbr, stage2, kernel, crc);
    var header := Header(numbers, version, load);
    HeaderBytes(numbers, version, load);
    header := header[..256] + cmdline + header[256 + chars..];
    var area := header + body;
    r := Some(area);
    AreaIs(mbr, stage2, kernel, version, chars, cmdline, end.value, crc, area);
    AreaRead(mbr, stage2, kernel, version, chars, cmdline, end.value, crc, area);
  }

  /** The bytes of an area that the loader reads. */
  function AsRead(area: seq<nat>): seq<nat>
    requires |area| > BA_TOTAL + 3 && U32(area, BA_TOTAL) <= |area|
  {
    area[..U32(area, BA_TOTAL)]
  }

  lemma ReadIs(area: seq<nat>)
    requires |area| > BA_TOTAL + 3 && U32(area, BA_TOTAL) <= |area|
    ensures AsRead(area) == area[..U32(area, BA_TOTAL)]
  {
  }

  /** The same number of bytes, d of them zeros that were put in front. */
  function Late(s: seq<nat>, d: nat): seq<nat>
    requires d <= |s|
  {
    Zeros(d) + s[..|s| - d]
  }

  /** What is in the header past the load address is zero. */
  lemma HeaderEndsInZeros(numbers: seq<nat>, version: seq<nat>, load: nat, k: nat)
    requires |numbers| == 9 && 256 <= k < ALIGN
    ensures Header(numbers, version, load)[k] == 0
  {
    hide Fields, Le32, Left16, Magic;
    assert |Magic()| == 8 by { EightLetters(); }
    var h1 := Splice(Zeros(ALIGN), 0, Magic());
    var h2 := Splice(h1, 8, Fields(numbers));
    var h3 := Splice(h2, 48, Left16(version));
    PastSplice(Zeros(ALIGN), 0, Magic(), k);
    PastSplice(h1, 8, Fields(numbers), k);
    PastSplice(h2, 48, Left16(version), k);
    PastSplice(h3, BA_LOAD_ADDR, Le32(load), k);
  }

  lemma EightLetters()
    ensures |Magic()| == 8
  {
  }

  lemma PastSplice(h: seq<nat>, at: nat, s: seq<nat>, k: nat)
    requires at + |s| <= k < |h|
    ensures Splice(h, at, s)[k] == h[k]
  {
  }

  lemma AreaRead(mbr: seq<nat>, stage2: seq<nat>, kernel: seq<nat>, version: seq<nat>, chars: nat, cmdline: seq<nat>,
                 end: nat, crc: nat, area: seq<nat>)
    requires chars <= |cmdline| < 256 && |mbr| == 446 && LoadAddr(end) < W32 && crc < W32
    requires ALIGN + |Body(mbr, stage2, kernel)| <= AREA_MAX_SIZE
    requires var h := Header(Numbers(mbr, stage2, kernel, crc), version, LoadAddr(end));
             area == h[..256] + cmdline + h[256 + chars..] + Body(mbr, stage2, kernel)
    requires AllBytes(Body(mbr, stage2, kernel)) && crc == Checksum(Body(mbr, stage2, kernel))
    ensures |area| >= ALIGN && U32(area, BA_TOTAL) <= |area|
    ensures IsLate(AsRead(area), mbr, stage2, kernel, |cmdline| - chars)
  {
    hide U32, Header, LoadAddr, Body;
    var numbers := Numbers(mbr, stage2, kernel, crc);
    var h := Header(numbers, version, LoadAddr(end));
    var body := Body(mbr, stage2, kernel);
    NumbersSmall(mbr, stage2, kernel, crc);
    assert area[..256] == h[..256];
    HeaderReads(numbers, version, LoadAddr(end), 1);
    PrefixReads(h, area, BA_TOTAL);
    BodyLong(mbr, stage2, kernel);
    var seen := AsRead(area);
    assert seen[..256] == h[..256];
    HeaderReads(numbers, version, LoadAddr(end), 6);
    HeaderReads(numbers, version, LoadAddr(end), 7);
    HeaderReads(numbers, version, LoadAddr(end), 8);
    PrefixReads(h, seen, BA_KERNEL_OFF);
    PrefixReads(h, seen, BA_KERNEL_LEN);
    PrefixReads(h, seen, BA_CRC32);
    forall k | 256 <= k < ALIGN ensures h[k] == 0 {
      HeaderEndsInZeros(numbers, version, LoadAddr(end), k);
    }
    LateBytes(h, chars, cmdline, body, area);
  }

  lemma LateBytes(h: seq<nat>, chars: nat, cmdline: seq<nat>, body: seq<nat>, area: seq<nat>)
    requires |h| == ALIGN && chars <= |cmdline| < 256 && |cmdline| - chars <= |body|
    requires area == h[..256] + cmdline + h[256 + chars..] + body && forall k :: 256 <= k < ALIGN ==> h[k] == 0
    ensures |area| >= ALIGN + |body| && area[ALIGN..ALIGN + |body|] == Late(body, |cmdline| - chars)
  {
    var d := |cmdline| - chars;
    var seen := area[ALIGN..ALIGN + |body|];
    forall k | 0 <= k < |body| ensures seen[k] == Late(body, d)[k] {
      if k < d {
        assert area[ALIGN + k] == h[ALIGN + k - d];
      } else {
        assert area[ALIGN + k] == body[k - d];
      }
    }
  }

  /** What is read of an area that is d bytes longer than its header says: what the header says of it is so, were its
      body not d bytes late. */
  ghost predicate IsLate(seen: seq<nat>, mbr: seq<nat>, stage2: seq<nat>, kernel: seq<nat>, d: nat)
    requires AllBytes(Body(mbr, stage2, kernel))
  {
    var body := Body(mbr, stage2, kernel);
    && |seen| == ALIGN + |body| && d <= |body| && seen[ALIGN..] == Late(body, d)
    && U32(seen, BA_KERNEL_OFF) == ALIGN + |Pad(mbr)| + |Pad(stage2)| && U32(seen, BA_KERNEL_LEN) == |kernel|
    && U32(seen, BA_CRC32) == Checksum(body)
  }

  lemma BodyLong(mbr: seq<nat>, stage2: seq<nat>, kernel: seq<nat>)
    requires |mbr| == 446
    ensures |Body(mbr, stage2, kernel)| >= 256 && |Pad(mbr)| >= 256
  {
  }

  /** A late area is accepted only if its late body has the checksum of the body; and with as many zeros after stage 2
      as it is late, not even then, since those are where the kernel should begin. */
  lemma LateRefused(seen: seq<nat>, mbr: seq<nat>, stage2: seq<nat>, kernel: seq<nat>, d: nat, addr: nat)
    requires AllBytes(seen) && AllBytes(Body(mbr, stage2, kernel)) && |mbr| == 446 && |kernel| >= 46 && d < 256
    requires IsLate(seen, mbr, stage2, kernel, d)
    ensures Accepts(seen, addr) ==> Checksum(Late(Body(mbr, stage2, kernel), d)) == Checksum(Body(mbr, stage2, kernel))
    ensures Accepts(seen, addr) ==> d == 0 || |Pad(stage2)| - |stage2| < d
  {
    hide U32, Checksum, AllBytes, HasMultiboot, HeadersInside, PhNum, Seg, Late, Body;
    if d > 0 && |Pad(stage2)| - |stage2| >= d {
      var off := |Pad(mbr)| + |Pad(stage2)|;
      BeforeKernel(mbr, stage2, kernel, d);
      assert seen[ALIGN + off] == seen[ALIGN..][off] == Late(Body(mbr, stage2, kernel), d)[off] == 0;
      KernelFits(mbr, stage2, kernel);
      assert KernelOf(seen)[0] == seen[ALIGN + off];
    }
  }

  lemma KernelFits(mbr: seq<nat>, stage2: seq<nat>, kernel: seq<nat>)
    ensures |Pad(mbr)| + |Pad(stage2)| + |kernel| <= |Body(mbr, stage2, kernel)|
  {
  }

  lemma BeforeKernel(mbr: seq<nat>, stage2: seq<nat>, kernel: seq<nat>, d: nat)
    requires 0 < d < 256 && |mbr| == 446 && |kernel| > 0 && |Pad(stage2)| - |stage2| >= d
    ensures var off := |Pad(mbr)| + |Pad(stage2)|;
            d <= off < |Body(mbr, stage2, kernel)| && Late(Body(mbr, stage2, kernel), d)[off] == 0
  {
    hide Pad;
    var a, b, c := Pad(mbr), Pad(stage2), Pad(kernel);
    var body := a + b + c;
    var off := |a| + |b|;
    PadZero(stage2, |b| - d);
    assert body[off - d] == b[|b| - d];
    assert Late(body, d)[off] == body[off - d];
  }

  lemma PadZero(s: seq<nat>, k: nat)
    requires |s| <= k < |Pad(s)|
    ensures Pad(s)[k] == 0
  {
  }

  // ----- an accent -----

  function TinyByte(i: nat): (b: nat)
    ensures b < 256
  {
    if i == 0 then 0x7F else if i == 1 then 0x45 else if i == 2 then 0x4C else if i == 3 then 0x46
    else if i == 4 then 1 else if i == 16 then 2 else if i == 18 then 3
    else if i == 28 then 52 else if i == 42 then 32 else if i == 44 || i == 52 then 1
    else if i == 66 || i == 73 then 0x10
    else if i == 84 then 0x02 else if i == 85 then 0xB0 else if i == 86 then 0xAD else if i == 87 then 0x1B
    else if i == 92 then 0xFE else if i == 93 then 0x4F else if i == 94 then 0x52 else if i == 95 then 0xE4
    else 0
  }

  /** A kernel with one segment, of 4 KiB at 1 MiB, and a Multiboot header after its program header. */
  function TinyKernel(): (f: seq<nat>)
    ensures |f| == 96 && forall i :: 0 <= i < 96 ==> f[i] == TinyByte(i)
  {
    seq(96, i requires 0 <= i => TinyByte(i))
  }

  lemma TinyWord(i: nat)
    requires i + 3 < 96
    ensures U16(TinyKernel(), i) == TinyByte(i) + 0x100 * TinyByte(i + 1)
    ensures U32(TinyKernel(), i) ==
            TinyByte(i) + 0x100 * TinyByte(i + 1) + 0x1_0000 * TinyByte(i + 2) + 0x100_0000 * TinyByte(i + 3)
  {
    hide TinyKernel, TinyByte;
  }

  lemma TinySegment()
    ensures U32(TinyKernel(), 28) == 52 && U16(TinyKernel(), 42) == 32 && U16(TinyKernel(), 44) == 1
    ensures SegmentAt(TinyKernel(), 52) == Segment(1, 0, 0x10_0000, 0, 0x1000)
  {
    hide TinyKernel, U32, U16;
    TinyWord(28);
    TinyWord(42);
    TinyWord(44);
    TinyWord(52);
    TinyWord(56);
    TinyWord(64);
    TinyWord(68);
    TinyWord(72);
  }

  lemma TinyIsElf()
    ensures IsElf(TinyKernel()) && HasMultiboot(TinyKernel())
  {
    var f := TinyKernel();
    TinyWord(16);
    TinyWord(18);
    TinyWord(84);
    TinyWord(88);
    TinyWord(92);
    hide TinyKernel, U32, U16;
    assert MultibootAt(f, 4 * 21);
  }

  lemma TinyIsGood()
    ensures GoodKernel(TinyKernel())
  {
    var f := TinyKernel();
    TinySegment();
    TinyIsElf();
    hide TinyKernel, U32, U16, SegmentAt, TinyByte, IsElf, HasMultiboot;
    assert Seg(f, 0) == SegmentAt(f, 52);
  }

  lemma TinyEnd()
    ensures IsEnd(TinyKernel(), 0x10_1000)
  {
    var f := TinyKernel();
    TinySegment();
    hide TinyKernel, U32, U16, SegmentAt, TinyByte;
    assert PySegment(f, 0) == Some(Segment(1, 0, 0x10_0000, 0, 0x1000));
    assert Loads(PySegment(f, 0).value);
  }

  lemma TinyPacks(cmdline: seq<nat>)
    requires |cmdline| < 256
    ensures Packs(Zeros(446), [0x90], TinyKernel(), cmdline)
  {
    var f := TinyKernel();
    TinyEnd();
    hide IsEnd, TinyKernel;
    assert f[..4] == [0x7F, 0x45, 0x4C, 0x46];
    hide TinyByte;
    assert LoadAddr(0x10_1000) < W32;
    assert |Body(Zeros(446), [0x90], f)| == 6144;
  }

  /** The same kernel, packed with the line "e" and with the line of the one letter that is an e with an accent: stage 2
      accepts the first area where its header says, and what the loader reads of the second nowhere. */
  method AccentedLine() returns (plain: seq<nat>, area: seq<nat>)
    ensures AllBytes(plain) && |plain| >= ALIGN && U32(plain, BA_TOTAL) == |plain|
    ensures Accepts(plain, U32(plain, BA_LOAD_ADDR))
    ensures AllBytes(area) && |area| >= ALIGN && U32(area, BA_TOTAL) == |area| - 1
    ensures AllBytes(AsRead(area)) && forall addr: nat :: !Accepts(AsRead(area), addr)
  {
    hide IsEnd, U32, Accepts, IsLate, Body, LoadAddr, AsRead, TinyKernel, GoodKernel, Packs;
    var mbr, kernel := Zeros(446), TinyKernel();
    TinyIsGood();
    TinyPacks([0x65]);
    TinyPacks([0xC3, 0xA9]);
    var p := Pack(mbr, [0x90], kernel, [], 1, [0x65]);
    plain := p.value;
    var r := Pack(mbr, [0x90], kernel, [], 1, [0xC3, 0xA9]);
    area := r.value;
    assert AsRead(area) == area[..U32(area, BA_TOTAL)] by { ReadIs(area); }
    forall addr: nat ensures !Accepts(AsRead(area), addr) {
      LateRefused(AsRead(area), mbr, [0x90], kernel, 1, addr);
    }
  }

  /** zlib's CRC-32, by its table. */
  method Zlib(s: seq<nat>) returns (crc: nat)
    requires AllBytes(s)
    ensures crc == Checksum(s) && crc < W32
  {
    hide Crc.Number, Crc.Not, Crc.TableBytes, Crc.Bytes;
    var bits := AsBits(s);
    Crc.TableIsBitwise(Crc.Not(0), bits);
    var c := Crc.Not(Crc.TableBytes(Crc.Not(0), bits));
    Crc.NumberSmall(c);
    crc := Crc.Number(c);
  }

  lemma EndUnique(f: seq<nat>, e: nat)
    requires |f| >= 46 && IsEnd(f, e)
    ensures forall x :: IsEnd(f, x) ==> x == e
  {
  }

  lemma BodyBytes(mbr: seq<nat>, stage2: seq<nat>, kernel: seq<nat>)
    requires AllBytes(mbr) && AllBytes(stage2) && AllBytes(kernel)
    ensures AllBytes(Body(mbr, stage2, kernel))
  {
    PadBytes(mbr);
    PadBytes(stage2);
    PadBytes(kernel);
  }

  lemma SpliceBytes(h: seq<nat>, at: nat, s: seq<nat>)
    requires at + |s| <= |h| && AllBytes(h) && AllBytes(s)
    ensures AllBytes(Splice(h, at, s))
  {
  }

  lemma {:induction false} FieldsBytes(vs: seq<nat>)
    ensures AllBytes(Fields(vs))
  {
    if vs != [] {
      FieldsBytes(vs[1..]);
      Le32Bytes(vs[0]);
    }
  }

  lemma Le32Bytes(n: nat)
    ensures AllBytes(Le32(n))
  {
  }

  lemma HeaderBytes(numbers: seq<nat>, version: seq<nat>, load: nat)
    requires |numbers| == 9 && AllBytes(version)
    ensures AllBytes(Header(numbers, version, load))
  {
    hide Splice;
    FieldsBytes(numbers);
    Le32Bytes(load);
    SpliceBytes(Zeros(ALIGN), 0, Magic());
    var h1 := Splice(Zeros(ALIGN), 0, Magic());
    SpliceBytes(h1, 8, Fields(numbers));
    var h2 := Splice(h1, 8, Fields(numbers));
    SpliceBytes(h2, 48, Left16(version));
    SpliceBytes(Splice(h2, 48, Left16(version)), BA_LOAD_ADDR, Le32(load));
  }

  /** The header reads back what was put in it. */
  lemma HeaderReads(numbers: seq<nat>, version: seq<nat>, load: nat, k: nat)
    requires |numbers| == 9 && load < W32 && k < 9 && numbers[k] < W32
    ensures U32(Header(numbers, version, load), 8 + 4 * k) == numbers[k]
    ensures U32(Header(numbers, version, load), BA_LOAD_ADDR) == load
  {
    hide U32, Splice, Le32, Fields;
    var h1 := Splice(Zeros(ALIGN), 0, Magic());
    var h2 := Splice(h1, 8, Fields(numbers));
    var h3 := Splice(h2, 48, Left16(version));
    SpliceReads(h1, 8, Fields(numbers), 8 + 4 * k);
    SpliceReads(h2, 48, Left16(version), 8 + 4 * k);
    SpliceReads(h3, BA_LOAD_ADDR, Le32(load), 8 + 4 * k);
    SpliceReads(h3, BA_LOAD_ADDR, Le32(load), BA_LOAD_ADDR);
    FieldReads(numbers, k);
    Le32Reads(load);
  }

  lemma PrefixReads(h: seq<nat>, area: seq<nat>, i: nat)
    requires |h| >= 256 && |area| >= 256 && area[..256] == h[..256] && i + 3 < 256
    ensures U32(area, i) == U32(h, i)
  {
    assert forall k :: 0 <= k < 256 ==> area[k] == area[..256][k] && h[k] == h[..256][k];
  }

  lemma AreaIs(mbr: seq<nat>, stage2: seq<nat>, kernel: seq<nat>, version: seq<nat>, chars: nat, cmdline: seq<nat>,
               end: nat, crc: nat, area: seq<nat>)
    requires AllBytes(mbr) && AllBytes(stage2) && AllBytes(kernel) && AllBytes(version) && AllBytes(cmdline)
             && AllBytes(area)
    requires chars <= |cmdline| < 256 && |kernel| >= 46 && IsEnd(kernel, end) && LoadAddr(end) < W32
    requires ALIGN + |Body(mbr, stage2, kernel)| <= AREA_MAX_SIZE
    requires AllBytes(Body(mbr, stage2, kernel)) && crc == Checksum(Body(mbr, stage2, kernel)) && crc < W32
    requires var h := Header(Numbers(mbr, stage2, kernel, crc), version, LoadAddr(end));
             area == h[..256] + cmdline + h[256 + chars..] + Body(mbr, stage2, kernel)
    ensures |area| >= ALIGN && |area| == U32(area, BA_TOTAL) + |cmdline| - chars
    ensures chars == |cmdline| && GoodKernel(kernel) ==> Accepts(area, U32(area, BA_LOAD_ADDR))
  {
    hide U32, Header, Checksum, KernelLoads, GoodKernel, IsEnd, Body, LoadAddr, AllBytes;
    var numbers := Numbers(mbr, stage2, kernel, crc);
    var h := Header(numbers, version, LoadAddr(end));
    var body := Body(mbr, stage2, kernel);
    NumbersSmall(mbr, stage2, kernel, crc);
    assert area[..256] == h[..256];
    HeaderReads(numbers, version, LoadAddr(end), 1);
    HeaderReads(numbers, version, LoadAddr(end), 6);
    HeaderReads(numbers, version, LoadAddr(end), 7);
    HeaderReads(numbers, version, LoadAddr(end), 8);
    PrefixReads(h, area, BA_TOTAL);
    PrefixReads(h, area, BA_KERNEL_OFF);
    PrefixReads(h, area, BA_KERNEL_LEN);
    PrefixReads(h, area, BA_CRC32);
    PrefixReads(h, area, BA_LOAD_ADDR);
    if chars == |cmdline| && GoodKernel(kernel) {
      assert area[ALIGN..] == body;
      KernelInBody(mbr, stage2, kernel, area);
      GoodLoads(kernel, end);
    }
  }

  lemma NumbersSmall(mbr: seq<nat>, stage2: seq<nat>, kernel: seq<nat>, crc: nat)
    requires ALIGN + |Body(mbr, stage2, kernel)| <= AREA_MAX_SIZE && crc < W32
    ensures var ns := Numbers(mbr, stage2, kernel, crc);
            && |ns| == 9 && ns[1] == ALIGN + |Body(mbr, stage2, kernel)| && ns[6] == ALIGN + |Pad(mbr)| + |Pad(stage2)|
            && ns[7] == |kernel| && ns[8] == crc && ns[1] < W32 && ns[6] < W32 && ns[7] < W32
            && ns[6] + |kernel| <= ns[1]
  {
  }

  lemma KernelInBody(mbr: seq<nat>, stage2: seq<nat>, kernel: seq<nat>, area: seq<nat>)
    requires |area| == ALIGN + |Body(mbr, stage2, kernel)| && area[ALIGN..] == Body(mbr, stage2, kernel)
    ensures var k := ALIGN + |Pad(mbr)| + |Pad(stage2)|; k + |kernel| <= |area| && area[k..k + |kernel|] == kernel
  {
    var a, b, c := Pad(mbr), Pad(stage2), Pad(kernel);
    var k := |a| + |b|;
    var body := a + b + c;
    assert body[k..] == c;
    assert c[..|kernel|] == kernel;
    assert area[ALIGN + k..ALIGN + k + |kernel|] == area[ALIGN..][k..k + |kernel|] == body[k..][..|kernel|];
  }

  /** A good kernel's segments all end below where the area goes. */
  lemma GoodLoads(kernel: seq<nat>, end: nat)
    requires |kernel| >= 46 && GoodKernel(kernel) && IsEnd(kernel, end)
    ensures KernelLoads(kernel, LoadAddr(end))
  {
    hide U32, U16, HasMultiboot, SegmentAt, LoadAddr;
    forall i | 0 <= i < PhNum(kernel) && Loads(Seg(kernel, i))
      ensures SegmentFits(Seg(kernel, i), |kernel|, LoadAddr(end))
    {
      SameSegment(kernel, i);
    }
  }

  lemma SameSegment(f: seq<nat>, i: nat)
    requires |f| >= EHDR && HeadersInside(f) && i < PhNum(f) && U16(f, 42) == PHDR
    ensures PySegment(f, i) == Some(Seg(f, i))
  {
    hide U32, U16, SegmentAt;
    MulMono(i + 1, PhNum(f), PHDR);
  }

  // ----- damage -----

  /** Stage 2 finds out any damage within 32 bits in a row of what follows the header. */
  lemma BurstFound(area: seq<nat>, damaged: seq<nat>, p: nat, addr: nat)
    requires AllBytes(area) && AllBytes(damaged) && |area| == |damaged| >= ALIGN
    requires area != damaged && area[..ALIGN] == damaged[..ALIGN]
    requires CrcBursts.Within32(AsBits(area[ALIGN..]), AsBits(damaged[ALIGN..]), p)
    requires Accepts(area, addr)
    ensures !Accepts(damaged, addr)
  {
    hide KernelLoads, U32, Checksum, AsBits, CrcBursts.Within32;
    var s, t := area[ALIGN..], damaged[ALIGN..];
    PrefixReads(area, damaged, BA_CRC32) by {
      assert area[..ALIGN][..256] == area[..256] && damaged[..ALIGN][..256] == damaged[..256];
    }
    assert area == area[..ALIGN] + s && damaged == damaged[..ALIGN] + t;
    BodyDamage(s, t, p);
  }

  lemma BodyDamage(s: seq<nat>, t: seq<nat>, p: nat)
    requires AllBytes(s) && AllBytes(t) && s != t && CrcBursts.Within32(AsBits(s), AsBits(t), p)
    ensures Checksum(s) != Checksum(t)
  {
    hide Crc.Crc32, Crc.Number, Crc.OfNumber;
    var a, b := AsBits(s), AsBits(t);
    assert |a| == |b|;
    assert a != b by {
      var k :| 0 <= k < |s| && s[k] != t[k];
      if a[k] == b[k] {
        Crc.OfNumberInjective(s[k], t[k]);
      }
    }
    CrcBursts.BitBurst(a, b, p);
    if Checksum(s) == Checksum(t) {
      Crc.NumberInjective(Crc.Crc32(a), Crc.Crc32(b));
    }
  }

  /** And so any damage to four bytes in a row, or fewer. */
  lemma DamageFound(area: seq<nat>, damaged: seq<nat>, i: nat, n: nat, addr: nat)
    requires AllBytes(area) && AllBytes(damaged) && |area| == |damaged| && ALIGN <= i && n <= 4 && i + n <= |area|
    requires area != damaged && area[..i] == damaged[..i] && area[i + n..] == damaged[i + n..]
    requires Accepts(area, addr)
    ensures !Accepts(damaged, addr)
  {
    hide Accepts, Crc.OfNumber, CrcBursts.Within32;
    var s, t := area[ALIGN..], damaged[ALIGN..];
    var k := i - ALIGN;
    assert area[..ALIGN] == area[..i][..ALIGN] && damaged[..ALIGN] == damaged[..i][..ALIGN];
    assert s[..k] == area[..i][ALIGN..] && t[..k] == damaged[..i][ALIGN..];
    assert s[k + n..] == area[i + n..] && t[k + n..] == damaged[i + n..];
    BitsAgree(s, t, k, n);
    CrcBursts.BytesWithin(AsBits(s), AsBits(t), k, n);
    BurstFound(area, damaged, 8 * k, addr);
  }

  lemma BitsAgree(s: seq<nat>, t: seq<nat>, k: nat, n: nat)
    requires AllBytes(s) && AllBytes(t) && |s| == |t| && k + n <= |s| && s[..k] == t[..k] && s[k + n..] == t[k + n..]
    ensures AsBits(s)[..k] == AsBits(t)[..k] && AsBits(s)[k + n..] == AsBits(t)[k + n..]
  {
    hide Crc.OfNumber;
    var a, b := AsBits(s), AsBits(t);
    forall j | 0 <= j < k ensures a[j] == b[j] {
      assert s[j] == s[..k][j] && t[j] == t[..k][j];
    }
    forall j | k + n <= j < |s| ensures a[j] == b[j] {
      assert s[j] == s[k + n..][j - k - n] && t[j] == t[k + n..][j - k - n];
    }
  }
}

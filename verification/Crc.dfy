/**
 The CRC-32 of IEEE 802.3: the bit-by-bit form of boot/bootarea.h against the table-driven form that zlib, and so
 tools/mkbootarea.py, computes.
 */
module Crc {
  import opened Arithmetic

  // ----- words -----

  const POLY: bv32 := 0xEDB88320

  function Xor(x: bv32, y: bv32): bv32
  {
    x ^ y
  }

  function Half(x: bv32): bv32
  {
    x >> 1
  }

  predicate Odd(x: bv32)
  {
    x & 1 == 1
  }

  function Mask(x: bv32): bv32
  {
    if Odd(x) then POLY else 0
  }

  lemma XorLaws(x: bv32, y: bv32, z: bv32)
    ensures Xor(Xor(x, y), z) == Xor(x, Xor(y, z)) && Xor(x, y) == Xor(y, x) && Xor(x, 0) == x && Xor(x, x) == 0
  {
  }

  lemma XorCancel(x: bv32, y: bv32, b: bv32)
    requires Xor(x, b) == Xor(y, b)
    ensures x == y
  {
  }

  lemma HalfXor(x: bv32, y: bv32)
    ensures Half(Xor(x, y)) == Xor(Half(x), Half(y))
  {
  }

  lemma OddXor(x: bv32, y: bv32)
    ensures Odd(Xor(x, y)) <==> Odd(x) != Odd(y)
  {
  }

  lemma MaskXor(x: bv32, y: bv32)
    ensures Mask(Xor(x, y)) == Xor(Mask(x), Mask(y))
  {
    OddXor(x, y);
    hide Odd, Xor;
    XorLaws(POLY, 0, 0);
    XorLaws(0, POLY, 0);
    XorLaws(0, 0, 0);
    XorLaws(POLY, POLY, 0);
  }

  // ----- bits -----

  /** One bit. */
  function Step(x: bv32): bv32
  {
    Xor(Half(x), Mask(x))
  }

  function Steps(x: bv32, n: nat): bv32
  {
    if n == 0 then x else Step(Steps(x, n - 1))
  }

  function Wide(b: bv8): bv32
  {
    b as bv32
  }

  /** One byte. */
  function Byte(crc: bv32, b: bv8): bv32
  {
    Steps(Xor(crc, Wide(b)), 8)
  }

  function Bytes(crc: bv32, s: seq<bv8>): bv32
  {
    if s == [] then crc else Byte(Bytes(crc, s[..|s| - 1]), s[|s| - 1])
  }

  function Not(x: bv32): bv32
  {
    !x
  }

  function Crc32(s: seq<bv8>): bv32
  {
    Not(Bytes(Not(0), s))
  }

  /** bootarea_crc32, from the CRC of what came before. */
  method BootareaCrc32(crc0: bv32, s: seq<bv8>) returns (crc: bv32)
    ensures crc == Not(Bytes(Not(crc0), s))
  {
    hide Step, Xor, Wide, Not;
    crc := Not(crc0);
    var i := 0;
    while i < |s|
      invariant 0 <= i <= |s| && crc == Bytes(Not(crc0), s[..i])
    {
      crc := Xor(crc, Wide(s[i]));
      ghost var x := crc;
      var k := 0;
      while k < 8
        invariant 0 <= k <= 8 && crc == Steps(x, k)
      {
        crc := Step(crc);
        k := k + 1;
      }
      assert s[..i + 1][..i] == s[..i];
      i := i + 1;
    }
    assert s[..i] == s;
    crc := Not(crc);
  }

  // ----- the table -----

  lemma StepLinear(x: bv32, y: bv32)
    ensures Step(Xor(x, y)) == Xor(Step(x), Step(y))
  {
    hide Xor, Half, Mask;
    HalfXor(x, y);
    MaskXor(x, y);
    Shuffle(Half(x), Half(y), Mask(x), Mask(y));
  }

  lemma Shuffle(a: bv32, b: bv32, c: bv32, d: bv32)
    ensures Xor(Xor(a, b), Xor(c, d)) == Xor(Xor(a, c), Xor(b, d))
  {
    hide Xor;
    XorLaws(a, b, Xor(c, d));
    XorLaws(b, c, d);
    XorLaws(c, b, d);
    XorLaws(a, c, Xor(b, d));
  }

  lemma {:induction false} StepsLinear(x: bv32, y: bv32, n: nat)
    ensures Steps(Xor(x, y), n) == Xor(Steps(x, n), Steps(y, n))
  {
    hide Step, Xor;
    if n > 0 {
      StepsLinear(x, y, n - 1);
      StepLinear(Steps(x, n - 1), Steps(y, n - 1));
    }
  }

  /** The low k bits are zero. */
  predicate Clear(x: bv32, k: nat)
    requires k <= 8
  {
    k == 0 || (!Odd(x) && Clear(Half(x), k - 1))
  }

  function Halves(x: bv32, n: nat): bv32
  {
    if n == 0 then x else Halves(Half(x), n - 1)
  }

  /** Bits of zeros are just shifted out. */
  lemma {:induction false} StepsClear(x: bv32, n: nat)
    requires n <= 8 && Clear(x, n)
    ensures Steps(x, n) == Halves(x, n)
    decreases n
  {
    hide Half, Odd, Xor;
    if n > 0 {
      assert Step(x) == Half(x) by { XorLaws(Half(x), 0, 0); }
      StepsClear(Half(x), n - 1);
      StepsFirst(x, n);
    }
  }

  lemma {:induction false} StepsFirst(x: bv32, n: nat)
    requires n > 0
    ensures Steps(x, n) == Steps(Step(x), n - 1)
  {
    hide Step;
    if n > 1 {
      StepsFirst(x, n - 1);
    }
  }

  function Low(x: bv32): bv32
  {
    x & 0xFF
  }

  function High(x: bv32): bv32
  {
    x & 0xFFFF_FF00
  }

  function Shr8(x: bv32): bv32
  {
    x >> 8
  }

  lemma EightHalves(x: bv32)
    ensures Halves(x, 8) == Shr8(x)
  {
    var x4 := Halves(x, 4);
    assert x4 == x >> 4 by { FourHalves(x); }
    HalvesSum(x, 4, 4);
    FourHalves(x4);
  }

  lemma FourHalves(x: bv32)
    ensures Halves(x, 4) == x >> 4
  {
    HalvesFour(x);
    assert Half(Half(Half(Half(x)))) == x >> 4;
  }

  lemma HalvesFour(x: bv32)
    ensures Halves(x, 4) == Half(Half(Half(Half(x))))
  {
    hide Half;
    var a := Half(x);
    var b := Half(a);
    var c := Half(b);
    assert Halves(c, 1) == Halves(Half(c), 0);
    assert Halves(b, 2) == Halves(c, 1);
    assert Halves(a, 3) == Halves(b, 2);
  }

  lemma {:induction false} HalvesSum(x: bv32, m: nat, n: nat)
    ensures Halves(x, m + n) == Halves(Halves(x, m), n)
    decreases m
  {
    hide Half;
    if m > 0 {
      HalvesSum(Half(x), m - 1, n);
    }
  }

  lemma LowClear(x: bv32)
    requires Low(x) == 0
    ensures Clear(x, 8)
  {
    var x4 := Half(Half(Half(Half(x))));
    FourEven(x4);
    FourEven(x);
    assert x4 & 0xF == 0;
    hide Half, Odd;
    ClearFour(x4, 0);
    ClearFour(x, 4);
  }

  lemma FourEven(x: bv32)
    ensures x & 0xF == 0 ==> !Odd(x) && !Odd(Half(x)) && !Odd(Half(Half(x))) && !Odd(Half(Half(Half(x))))
  {
  }

  lemma ClearFour(x: bv32, k: nat)
    requires k <= 4 && !Odd(x) && !Odd(Half(x)) && !Odd(Half(Half(x))) && !Odd(Half(Half(Half(x))))
    requires Clear(Half(Half(Half(Half(x)))), k)
    ensures Clear(x, 4 + k)
  {
    hide Half, Odd;
    var a := Half(x);
    var b := Half(a);
    var c := Half(b);
    assert Clear(c, k + 1);
    assert Clear(b, k + 2);
    assert Clear(a, k + 3);
  }

  /** Eight bits of zeros are just shifted out. */
  lemma StepsShift(x: bv32)
    requires Low(x) == 0
    ensures Steps(x, 8) == Shr8(x)
  {
    hide Step, Half, Low, Shr8;
    LowClear(x);
    StepsClear(x, 8);
    EightHalves(x);
  }

  /** zlib's table. */
  function Table(i: bv32): bv32
  {
    Steps(i, 8)
  }

  /** zlib's way of a byte. */
  function TableByte(crc: bv32, b: bv8): bv32
  {
    Xor(Table(Low(Xor(crc, Wide(b)))), Shr8(crc))
  }

  function TableBytes(crc: bv32, s: seq<bv8>): bv32
  {
    if s == [] then crc else TableByte(TableBytes(crc, s[..|s| - 1]), s[|s| - 1])
  }

  lemma Split(x: bv32)
    ensures x == Xor(Low(x), High(x)) && Low(High(x)) == 0
  {
  }

  lemma HighOf(crc: bv32, b: bv8)
    ensures Shr8(High(Xor(crc, Wide(b)))) == Shr8(crc)
  {
  }

  lemma TableByteIs(crc: bv32, b: bv8)
    ensures TableByte(crc, b) == Byte(crc, b)
  {
    hide Steps, Xor, Low, High, Shr8, Wide;
    var x := Xor(crc, Wide(b));
    Split(x);
    HighOf(crc, b);
    StepsLinear(Low(x), High(x), 8);
    StepsShift(High(x));
  }

  /** The two are the same. */
  lemma {:induction false} TableIsBitwise(crc: bv32, s: seq<bv8>)
    ensures TableBytes(crc, s) == Bytes(crc, s)
  {
    hide Byte, TableByte;
    if s != [] {
      TableIsBitwise(crc, s[..|s| - 1]);
      TableByteIs(Bytes(crc, s[..|s| - 1]), s[|s| - 1]);
    }
  }

  // ----- a step can be undone -----

  lemma TopBit(x: bv32)
    ensures Odd(x) <==> (Step(x) >> 31) & 1 == 1
  {
  }

  lemma StepInjective(x: bv32, y: bv32)
    requires Step(x) == Step(y)
    ensures x == y
  {
    TopBit(x);
    TopBit(y);
    HalfAndOdd(x, y);
    hide Half, Odd, Xor;
    XorCancel(Half(x), Half(y), Mask(x));
  }

  lemma HalfAndOdd(x: bv32, y: bv32)
    ensures Half(x) == Half(y) && Odd(x) == Odd(y) ==> x == y
  {
  }

  lemma WideInjective(d: bv8, d': bv8)
    ensures Wide(d) == Wide(d') ==> d == d'
  {
  }

  lemma NotInjective(x: bv32, y: bv32)
    ensures Not(x) == Not(y) ==> x == y
  {
  }

  // ----- as a number -----

  function Part0(x: bv32): bv8
  {
    (x & 0xFF) as bv8
  }

  function Part1(x: bv32): bv8
  {
    ((x >> 8) & 0xFF) as bv8
  }

  function Part2(x: bv32): bv8
  {
    ((x >> 16) & 0xFF) as bv8
  }

  function Part3(x: bv32): bv8
  {
    (x >> 24) as bv8
  }

  function Digit(b: bv8): nat
  {
    b as nat
  }

  /** The number a word is. */
  function Number(x: bv32): nat
  {
    Digit(Part0(x)) + 0x100 * Digit(Part1(x)) + 0x1_0000 * Digit(Part2(x)) + 0x100_0000 * Digit(Part3(x))
  }

  lemma DigitSmall(b: bv8)
    ensures Digit(b) < 256
  {
  }

  lemma NumberSmall(x: bv32)
    ensures Number(x) < 0x1_0000_0000
  {
    hide Part0, Part1, Part2, Part3, Digit;
    DigitSmall(Part0(x));
    DigitSmall(Part1(x));
    DigitSmall(Part2(x));
    DigitSmall(Part3(x));
  }

  lemma DigitInjective(a: bv8, b: bv8)
    ensures Digit(a) == Digit(b) ==> a == b
  {
  }

  lemma PartsInjective(x: bv32, y: bv32)
    requires Part0(x) == Part0(y) && Part1(x) == Part1(y) && Part2(x) == Part2(y) && Part3(x) == Part3(y)
    ensures x == y
  {
  }

  lemma FourDigits(a: nat, b: nat, c: nat, d: nat, a': nat, b': nat, c': nat, d': nat)
    requires a < 256 && b < 256 && c < 256 && a' < 256 && b' < 256 && c' < 256
    requires a + 0x100 * b + 0x1_0000 * c + 0x100_0000 * d == a' + 0x100 * b' + 0x1_0000 * c' + 0x100_0000 * d'
    ensures a == a' && b == b' && c == c' && d == d'
  {
  }

  lemma NumberInjective(x: bv32, y: bv32)
    requires Number(x) == Number(y)
    ensures x == y
  {
    hide Part0, Part1, Part2, Part3, Digit;
    DigitSmall(Part0(x));
    DigitSmall(Part1(x));
    DigitSmall(Part2(x));
    DigitSmall(Part0(y));
    DigitSmall(Part1(y));
    DigitSmall(Part2(y));
    FourDigits(Digit(Part0(x)), Digit(Part1(x)), Digit(Part2(x)), Digit(Part3(x)),
               Digit(Part0(y)), Digit(Part1(y)), Digit(Part2(y)), Digit(Part3(y)));
    DigitInjective(Part0(x), Part0(y));
    DigitInjective(Part1(x), Part1(y));
    DigitInjective(Part2(x), Part2(y));
    DigitInjective(Part3(x), Part3(y));
    PartsInjective(x, y);
  }

  /** A byte of eight bits, the lowest first. */
  function Join(a: bool, b: bool, c: bool, d: bool, e: bool, f: bool, g: bool, h: bool): bv8
  {
    (if a then 1 else 0) | (if b then 2 else 0) | (if c then 4 else 0) | (if d then 8 else 0)
    | (if e then 16 else 0) | (if f then 32 else 0) | (if g then 64 else 0) | (if h then 128 else 0)
  }

  predicate BitOf(n: nat, m: nat)
    requires m > 0
  {
    n / m % 2 == 1
  }

  /** The byte of a number. */
  function OfNumber(n: nat): bv8
    requires n < 256
  {
    Join(BitOf(n, 1), BitOf(n, 2), BitOf(n, 4), BitOf(n, 8), BitOf(n, 16), BitOf(n, 32), BitOf(n, 64), BitOf(n, 128))
  }

  lemma JoinInjective(a: bool, b: bool, c: bool, d: bool, e: bool, f: bool, g: bool, h: bool,
                      a': bool, b': bool, c': bool, d': bool, e': bool, f': bool, g': bool, h': bool)
    requires Join(a, b, c, d, e, f, g, h) == Join(a', b', c', d', e', f', g', h')
    ensures a == a' && b == b' && c == c' && d == d' && e == e' && f == f' && g == g' && h == h'
  {
  }

  function BitValue(b: bool, m: nat): nat
  {
    if b then m else 0
  }

  function OfBits(a: bool, b: bool, c: bool, d: bool, e: bool, f: bool, g: bool, h: bool): nat
  {
    BitValue(a, 1) + BitValue(b, 2) + BitValue(c, 4) + BitValue(d, 8)
    + BitValue(e, 16) + BitValue(f, 32) + BitValue(g, 64) + BitValue(h, 128)
  }

  function LowPart(n: nat, m: nat): nat
    requires m > 0
  {
    n % m
  }

  lemma BitsDown(n: nat, m: nat)
    requires m > 0
    ensures LowPart(n, 2 * m) == LowPart(n, m) + BitValue(BitOf(n, m), m)
  {
    DivModMul(n, m, 2);
    assert m * 2 == 2 * m;
    assert n % (m * 2) == (n / m % 2) * m + n % m;
    if n / m % 2 == 1 {
      assert (n / m % 2) * m == m;
    } else {
      assert (n / m % 2) * m == 0;
    }
  }

  lemma NumberOfBits(n: nat)
    requires n < 256
    ensures n == OfBits(BitOf(n, 1), BitOf(n, 2), BitOf(n, 4), BitOf(n, 8), BitOf(n, 16), BitOf(n, 32), BitOf(n, 64),
                        BitOf(n, 128))
  {
    assert LowPart(n, 1) == 0 && LowPart(n, 256) == n;
    hide BitOf, BitValue, LowPart;
    BitsDown(n, 1);
    BitsDown(n, 2);
    BitsDown(n, 4);
    BitsDown(n, 8);
    BitsDown(n, 16);
    BitsDown(n, 32);
    BitsDown(n, 64);
    BitsDown(n, 128);
  }

  lemma OfNumberInjective(a: nat, b: nat)
    requires a < 256 && b < 256 && OfNumber(a) == OfNumber(b)
    ensures a == b
  {
    hide BitOf, Join, OfBits;
    NumberOfBits(a);
    NumberOfBits(b);
    JoinInjective(
      BitOf(a, 1), BitOf(a, 2), BitOf(a, 4), BitOf(a, 8), BitOf(a, 16), BitOf(a, 32), BitOf(a, 64), BitOf(a, 128),
      BitOf(b, 1), BitOf(b, 2), BitOf(b, 4), BitOf(b, 8), BitOf(b, 16), BitOf(b, 32), BitOf(b, 64), BitOf(b, 128));
  }
}

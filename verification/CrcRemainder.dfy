/**
 What a CRC-32 is: the remainder of the message, as a polynomial over the field of two elements, by the generator
 of IEEE 802.3. A polynomial is the set of the exponents it has.
 */
module CrcRemainder {
  import opened Crc

  /** x^32 + x^26 + x^23 + x^22 + x^16 + x^12 + x^11 + x^10 + x^8 + x^7 + x^5 + x^4 + x^2 + x + 1 */
  function Generator(): set<nat>
  {
    {32, 26, 23, 22, 16, 12, 11, 10, 8, 7, 5, 4, 2, 1, 0}
  }

  lemma Degree()
    ensures 32 in Generator() && forall k :: k in Generator() ==> k <= 32
  {
  }

  // ----- polynomials -----

  function Sum(a: set<nat>, b: set<nat>): set<nat>
  {
    (a - b) + (b - a)
  }

  /** Times x^n. */
  function Times(a: set<nat>, n: nat): set<nat>
  {
    set k | k in a :: k + n
  }

  /** The terms of q that x^k comes from in the product with the generator. */
  function Ways(q: set<nat>, k: nat): set<nat>
  {
    set i | i in q && i <= k && k - i in Generator()
  }

  /** The product with the generator. */
  function Product(q: set<nat>): set<nat>
  {
    set i, j | i in q && j in Generator() && |Ways(q, i + j)| % 2 == 1 :: i + j
  }

  /** The two differ by a multiple of the generator. */
  ghost predicate Congruent(a: set<nat>, b: set<nat>)
  {
    exists q :: Sum(a, b) == Product(q)
  }

  lemma InProduct(q: set<nat>, k: nat)
    ensures k in Product(q) <==> |Ways(q, k)| % 2 == 1
  {
    hide Generator;
    if |Ways(q, k)| % 2 == 1 {
      var i :| i in Ways(q, k);
      assert i in q && k - i in Generator() && i + (k - i) == k;
    }
  }

  lemma InTimes(a: set<nat>, n: nat, k: nat)
    ensures k in Times(a, n) <==> k >= n && k - n in a
  {
    if k >= n && k - n in a {
      assert k - n + n in Times(a, n);
    }
  }

  lemma SumSize(a: set<nat>, b: set<nat>)
    ensures |Sum(a, b)| % 2 == (|a| + |b|) % 2
  {
    var c := a * b;
    assert a == (a - b) + c && b == (b - a) + c;
    assert |a| == |a - b| + |c| && |b| == |b - a| + |c|;
    assert |Sum(a, b)| == |a - b| + |b - a|;
  }

  /** The product of a sum. */
  lemma ProductSum(q: set<nat>, r: set<nat>)
    ensures Product(Sum(q, r)) == Sum(Product(q), Product(r))
  {
    hide Generator, Product, Ways;
    forall k: nat
      ensures k in Product(Sum(q, r)) <==> k in Sum(Product(q), Product(r))
    {
      InProduct(q, k);
      InProduct(r, k);
      InProduct(Sum(q, r), k);
      WaysSum(q, r, k);
      SumSize(Ways(q, k), Ways(r, k));
    }
  }

  lemma WaysSum(q: set<nat>, r: set<nat>, k: nat)
    ensures Ways(Sum(q, r), k) == Sum(Ways(q, k), Ways(r, k))
  {
    hide Generator;
  }

  lemma {:induction false} TimesSize(a: set<nat>, n: nat)
    ensures |Times(a, n)| == |a|
  {
    if a != {} {
      var k :| k in a;
      TimesSize(a - {k}, n);
      forall i
        ensures i in Times(a, n) <==> i in Times(a - {k}, n) + {k + n}
      {
        if i >= 0 {
          InTimes(a, n, i);
          InTimes(a - {k}, n, i);
        }
      }
      InTimes(a - {k}, n, k + n);
      assert Times(a, n) == Times(a - {k}, n) + {k + n};
    }
  }

  lemma ProductTimes(q: set<nat>, n: nat)
    ensures Product(Times(q, n)) == Times(Product(q), n)
  {
    hide Generator, Product, Ways, Times;
    forall k: nat
      ensures k in Product(Times(q, n)) <==> k in Times(Product(q), n)
    {
      InProduct(Times(q, n), k);
      InTimes(Product(q), n, k);
      if k >= n {
        InProduct(q, k - n);
        WaysTimes(q, n, k);
        TimesSize(Ways(q, k - n), n);
      } else {
        WaysNone(q, n, k);
      }
    }
  }

  lemma WaysNone(q: set<nat>, n: nat, k: nat)
    requires k < n
    ensures Ways(Times(q, n), k) == {}
  {
    hide Generator, Times;
    if i :| i in Ways(Times(q, n), k) {
      InTimes(q, n, i);
    }
  }

  lemma WaysTimes(q: set<nat>, n: nat, k: nat)
    requires k >= n
    ensures Ways(Times(q, n), k) == Times(Ways(q, k - n), n)
  {
    hide Generator, Times;
    forall i: nat
      ensures i in Ways(Times(q, n), k) <==> i in Times(Ways(q, k - n), n)
    {
      InTimes(q, n, i);
      InTimes(Ways(q, k - n), n, i);
    }
  }

  /** A multiple of the generator other than zero has a term that no remainder has. */
  lemma MultipleIsHigh(q: set<nat>)
    requires q != {}
    ensures exists k :: k in Product(q) && k >= 32
  {
    hide Generator, Product;
    Degree();
    var m := Largest(q);
    InProduct(q, m + 32);
    assert Ways(q, m + 32) == {m};
  }

  lemma {:induction false} Largest(q: set<nat>) returns (m: nat)
    requires q != {}
    ensures m in q && forall i :: i in q ==> i <= m
  {
    var k :| k in q;
    m := k;
    if q - {k} != {} {
      var l := Largest(q - {k});
      m := if l > k then l else k;
      assert forall i :: i in q ==> i == k || i in q - {k};
    } else {
      assert forall i :: i in q ==> i == k || i in q - {k};
    }
  }

  // ----- being congruent -----

  lemma SumLaws(a: set<nat>, b: set<nat>, c: set<nat>)
    ensures Sum(Sum(a, b), c) == Sum(a, Sum(b, c)) && Sum(a, b) == Sum(b, a) && Sum(a, {}) == a && Sum(a, a) == {}
  {
  }

  lemma Same(a: set<nat>)
    ensures Congruent(a, a)
  {
    assert Sum(a, a) == Product({});
  }

  /** Of sums. */
  lemma CongruentSum(a: set<nat>, b: set<nat>, c: set<nat>, d: set<nat>)
    requires Congruent(a, b) && Congruent(c, d)
    ensures Congruent(Sum(a, c), Sum(b, d))
  {
    var q :| Sum(a, b) == Product(q);
    var r :| Sum(c, d) == Product(r);
    hide Product;
    ProductSum(q, r);
    assert Sum(Sum(a, c), Sum(b, d)) == Sum(Sum(a, b), Sum(c, d));
    assert Sum(Sum(a, c), Sum(b, d)) == Product(Sum(q, r));
  }

  lemma CongruentThen(a: set<nat>, b: set<nat>, c: set<nat>)
    requires Congruent(a, b) && Congruent(b, c)
    ensures Congruent(a, c)
  {
    hide Congruent, Product;
    CongruentSum(a, b, b, c);
    SumSame(a, b, c);
  }

  lemma SumSame(a: set<nat>, b: set<nat>, c: set<nat>)
    requires Congruent(Sum(a, b), Sum(b, c))
    ensures Congruent(a, c)
  {
    hide Product;
    var q :| Sum(Sum(a, b), Sum(b, c)) == Product(q);
    assert Sum(Sum(a, b), Sum(b, c)) == Sum(a, c);
  }

  lemma CongruentTimes(a: set<nat>, b: set<nat>, n: nat)
    requires Congruent(a, b)
    ensures Congruent(Times(a, n), Times(b, n))
  {
    var q :| Sum(a, b) == Product(q);
    hide Product;
    ProductTimes(q, n);
    TimesSum(a, b, n);
    assert Sum(Times(a, n), Times(b, n)) == Product(Times(q, n));
  }

  lemma TimesSum(a: set<nat>, b: set<nat>, n: nat)
    ensures Times(Sum(a, b), n) == Sum(Times(a, n), Times(b, n))
  {
    forall k: nat
      ensures k in Times(Sum(a, b), n) <==> k in Sum(Times(a, n), Times(b, n))
    {
      InTimes(a, n, k);
      InTimes(b, n, k);
      InTimes(Sum(a, b), n, k);
    }
  }

  lemma TimesTimes(a: set<nat>, m: nat, n: nat)
    ensures Times(Times(a, m), n) == Times(a, m + n)
  {
    forall k: nat
      ensures k in Times(Times(a, m), n) <==> k in Times(a, m + n)
    {
      InTimes(a, m + n, k);
      InTimes(Times(a, m), n, k);
      if k >= n {
        InTimes(a, m, k - n);
      }
    }
  }

  lemma ProductOne()
    ensures Product({0}) == Generator()
  {
    hide Generator, Product;
    forall k: nat
      ensures k in Product({0}) <==> k in Generator()
    {
      InProduct({0}, k);
      assert Ways({0}, k) == if k in Generator() then {0} else {};
    }
  }

  // ----- the state as a polynomial -----

  /** The highest bit of the word is the coefficient of 1, the lowest that of x^31. */
  predicate Has(x: bv32, k: nat)
  {
    k < 32 && Odd(Halves(x, 31 - k))
  }

  function Poly(x: bv32): set<nat>
  {
    set k: nat | k < 32 && Has(x, k)
  }

  lemma {:induction false} HalvesXor(x: bv32, y: bv32, n: nat)
    ensures Halves(Xor(x, y), n) == Xor(Halves(x, n), Halves(y, n))
    decreases n
  {
    hide Xor, Half;
    if n > 0 {
      HalfXor(x, y);
      HalvesXor(Half(x), Half(y), n - 1);
    }
  }

  lemma PolyXor(x: bv32, y: bv32)
    ensures Poly(Xor(x, y)) == Sum(Poly(x), Poly(y))
  {
    hide Halves, Xor, Odd;
    forall k: nat | k < 32
      ensures k in Poly(Xor(x, y)) <==> k in Sum(Poly(x), Poly(y))
    {
      HalvesXor(x, y, 31 - k);
      OddXor(Halves(x, 31 - k), Halves(y, 31 - k));
    }
  }

  lemma HalvesOut(x: bv32)
    ensures !Odd(Halves(x, 32))
  {
    hide Halves;
    var a := Halves(x, 8);
    var b := Halves(a, 8);
    var c := Halves(b, 8);
    EightHalves(x);
    EightHalves(a);
    EightHalves(b);
    EightHalves(c);
    HalvesSum(x, 8, 24);
    HalvesSum(a, 8, 16);
    HalvesSum(b, 8, 8);
  }

  /** Times x: the bits move one down, and the lowest becomes x^32. */
  lemma PolyHalf(x: bv32)
    ensures Times(Poly(x), 1) == Poly(Half(x)) + if Odd(x) then {32} else {}
  {
    HalvesOut(x);
    hide Times;
    forall k: nat
      ensures k in Times(Poly(x), 1) <==> k in Poly(Half(x)) + if Odd(x) then {32} else {}
    {
      InTimes(Poly(x), 1, k);
      if 0 < k < 32 {
        assert Halves(Half(x), 31 - k) == Halves(x, 31 - (k - 1));
      }
    }
  }

  lemma OneBit(x: bv32, y: bv32, n: nat)
    requires n < 32 && Halves(x, n) == y
    ensures (31 - n in Poly(x) <==> Odd(y)) && Halves(x, n + 1) == Half(y)
  {
    hide Half, Odd;
    HalvesSum(x, n, 1);
    assert Halves(y, 1) == Halves(Half(y), 0);
  }

  /** Four bits of a word, from its bit n on. */
  predicate Nibble(x: bv32, n: nat, b0: bool, b1: bool, b2: bool, b3: bool)
  {
    && 28 >= n && (b0 <==> 31 - n in Poly(x)) && (b1 <==> 30 - n in Poly(x))
    && (b2 <==> 29 - n in Poly(x)) && (b3 <==> 28 - n in Poly(x))
  }

  lemma FourBits(x: bv32, y: bv32, n: nat, b0: bool, b1: bool, b2: bool, b3: bool, z: bv32)
    requires n + 4 <= 32 && Halves(x, n) == y && Half(Half(Half(Half(y)))) == z
    requires b0 == Odd(y) && b1 == Odd(Half(y)) && b2 == Odd(Half(Half(y))) && b3 == Odd(Half(Half(Half(y))))
    ensures Nibble(x, n, b0, b1, b2, b3) && Halves(x, n + 4) == z
  {
    hide Half, Odd, Halves, Poly;
    OneBit(x, y, n);
    OneBit(x, Half(y), n + 1);
    OneBit(x, Half(Half(y)), n + 2);
    OneBit(x, Half(Half(Half(y))), n + 3);
  }

  lemma PolyDigits()
    ensures Nibble(POLY, 0, false, false, false, false) && Nibble(POLY, 4, false, true, false, false)
    ensures Nibble(POLY, 8, true, true, false, false) && Nibble(POLY, 12, false, false, false, true)
    ensures Nibble(POLY, 16, false, false, false, true) && Nibble(POLY, 20, true, true, false, true)
    ensures Nibble(POLY, 24, true, false, true, true) && Nibble(POLY, 28, false, true, true, true)
  {
    assert Halves(POLY, 0) == 0xEDB8_8320;
    hide Halves, Nibble;
    FourBits(POLY, 0xEDB8_8320, 0, false, false, false, false, 0xEDB_8832);
    FourBits(POLY, 0xEDB_8832, 4, false, true, false, false, 0xED_B883);
    FourBits(POLY, 0xED_B883, 8, true, true, false, false, 0xE_DB88);
    FourBits(POLY, 0xE_DB88, 12, false, false, false, true, 0xEDB8);
    FourBits(POLY, 0xEDB8, 16, false, false, false, true, 0xEDB);
    FourBits(POLY, 0xEDB, 20, true, true, false, true, 0xED);
    FourBits(POLY, 0xED, 24, true, false, true, true, 0xE);
    FourBits(POLY, 0xE, 28, false, true, true, true, 0);
  }

  /** The constant of the code is the generator without its x^32. */
  lemma PolyIsGenerator()
    ensures Generator() == Poly(POLY) + {32}
  {
    hide Poly;
    PolyDigits();
    PolySmall(POLY);
    forall k: nat
      ensures k in Generator() <==> k in Poly(POLY) + {32}
    {
      if k < 32 {
        UpTo(k);
      }
    }
  }

  lemma UpTo(k: nat)
    requires k < 32
    ensures k == 0 || k == 1 || k == 2 || k == 3 || k == 4 || k == 5 || k == 6 || k == 7
            || k == 8 || k == 9 || k == 10 || k == 11 || k == 12 || k == 13 || k == 14 || k == 15
            || k == 16 || k == 17 || k == 18 || k == 19 || k == 20 || k == 21 || k == 22 || k == 23
            || k == 24 || k == 25 || k == 26 || k == 27 || k == 28 || k == 29 || k == 30 || k == 31
  {
  }

  lemma PolySmall(x: bv32)
    ensures forall k :: k in Poly(x) ==> k < 32
  {
  }

  // ----- each step -----

  lemma StepTimes(x: bv32)
    ensures Congruent(Poly(Step(x)), Times(Poly(x), 1))
  {
    hide Poly, Times, Product, Generator, Congruent, Half, Odd, Xor;
    PolyHalf(x);
    PolySmall(Half(x));
    PolyXor(Half(x), Mask(x));
    if Odd(x) {
      PolyIsGenerator();
      PolySmall(POLY);
      ProductOne();
      Off(Poly(Half(x)), Poly(POLY), Poly(Step(x)), Times(Poly(x), 1));
    } else {
      XorLaws(Half(x), 0, 0);
      Same(Poly(Half(x)));
      assert Times(Poly(x), 1) == Poly(Half(x));
    }
  }

  lemma Off(h: set<nat>, g: set<nat>, a: set<nat>, b: set<nat>)
    requires a == Sum(h, g) && b == h + {32} && 32 !in h && 32 !in g && Product({0}) == g + {32}
    ensures Congruent(a, b)
  {
    hide Product;
    assert Sum(a, b) == Product({0});
  }

  /** n steps are n times x. */
  lemma {:induction false} StepsTimes(x: bv32, n: nat)
    ensures Congruent(Poly(Steps(x, n)), Times(Poly(x), n))
  {
    hide Poly, Times, Product, Generator, Congruent, Step;
    if n == 0 {
      TimesZero(Poly(x));
      Same(Poly(x));
    } else {
      StepsTimes(x, n - 1);
      StepTimes(Steps(x, n - 1));
      CongruentTimes(Poly(Steps(x, n - 1)), Times(Poly(x), n - 1), 1);
      TimesTimes(Poly(x), n - 1, 1);
      CongruentThen(Poly(Steps(x, n)), Times(Poly(Steps(x, n - 1)), 1), Times(Poly(x), n));
    }
  }

  lemma TimesZero(a: set<nat>)
    ensures Times(a, 0) == a
  {
    forall k: nat
      ensures k in Times(a, 0) <==> k in a
    {
      InTimes(a, 0, k);
    }
  }

  // ----- the message -----

  predicate BitOf(b: bv8, j: nat)
  {
    Odd(Halves(Wide(b), j))
  }

  /** The bytes in order, each with its lowest bit first; the first bit has the highest exponent. */
  function Message(s: seq<bv8>): set<nat>
  {
    set k: nat | k < 8 * |s| && BitOf(s[|s| - 1 - k / 8], 7 - k % 8)
  }

  lemma MessageMore(s: seq<bv8>, b: bv8)
    ensures Message(s + [b]) == Sum(Times(Message(s), 8), Message([b]))
  {
    hide BitOf, Times;
    forall k: nat
      ensures k in Message(s + [b]) <==> k in Sum(Times(Message(s), 8), Message([b]))
    {
      InTimes(Message(s), 8, k);
      if 8 <= k < 8 * (|s| + 1) {
        assert (k - 8) / 8 == k / 8 - 1 && (k - 8) % 8 == k % 8;
        assert (s + [b])[|s| - k / 8] == s[|s| - 1 - (k - 8) / 8];
      }
    }
  }

  /** A byte in the low bits of the state stands for x^24 times itself. */
  lemma WidePoly(b: bv8)
    ensures Poly(Wide(b)) == Times(Message([b]), 24)
  {
    hide Times;
    forall k: nat
      ensures k in Poly(Wide(b)) <==> k in Times(Message([b]), 24)
    {
      InTimes(Message([b]), 24, k);
      if k < 24 {
        WideOut(b, 31 - k);
      }
    }
  }

  lemma WideOut(b: bv8, j: nat)
    requires 8 <= j
    ensures !Odd(Halves(Wide(b), j))
  {
    EightHalves(Wide(b));
    assert Shr8(Wide(b)) == 0;
    HalvesSum(Wide(b), 8, j - 8);
    HalvesNone(j - 8);
  }

  lemma {:induction false} HalvesNone(n: nat)
    ensures Halves(0, n) == 0
  {
    if n > 0 {
      assert Half(0) == 0;
      HalvesNone(n - 1);
    }
  }

  lemma ByteTimes(crc: bv32, b: bv8)
    ensures Congruent(Poly(Byte(crc, b)), Sum(Times(Poly(crc), 8), Times(Message([b]), 32)))
  {
    hide Poly, Times, Product, Generator, Congruent, Steps, Message, Sum;
    var x := Xor(crc, Wide(b));
    StepsTimes(x, 8);
    PolyXor(crc, Wide(b));
    TimesSum(Poly(crc), Poly(Wide(b)), 8);
    WidePoly(b);
    TimesTimes(Message([b]), 24, 8);
  }

  /** The state after the bytes is congruent to the state before them, shifted past them, and x^32 times the message. */
  lemma {:induction false} StateIsRemainder(crc: bv32, s: seq<bv8>)
    ensures Congruent(Poly(Bytes(crc, s)), Sum(Times(Poly(crc), 8 * |s|), Times(Message(s), 32)))
  {
    hide Poly, Times, Product, Generator, Congruent, Byte, Sum;
    if s == [] {
      TimesZero(Poly(crc));
      NoMessage(Poly(crc));
      Same(Poly(crc));
    } else {
      hide Message;
      var t, b := s[..|s| - 1], s[|s| - 1];
      assert s == t + [b];
      var c, p, m, n := Bytes(crc, t), Poly(crc), Message(t), 8 * |t|;
      StateIsRemainder(crc, t);
      ByteTimes(c, b);
      CongruentTimes(Poly(c), Sum(Times(p, n), Times(m, 32)), 8);
      MessageMore(t, b);
      Gather(p, m, Message([b]), n);
      Same(Times(Message([b]), 32));
      CongruentSum(Times(Poly(c), 8), Times(Sum(Times(p, n), Times(m, 32)), 8),
                   Times(Message([b]), 32), Times(Message([b]), 32));
      CongruentThen(Poly(Byte(c, b)), Sum(Times(Poly(c), 8), Times(Message([b]), 32)),
                    Sum(Times(p, n + 8), Times(Message(s), 32)));
    }
  }

  lemma NoMessage(p: set<nat>)
    ensures Sum(p, Times(Message([]), 32)) == p
  {
    assert Message([]) == {};
  }

  lemma Gather(p: set<nat>, m: set<nat>, b: set<nat>, n: nat)
    ensures Sum(Times(Sum(Times(p, n), Times(m, 32)), 8), Times(b, 32))
            == Sum(Times(p, n + 8), Times(Sum(Times(m, 8), b), 32))
  {
    hide Times, Sum;
    TimesSum(Times(p, n), Times(m, 32), 8);
    TimesTimes(p, n, 8);
    TimesTimes(m, 32, 8);
    TimesTimes(m, 8, 32);
    TimesSum(Times(m, 8), b, 32);
    SumLaws(Times(p, n + 8), Times(m, 40), Times(b, 32));
  }

  // ----- the CRC -----

  /** A remainder is the only one: polynomials of degree below 32 that are congruent are the same. */
  lemma OnlyRemainder(a: set<nat>, b: set<nat>)
    requires Congruent(a, b) && (forall k :: k in a ==> k < 32) && (forall k :: k in b ==> k < 32)
    ensures a == b
  {
    hide Product;
    var q :| Sum(a, b) == Product(q);
    if q != {} {
      MultipleIsHigh(q);
      assert false;
    }
    Nothing();
    assert Sum(a, b) == {};
    forall k
      ensures k in a <==> k in b
    {
      assert k !in Sum(a, b);
    }
  }

  lemma Nothing()
    ensures Product({}) == {}
  {
  }

  /** CRC-32: the complement of the remainder of x^32 times the message whose first 32 bits are complemented. */
  lemma CrcIsRemainder(s: seq<bv8>)
    ensures Congruent(Poly(Not(Crc32(s))), Sum(Times(Poly(Not(0)), 8 * |s|), Times(Message(s), 32)))
  {
    hide Congruent, Product, Times, Sum, Message, Poly, Bytes;
    StateIsRemainder(Not(0), s);
    assert Not(Not(Bytes(Not(0), s))) == Bytes(Not(0), s);
  }
}

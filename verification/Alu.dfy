/**
 The arithmetic of the interpreted CPU (userland/dosrun/cpu.c): what the flags of an operation mean, what
 the condition codes then decide, and sums and comparisons of numbers of many words.
 */
module Alu {
  import opened Arithmetic
  import opened Shift

  datatype AluOp = Add | Or | Adc | Sbb | And | Sub | Xor | Cmp

  function Bit(x: int, i: nat): int
  {
    x / Pow2(i) % 2
  }

  /** The bitwise operations, a bit at a time. */
  function Bitwise(op: AluOp, a: nat, b: nat, w: nat): (r: nat)
    ensures r < Pow2(w)
  {
    if w == 0 then 0
    else
      var x, y := a % 2, b % 2;
      var bit := match op
        case Or => if x == 1 || y == 1 then 1 else 0
        case And => if x == 1 && y == 1 then 1 else 0
        case _ => if x != y then 1 else 0;
      bit + 2 * Bitwise(op, a / 2, b / 2, w - 1)
  }

  lemma BitZero(x: int)
    ensures Bit(x, 0) == x % 2
  {
  }

  lemma BitHalf(x: int, i: nat)
    requires i > 0
    ensures Bit(x, i) == Bit(x / 2, i - 1)
  {
    DivModMul(x, 2, Pow2(i - 1));
  }

  /** What each of the three does to one bit. */
  predicate Joins(op: AluOp, x: int, y: int, r: int)
  {
    match op
    case Or => r == 1 <==> x == 1 || y == 1
    case And => r == 1 <==> x == 1 && y == 1
    case Xor => r == 1 <==> x != y
    case _ => true
  }

  /** Every bit of the result is made of the two bits at its place. */
  lemma {:induction false} BitwiseBits(op: AluOp, a: nat, b: nat, w: nat, i: nat)
    requires i < w
    ensures Joins(op, Bit(a, i), Bit(b, i), Bit(Bitwise(op, a, b, w), i))
  {
    var r := Bitwise(op, a, b, w);
    hide Bit;
    if i == 0 {
      BitZero(a);
      BitZero(b);
      BitZero(r);
    } else {
      BitHalf(a, i);
      BitHalf(b, i);
      BitHalf(r, i);
      BitwiseBits(op, a / 2, b / 2, w - 1, i - 1);
    }
  }

  // ----- the sign and the parity of a result, by its bits -----

  lemma TopBitSigns(r: nat, w: nat)
    requires w > 0 && r < Pow2(w)
    ensures Bit(r, w - 1) == 1 <==> Negative(r, w)
  {
    hide Pow2;
    Rotate(w);
    if Negative(r, w) {
      DivUnique(r, Pow2(w - 1), 1, r - Pow2(w - 1));
    } else {
      DivUnique(r, Pow2(w - 1), 0, r);
    }
  }

  /** A two's complement number: the only one of its range that is the same modulo the width. */
  lemma SignedRange(u: nat, w: nat)
    requires w > 0 && u < Pow2(w)
    ensures 0 - Pow2(w - 1) <= Signed(u, w) < Pow2(w - 1) && (Signed(u, w) - u) % Pow2(w) == 0
  {
    hide Pow2;
    Rotate(w);
    DivUnique(Signed(u, w) - u, Pow2(w), if Negative(u, w) then -1 else 0, 0);
  }

  /** The places of the ones among the low n bits. */
  function OnePlaces(r: nat, n: nat): set<nat>
  {
    set i: nat | i < n && Bit(r, i) == 1
  }

  lemma {:induction false} OnesAbove(x: nat, b: nat, k: nat)
    requires x < Pow2(k) && b <= 1
    ensures Ones(x + b * Pow2(k)) == Ones(x) + b
  {
    if k > 0 {
      var y := x + b * Pow2(k);
      assert y == x + 2 * (b * Pow2(k - 1)) by {
        Rotate(k);
      }
      assert y % 2 == x % 2 && y / 2 == x / 2 + b * Pow2(k - 1);
      OnesAbove(x / 2, b, k - 1);
    }
  }

  lemma {:induction false} OnesCounted(r: nat, n: nat)
    ensures Ones(r % Pow2(n)) == |OnePlaces(r, n)|
  {
    if n > 0 {
      var b, k := Bit(r, n - 1), n - 1;
      Rotate(n);
      hide Pow2, Ones;
      DivModMul(r, Pow2(k), 2);
      OnesAbove(r % Pow2(k), b, k);
      OnesCounted(r, k);
      assert OnePlaces(r, n) == OnePlaces(r, k) + if b == 1 then {k} else {};
    }
  }

  predicate Adds(op: AluOp)
  {
    op.Add? || op.Adc?
  }

  predicate Subtracts(op: AluOp)
  {
    op.Sub? || op.Sbb? || op.Cmp?
  }

  /** The carry or borrow that comes in. */
  function CarryIn(op: AluOp, cf: bool): int
  {
    if (op.Adc? || op.Sbb?) && cf then 1 else 0
  }

  /** The result as an integer, before it is cut to the width. */
  function Exact(op: AluOp, a: int, b: int, cf: bool): int
  {
    if Adds(op) then a + b + CarryIn(op, cf) else a - b - CarryIn(op, cf)
  }

  // ----- an operation and its flags -----

  /** alu8, alu16 and alu32. */
  method Compute(c: Cpu, op: AluOp, a: nat, b: nat, w: nat) returns (r: nat)
    requires (w == 8 || w == 16 || w == 32) && a < Pow2(w) && b < Pow2(w)
    modifies c
    ensures r < Pow2(w) && c.Shows(r, w)
    ensures Adds(op) ==> r + (if c.cf then Pow2(w) else 0) == Exact(op, a, b, old(c.cf))
    ensures Subtracts(op) ==> r - (if c.cf then Pow2(w) else 0) == Exact(op, a, b, old(c.cf))
    // the overflow flag: the signed result does not fit
    ensures Adds(op) || Subtracts(op) ==>
              (c.of <==> !(0 - Pow2(w - 1) <= Exact(op, Signed(a, w), Signed(b, w), old(c.cf)) < Pow2(w - 1)))
    // the auxiliary flag: a carry or borrow out of the low four bits
    ensures Adds(op) ==> (c.af <==> Exact(op, a % 16, b % 16, old(c.cf)) >= 16)
    ensures Subtracts(op) ==> (c.af <==> Exact(op, a % 16, b % 16, old(c.cf)) < 0)
    ensures !Adds(op) && !Subtracts(op) ==> !c.cf && !c.of && !c.af
    // OR, AND and XOR, bit by bit
    ensures forall i: nat | i < w :: op.Or? ==> (Bit(r, i) == 1 <==> Bit(a, i) == 1 || Bit(b, i) == 1)
    ensures forall i: nat | i < w :: op.And? ==> (Bit(r, i) == 1 <==> Bit(a, i) == 1 && Bit(b, i) == 1)
    ensures forall i: nat | i < w :: op.Xor? ==> (Bit(r, i) == 1 <==> Bit(a, i) != Bit(b, i))
    // the conditions that tell of one flag: O, NO, E, NE, S, NS, P, NP
    ensures Adds(op) || Subtracts(op) ==>
              (Cond(c, 0x0) <==> !(0 - Pow2(w - 1) <= Exact(op, Signed(a, w), Signed(b, w), old(c.cf)) < Pow2(w - 1)))
    ensures Cond(c, 0x1) <==> !Cond(c, 0x0)
    ensures (Cond(c, 0x4) <==> r == 0) && (Cond(c, 0x5) <==> r != 0)
    ensures (Cond(c, 0x8) <==> Bit(r, w - 1) == 1) && (Cond(c, 0x9) <==> Bit(r, w - 1) != 1)
    ensures Cond(c, 0xA) <==> |set i: nat | i < 8 && Bit(r, i) == 1| % 2 == 0
    ensures Cond(c, 0xB) <==> |set i: nat | i < 8 && Bit(r, i) == 1| % 2 == 1
  {
    hide Pow2, Bit, Bitwise, Negative, Signed, Ones, Cond, Cpu.Shows;
    var m := Pow2(w);
    if Adds(op) {
      var wide := a + b + CarryIn(op, c.cf);
      AddFlags(a, b, CarryIn(op, c.cf), w);
      r := wide % m;
      c.cf := wide >= m;
      c.of := Negative(a, w) != Negative(r, w) && Negative(b, w) != Negative(r, w);
      c.af := (Bit(a, 4) + Bit(b, 4) + Bit(r, 4)) % 2 == 1;
    } else if Subtracts(op) {
      var wide := b + CarryIn(op, c.cf);
      SubFlags(a, b, CarryIn(op, c.cf), w);
      r := (a - wide) % m;
      c.cf := a < wide;
      c.of := Negative(a, w) != Negative(b, w) && Negative(a, w) != Negative(r, w);
      c.af := (Bit(a, 4) + Bit(b, 4) + Bit(r, 4)) % 2 == 1;
    } else {
      r := Bitwise(op, a, b, w);
      c.cf, c.of, c.af := false, false, false;
      forall i: nat | i < w
        ensures Joins(op, Bit(a, i), Bit(b, i), Bit(r, i))
      {
        BitwiseBits(op, a, b, w, i);
      }
    }
    c.SetFlags(r, w);
    Tells(c, r, w);
  }

  /** What the flags of a result make of the conditions that tell of one flag. */
  lemma Tells(c: Cpu, r: nat, w: nat)
    requires w > 0 && r < Pow2(w) && c.Shows(r, w)
    ensures (Cond(c, 0x0) <==> c.of) && (Cond(c, 0x1) <==> !c.of)
    ensures (Cond(c, 0x4) <==> r == 0) && (Cond(c, 0x5) <==> r != 0)
    ensures (Cond(c, 0x8) <==> Bit(r, w - 1) == 1) && (Cond(c, 0x9) <==> Bit(r, w - 1) != 1)
    ensures Cond(c, 0xA) <==> |set i: nat | i < 8 && Bit(r, i) == 1| % 2 == 0
    ensures Cond(c, 0xB) <==> |set i: nat | i < 8 && Bit(r, i) == 1| % 2 == 1
  {
    hide Pow2, Bit, Ones, Negative;
    TopBitSigns(r, w);
    Pow2Words();
    OnesCounted(r, 8);
    assert OnePlaces(r, 8) == set i: nat | i < 8 && Bit(r, i) == 1;
  }

  lemma AddFlags(a: nat, b: nat, k: int, w: nat)
    requires w >= 8 && a < Pow2(w) && b < Pow2(w) && 0 <= k <= 1
    ensures var wide, m := a + b + k, Pow2(w);
            var r := wide % m;
            && r == (if wide >= m then wide - m else wide)
            && (Negative(a, w) != Negative(r, w) && Negative(b, w) != Negative(r, w) <==>
                  !(0 - Pow2(w - 1) <= Signed(a, w) + Signed(b, w) + k < Pow2(w - 1)))
            && ((Bit(a, 4) + Bit(b, 4) + Bit(r, 4)) % 2 == 1 <==> a % 16 + b % 16 + k >= 16)
  {
    hide Pow2, Bit;
    var wide, m := a + b + k, Pow2(w);
    Rotate(w);
    DivUnique(wide, m, if wide >= m then 1 else 0, if wide >= m then wide - m else wide);
    AuxAdd(a, b, k, wide % m, w);
  }

  lemma Rotate(w: nat)
    requires w > 0
    ensures Pow2(w) == 2 * Pow2(w - 1)
  {
  }

  lemma SubFlags(a: nat, b: nat, k: int, w: nat)
    requires w >= 8 && a < Pow2(w) && b < Pow2(w) && 0 <= k <= 1
    ensures var x, m := a - (b + k), Pow2(w);
            var r := x % m;
            && r == (if x < 0 then x + m else x)
            && (Negative(a, w) != Negative(b, w) && Negative(a, w) != Negative(r, w) <==>
                  !(0 - Pow2(w - 1) <= Signed(a, w) - Signed(b, w) - k < Pow2(w - 1)))
            && ((Bit(a, 4) + Bit(b, 4) + Bit(r, 4)) % 2 == 1 <==> a % 16 - b % 16 - k < 0)
  {
    hide Pow2, Bit;
    var x, m := a - (b + k), Pow2(w);
    Rotate(w);
    DivUnique(x, m, if x < 0 then -1 else 0, if x < 0 then x + m else x);
    AuxSub(a, b, k, x % m, w);
  }

  /** The low four bits, the one above them, and the rest. */
  lemma LowBits(x: int) returns (q: int, b: int, l: int)
    ensures x == 32 * q + 16 * b + l && 0 <= b <= 1 && 0 <= l < 16 && l == x % 16 && b == Bit(x, 4)
  {
    assert Pow2(4) == 16;
    l := x % 16;
    b := x / 16 % 2;
    q := x / 16 / 2;
  }

  lemma BitOf(x: int, q: int, b: int, l: int)
    requires x == 32 * q + 16 * b + l && 0 <= b <= 1 && 0 <= l < 16
    ensures Bit(x, 4) == b
  {
    assert Pow2(4) == 16;
    DivUnique(x, 16, 2 * q + b, l);
    DivUnique(2 * q + b, 2, q, b);
  }

  /** The bit above the low four tells whether they carried. */
  lemma AuxAdd(a: nat, b: nat, k: int, r: nat, w: nat)
    requires w >= 8 && 0 <= k <= 1 && (r == a + b + k || r == a + b + k - Pow2(w))
    ensures (Bit(a, 4) + Bit(b, 4) + Bit(r, 4)) % 2 == 1 <==> a % 16 + b % 16 + k >= 16
  {
    hide Bit, Pow2;
    var t := Wide(w);
    var aq, a1, a0 := LowBits(a);
    var bq, b1, b0 := LowBits(b);
    var over := if a0 + b0 + k >= 16 then 1 else 0;
    var n := a1 + b1 + over;
    var q := aq + bq - (if r == a + b + k then 0 else t) + n / 2;
    BitOf(r, q, n % 2, a0 + b0 + k - 16 * over);
  }

  lemma AuxSub(a: nat, b: nat, k: int, r: nat, w: nat)
    requires w >= 8 && 0 <= k <= 1 && (r == a - b - k || r == a - b - k + Pow2(w))
    ensures (Bit(a, 4) + Bit(b, 4) + Bit(r, 4)) % 2 == 1 <==> a % 16 - b % 16 - k < 0
  {
    hide Bit, Pow2;
    var t := Wide(w);
    var aq, a1, a0 := LowBits(a);
    var bq, b1, b0 := LowBits(b);
    var under := if a0 - b0 - k < 0 then 1 else 0;
    var n := a1 - b1 - under;
    var q := aq - bq + (if r == a - b - k then 0 else t) + n / 2;
    BitOf(r, q, n % 2, a0 - b0 - k + 16 * under);
  }

  lemma Wide(w: nat) returns (t: nat)
    requires w >= 8
    ensures Pow2(w) == 32 * t
  {
    t := Pow2(w - 5);
    Pow2Add(5, w - 5);
    assert Pow2(5) == 32;
  }

  // ----- the condition codes -----

  /** The conditions of the conditional jumps: O, NO, B, AE, E, NE, BE, A, S, NS, P, NP, L, GE, LE, G. */
  function Cond(c: Cpu, cc: nat): bool
    reads c
  {
    if cc == 0x0 then c.of
    else if cc == 0x1 then !c.of
    else if cc == 0x2 then c.cf
    else if cc == 0x3 then !c.cf
    else if cc == 0x4 then c.zf
    else if cc == 0x5 then !c.zf
    else if cc == 0x6 then c.cf || c.zf
    else if cc == 0x7 then !c.cf && !c.zf
    else if cc == 0x8 then c.sf
    else if cc == 0x9 then !c.sf
    else if cc == 0xA then c.pf
    else if cc == 0xB then !c.pf
    else if cc == 0xC then c.sf != c.of
    else if cc == 0xD then c.sf == c.of
    else if cc == 0xE then c.zf || c.sf != c.of
    else !c.zf && c.sf == c.of
  }

  /** The sign of the true result, when the sign flag and the overflow flag differ. */
  lemma SignOf(r: nat, x: int, w: nat)
    requires w > 0 && r < Pow2(w) && -2 * Pow2(w - 1) <= x < 2 * Pow2(w - 1)
    requires r == x || r == x + Pow2(w) || r == x - Pow2(w)
    ensures x < 0 <==> (Negative(r, w) != !(0 - Pow2(w - 1) <= x < Pow2(w - 1)))
  {
    hide Pow2;
    Rotate(w);
  }

  /** A comparison, and every order the condition codes tell. */
  method Compare(c: Cpu, a: nat, b: nat, w: nat)
    requires (w == 8 || w == 16 || w == 32) && a < Pow2(w) && b < Pow2(w)
    modifies c
    ensures Cond(c, 0x2) <==> a < b
    ensures Cond(c, 0x3) <==> a >= b
    ensures Cond(c, 0x4) <==> a == b
    ensures Cond(c, 0x5) <==> a != b
    ensures Cond(c, 0x6) <==> a <= b
    ensures Cond(c, 0x7) <==> a > b
    ensures Cond(c, 0xC) <==> Signed(a, w) < Signed(b, w)
    ensures Cond(c, 0xD) <==> Signed(a, w) >= Signed(b, w)
    ensures Cond(c, 0xE) <==> Signed(a, w) <= Signed(b, w)
    ensures Cond(c, 0xF) <==> Signed(a, w) > Signed(b, w)
  {
    hide Pow2;
    var r := Compute(c, Cmp, a, b, w);
    Rotate(w);
    SignOf(r, Signed(a, w) - Signed(b, w), w);
    assert c.zf <==> a == b;
    assert c.cf <==> a < b;
    assert c.sf != c.of <==> Signed(a, w) < Signed(b, w);
  }

  // ----- numbers of many words -----

  /** The low word comes first. */
  function Number(ws: seq<nat>, w: nat): int
  {
    if ws == [] then 0 else Number(ws[..|ws| - 1], w) + ws[|ws| - 1] * Base(w, |ws| - 1)
  }

  function Base(w: nat, n: nat): (m: nat)
    ensures m > 0
  {
    if n == 0 then 1 else Positive(Pow2(w), Base(w, n - 1)); Pow2(w) * Base(w, n - 1)
  }

  lemma Positive(x: nat, y: nat)
    requires x > 0 && y > 0
    ensures x * y > 0
  {
    MulMono(1, x, y);
  }

  ghost predicate Words(ws: seq<nat>, w: nat)
  {
    forall i :: 0 <= i < |ws| ==> ws[i] < Pow2(w)
  }

  lemma NumberMore(ws: seq<nat>, x: nat, w: nat)
    ensures Number(ws + [x], w) == Number(ws, w) + x * Base(w, |ws|)
  {
    assert (ws + [x])[..|ws|] == ws;
  }

  lemma {:induction false} NumberBound(ws: seq<nat>, w: nat)
    requires Words(ws, w)
    ensures 0 <= Number(ws, w) < Base(w, |ws|)
  {
    if ws != [] {
      var t, x := ws[..|ws| - 1], ws[|ws| - 1];
      hide Pow2, Base;
      NumberBound(t, w);
      BaseMore(w, |t|);
      DigitBound(Number(t, w), x, Base(w, |t|), Pow2(w));
    } else {
      NoBase(w);
    }
  }

  lemma NoBase(w: nat)
    ensures Base(w, 0) == 1
  {
  }

  lemma DigitBound(n: int, x: nat, base: nat, m: nat)
    requires 0 <= n < base && x < m
    ensures 0 <= n + x * base < m * base
  {
    MulMono(x + 1, m, base);
    MulMono(0, x, base);
  }

  function CarryOf(cf: bool): int
  {
    if cf then 1 else 0
  }

  /** One word of a sum with carries, in the whole. */
  lemma SumStep(x: int, y: int, z: int, c: int, a: nat, b: nat, r: nat, c': int, m: nat, base: nat)
    requires z + c * base == x + y && r + c' * m == a + b + c
    ensures (z + r * base) + c' * (m * base) == (x + a * base) + (y + b * base)
  {
    assert (r + c' * m) * base == r * base + c' * (m * base);
    assert (a + b + c) * base == a * base + b * base + c * base;
  }

  lemma AddStep(a: seq<nat>, b: seq<nat>, r: seq<nat>, x: nat, k: int, k': int, w: nat)
    requires |r| < |a| == |b| && x + k' * Pow2(w) == a[|r|] + b[|r|] + k
    requires Number(r, w) + k * Base(w, |r|) == Number(a[..|r|], w) + Number(b[..|r|], w)
    ensures Number(r + [x], w) + k' * Base(w, |r| + 1) == Number(a[..|r| + 1], w) + Number(b[..|r| + 1], w)
  {
    hide Pow2, Number, Base;
    var i := |r|;
    assert a[..i + 1] == a[..i] + [a[i]] && b[..i + 1] == b[..i] + [b[i]];
    NumberMore(a[..i], a[i], w);
    NumberMore(b[..i], b[i], w);
    NumberMore(r, x, w);
    BaseMore(w, i);
    SumStep(Number(a[..i], w), Number(b[..i], w), Number(r, w), k, a[i], b[i], x, k', Pow2(w), Base(w, i));
  }

  lemma SubtractStep(a: seq<nat>, b: seq<nat>, r: seq<nat>, x: nat, k: int, k': int, w: nat)
    requires |r| < |a| == |b| && x + b[|r|] + k == a[|r|] + k' * Pow2(w)
    requires Number(r, w) - k * Base(w, |r|) == Number(a[..|r|], w) - Number(b[..|r|], w)
    ensures Number(r + [x], w) - k' * Base(w, |r| + 1) == Number(a[..|r| + 1], w) - Number(b[..|r| + 1], w)
  {
    hide Pow2, Number, Base;
    var i := |r|;
    assert a[..i + 1] == a[..i] + [a[i]] && b[..i + 1] == b[..i] + [b[i]];
    NumberMore(a[..i], a[i], w);
    NumberMore(b[..i], b[i], w);
    NumberMore(r, x, w);
    BaseMore(w, i);
    DifferenceStep(Number(a[..i], w), Number(b[..i], w), Number(r, w), k, a[i], b[i], x, k', Pow2(w), Base(w, i));
  }

  /** ADD of the lowest words, then ADC of the rest: the sum, with the carry above it. */
  method AddWords(c: Cpu, a: seq<nat>, b: seq<nat>, w: nat) returns (r: seq<nat>)
    requires (w == 8 || w == 16 || w == 32) && |a| == |b| > 0 && Words(a, w) && Words(b, w)
    modifies c
    ensures |r| == |a| && Words(r, w)
    ensures Number(r, w) + CarryOf(c.cf) * Base(w, |a|) == Number(a, w) + Number(b, w)
  {
    hide Pow2, Number, Base;
    r := [];
    var i := 0;
    NoWords(w);
    assert a[..0] == [] && b[..0] == [];
    while i < |a|
      invariant 0 <= i <= |a| && |r| == i && Words(r, w)
      invariant Number(r, w) + (if i == 0 then 0 else CarryOf(c.cf)) * Base(w, i)
                == Number(a[..i], w) + Number(b[..i], w)
    {
      ghost var k := if i == 0 then 0 else CarryOf(c.cf);
      var x := Compute(c, if i == 0 then Add else Adc, a[i], b[i], w);
      assert x + CarryOf(c.cf) * Pow2(w) == a[i] + b[i] + k;
      AddStep(a, b, r, x, k, CarryOf(c.cf), w);
      r := r + [x];
      i := i + 1;
    }
    assert a[..|a|] == a && b[..|b|] == b;
  }

  lemma NoWords(w: nat)
    ensures Number([], w) == 0
  {
  }

  lemma BaseMore(w: nat, n: nat)
    ensures Base(w, n + 1) == Pow2(w) * Base(w, n)
  {
  }

  /** The signed value of a number of many words. */
  function SignedNumber(ws: seq<nat>, w: nat): int
    requires ws != [] && w > 0
  {
    Number(ws[..|ws| - 1], w) + Signed(ws[|ws| - 1], w) * Base(w, |ws| - 1)
  }

  /** SUB of the lowest words, then SBB of the rest: the difference, and the flags decide the order of the whole
      numbers, unsigned (B) and signed (L). */
  method SubtractWords(c: Cpu, a: seq<nat>, b: seq<nat>, w: nat) returns (r: seq<nat>)
    requires (w == 8 || w == 16 || w == 32) && |a| == |b| > 0 && Words(a, w) && Words(b, w)
    modifies c
    ensures |r| == |a| && Words(r, w)
    ensures Number(r, w) - CarryOf(c.cf) * Base(w, |a|) == Number(a, w) - Number(b, w)
    ensures Cond(c, 0x2) <==> Number(a, w) < Number(b, w)
    ensures Cond(c, 0xC) <==> SignedNumber(a, w) < SignedNumber(b, w)
  {
    hide Pow2, Number, Base, SignedNumber, Signed, Negative, Cond;
    r := [];
    var i := 0;
    NoWords(w);
    assert a[..0] == [] && b[..0] == [];
    while i < |a|
      invariant 0 <= i <= |a| && |r| == i && Words(r, w)
      invariant Number(r, w) - (if i == 0 then 0 else CarryOf(c.cf)) * Base(w, i)
                == Number(a[..i], w) - Number(b[..i], w)
      invariant i == |a| ==> (c.sf != c.of <==> SignedNumber(a, w) < SignedNumber(b, w))
    {
      ghost var k := if i == 0 then 0 else CarryOf(c.cf);
      Difference(Number(r, w), k, Number(a[..i], w), Number(b[..i], w), a[..i], b[..i], r, w);
      var x := Compute(c, if i == 0 then Sub else Sbb, a[i], b[i], w);
      assert x + b[i] + k == a[i] + CarryOf(c.cf) * Pow2(w);
      SubtractStep(a, b, r, x, k, CarryOf(c.cf), w);
      LastWord(c.sf, c.of, a[i], b[i], k, x, w);
      SignedOrder(a, b, i, k, w);
      r := r + [x];
      i := i + 1;
    }
    assert a[..|a|] == a && b[..|b|] == b;
    Difference(Number(r, w), CarryOf(c.cf), Number(a, w), Number(b, w), a, b, r, w);
    BelowAndLess(c);
  }

  lemma BelowAndLess(c: Cpu)
    ensures Cond(c, 0x2) == c.cf && Cond(c, 0xC) == (c.sf != c.of)
  {
  }

  /** The borrow says which number is the smaller. */
  lemma Difference(z: int, k: int, x: int, y: int, a: seq<nat>, b: seq<nat>, r: seq<nat>, w: nat)
    requires Words(a, w) && Words(b, w) && Words(r, w) && |a| == |b| == |r|
    requires x == Number(a, w) && y == Number(b, w) && z == Number(r, w)
    requires 0 <= k <= 1 && z - k * Base(w, |a|) == x - y
    ensures k == 1 <==> x < y
  {
    hide Number, Base;
    NumberBound(a, w);
    NumberBound(b, w);
    NumberBound(r, w);
  }

  lemma DifferenceStep(x: int, y: int, z: int, c: int, a: nat, b: nat, r: nat, c': int, m: nat, base: nat)
    requires z - c * base == x - y && r - c' * m == a - b - c
    ensures (z + r * base) - c' * (m * base) == (x + a * base) - (y + b * base)
  {
    assert (r - c' * m) * base == r * base - c' * (m * base);
    assert (a - b - c) * base == a * base - b * base - c * base;
  }

  lemma LastWord(sf: bool, of: bool, a: nat, b: nat, k: int, r: nat, w: nat)
    requires w > 0 && a < Pow2(w) && b < Pow2(w) && r < Pow2(w) && 0 <= k <= 1
    requires r == a - b - k || r == a - b - k + Pow2(w)
    requires sf <==> Negative(r, w)
    requires of <==> !(0 - Pow2(w - 1) <= Signed(a, w) - Signed(b, w) - k < Pow2(w - 1))
    ensures sf != of <==> Signed(a, w) - Signed(b, w) - k < 0
  {
    hide Pow2;
    Rotate(w);
    SignOf(r, Signed(a, w) - Signed(b, w) - k, w);
  }

  /** The order of two signed numbers, from their top words and the borrow of what is below them. */
  lemma SignedOrder(a: seq<nat>, b: seq<nat>, i: nat, k: int, w: nat)
    requires w > 0 && |a| == |b| && i < |a| && Words(a, w) && Words(b, w)
    requires 0 <= k <= 1 && (k == 1 <==> Number(a[..i], w) < Number(b[..i], w))
    ensures i + 1 == |a| ==>
              (SignedNumber(a, w) < SignedNumber(b, w) <==> Signed(a[i], w) - Signed(b[i], w) - k < 0)
  {
    hide Number, Base;
    if i + 1 == |a| {
      NumberBound(a[..i], w);
      NumberBound(b[..i], w);
      TopDecides(Number(a[..i], w), Number(b[..i], w), Signed(a[i], w), Signed(b[i], w), k, Base(w, i));
    }
  }

  lemma TopDecides(x: int, y: int, s: int, t: int, k: int, base: nat)
    requires 0 <= x < base && 0 <= y < base && 0 <= k <= 1 && (k == 1 <==> x < y)
    ensures x + s * base < y + t * base <==> s - t - k < 0
  {
    assert s * base - t * base == (s - t) * base;
    MulAtLeast(s - t, base);
  }
}

/**
 Division where the machine has none of its own: DIV and IDIV of the interpreted 386 on 64-bit dividends
 (userland/dosrun/cpu.c), and the C library's 64-bit division (libc/divdi3.c).
 */
module Divide {
  import opened Arithmetic

  const W32 := 0x1_0000_0000
  const W64 := 0x1_0000_0000_0000_0000

  // ----- signed numbers -----

  function Signed(u: int, w: int): int
  {
    if 2 * u < w then u else u - w
  }

  function Abs(x: int): nat
  {
    if x < 0 then -x else x
  }

  /** Division as C and the 386 do it, truncating toward zero. */
  function Quotient(n: int, d: int): int
    requires d != 0
  {
    var q := Abs(n) / Abs(d);
    if (n < 0) != (d < 0) then -q else q
  }

  function Remainder(n: int, d: int): int
    requires d != 0
  {
    if n < 0 then -(Abs(n) % Abs(d)) else Abs(n) % Abs(d)
  }

  /** What those two are: the remainder is smaller than the divisor and has the dividend's sign. */
  lemma QuotientAndRemainder(n: int, d: int)
    requires d != 0
    ensures n == Quotient(n, d) * d + Remainder(n, d)
    ensures Abs(Remainder(n, d)) < Abs(d) && (n >= 0 ==> Remainder(n, d) >= 0) && (n <= 0 ==> Remainder(n, d) <= 0)
  {
    var q, r := Abs(n) / Abs(d), Abs(n) % Abs(d);
    Parts(Abs(n), Abs(d));
    Negate(q, d);
  }

  lemma Parts(a: nat, b: nat)
    requires b > 0
    ensures a == a / b * b + a % b && 0 <= a % b < b
  {
  }

  lemma Negate(q: int, d: int)
    ensures (-q) * d == -(q * d) && q * (-d) == -(q * d)
  {
  }

  lemma QuotientOf(n: nat, d: nat, q: nat, r: nat)
    requires n == q * d + r && r < d
    ensures q == n / d && r == n % d
  {
    DivUnique(n, d, q, r);
  }

  // ----- one bit at a time -----

  function Bit(v: nat, i: nat): nat
  {
    v / Pow2(i) % 2
  }

  /** v | 1 << i. */
  function WithBit(v: nat, i: nat): nat
  {
    if Bit(v, i) == 1 then v else v + Pow2(i)
  }

  /** A multiple of a higher power of two has the bit clear. */
  lemma ClearBit(q: nat, i: nat)
    ensures Bit(q * Pow2(i + 1), i) == 0 && WithBit(q * Pow2(i + 1), i) == (2 * q + 1) * Pow2(i)
    ensures q * Pow2(i + 1) == (2 * q) * Pow2(i)
  {
    assert q * Pow2(i + 1) == (2 * q) * Pow2(i) + 0;
    DivUnique(q * Pow2(i + 1), Pow2(i), 2 * q, 0);
  }

  /** One bit more of a number. */
  lemma NextBit(n: nat, i: nat)
    ensures n / Pow2(i) == 2 * (n / Pow2(i + 1)) + Bit(n, i)
  {
    DivModMul(n, Pow2(i), 2);
    assert Pow2(i) * 2 == Pow2(i + 1);
  }

  /** The low half's bits are the number's. */
  lemma LowBit(hi: nat, lo: nat, i: nat)
    requires i < 32
    ensures Bit(hi * W32 + lo, i) == Bit(lo, i)
  {
    var k, p := hi * Pow2(31 - i), Pow2(i);
    HighHalf(hi, i);
    DivModAdd(lo, 2 * k, p);
    DivModAdd(lo / p, k, 2);
    assert 2 * k == k * 2;
  }

  lemma HighHalf(hi: nat, i: nat)
    requires i < 32
    ensures hi * W32 == (2 * (hi * Pow2(31 - i))) * Pow2(i)
  {
    Pow2Words();
    Pow2Add(31 - i, i + 1);
    var a, b := Pow2(31 - i), Pow2(i);
    assert Pow2(i + 1) == 2 * b;
    hide Pow2;
    Reassociate(hi, a, b);
  }

  lemma Reassociate(hi: nat, a: nat, b: nat)
    ensures hi * (a * (2 * b)) == (2 * (hi * a)) * b
  {
    assert a * (2 * b) == 2 * (a * b);
    assert hi * (2 * (a * b)) == 2 * (hi * (a * b));
    assert hi * (a * b) == (hi * a) * b;
    assert 2 * ((hi * a) * b) == (2 * (hi * a)) * b;
  }

  // ----- the 386's DIV and IDIV -----

  datatype Stop = Ok | DivideError

  const AX := 0
  const DX := 2

  /** The general registers, in halves as the interpreter keeps them. */
  class Registers {
    var r: seq<nat>
    var rHi: seq<nat>

    ghost predicate Valid()
      reads this
    {
      |r| == 8 && |rHi| == 8 && (forall i :: 0 <= i < 8 ==> r[i] < 0x1_0000 && rHi[i] < 0x1_0000)
    }

    function Reg32(i: nat): (v: nat)
      requires Valid() && i < 8
      reads this
      ensures v < W32
    {
      r[i] + 0x1_0000 * rHi[i]
    }

    method PutReg32(i: nat, v: nat)
      requires Valid() && i < 8 && v < W32
      modifies this
      ensures Valid() && Reg32(i) == v
      ensures forall j :: 0 <= j < 8 && j != i ==> Reg32(j) == old(Reg32(j))
    {
      r, rHi := r[i := v % 0x1_0000], rHi[i := v / 0x1_0000];
    }

    ghost function Dividend(): nat
      requires Valid()
      reads this
    {
      Reg32(DX) * W32 + Reg32(AX)
    }

    method Divide32(divisor: nat, signed: bool) returns (stop: Stop)
      requires Valid() && divisor < W32
      modifies this
      ensures Valid()
      ensures stop.DivideError? <==> divisor == 0 || !Fits(old(Dividend()), divisor, signed)
      ensures stop.DivideError? ==> r == old(r) && rHi == old(rHi)
      ensures stop.Ok? ==>
              && Value(Reg32(AX), signed, W32) == Quotient(Value(old(Dividend()), signed, W64),
                                                           Value(divisor, signed, W32))
              && Value(Reg32(DX), signed, W32) == Remainder(Value(old(Dividend()), signed, W64),
                                                            Value(divisor, signed, W32))
      ensures forall j :: 0 <= j < 8 && j != AX && j != DX ==> Reg32(j) == old(Reg32(j))
    {
      hide Fits, Quotient, Remainder, Value;
      var dividend := Reg32(DX) * W32 + Reg32(AX);
      var negative := signed && dividend >= W64 / 2;
      var negDivisor := signed && divisor >= W32 / 2;
      var n := if negative then (W64 - dividend) % W64 else dividend;
      var d := if negDivisor then (W32 - divisor) % W32 else divisor;
      Magnitudes(dividend, divisor, signed, n, d);
      if d == 0 || n / W32 >= d {
        return DivideError;
      }
      HalvesOf(n);
      var q, rem := ShiftSubtract(n / W32, n % W32, d);
      QuotientOf(n, d, q, rem);
      var negQuotient := negative != negDivisor;
      Results(dividend, divisor, signed, q, rem);
      if signed && q > (if negQuotient then 0x8000_0000 else 0x7FFF_FFFF) {
        return DivideError;
      }
      PutReg32(AX, if negQuotient then (W32 - q) % W32 else q);
      PutReg32(DX, if negative then (W32 - rem) % W32 else rem);
      stop := Ok;
    }
  }

  lemma HalvesOf(n: nat)
    ensures n == n / W32 * W32 + n % W32 && n % W32 < W32
  {
  }

  lemma Magnitudes(dividend: nat, divisor: nat, signed: bool, n: int, d: int)
    requires dividend < W64 && divisor < W32
    requires n == if signed && dividend >= W64 / 2 then (W64 - dividend) % W64 else dividend
    requires d == if signed && divisor >= W32 / 2 then (W32 - divisor) % W32 else divisor
    ensures n == Abs(Value(dividend, signed, W64)) && d == Abs(Value(divisor, signed, W32))
    ensures d == 0 <==> divisor == 0
    ensures 0 <= n < W64 && 0 <= d < W32
    ensures divisor != 0 && n / W32 >= d ==> !Fits(dividend, divisor, signed)
  {
    Magnitude(dividend, signed, W64);
    Magnitude(divisor, signed, W32);
    if divisor != 0 {
      TooLarge(n, d);
    }
  }

  /** The signs put back: what the registers get is the quotient and remainder, if they fit. */
  lemma Results(dividend: nat, divisor: nat, signed: bool, q: nat, rem: nat)
    requires dividend < W64 && 0 < divisor < W32 && q < W32
    requires Abs(Value(divisor, signed, W32)) > 0
    requires q == Abs(Value(dividend, signed, W64)) / Abs(Value(divisor, signed, W32))
    requires rem == Abs(Value(dividend, signed, W64)) % Abs(Value(divisor, signed, W32))
    ensures var negative, negDivisor := signed && dividend >= W64 / 2, signed && divisor >= W32 / 2;
            var negQuotient := negative != negDivisor;
            && (Fits(dividend, divisor, signed) <==>
                !(signed && q > (if negQuotient then 0x8000_0000 else 0x7FFF_FFFF)))
            && (Fits(dividend, divisor, signed) ==>
                  && Value(if negQuotient then (W32 - q) % W32 else q, signed, W32)
                     == Quotient(Value(dividend, signed, W64), Value(divisor, signed, W32))
                  && Value(if negative then (W32 - rem) % W32 else rem, signed, W32)
                     == Remainder(Value(dividend, signed, W64), Value(divisor, signed, W32)))
  {
    Magnitude(dividend, signed, W64);
    Magnitude(divisor, signed, W32);
    Parts(Abs(Value(dividend, signed, W64)), Abs(Value(divisor, signed, W32)));
  }

  function Value(u: nat, signed: bool, w: int): int
  {
    if signed then Signed(u, w) else u
  }

  /** The truncated quotient can be had in 32 bits. */
  ghost predicate Fits(dividend: nat, divisor: nat, signed: bool)
    requires 0 < divisor < W32
  {
    var q := Quotient(Value(dividend, signed, W64), Value(divisor, signed, W32));
    if signed then -0x8000_0000 <= q < 0x8000_0000 else q < W32
  }

  lemma Magnitude(u: nat, signed: bool, w: nat)
    requires u < w && w % 2 == 0 && w > 0
    ensures Abs(Value(u, signed, w)) == (if signed && u >= w / 2 then (w - u) % w else u)
    ensures Value(u, signed, w) < 0 <==> signed && u >= w / 2
    ensures Value(u, signed, w) == 0 <==> u == 0
  {
  }

  /** A quotient of 32 bits or more shows in the high half. */
  lemma TooLarge(n: nat, d: nat)
    requires n < W64
    ensures d > 0 ==> (n / W32 >= d <==> n / d >= W32)
  {
    if d > 0 {
      Parts(n, W32);
      Parts(n, d);
      if n / W32 >= d {
        MulMono(d, n / W32, W32);
        if n / d < W32 {
          MulMono(n / d + 1, W32, d);
        }
      } else {
        MulMono(n / W32 + 1, d, W32);
        if n / d >= W32 {
          MulMono(W32, n / d, d);
        }
      }
    }
  }

  /** The restoring division of divide32, from the high half down. */
  method ShiftSubtract(hi: nat, lo: nat, d: nat) returns (q: nat, rem: nat)
    requires hi < d < W32 && lo < W32
    ensures hi * W32 + lo == q * d + rem && rem < d && q < W32
  {
    hide Dividing, Bit, WithBit;
    ghost var n: nat, k: nat := hi * W32 + lo, 0;
    q, rem := 0, hi;
    HighPart(hi, lo, d);
    var i := 31;
    while i >= 0
      invariant -1 <= i <= 31 && rem < d && Dividing(n, i + 1, k, d, q, rem)
    {
      DivideStep(hi, lo, i, k, d, q, rem);
      rem := 2 * rem + Bit(lo, i);
      k := 2 * k;
      if rem >= d {
        rem := rem - d;
        q := WithBit(q, i);
        k := k + 1;
      }
      i := i - 1;
    }
    Divided(n, k, d, q, rem);
    Small(hi, lo, d, q, rem);
  }

  /** What is divided so far: the number without its low i bits. */
  ghost predicate Dividing(n: nat, i: nat, k: nat, d: nat, q: nat, rem: nat)
  {
    n / Pow2(i) == k * d + rem && q == k * Pow2(i)
  }

  lemma DivideStep(hi: nat, lo: nat, i: nat, k: nat, d: nat, q: nat, rem: nat)
    requires i < 32 && Dividing(hi * W32 + lo, i + 1, k, d, q, rem)
    ensures var n, r := hi * W32 + lo, 2 * rem + Bit(lo, i);
            && Bit(lo, i) <= 1 && Dividing(n, i, 2 * k, d, q, r)
            && (r >= d ==> Dividing(n, i, 2 * k + 1, d, WithBit(q, i), r - d))
  {
    hide Pow2, Bit, WithBit;
    var n := hi * W32 + lo;
    NextBit(n, i);
    LowBit(hi, lo, i);
    ClearBit(k, i);
    Doubled(k, d, rem, Bit(lo, i));
    assert Bit(lo, i) <= 1 by { OneBit(lo, i); }
  }

  lemma OneBit(v: nat, i: nat)
    ensures Bit(v, i) <= 1
  {
  }

  lemma Divided(n: nat, k: nat, d: nat, q: nat, rem: nat)
    requires Dividing(n, 0, k, d, q, rem)
    ensures n == q * d + rem
  {
    assert Pow2(0) == 1;
  }

  lemma HighPart(hi: nat, lo: nat, d: nat)
    requires lo < W32
    ensures Dividing(hi * W32 + lo, 32, 0, d, 0, hi)
  {
    Pow2Words();
    DivUnique(hi * W32 + lo, W32, hi, lo);
  }

  lemma Doubled(k: nat, d: nat, rem: nat, b: nat)
    ensures 2 * (k * d + rem) + b == (2 * k) * d + (2 * rem + b)
    ensures (2 * k) * d + (2 * rem + b) == (2 * k + 1) * d + (2 * rem + b - d)
  {
  }

  lemma Small(hi: nat, lo: nat, d: nat, q: nat, rem: nat)
    requires hi < d && lo < W32 && hi * W32 + lo == q * d + rem
    ensures q < W32
  {
    if q >= W32 {
      MulMono(W32, q, d);
      MulMono(hi + 1, d, W32);
    }
  }

  // ----- the C library's division -----

  /** The DIV instruction: a fault if the quotient does not fit. */
  function Div(hi: nat, lo: nat, d: nat): (bool, nat, nat)
  {
    if d == 0 || (hi * W32 + lo) / d >= W32 then (false, 0, 0) else (true, (hi * W32 + lo) / d, (hi * W32 + lo) % d)
  }

  /** A dividend whose high half is below the divisor has a quotient that fits. */
  lemma DivFits(hi: nat, lo: nat, d: nat)
    requires hi < d && lo < W32
    ensures Div(hi, lo, d).0
    ensures hi * W32 + lo == Div(hi, lo, d).1 * d + Div(hi, lo, d).2 && Div(hi, lo, d).2 < d && Div(hi, lo, d).1 < W32
  {
    Parts(hi * W32 + lo, d);
    Small(hi, lo, d, (hi * W32 + lo) / d, (hi * W32 + lo) % d);
  }

  /** __udivmoddi4: the machine faults only where the divisor is zero. */
  method UDivMod(n: nat, d: nat) returns (ok: bool, q: nat, rem: nat)
    requires n < W64 && d < W64
    ensures ok <==> d != 0
    ensures ok ==> q == n / d && rem == n % d
  {
    if d < W32 {
      var hi, lo := n / W32, n % W32;
      var (ok1, qh, r1) := Div(0, hi, d);
      if !ok1 {
        DivTop(n, d);
        return false, 0, 0;
      }
      HalvesOf(n);
      DivFits(0, hi, d);
      DivFits(r1, lo, d);
      var (ok2, ql, r2) := Div(r1, lo, d);
      TwoDivs(n, hi, lo, d, qh, r1, ql, r2);
      return ok2, qh * W32 + ql, r2;
    }
    q, rem := LongDivide(n, d);
    ok := true;
  }

  lemma DivTop(n: nat, d: nat)
    requires n < W64 && !Div(0, n / W32, d).0
    ensures d == 0
  {
    HalvesOf(n);
    if d > 0 {
      DivFits(0, n / W32, d);
    }
  }

  lemma TwoDivs(n: nat, hi: nat, lo: nat, d: nat, qh: nat, r1: nat, ql: nat, r2: nat)
    requires n == hi * W32 + lo && hi == qh * d + r1 && r1 * W32 + lo == ql * d + r2 && r2 < d
    ensures qh * W32 + ql == n / d && r2 == n % d
  {
    assert hi * W32 == (qh * d) * W32 + r1 * W32;
    assert (qh * d) * W32 == (qh * W32) * d;
    assert (qh * W32 + ql) * d == (qh * W32) * d + ql * d;
    QuotientOf(n, d, qh * W32 + ql, r2);
  }

  /** For a divisor of more than 32 bits: shifts and subtractions. */
  method LongDivide(n0: nat, d0: nat) returns (q: nat, n: nat)
    requires n0 < W64 && W32 <= d0 < W64
    ensures q == n0 / d0 && n == n0 % d0
  {
    hide Pow2;
    var d, shift := d0, 0;
    n := n0;
    assert d0 * Pow2(0) == d0 by { assert Pow2(0) == 1 by { PowZero(); } }
    while d < W64 / 2 && 2 * d <= n
      invariant d == d0 * Pow2(shift) && W32 <= d < W64
      decreases W64 - d
    {
      ShiftUp(d0, shift);
      d := 2 * d;
      shift := shift + 1;
    }
    q := 0;
    while true
      invariant shift >= 0 && d == d0 * Pow2(shift)
      invariant n0 == q * (2 * d) + n && n < 2 * d
      decreases shift
    {
      LongStep(n0, q, d, n);
      q := 2 * q;
      if n >= d {
        n := n - d;
        q := q + 1;
      }
      if shift == 0 {
        break;
      }
      shift := shift - 1;
      ShiftDown(d0, shift, d);
      d := d / 2;
    }
    PowZero();
    QuotientOf(n0, d0, q, n);
  }

  lemma PowZero()
    ensures Pow2(0) == 1
  {
  }

  lemma ShiftUp(d: nat, s: nat)
    ensures 2 * (d * Pow2(s)) == d * Pow2(s + 1)
  {
    assert Pow2(s + 1) == 2 * Pow2(s);
  }

  lemma ShiftDown(d0: nat, s: nat, d: nat)
    requires d == d0 * Pow2(s + 1)
    ensures d / 2 == d0 * Pow2(s) && d == 2 * (d / 2)
  {
    ShiftUp(d0, s);
  }

  lemma LongStep(n0: nat, q: nat, d: nat, n: nat)
    requires n0 == q * (2 * d) + n
    ensures n0 == (2 * q) * d + n && (n >= d ==> n0 == (2 * q + 1) * d + (n - d))
  {
  }

  /** 0 - u in 64 bits. */
  function Negated(u: nat): (r: nat)
    requires u < W64
    ensures r < W64
  {
    (W64 - u) % W64
  }

  predicate Int64(x: int)
  {
    -W64 / 2 <= x < W64 / 2
  }

  /** The magnitude of a signed number, as the wrappers take it. */
  function Magnitude64(x: int): nat
    requires Int64(x)
  {
    if x < 0 then Negated(x + W64) else x
  }

  lemma NegatedIs(u: nat)
    requires u < W64
    ensures Negated(u) == if u == 0 then 0 else W64 - u
  {
  }

  lemma MagnitudeIs(x: int)
    requires Int64(x)
    ensures Magnitude64(x) == Abs(x) <= W64 / 2
  {
    if x < 0 {
      NegatedIs(x + W64);
    }
  }

  /** __divdi3. */
  method DivSigned(n: int, d: int) returns (ok: bool, q: int)
    requires Int64(n) && Int64(d)
    ensures ok <==> d != 0
    ensures ok ==> Int64(q) && (q == Quotient(n, d) <==> !(n == -W64 / 2 && d == -1))
    ensures ok && n == -W64 / 2 && d == -1 ==> q == n
  {
    hide Quotient;
    var uq, ur;
    ok, uq, ur := UDivMod(Magnitude64(n), Magnitude64(d));
    if ok {
      SignedQuotient(n, d, uq);
      q := Signed(if (n < 0) != (d < 0) then Negated(uq) else uq, W64);
    } else {
      q := 0;
    }
  }

  lemma SignedQuotient(n: int, d: int, uq: nat)
    requires Int64(n) && Int64(d) && d != 0 && Magnitude64(d) > 0 && uq == Magnitude64(n) / Magnitude64(d)
    ensures uq < W64
    ensures var q := Signed(if (n < 0) != (d < 0) then Negated(uq) else uq, W64);
            && Int64(q) && (q == Quotient(n, d) <==> !(n == -W64 / 2 && d == -1))
            && (n == -W64 / 2 && d == -1 ==> q == n)
  {
    hide Negated, Magnitude64;
    var a, b := Abs(n), Abs(d);
    MagnitudeIs(n);
    MagnitudeIs(d);
    QuotientBound(a, b);
    NegatedIs(uq);
  }

  lemma QuotientBound(a: nat, b: nat)
    requires b > 0
    ensures a / b <= a && (b >= 2 ==> 2 * (a / b) <= a) && (b == 1 ==> a / b == a)
  {
    Parts(a, b);
    var q := a / b;
    MulMono(1, b, q);
    if b >= 2 {
      MulMono(2, b, q);
    }
  }

  /** __moddi3. */
  method ModSigned(n: int, d: int) returns (ok: bool, r: int)
    requires Int64(n) && Int64(d)
    ensures ok <==> d != 0
    ensures ok ==> r == Remainder(n, d)
  {
    hide Remainder;
    var uq, ur;
    ok, uq, ur := UDivMod(Magnitude64(n), Magnitude64(d));
    if ok {
      SignedRemainder(n, d, ur);
      r := Signed(if n < 0 then Negated(ur) else ur, W64);
    } else {
      r := 0;
    }
  }

  lemma SignedRemainder(n: int, d: int, ur: nat)
    requires Int64(n) && Int64(d) && d != 0 && Magnitude64(d) > 0 && ur == Magnitude64(n) % Magnitude64(d)
    ensures ur < W64
    ensures Signed(if n < 0 then Negated(ur) else ur, W64) == Remainder(n, d)
  {
    hide Negated, Magnitude64;
    MagnitudeIs(n);
    MagnitudeIs(d);
    Parts(Abs(n), Abs(d));
    NegatedIs(ur);
  }
}

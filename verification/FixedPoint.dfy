/**
 The calculator's arithmetic (desktop/apps/calc.c): fixed-point numbers of six decimals in 64-bit integers.
 A result is the true one, rounded half away from zero, whenever that is within the limit.
 */
module FixedPoint {
  import opened Arithmetic

  const SCALE := 1_000_000
  const LIMIT := 99_999_999_999_999_999
  const WHOLE := 99_999_999_999 // LIMIT / SCALE
  const W64 := 0x1_0000_0000_0000_0000

  predicate Within(v: int)
  {
    -LIMIT <= v <= LIMIT
  }

  function Abs(v: int): (u: nat)
  {
    if v < 0 then -v else v
  }

  /** n / d, rounded to the nearest integer, halves away from zero. */
  function Rounded(n: int, d: int): int
    requires d != 0
  {
    var r := (2 * Abs(n) + Abs(d)) / (2 * Abs(d));
    if (n < 0) != (d < 0) then -r else r
  }

  /** That it is the nearest: no more than half of d away. */
  lemma RoundedNearest(n: int, d: int)
    requires d != 0
    ensures 2 * Abs(n - Rounded(n, d) * d) <= Abs(d)
  {
    var a, b := Abs(n), Abs(d);
    var r := (2 * a + b) / (2 * b);
    NearestOf(a, b, r);
    SignedTimes(n, d, r);
  }

  lemma NearestOf(a: nat, b: nat, r: int)
    requires b > 0 && r == (2 * a + b) / (2 * b)
    ensures 0 - b <= 2 * (a - r * b) <= b
  {
    Parts(2 * a + b, 2 * b);
    assert r * (2 * b) == 2 * (r * b);
  }

  lemma SignedTimes(n: int, d: int, r: int)
    ensures (if (n < 0) != (d < 0) then -r else r) * d == if n < 0 then -(r * Abs(d)) else r * Abs(d)
  {
    Signs(r, d);
  }

  lemma Parts(a: int, b: int)
    requires b > 0
    ensures a == a / b * b + a % b && 0 <= a % b < b
  {
  }

  lemma Signs(r: int, d: int)
    ensures (-r) * d == -(r * d) && r * (-d) == -(r * d)
  {
  }

  // ----- adding -----

  method Add(a: int, b: int) returns (ok: bool, out: int)
    requires Within(a) && Within(b)
    ensures ok <==> Within(a + b)
    ensures out == a + b && -W64 / 2 <= out < W64 / 2
  {
    out := a + b;
    ok := -LIMIT <= out <= LIMIT;
  }

  // ----- multiplying -----

  method Mul(a: int, b: int) returns (ok: bool, out: int)
    requires Within(a) && Within(b)
    ensures ok <==> Within(Rounded(a * b, SCALE))
    ensures ok ==> out == Rounded(a * b, SCALE)
  {
    hide Rounded;
    var negative := (a < 0) != (b < 0);
    var ua, ub := Abs(a), Abs(b);
    var ai, af, bi, bf := ua / SCALE, ua % SCALE, ub / SCALE, ub % SCALE;
    Split(ua);
    Split(ub);
    MulParts(ai, af, bi, bf);
    RoundedProduct(a, b, ai, af, bi, bf);
    if ai != 0 && bi != 0 && ai > WHOLE / bi {
      TooLarge(ai, bi, WHOLE);
      Bulk(ai, af, bi, bf);
      return false, 0;
    }
    NotTooLarge(ai, bi, WHOLE);
    NoWrap(ai, af, bi, bf);
    var r := ai * bi * SCALE + ai * bf + af * bi + (af * bf + SCALE / 2) / SCALE;
    assert r < W64;
    if r > LIMIT {
      return false, 0;
    }
    return true, if negative then -r else r;
  }

  lemma Split(u: nat)
    ensures u == u / SCALE * SCALE + u % SCALE && 0 <= u % SCALE < SCALE && (u <= LIMIT ==> u / SCALE <= WHOLE)
  {
  }

  /** The rounded product, by parts. */
  function Product(ai: nat, af: nat, bi: nat, bf: nat): int
  {
    ai * bi * SCALE + ai * bf + af * bi + (af * bf + SCALE / 2) / SCALE
  }

  lemma MulParts(ai: nat, af: nat, bi: nat, bf: nat)
    ensures var p := (ai * SCALE + af) * (bi * SCALE + bf);
            (2 * p + SCALE) / (2 * SCALE) == Product(ai, af, bi, bf)
  {
    var p := (ai * SCALE + af) * (bi * SCALE + bf);
    var k := ai * bi * SCALE + ai * bf + af * bi;
    assert p == k * SCALE + af * bf by { Expand(ai, af, bi, bf, SCALE); }
    var x := af * bf + SCALE / 2;
    assert 2 * p + SCALE == 2 * x + k * (2 * SCALE);
    DivModAdd(2 * x, k, 2 * SCALE);
    HalfDiv(x, SCALE);
  }

  lemma Expand(a: nat, b: nat, c: nat, d: nat, s: nat)
    ensures (a * s + b) * (c * s + d) == (a * c * s + a * d + b * c) * s + b * d
  {
  }

  lemma HalfDiv(x: int, s: nat)
    requires s > 0
    ensures 2 * x / (2 * s) == x / s
  {
    Parts(x, s);
    DivUnique(2 * x, 2 * s, x / s, 2 * (x % s));
  }

  lemma RoundedProduct(a: int, b: int, ai: nat, af: nat, bi: nat, bf: nat)
    requires Abs(a) == ai * SCALE + af && Abs(b) == bi * SCALE + bf
    ensures Abs(Rounded(a * b, SCALE)) == Product(ai, af, bi, bf) >= 0
    ensures Rounded(a * b, SCALE) == if (a < 0) != (b < 0) then -Product(ai, af, bi, bf) else Product(ai, af, bi, bf)
  {
    MulParts(ai, af, bi, bf);
    AbsProduct(a, b);
    Positive(ai, af, bi, bf);
  }

  lemma AbsProduct(a: int, b: int)
    ensures Abs(a * b) == Abs(a) * Abs(b)
    ensures a * b < 0 <==> (a < 0) != (b < 0) && a != 0 && b != 0
  {
    Signs(Abs(a), Abs(b));
    MulMono(0, Abs(a), Abs(b));
    if a != 0 && b != 0 {
      MulMono(1, Abs(a), Abs(b));
    }
  }

  lemma Positive(ai: nat, af: nat, bi: nat, bf: nat)
    ensures Product(ai, af, bi, bf) >= 0
            && ((ai == 0 && af == 0) || (bi == 0 && bf == 0) ==> Product(ai, af, bi, bf) == 0)
  {
    MulMono(0, ai, bi);
    MulMono(0, ai * bi, SCALE);
    MulMono(0, ai, bf);
    MulMono(0, af, bi);
    MulMono(0, af, bf);
  }

  lemma TooLarge(x: nat, y: nat, w: nat)
    requires y > 0 && x > w / y
    ensures x * y > w
  {
    Parts(w, y);
    MulMono(w / y + 1, x, y);
  }

  lemma NotTooLarge(x: nat, y: nat, w: nat)
    ensures x == 0 || y == 0 || x <= w / y ==> x * y <= w
  {
    if y > 0 && x <= w / y {
      Parts(w, y);
      MulMono(x, w / y, y);
    }
  }

  lemma Bulk(ai: nat, af: nat, bi: nat, bf: nat)
    requires ai * bi > WHOLE
    ensures Product(ai, af, bi, bf) > LIMIT
  {
    MulMono(WHOLE + 1, ai * bi, SCALE);
    MulMono(0, ai, bf);
    MulMono(0, af, bi);
    MulMono(0, af, bf);
  }

  /** Nothing wraps around in 64 bits. */
  lemma NoWrap(ai: nat, af: nat, bi: nat, bf: nat)
    requires ai <= WHOLE && bi <= WHOLE && af < SCALE && bf < SCALE && ai * bi <= WHOLE
    ensures 0 <= Product(ai, af, bi, bf) < W64
  {
    MulMono(ai * bi, WHOLE, SCALE);
    MulMono(ai, WHOLE, bf);
    MulMono(bf, SCALE, WHOLE);
    MulMono(bi, WHOLE, af);
    MulMono(af, SCALE, WHOLE);
    MulMono(af, SCALE, bf);
    MulMono(bf, SCALE, SCALE);
    Positive(ai, af, bi, bf);
    Commute(ai, af, bi, bf);
  }

  lemma Commute(ai: nat, af: nat, bi: nat, bf: nat)
    ensures af * bi == bi * af && bf * WHOLE == WHOLE * bf && af * WHOLE == WHOLE * af
  {
  }

  // ----- dividing -----

  method Divide(a: int, b: int) returns (ok: bool, out: int)
    requires Within(a) && Within(b) && b != 0
    ensures ok <==> Within(Rounded(a * SCALE, b))
    ensures ok ==> out == Rounded(a * SCALE, b)
  {
    hide Rounded;
    var negative := (a < 0) != (b < 0);
    var v;
    ok, v := DivideMagnitude(Abs(a), Abs(b));
    RoundedIs(a, b);
    return ok, if negative then -v else v;
  }

  /** The rounded quotient of magnitudes. */
  function Nearest(ua: nat, ub: nat): int
    requires ub > 0
  {
    (2 * (ua * SCALE) + ub) / (2 * ub)
  }

  lemma RoundedIs(a: int, b: int)
    requires b != 0
    ensures Rounded(a * SCALE, b) == if (a < 0) != (b < 0) then -Nearest(Abs(a), Abs(b)) else Nearest(Abs(a), Abs(b))
    ensures Nearest(Abs(a), Abs(b)) >= 0
  {
    assert Abs(a * SCALE) == Abs(a) * SCALE;
    Quotients(2 * (Abs(a) * SCALE) + Abs(b), 2 * Abs(b));
  }

  method DivideMagnitude(ua: nat, ub: nat) returns (ok: bool, v: int)
    requires ua <= LIMIT && 0 < ub <= LIMIT
    ensures ok <==> Nearest(ua, ub) <= LIMIT
    ensures ok ==> v == Nearest(ua, ub)
  {
    hide Nearest, Divided, Five;
    var q, r0 := ua / ub, ua % ub;
    Halves(ua, ub);
    if q > WHOLE {
      TooFar(ua, ub);
      return false, 0;
    }
    var frac, r := LongDivision(r0, ub);
    NearestIs(ua, ub, frac, r);
    if Five(r, ub) {
      frac := frac + 1;
    }
    v := q * SCALE + frac;
    assert v < W64;
    if v > LIMIT {
      return false, 0;
    }
    ok := true;
  }

  /** The next digit is five or more. */
  predicate Five(r: nat, d: nat)
    requires d > 0
  {
    r * 10 / d >= 5
  }

  lemma Halves(ua: nat, ub: nat)
    requires ub > 0
    ensures ua / ub >= 0 && 0 <= ua % ub < ub
  {
  }

  /** frac and r are the decimals of r0 / d, and the rest. */
  ghost predicate Divided(r0: nat, d: nat, frac: nat, r: nat)
  {
    r0 * SCALE == frac * d + r && r < d
  }

  lemma NearestIs(ua: nat, ub: nat, frac: nat, r: nat)
    requires ub > 0 && ua % ub >= 0 && Divided(ua % ub, ub, frac, r)
    ensures Nearest(ua, ub) == ua / ub * SCALE + frac + if Five(r, ub) then 1 else 0
  {
    Parts(ua, ub);
    Halves(ua, ub);
    Regrouped(ua / ub, ub, ua % ub, frac, r);
    MulMono(0, ua / ub, SCALE);
    RoundParts(ua / ub * SCALE + frac, ub, r);
    HalfUp(r, ub);
  }

  lemma TooFar(ua: nat, ub: nat)
    requires ub > 0 && ua / ub > WHOLE
    ensures Nearest(ua, ub) > LIMIT
  {
    hide Nearest, Five;
    Halves(ua, ub);
    Parts(ua % ub * SCALE, ub);
    Quotients(ua % ub * SCALE, ub);
    NearestIs(ua, ub, ua % ub * SCALE / ub, ua % ub * SCALE % ub);
  }

  lemma Quotients(a: nat, b: nat)
    requires b > 0
    ensures a / b >= 0
  {
  }

  function Ten(n: nat): (t: nat)
    ensures t > 0
  {
    if n == 0 then 1 else 10 * Ten(n - 1)
  }

  lemma TenSix()
    ensures Ten(0) == 1 && Ten(6) == SCALE
  {
    assert Ten(6) == 10 * Ten(5) && Ten(5) == 10 * Ten(4) && Ten(4) == 10 * Ten(3);
    assert Ten(3) == 10 * Ten(2) && Ten(2) == 10 * Ten(1) && Ten(1) == 10 * Ten(0);
  }

  lemma TenMore(n: nat)
    ensures Ten(n + 1) == 10 * Ten(n)
  {
  }

  /** Six decimals of r0 / d, a digit at a time. */
  method LongDivision(r0: nat, d: nat) returns (frac: nat, r: nat)
    requires r0 < d <= LIMIT
    ensures Divided(r0, d, frac, r) && frac < SCALE
  {
    hide Ten;
    TenSix();
    frac, r := 0, r0;
    var i := 0;
    while i < 6
      invariant 0 <= i <= 6 && r < d && frac < Ten(i) && r0 * Ten(i) == frac * d + r
    {
      TenMore(i);
      assert 10 * r < W64;
      DigitOf(r0, d, frac, r, Ten(i));
      frac, r := 10 * frac + 10 * r / d, 10 * r % d;
      i := i + 1;
    }
  }

  lemma DigitOf(r0: nat, d: nat, frac: nat, r: nat, t: nat)
    requires r < d && r0 * t == frac * d + r && frac < t
    ensures r0 * (10 * t) == (10 * frac + 10 * r / d) * d + 10 * r % d && 0 <= 10 * r % d < d
    ensures 0 <= 10 * frac + 10 * r / d < 10 * t
  {
    Parts(10 * r, d);
    assert r0 * (10 * t) == 10 * (r0 * t);
    assert (10 * frac + 10 * r / d) * d == 10 * (frac * d) + 10 * r / d * d;
    if 10 * r / d >= 10 {
      MulMono(10, 10 * r / d, d);
    }
    if 10 * r / d < 0 {
      MulMono(10 * r / d, -1, d);
    }
  }

  /** The next digit is five or more exactly when the rest is half or more. */
  lemma HalfUp(r: nat, d: nat)
    requires r < d
    ensures r * 10 / d >= 5 <==> 2 * r >= d
  {
    Parts(r * 10, d);
    var k := r * 10 / d;
    if k >= 5 {
      MulMono(5, k, d);
    } else {
      MulMono(k, 4, d);
    }
  }

  lemma Regrouped(q: nat, d: nat, r0: nat, frac: nat, r: nat)
    requires r0 * SCALE == frac * d + r
    ensures (q * d + r0) * SCALE == (q * SCALE + frac) * d + r
  {
    assert (q * d) * SCALE == (q * SCALE) * d;
    assert (q * SCALE + frac) * d == (q * SCALE) * d + frac * d;
  }

  lemma RoundParts(x: nat, d: nat, r: nat)
    requires r < d
    ensures (2 * (x * d + r) + d) / (2 * d) == x + if 2 * r >= d then 1 else 0
  {
    if 2 * r >= d {
      assert (x + 1) * (2 * d) == 2 * (x * d) + 2 * d;
      DivUnique(2 * (x * d + r) + d, 2 * d, x + 1, 2 * r - d);
    } else {
      assert x * (2 * d) == 2 * (x * d);
      DivUnique(2 * (x * d + r) + d, 2 * d, x, 2 * r + d);
    }
  }
}

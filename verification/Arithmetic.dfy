/**
 Division, multiplication and powers of two: the facts about them that the models
 of fixed-width machine arithmetic need and the solver does not find alone.
 */
module Arithmetic {

  lemma MulMono(a: int, b: int, m: int)
    requires a <= b && 0 <= m
    ensures a * m <= b * m
  {
  }

  lemma MulAtLeast(d: int, m: int)
    requires m > 0
    ensures d >= 1 ==> d * m >= m
    ensures d <= -1 ==> d * m <= -m
  {
    if d >= 1 {
      MulMono(1, d, m);
    } else if d <= -1 {
      MulMono(d, -1, m);
    }
  }

  /** Quotient and remainder are the only pair with 0 <= r < m. */
  lemma DivUnique(v: int, m: int, q: int, r: int)
    requires 0 <= r < m && v == q * m + r
    ensures v / m == q && v % m == r
  {
    var d := v / m - q;
    assert v == (v / m) * m + v % m;
    assert d * m == (v / m) * m - q * m;
    MulAtLeast(d, m);
  }

  lemma Regroup(q: int, b: int, r: int, a: int, s: int)
    ensures (q * b + r) * a + s == q * (a * b) + (r * a + s)
  {
  }

  /** Division by a product, one factor at a time. */
  lemma DivModMul(v: int, a: int, b: int)
    requires a > 0 && b > 0
    ensures a * b > 0 && v / (a * b) == v / a / b && v % (a * b) == (v / a % b) * a + v % a
  {
    var va := v / a;
    var q, r, s := va / b, va % b, v % a;
    assert va == q * b + r;
    assert v == va * a + s;
    Regroup(q, b, r, a, s);
    assert 0 <= r * a + s < a * b by {
      MulMono(0, r, a);
      MulMono(r + 1, b, a);
      assert (r + 1) * a == r * a + a;
    }
    DivUnique(v, a * b, q, r * a + s);
  }

  /** Adding a multiple of the modulus changes the quotient only. */
  lemma DivModAdd(v: int, k: int, m: int)
    requires m > 0
    ensures (v + k * m) / m == v / m + k && (v + k * m) % m == v % m
  {
    assert v == (v / m) * m + v % m;
    assert (v / m + k) * m == (v / m) * m + k * m;
    DivUnique(v + k * m, m, v / m + k, v % m);
  }

  function Pow2(n: nat): (p: nat)
    ensures p > 0
  {
    if n == 0 then 1 else 2 * Pow2(n - 1)
  }

  lemma DoubledProduct(p: nat, q: nat)
    ensures 2 * (p * q) == (2 * p) * q
  {
  }

  lemma {:induction false} Pow2Add(a: nat, b: nat)
    ensures Pow2(a + b) == Pow2(a) * Pow2(b)
  {
    if a > 0 {
      var p, q := Pow2(a - 1), Pow2(b);
      assert Pow2(a) == 2 * p && Pow2(a + b) == 2 * Pow2(a + b - 1);
      hide Pow2;
      Pow2Add(a - 1, b);
      DoubledProduct(p, q);
    }
  }

  lemma {:induction false} Pow2Mono(a: nat, b: nat)
    requires a <= b
    ensures Pow2(a) <= Pow2(b)
  {
    if a < b {
      Pow2Mono(a, b - 1);
    }
  }

  lemma {:induction false} Pow2Quad(n: nat)
    ensures Pow2(n + 4) == 16 * Pow2(n)
  {
    assert Pow2(n + 4) == 2 * Pow2(n + 3) == 4 * Pow2(n + 2) == 8 * Pow2(n + 1);
  }

  lemma Pow2Words()
    ensures Pow2(8) == 0x100 && Pow2(16) == 0x1_0000 && Pow2(32) == 0x1_0000_0000
    ensures Pow2(64) == 0x1_0000_0000_0000_0000
  {
    assert Pow2(0) == 1;
    hide Pow2;
    Pow2Quad(0);
    Pow2Quad(4);
    Pow2Quad(8);
    Pow2Quad(12);
    Pow2Quad(16);
    Pow2Quad(20);
    Pow2Quad(24);
    Pow2Quad(28);
    Pow2Quad(32);
    Pow2Quad(36);
    Pow2Quad(40);
    Pow2Quad(44);
    Pow2Quad(48);
    Pow2Quad(52);
    Pow2Quad(56);
    Pow2Quad(60);
  }
}

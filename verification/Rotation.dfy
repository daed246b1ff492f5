/**
 Rotating and shifting numbers of a given width, as arithmetic: what the CPU's bit-at-a-time loops come to.
 */
module Rotation {
  import opened Arithmetic

  /** x cut in two, below p and above, and the parts the other way round. */
  function Swap(x: nat, p: nat, q: nat): int
    requires p > 0
  {
    x % p * q + x / p
  }

  /** x, of w bits, rotated left by n. */
  function Rotl(x: nat, n: nat, w: nat): int
    requires n <= w
  {
    Swap(x, Pow2(w - n), Pow2(n))
  }

  function Rotr(x: nat, n: nat, w: nat): int
    requires n <= w
  {
    Rotl(x, w - n, w)
  }

  lemma SwapParts(x: nat, p: nat, q: nat, a: nat, b: nat)
    requires a < q && b < p && x == a * p + b
    ensures Swap(x, p, q) == b * q + a && x < q * p && b * q + a < q * p
  {
    DivUnique(x, p, a, b);
    MulMono(a + 1, q, p);
    MulMono(b + 1, p, q);
    assert p * q == q * p;
  }

  lemma RotlParts(x: nat, n: nat, w: nat, a: nat, b: nat)
    requires n <= w && a < Pow2(n) && b < Pow2(w - n) && x == a * Pow2(w - n) + b
    ensures Rotl(x, n, w) == b * Pow2(n) + a && x < Pow2(w) && 0 <= Rotl(x, n, w) < Pow2(w)
  {
    hide Swap, Pow2;
    SwapParts(x, Pow2(w - n), Pow2(n), a, b);
    Pow2Add(n, w - n);
  }

  lemma CutAt(x: nat, p: nat, q: nat) returns (a: nat, b: nat)
    requires p > 0 && x < q * p
    ensures a < q && b < p && x == a * p + b
  {
    a, b := x / p, x % p;
    assert x == a * p + b;
    if a >= q {
      MulMono(q, a, p);
    }
  }

  lemma Cut(x: nat, n: nat, w: nat) returns (a: nat, b: nat)
    requires n <= w && x < Pow2(w)
    ensures a < Pow2(n) && b < Pow2(w - n) && x == a * Pow2(w - n) + b
  {
    hide Pow2;
    Pow2Add(n, w - n);
    a, b := CutAt(x, Pow2(w - n), Pow2(n));
  }

  /** Rotating left and then right by as much gives the number back. */
  lemma RotateUndone(x: nat, n: nat, w: nat)
    requires n <= w && x < Pow2(w)
    ensures 0 <= Rotl(x, n, w) < Pow2(w) && Rotr(Rotl(x, n, w), n, w) == x
    ensures 0 <= Rotr(x, n, w) < Pow2(w) && Rotl(Rotr(x, n, w), n, w) == x
  {
    hide Rotl, Pow2;
    var a, b := Cut(x, n, w);
    RotlParts(x, n, w, a, b);
    RotlParts(Rotl(x, n, w), w - n, w, b, a);
    a, b := Cut(x, w - n, w);
    RotlParts(x, w - n, w, a, b);
    RotlParts(Rotl(x, w - n, w), n, w, b, a);
  }

  /** One bit more. */
  lemma RotlMore(x: nat, n: nat, w: nat)
    requires n < w && x < Pow2(w)
    ensures 0 <= Rotl(x, n, w) < Pow2(w) && Rotl(Rotl(x, n, w), 1, w) == Rotl(x, n + 1, w)
  {
    hide Rotl, Pow2;
    var a, b := Cut(x, n, w);
    var b1, b0 := Cut(b, 1, w - n);
    Twice(n);
    Twice(w - n - 1);
    RotlParts(x, n, w, a, b);
    Regroup1(a, b1, Pow2(w - n - 1), b0);
    RotlParts(x, n + 1, w, 2 * a + b1, b0);
    Pow2Add(w - n - 1, n);
    Regroup2(b1, b0, Pow2(w - n - 1), Pow2(n), a);
    LowPart(b0, Pow2(w - n - 1), Pow2(n), a);
    RotlParts(Rotl(x, n, w), 1, w, b1, b0 * Pow2(n) + a);
    Regroup3(b0, Pow2(n), a, b1);
  }

  lemma Regroup1(a: nat, b1: nat, m: nat, b0: nat)
    ensures a * (2 * m) + (b1 * m + b0) == (2 * a + b1) * m + b0
  {
  }

  lemma Regroup2(b1: nat, b0: nat, m: nat, p: nat, a: nat)
    ensures (b1 * m + b0) * p + a == b1 * (m * p) + (b0 * p + a)
  {
    assert (b1 * m) * p == b1 * (m * p);
  }

  lemma Regroup3(b0: nat, p: nat, a: nat, b1: nat)
    ensures (b0 * p + a) * 2 + b1 == b0 * (2 * p) + (2 * a + b1)
  {
  }

  lemma LowPart(b0: nat, m: nat, p: nat, a: nat)
    requires b0 < m && a < p
    ensures b0 * p + a < m * p
  {
    MulMono(b0 + 1, m, p);
  }

  lemma Twice(n: nat)
    ensures Pow2(0) == 1 && Pow2(1) == 2 && Pow2(n + 1) == 2 * Pow2(n)
  {
  }

  lemma RotlWhole(x: nat, w: nat)
    requires x < Pow2(w)
    ensures Rotl(x, 0, w) == x && Rotl(x, w, w) == x
  {
    hide Rotl, Pow2;
    Twice(0);
    RotlParts(x, 0, w, 0, x);
    RotlParts(x, w, w, x, 0);
  }

  lemma RotrMore(x: nat, n: nat, w: nat)
    requires n < w && x < Pow2(w)
    ensures 0 <= Rotr(x, n, w) < Pow2(w) && Rotr(Rotr(x, n, w), 1, w) == Rotr(x, n + 1, w)
  {
    hide Rotl, Pow2;
    var a, b := Cut(x, w - n, w);
    var a1, a0 := Cut(a, w - n - 1, w - n);
    Twice(n);
    Twice(w - n - 1);
    var p, m := Pow2(n), Pow2(w - n - 1);
    RotlParts(x, w - n, w, a, b);
    Regroup4(a1, a0, p, b);
    LowPart(a0, 2, p, b);
    RotlParts(x, w - n - 1, w, a1, a0 * p + b);
    Pow2Add(n, w - n - 1);
    Regroup3(b, m, a1, a0);
    LowPart(b, p, m, a1);
    RotlParts(Rotl(x, w - n, w), w - 1, w, b * m + a1, a0);
    Regroup2(a0, b, p, m, a1);
  }

  lemma Regroup4(a1: nat, a0: nat, p: nat, b: nat)
    ensures (a1 * 2 + a0) * p + b == a1 * (2 * p) + (a0 * p + b)
  {
  }

  // ----- shifting -----

  /** What a shift left by n leaves, and the last bit it drops; and one bit more. */
  lemma ShiftLeftMore(v: nat, n: nat, w: nat)
    requires w > 0
    ensures var m, s := Pow2(w), Pow2(w - 1);
            var r := v * Pow2(n) % m;
            && r < m && 2 * r % m == v * Pow2(n + 1) % m
            && (r >= s <==> v * Pow2(n + 1) / m % 2 == 1)
  {
    hide Pow2;
    Twice(n);
    Twice(w - 1);
    assert v * (2 * Pow2(n)) == 2 * (v * Pow2(n));
    Doubling(v * Pow2(n), Pow2(w), Pow2(w - 1));
  }

  lemma Doubling(x: nat, m: nat, s: nat)
    requires m == 2 * s && s > 0
    ensures var r := x % m; 2 * r % m == 2 * x % m && (r >= s <==> 2 * x / m % 2 == 1)
  {
    var q, r := x / m, x % m;
    assert x == q * m + r;
    assert 2 * x == 2 * r + (2 * q) * m by { assert 2 * (q * m) == (2 * q) * m; }
    DivModAdd(2 * r, 2 * q, m);
    if r >= s {
      DivUnique(2 * r, m, 1, 2 * r - m);
    } else {
      DivUnique(2 * r, m, 0, 2 * r);
    }
  }

  /** A shift right, and one bit more. */
  lemma ShiftRightMore(v: int, n: nat)
    ensures v / Pow2(n) / 2 == v / Pow2(n + 1)
  {
    hide Pow2;
    Twice(n);
    DivModMul(v, Pow2(n), 2);
  }
}

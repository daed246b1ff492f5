/**
 The shifts and rotates of the interpreted CPU (userland/dosrun/cpu.c): loops of one bit at a time, and
 what they come to for every width, value, carry and count.
 */
module Shift {
  import opened Arithmetic
  import opened Rotation

  datatype Op = Rol | Ror | Rcl | Rcr | Shl | Shr | Unused | Sar

  // ----- numbers of w bits -----

  predicate Negative(r: int, w: nat)
    requires w > 0
  {
    r >= Pow2(w - 1)
  }

  function Signed(u: int, w: nat): int
    requires w > 0
  {
    if Negative(u, w) then u - Pow2(w) else u
  }

  function Unsigned(x: int, w: nat): int
  {
    if x < 0 then x + Pow2(w) else x
  }

  function Ones(v: nat): nat
  {
    if v == 0 then 0 else v % 2 + Ones(v / 2)
  }

  // ----- one step -----

  /** What one turn of the loop does to the value and the carry. */
  function Turn(op: Op, r: nat, cf: bool, w: nat): (int, bool)
    requires w > 0
  {
    var m, s := Pow2(w), Pow2(w - 1);
    match op
    case Rol => ((2 * r) % m + r / s, r >= s)
    case Ror => (r / 2 + (if r % 2 == 1 then s else 0), r % 2 == 1)
    case Rcl => ((2 * r) % m + (if cf then 1 else 0), r >= s)
    case Rcr => (r / 2 + (if cf then s else 0), r % 2 == 1)
    case Shl => ((2 * r) % m, r >= s)
    case Shr => (r / 2, r % 2 == 1)
    case Unused => (r, cf)
    case Sar => (r / 2 + (if r >= s then s else 0), r % 2 == 1)
  }

  // ----- what they come to -----

  /** The value with the carry above it. */
  function Ring(v: nat, cf: bool, w: nat): nat
  {
    v + if cf then Pow2(w) else 0
  }

  ghost function Value(op: Op, v: nat, cf: bool, n: nat, w: nat): int
    requires w > 0 && n <= 32 && ((op.Rcl? || op.Rcr?) ==> n <= w + 1)
  {
    match op
    case Rol => Rotl(v, n % w, w)
    case Ror => Rotr(v, n % w, w)
    case Rcl => Rotl(Ring(v, cf, w), n, w + 1) % Pow2(w)
    case Rcr => Rotr(Ring(v, cf, w), n, w + 1) % Pow2(w)
    case Shl => v * Pow2(n) % Pow2(w)
    case Shr => v / Pow2(n)
    case Unused => v
    case Sar => Unsigned(Signed(v, w) / Pow2(n), w)
  }

  ghost function Carry(op: Op, v: nat, cf: bool, n: nat, w: nat): bool
    requires w > 0 && n <= 32 && ((op.Rcl? || op.Rcr?) ==> n <= w + 1)
  {
    if n == 0 then cf
    else match op
      case Rol => Value(op, v, cf, n, w) % 2 == 1
      case Ror => Negative(Value(op, v, cf, n, w), w)
      case Rcl => Rotl(Ring(v, cf, w), n, w + 1) / Pow2(w) == 1
      case Rcr => Rotr(Ring(v, cf, w), n, w + 1) / Pow2(w) == 1
      case Shl => v * Pow2(n) / Pow2(w) % 2 == 1
      case Shr => v / Pow2(n - 1) % 2 == 1
      case Unused => cf
      case Sar => Signed(v, w) / Pow2(n - 1) % 2 == 1
  }

  // ----- each turn is one bit more -----

  lemma RolTurn(r: nat, w: nat)
    requires w > 0 && r < Pow2(w)
    ensures Turn(Rol, r, false, w).0 == Rotl(r, 1, w) && (r >= Pow2(w - 1) <==> Rotl(r, 1, w) % 2 == 1)
    ensures Turn(Rol, r, true, w) == Turn(Rol, r, false, w)
  {
    hide Pow2, Rotl;
    Twice(w - 1);
    var s := Pow2(w - 1);
    if r >= s {
      TopBit(r, s);
      RotlParts(r, 1, w, 1, r - s);
    } else {
      TopBit(r, s);
      RotlParts(r, 1, w, 0, r);
    }
  }

  lemma TopBit(r: nat, s: nat)
    requires r < 2 * s
    ensures r / s == (if r >= s then 1 else 0) && 2 * r % (2 * s) == (if r >= s then 2 * (r - s) else 2 * r)
    ensures 2 * r / (2 * s) == r / s
  {
    if r >= s {
      DivUnique(r, s, 1, r - s);
      DivUnique(2 * r, 2 * s, 1, 2 * r - 2 * s);
    } else {
      DivUnique(r, s, 0, r);
      DivUnique(2 * r, 2 * s, 0, 2 * r);
    }
  }

  lemma RorTurn(r: nat, w: nat)
    requires w > 0 && r < Pow2(w)
    ensures Turn(Ror, r, false, w).0 == Rotr(r, 1, w) && (r % 2 == 1 <==> Negative(Rotr(r, 1, w), w))
    ensures Turn(Ror, r, true, w) == Turn(Ror, r, false, w)
  {
    hide Pow2, Rotl;
    Twice(w - 1);
    RotlParts(r, w - 1, w, r / 2, r % 2);
  }

  /** The carry and the value turn as one number of a bit more. */
  lemma RclTurn(r: nat, cf: bool, w: nat)
    requires w > 0 && r < Pow2(w)
    ensures var (r', cf') := Turn(Rcl, r, cf, w);
            0 <= r' < Pow2(w) && Ring(r', cf', w) == Rotl(Ring(r, cf, w), 1, w + 1)
  {
    hide Pow2, Rotl;
    Twice(w - 1);
    Twice(w);
    TopBit(r, Pow2(w - 1));
    RotlParts(Ring(r, cf, w), 1, w + 1, if cf then 1 else 0, r);
  }

  lemma RcrTurn(r: nat, cf: bool, w: nat)
    requires w > 0 && r < Pow2(w)
    ensures var (r', cf') := Turn(Rcr, r, cf, w);
            0 <= r' < Pow2(w) && Ring(r', cf', w) == Rotr(Ring(r, cf, w), 1, w + 1)
  {
    hide Pow2, Rotl;
    Twice(w - 1);
    Twice(w);
    var x := Ring(r, cf, w);
    RotlParts(x, w, w + 1, r / 2 + (if cf then Pow2(w - 1) else 0), r % 2);
  }

  lemma RingParts(x: nat, w: nat)
    requires x < Pow2(w + 1)
    ensures x == Ring(x % Pow2(w), x / Pow2(w) == 1, w) && x % Pow2(w) < Pow2(w)
  {
    hide Pow2;
    Twice(w);
    if x >= Pow2(w) {
      DivUnique(x, Pow2(w), 1, x - Pow2(w));
    } else {
      DivUnique(x, Pow2(w), 0, x);
    }
  }

  lemma RingUnique(r: nat, cf: bool, w: nat)
    requires r < Pow2(w)
    ensures Ring(r, cf, w) % Pow2(w) == r && (Ring(r, cf, w) / Pow2(w) == 1 <==> cf) && Ring(r, cf, w) < Pow2(w + 1)
  {
    hide Pow2;
    Twice(w);
    DivUnique(Ring(r, cf, w), Pow2(w), if cf then 1 else 0, r);
  }

  lemma SarTurn(r: nat, w: nat)
    requires w > 0 && r < Pow2(w)
    ensures var (r', cf') := Turn(Sar, r, false, w);
            && 0 <= r' < Pow2(w) && r' == Unsigned(Signed(r, w) / 2, w) && Signed(r', w) == Signed(r, w) / 2
            && (cf' <==> Signed(r, w) % 2 == 1)
    ensures Turn(Sar, r, true, w) == Turn(Sar, r, false, w)
  {
    hide Pow2;
    Twice(w - 1);
    if w > 1 {
      Twice(w - 2);
    }
  }

  // ----- so n turns are n bits -----

  ghost predicate Steppable(op: Op, n: nat, w: nat)
  {
    w > 0 && n <= 32 && ((op.Rcl? || op.Rcr?) ==> n <= w + 1)
  }

  lemma NoTurns(op: Op, v: nat, cf: bool, w: nat)
    requires w > 0 && v < Pow2(w)
    ensures Value(op, v, cf, 0, w) == v && Carry(op, v, cf, 0, w) == cf
  {
    hide Pow2, Rotl;
    Twice(w - 1);
    RotlWhole(v, w);
    RingUnique(v, cf, w);
    RotlWhole(Ring(v, cf, w), w + 1);
    DivUnique(v, Pow2(w), 0, v);
    assert 0 % w == 0;
  }

  lemma RotateMore(v: nat, n: nat, w: nat)
    requires w > 0 && v < Pow2(w)
    ensures var r := Rotl(v, n % w, w); 0 <= r < Pow2(w) && Rotl(r, 1, w) == Rotl(v, (n + 1) % w, w)
    ensures var r := Rotr(v, n % w, w); 0 <= r < Pow2(w) && Rotr(r, 1, w) == Rotr(v, (n + 1) % w, w)
  {
    hide Pow2, Rotl;
    NextMod(n, w);
    RotlMore(v, n % w, w);
    RotrMore(v, n % w, w);
    RotlWhole(v, w);
  }

  lemma NextMod(n: nat, w: nat)
    requires w > 0
    ensures n % w < w && (n + 1) % w == if n % w == w - 1 then 0 else n % w + 1
  {
    var q, r := n / w, n % w;
    assert n == q * w + r;
    if r == w - 1 {
      assert (q + 1) * w == q * w + w;
      DivUnique(n + 1, w, q + 1, 0);
    } else {
      DivUnique(n + 1, w, q, r + 1);
    }
  }

  /** Each turn takes the closed form of n to that of n + 1. */
  lemma TurnIs(op: Op, v: nat, cf: bool, n: nat, w: nat)
    requires Steppable(op, n + 1, w) && v < Pow2(w)
    ensures 0 <= Value(op, v, cf, n, w) < Pow2(w)
    ensures Turn(op, Value(op, v, cf, n, w), Carry(op, v, cf, n, w), w)
            == (Value(op, v, cf, n + 1, w), Carry(op, v, cf, n + 1, w))
  {
    match op
    case Rol => RolIs(v, cf, n, w);
    case Ror => RorIs(v, cf, n, w);
    case Rcl => RclIs(v, cf, n, w);
    case Rcr => RcrIs(v, cf, n, w);
    case Shl => ShlIs(v, cf, n, w);
    case Shr => ShrIs(v, cf, n, w);
    case Unused =>
    case Sar => SarIs(v, cf, n, w);
  }

  lemma RolIs(v: nat, cf: bool, n: nat, w: nat)
    requires Steppable(Rol, n + 1, w) && v < Pow2(w)
    ensures 0 <= Value(Rol, v, cf, n, w) < Pow2(w)
    ensures Turn(Rol, Value(Rol, v, cf, n, w), Carry(Rol, v, cf, n, w), w)
            == (Value(Rol, v, cf, n + 1, w), Carry(Rol, v, cf, n + 1, w))
  {
    hide Pow2, Rotl;
    RotateMore(v, n, w);
    RolTurn(Rotl(v, n % w, w), w);
  }

  lemma RorIs(v: nat, cf: bool, n: nat, w: nat)
    requires Steppable(Ror, n + 1, w) && v < Pow2(w)
    ensures 0 <= Value(Ror, v, cf, n, w) < Pow2(w)
    ensures Turn(Ror, Value(Ror, v, cf, n, w), Carry(Ror, v, cf, n, w), w)
            == (Value(Ror, v, cf, n + 1, w), Carry(Ror, v, cf, n + 1, w))
  {
    hide Pow2, Rotl;
    RotateMore(v, n, w);
    RorTurn(Rotr(v, n % w, w), w);
  }

  lemma RclIs(v: nat, cf: bool, n: nat, w: nat)
    requires Steppable(Rcl, n + 1, w) && v < Pow2(w)
    ensures 0 <= Value(Rcl, v, cf, n, w) < Pow2(w)
    ensures Turn(Rcl, Value(Rcl, v, cf, n, w), Carry(Rcl, v, cf, n, w), w)
            == (Value(Rcl, v, cf, n + 1, w), Carry(Rcl, v, cf, n + 1, w))
  {
    hide Pow2, Rotl, Turn, Ring;
    var x, r, c := Ring(v, cf, w), Value(Rcl, v, cf, n, w), Carry(Rcl, v, cf, n, w);
    RingUnique(v, cf, w);
    RotlWhole(x, w + 1);
    RotlMore(x, n, w + 1);
    RingParts(Rotl(x, n, w + 1), w);
    RclTurn(r, c, w);
    var t := Turn(Rcl, r, c, w);
    RingUnique(t.0, t.1, w);
  }

  lemma RcrIs(v: nat, cf: bool, n: nat, w: nat)
    requires Steppable(Rcr, n + 1, w) && v < Pow2(w)
    ensures 0 <= Value(Rcr, v, cf, n, w) < Pow2(w)
    ensures Turn(Rcr, Value(Rcr, v, cf, n, w), Carry(Rcr, v, cf, n, w), w)
            == (Value(Rcr, v, cf, n + 1, w), Carry(Rcr, v, cf, n + 1, w))
  {
    hide Pow2, Rotl, Turn, Ring;
    var x, r, c := Ring(v, cf, w), Value(Rcr, v, cf, n, w), Carry(Rcr, v, cf, n, w);
    RingUnique(v, cf, w);
    RotlWhole(x, w + 1);
    RotrMore(x, n, w + 1);
    RingParts(Rotr(x, n, w + 1), w);
    RcrTurn(r, c, w);
    var t := Turn(Rcr, r, c, w);
    RingUnique(t.0, t.1, w);
  }

  lemma ShlIs(v: nat, cf: bool, n: nat, w: nat)
    requires Steppable(Shl, n + 1, w) && v < Pow2(w)
    ensures 0 <= Value(Shl, v, cf, n, w) < Pow2(w)
    ensures Turn(Shl, Value(Shl, v, cf, n, w), Carry(Shl, v, cf, n, w), w)
            == (Value(Shl, v, cf, n + 1, w), Carry(Shl, v, cf, n + 1, w))
  {
    hide Pow2;
    ShiftLeftMore(v, n, w);
  }

  lemma ShrIs(v: nat, cf: bool, n: nat, w: nat)
    requires Steppable(Shr, n + 1, w) && v < Pow2(w)
    ensures 0 <= Value(Shr, v, cf, n, w) < Pow2(w)
    ensures Turn(Shr, Value(Shr, v, cf, n, w), Carry(Shr, v, cf, n, w), w)
            == (Value(Shr, v, cf, n + 1, w), Carry(Shr, v, cf, n + 1, w))
  {
    hide Pow2;
    ShiftRightMore(v, n);
    NoMore(v, Pow2(n));
  }

  lemma NoMore(v: nat, p: nat)
    requires p > 0
    ensures 0 <= v / p <= v
  {
    assert v == v / p * p + v % p;
    MulMono(1, p, v / p);
  }

  lemma SarIs(v: nat, cf: bool, n: nat, w: nat)
    requires Steppable(Sar, n + 1, w) && v < Pow2(w)
    ensures 0 <= Value(Sar, v, cf, n, w) < Pow2(w)
    ensures Turn(Sar, Value(Sar, v, cf, n, w), Carry(Sar, v, cf, n, w), w)
            == (Value(Sar, v, cf, n + 1, w), Carry(Sar, v, cf, n + 1, w))
  {
    hide Pow2, Turn, Signed, Unsigned, Negative;
    var x := Signed(v, w);
    SignedIs(v, w);
    Shrunk(x, Pow2(n), Pow2(w - 1));
    UnsignedIs(x / Pow2(n), w);
    SarTurn(Value(Sar, v, cf, n, w), w);
    ShiftRightMore(x, n);
    SarBit(Value(Sar, v, cf, n, w), w);
  }

  lemma SarBit(r: nat, w: nat)
    requires w > 0
    ensures Turn(Sar, r, true, w) == Turn(Sar, r, false, w)
  {
  }

  lemma SignedIs(v: nat, w: nat)
    requires w > 0 && v < Pow2(w)
    ensures 0 - Pow2(w - 1) <= Signed(v, w) < Pow2(w - 1) && Unsigned(Signed(v, w), w) == v
  {
    hide Pow2;
    Twice(w - 1);
  }

  lemma UnsignedIs(x: int, w: nat)
    requires w > 0 && 0 - Pow2(w - 1) <= x < Pow2(w - 1)
    ensures 0 <= Unsigned(x, w) < Pow2(w) && Signed(Unsigned(x, w), w) == x
  {
    hide Pow2;
    Twice(w - 1);
  }

  lemma Shrunk(x: int, p: nat, s: int)
    requires p > 0 && -s <= x < s
    ensures -s <= x / p < s
  {
    var q := x / p;
    assert x == q * p + x % p && 0 <= x % p < p;
    if q >= 0 {
      MulMono(1, p, q);
    } else {
      MulMono(1, p, -q - 1);
      assert (-q - 1) * p == -(q * p) - p;
    }
  }

  // ----- the instructions -----

  class Cpu {
    var cf: bool
    var pf: bool
    var af: bool
    var zf: bool
    var sf: bool
    var of: bool

    /** SF, ZF and PF of a result. */
    ghost predicate Shows(r: nat, w: nat)
      requires w > 0
      reads this`zf, this`sf, this`pf
    {
      (zf <==> r == 0) && (sf <==> Negative(r, w)) && (pf <==> Ones(r % 256) % 2 == 0)
    }

    method SetFlags(r: nat, w: nat)
      requires w > 0
      modifies this`zf, this`sf, this`pf
      ensures Shows(r, w)
    {
      zf, sf, pf := r == 0, r >= Pow2(w - 1), Ones(r % 256) % 2 == 0;
    }

    /** n turns of the loop. */
    method Turns(op: Op, v: nat, n: nat, w: nat) returns (r: nat)
      requires Steppable(op, n, w) && v < Pow2(w)
      modifies this`cf
      ensures r == Value(op, v, old(cf), n, w) && r < Pow2(w)
      ensures cf == Carry(op, v, old(cf), n, w)
    {
      hide Value, Carry, Turn, Pow2;
      r := v;
      NoTurns(op, v, cf, w);
      var i := 0;
      while i < n
        invariant i <= n && r < Pow2(w) && r == Value(op, v, old(cf), i, w) && cf == Carry(op, v, old(cf), i, w)
      {
        TurnIs(op, v, old(cf), i, w);
        TurnBound(op, r, cf, w);
        var t := Turn(op, r, cf, w);
        r, cf := t.0, t.1;
        i := i + 1;
      }
    }

    method Shift(op: Op, v: nat, count: nat, w: nat) returns (r: nat)
      requires w == 8 || w == 16 || w == 32
      modifies this
      ensures Steppable(op, Steps(op, count, w), w)
      ensures r == Value(op, v % Pow2(w), old(cf), Steps(op, count, w), w) && r < Pow2(w)
      ensures cf == Carry(op, v % Pow2(w), old(cf), Steps(op, count, w), w)
      ensures if !(op.Rol? || op.Ror? || op.Rcl? || op.Rcr?) && Steps(op, count, w) > 0 then Shows(r, w)
              else zf == old(zf) && sf == old(sf) && pf == old(pf)
      // the overflow flag is set by a change of sign, when the count is one
      ensures of == if count % 32 == 1 then Negative(v % Pow2(w), w) != Negative(r, w) else old(of)
      ensures af == old(af)
    {
      hide Value, Carry, Turn, Pow2, Shows, Negative, Steps;
      r := v % Pow2(w);
      ghost var v0, cf0 := r, cf;
      var n := count % 32;
      var steps := Steps(op, count, w);
      StepsOk(op, count, w);
      NoTurns(op, r, cf, w);
      if steps == 0 {
        return;
      }
      r := Turns(op, r, steps, w);
      if SetsFlags(op) {
        SetFlags(r, w);
      }
      if n == 1 {
        OneTurn(op, v0, cf0, w);
        if op.Rol? || op.Rcl? || op.Shl? {
          of := Negative(r, w) != cf;
        } else if op.Ror? || op.Rcr? {
          of := Negative(r, w) != (r / Pow2(w - 2) % 2 == 1);
        } else {
          of := op.Shr? && v / Pow2(w - 1) % 2 == 1;
          TopOf(v, w);
        }
      }
    }

    /** SHLD and SHRD. */
    method DoubleShift(value: nat, source: nat, count: nat, w: nat, right: bool) returns (r: nat)
      requires (w == 16 || w == 32) && value < Pow2(w) && source < Pow2(w)
      modifies this
      ensures r == DoubleValue(value, source, count % 32, w, right) && r < Pow2(w)
      ensures cf == if count % 32 == 0 then old(cf) else DoubleCarry(value, source, count % 32, w, right)
      ensures if count % 32 > 0 then Shows(r, w) else zf == old(zf) && sf == old(sf) && pf == old(pf)
      ensures of == if count % 32 == 1 then Negative(value, w) != Negative(r, w) else old(of)
      ensures af == old(af)
    {
      hide DoubleValue, DoubleCarry, Pow2, Shows, Left, Right;
      var n := count % 32;
      r := value;
      DoubleStart(value, source, w, right);
      if n == 0 {
        return;
      }
      var s := source;
      var i := 0;
      while i < n
        invariant i <= n && r < Pow2(w) && s < Pow2(w)
        invariant r == DoubleValue(value, source, i, w, right) && s == DoubleRest(value, source, i, w, right)
        invariant i > 0 ==> cf == DoubleCarry(value, source, i, w, right)
        modifies this`cf
      {
        DoubleStep(value, source, i, w, right);
        var t := if right then Right(r, s, w) else Left(r, s, w);
        r, s, cf := t.0, t.1, t.2;
        i := i + 1;
      }
      SetFlags(r, w);
      if n == 1 {
        of := Negative(value, w) != Negative(r, w);
      }
    }
  }

  predicate SetsFlags(op: Op)
  {
    op.Shl? || op.Shr? || op.Unused? || op.Sar?
  }

  /** How many turns: the count is taken modulo 32, and for a rotate through the carry of a narrow operand
      modulo the bits that turn. */
  function Steps(op: Op, count: nat, w: nat): nat
  {
    if (op.Rcl? || op.Rcr?) && w < 32 then count % 32 % (w + 1) else count % 32
  }

  lemma StepsOk(op: Op, count: nat, w: nat)
    requires w == 8 || w == 16 || w == 32
    ensures Steppable(op, Steps(op, count, w), w) && (count % 32 == 1 ==> Steps(op, count, w) == 1)
  {
  }

  lemma TurnBound(op: Op, r: nat, cf: bool, w: nat)
    requires w > 0 && r < Pow2(w)
    ensures 0 <= Turn(op, r, cf, w).0 < Pow2(w)
  {
    hide Pow2;
    Twice(w - 1);
    TopBit(r, Pow2(w - 1));
  }

  lemma TopOf(v: nat, w: nat)
    requires w > 0
    ensures v / Pow2(w - 1) % 2 == 1 <==> Negative(v % Pow2(w), w)
  {
    hide Pow2;
    Twice(w - 1);
    var s := Pow2(w - 1);
    DivModMul(v, s, 2);
    assert v % (s * 2) == (v / s % 2) * s + v % s;
    MulAtLeast(v / s % 2, s);
  }

  /** With one turn, the overflow flag as the CPU computes it is a change of sign. */
  lemma OneTurn(op: Op, v: nat, cf: bool, w: nat)
    requires w >= 2 && v < Pow2(w)
    ensures var r, c := Value(op, v, cf, 1, w), Carry(op, v, cf, 1, w);
            && (op.Rol? || op.Rcl? || op.Shl? ==> c == Negative(v, w))
            && (op.Ror? || op.Rcr? ==> (r / Pow2(w - 2) % 2 == 1 <==> Negative(v, w)))
            && (op.Shr? ==> !Negative(r, w)) && (op.Sar? || op.Unused? ==> Negative(r, w) == Negative(v, w))
  {
    hide Pow2, Value, Carry, Turn, Negative;
    TurnIs(op, v, cf, 0, w);
    NoTurns(op, v, cf, w);
    match op
    case Ror => TurnRight(op, v, cf, w);
    case Rcr => TurnRight(op, v, cf, w);
    case _ => TurnOther(op, v, cf, w);
  }

  lemma TurnRight(op: Op, v: nat, cf: bool, w: nat)
    requires w >= 2 && v < Pow2(w) && (op.Ror? || op.Rcr?)
    ensures Turn(op, v, cf, w).0 / Pow2(w - 2) % 2 == 1 <==> Negative(v, w)
  {
    hide Pow2, Turn;
    Twice(w - 1);
    Twice(w - 2);
    TurnRightIs(op, v, cf, w);
    SecondBit(v, if op.Ror? then v % 2 == 1 else cf, Pow2(w - 2));
  }

  lemma TurnRightIs(op: Op, v: nat, cf: bool, w: nat)
    requires w >= 2 && (op.Ror? || op.Rcr?)
    ensures Turn(op, v, cf, w).0 == v / 2 + if (if op.Ror? then v % 2 == 1 else cf) then Pow2(w - 1) else 0
  {
  }

  lemma TurnOther(op: Op, v: nat, cf: bool, w: nat)
    requires w >= 2 && v < Pow2(w) && !op.Ror? && !op.Rcr?
    ensures var (r, c) := Turn(op, v, cf, w);
            && (op.Rol? || op.Rcl? || op.Shl? ==> c == Negative(v, w))
            && (op.Shr? ==> !Negative(r, w)) && (op.Sar? || op.Unused? ==> Negative(r, w) == Negative(v, w))
  {
    hide Pow2;
    Twice(w - 1);
  }

  lemma SecondBit(v: nat, b: bool, t: nat)
    requires t > 0 && v < 4 * t
    ensures (v / 2 + if b then 2 * t else 0) / t % 2 == 1 <==> v >= 2 * t
  {
    var h := v / 2;
    if h >= t {
      DivUnique(h, t, 1, h - t);
      DivUnique(h + 2 * t, t, 3, h - t);
    } else {
      DivUnique(h, t, 0, h);
      DivUnique(h + 2 * t, t, 2, h);
    }
  }

  // ----- double shifts -----

  /** One turn of SHLD, and of SHRD: the value, the source and the carry. */
  function Left(r: nat, s: nat, w: nat): (int, int, bool)
    requires w > 0
  {
    var m, sign := Pow2(w), Pow2(w - 1);
    ((2 * r) % m + (if s >= sign then 1 else 0), (2 * s) % m, r >= sign)
  }

  function Right(r: nat, s: nat, w: nat): (int, int, bool)
    requires w > 0
  {
    (r / 2 + (if s % 2 == 1 then Pow2(w - 1) else 0), s / 2, r % 2 == 1)
  }

  /** The value and the source as one number of twice the width: the source comes in from its side. */
  function Double(value: nat, source: nat, w: nat, right: bool): int
  {
    if right then source * Pow2(w) + value else value * Pow2(w) + source
  }

  /** That number shifted by n. */
  ghost function Slid(value: nat, source: nat, n: nat, w: nat, right: bool): int
  {
    if right then Double(value, source, w, right) / Pow2(n) else Double(value, source, w, right) * Pow2(n) % Pow2(2 * w)
  }

  /** The half of it that the value is in. */
  ghost function DoubleValue(value: nat, source: nat, n: nat, w: nat, right: bool): int
  {
    if right then Slid(value, source, n, w, right) % Pow2(w) else Slid(value, source, n, w, right) / Pow2(w)
  }

  ghost function DoubleRest(value: nat, source: nat, n: nat, w: nat, right: bool): int
  {
    if right then Slid(value, source, n, w, right) / Pow2(w) else Slid(value, source, n, w, right) % Pow2(w)
  }

  /** The last bit that left it. */
  ghost function DoubleCarry(value: nat, source: nat, n: nat, w: nat, right: bool): bool
    requires n > 0
  {
    if right then Double(value, source, w, right) / Pow2(n - 1) % 2 == 1
    else Double(value, source, w, right) * Pow2(n) / Pow2(2 * w) % 2 == 1
  }

  lemma LeftTurn(r: nat, s: nat, w: nat)
    requires w > 0 && r < Pow2(w) && s < Pow2(w)
    ensures var (r', s', c) := Left(r, s, w);
            var y, m := r * Pow2(w) + s, Pow2(w);
            && 0 <= r' < m && 0 <= s' < m && r' * m + s' == (2 * y) % (m * m) && (c <==> 2 * y >= m * m)
  {
    hide Pow2, Left;
    Twice(w - 1);
    LeftIs(r, s, w);
    DoubleDigits(r, s, Pow2(w), Pow2(w - 1), Left(r, s, w).0, Left(r, s, w).1);
  }

  lemma LeftIs(r: nat, s: nat, w: nat)
    requires w > 0 && r < Pow2(w) && s < Pow2(w)
    ensures var (r', s', c) := Left(r, s, w);
            var h := Pow2(w - 1);
            && r' == (if r >= h then 2 * (r - h) else 2 * r) + (if s >= h then 1 else 0)
            && s' == (if s >= h then 2 * (s - h) else 2 * s) && (c <==> r >= h)
  {
    hide Pow2;
    Twice(w - 1);
    TopBit(r, Pow2(w - 1));
    TopBit(s, Pow2(w - 1));
  }

  lemma DoubleDigits(r: nat, s: nat, m: nat, h: nat, r': int, s': int)
    requires m == 2 * h && r < m && s < m
    requires r' == (if r >= h then 2 * (r - h) else 2 * r) + (if s >= h then 1 else 0)
    requires s' == if s >= h then 2 * (s - h) else 2 * s
    ensures 0 <= r' < m && 0 <= s' < m
    ensures r' * m + s' == (2 * (r * m + s)) % (m * m) && (r >= h <==> 2 * (r * m + s) >= m * m)
  {
    var c, b := if r >= h then 1 else 0, if s >= h then 1 else 0;
    Doubled(c, if r >= h then r - h else r, b, if s >= h then s - h else s, h);
    TwoDigits(r', s', m);
    assert 2 * (r * m + s) == c * (m * m) + (r' * m + s');
    DivUnique(2 * (r * m + s), m * m, c, r' * m + s');
  }

  lemma Doubled(c: nat, r0: nat, b: nat, s0: nat, h: nat)
    requires c <= 1 && b <= 1
    ensures 2 * ((c * h + r0) * (2 * h) + (b * h + s0)) == c * ((2 * h) * (2 * h)) + ((2 * r0 + b) * (2 * h) + 2 * s0)
  {
  }

  /** Two digits to the base m. */
  lemma TwoDigits(a: nat, b: nat, m: nat)
    requires a < m && b < m
    ensures 0 <= a * m + b < m * m && (a * m + b) / m == a && (a * m + b) % m == b
  {
    DivUnique(a * m + b, m, a, b);
    MulMono(a + 1, m, m);
    MulMono(0, a, m);
  }

  lemma SplitDigits(y: int, m: nat)
    requires 0 <= y < m * m
    ensures m > 0 && 0 <= y / m < m && 0 <= y % m < m && y == y / m * m + y % m
  {
    assert y == y / m * m + y % m;
    if y / m >= m {
      MulMono(m, y / m, m);
    }
  }

  lemma RightTurn(r: nat, s: nat, w: nat)
    requires w > 0 && r < Pow2(w) && s < Pow2(w)
    ensures var (r', s', c) := Right(r, s, w);
            var y, m := s * Pow2(w) + r, Pow2(w);
            && 0 <= r' < m && 0 <= s' < m && s' * m + r' == y / 2 && (c <==> y % 2 == 1)
  {
    hide Pow2;
    Twice(w - 1);
    HalfDigits(r, s, Pow2(w), Pow2(w - 1));
  }

  lemma HalfDigits(r: nat, s: nat, m: nat, h: nat)
    requires m == 2 * h && r < m
    ensures var y := s * m + r;
            s / 2 * m + (r / 2 + (if s % 2 == 1 then h else 0)) == y / 2 && (r % 2 == 1 <==> y % 2 == 1)
  {
    var q, b := s / 2, s % 2;
    assert s == 2 * q + b;
    assert s * m == 2 * (q * m) + b * m;
    assert b * m == if b == 1 then 2 * h else 0;
  }

  lemma Digits(x: int, m: nat, a: nat, b: nat)
    requires b < m && x == a * m + b
    ensures x / m == a && x % m == b
  {
    DivUnique(x, m, a, b);
  }

  lemma DoubleStart(value: nat, source: nat, w: nat, right: bool)
    requires w > 0 && value < Pow2(w) && source < Pow2(w)
    ensures DoubleValue(value, source, 0, w, right) == value && DoubleRest(value, source, 0, w, right) == source
  {
    hide Pow2;
    Twice(w);
    Pow2Add(w, w);
    assert w + w == 2 * w;
    TwoDigits(if right then source else value, if right then value else source, Pow2(w));
    var y := Double(value, source, w, right);
    Whole(y, Pow2(w) * Pow2(w));
  }

  lemma Whole(y: int, m: nat)
    requires 0 <= y < m
    ensures y / 1 == y && y * 1 % m == y
  {
    DivUnique(y, m, 0, y);
  }

  /** The state of the loop is the double number, slid. */
  lemma DoubleParts(value: nat, source: nat, n: nat, w: nat, right: bool)
    requires w > 0 && value < Pow2(w) && source < Pow2(w)
    ensures var r, s := DoubleValue(value, source, n, w, right), DoubleRest(value, source, n, w, right);
            && 0 <= r < Pow2(w) && 0 <= s < Pow2(w)
            && Slid(value, source, n, w, right) == if right then s * Pow2(w) + r else r * Pow2(w) + s
  {
    hide Pow2;
    SlidBound(value, source, n, w, right);
    hide Slid;
    SplitDigits(Slid(value, source, n, w, right), Pow2(w));
  }

  lemma SlidBound(value: nat, source: nat, n: nat, w: nat, right: bool)
    requires w > 0 && value < Pow2(w) && source < Pow2(w)
    ensures 0 <= Slid(value, source, n, w, right) < Pow2(w) * Pow2(w) == Pow2(2 * w)
  {
    hide Pow2;
    Pow2Add(w, w);
    assert w + w == 2 * w;
    TwoDigits(if right then source else value, if right then value else source, Pow2(w));
    hide Double;
    if right {
      assert Double(value, source, w, right) >= 0 by { DoubleIs(value, source, w, right); }
      DoubleIs(value, source, w, right);
      NoMore(Double(value, source, w, right), Pow2(n));
    }
  }

  lemma DoubleIs(value: nat, source: nat, w: nat, right: bool)
    ensures Double(value, source, w, right) == if right then source * Pow2(w) + value else value * Pow2(w) + source
  {
  }

  lemma DoubleStep(value: nat, source: nat, n: nat, w: nat, right: bool)
    requires w > 0 && value < Pow2(w) && source < Pow2(w)
    ensures var r, s := DoubleValue(value, source, n, w, right), DoubleRest(value, source, n, w, right);
            && 0 <= r < Pow2(w) && 0 <= s < Pow2(w)
            && var t := if right then Right(r, s, w) else Left(r, s, w);
               && t.0 == DoubleValue(value, source, n + 1, w, right)
               && t.1 == DoubleRest(value, source, n + 1, w, right)
               && t.2 == DoubleCarry(value, source, n + 1, w, right)
               && 0 <= t.0 < Pow2(w) && 0 <= t.1 < Pow2(w)
  {
    var r, s := DoubleValue(value, source, n, w, right), DoubleRest(value, source, n, w, right);
    hide Pow2, DoubleValue, DoubleRest, DoubleCarry, Slid, Left, Right;
    DoubleParts(value, source, n, w, right);
    DoubleParts(value, source, n + 1, w, right);
    if right {
      RightTurn(r, s, w);
      RightStep(value, source, n, w, Right(r, s, w).0, Right(r, s, w).1);
    } else {
      LeftTurn(r, s, w);
      LeftStep(value, source, n, w, Left(r, s, w).0, Left(r, s, w).1);
    }
  }

  lemma RightStep(value: nat, source: nat, n: nat, w: nat, r': int, s': int)
    requires w > 0 && value < Pow2(w) && source < Pow2(w) && 0 <= r' < Pow2(w) && 0 <= s' < Pow2(w)
    requires s' * Pow2(w) + r' == Slid(value, source, n, w, true) / 2
    ensures r' == DoubleValue(value, source, n + 1, w, true) && s' == DoubleRest(value, source, n + 1, w, true)
    ensures DoubleCarry(value, source, n + 1, w, true) <==> Slid(value, source, n, w, true) % 2 == 1
  {
    hide Pow2;
    ShiftRightMore(Double(value, source, w, true), n);
    Digits(s' * Pow2(w) + r', Pow2(w), s', r');
  }

  lemma LeftStep(value: nat, source: nat, n: nat, w: nat, r': int, s': int)
    requires w > 0 && value < Pow2(w) && source < Pow2(w) && 0 <= r' < Pow2(w) && 0 <= s' < Pow2(w)
    requires r' * Pow2(w) + s' == (2 * Slid(value, source, n, w, false)) % (Pow2(w) * Pow2(w))
    ensures r' == DoubleValue(value, source, n + 1, w, false) && s' == DoubleRest(value, source, n + 1, w, false)
    ensures DoubleCarry(value, source, n + 1, w, false) <==> 2 * Slid(value, source, n, w, false) >= Pow2(w) * Pow2(w)
  {
    hide Pow2;
    SlidBound(value, source, n, w, false);
    Twice(2 * w - 1);
    ShiftLeftMore(Double(value, source, w, false), n, 2 * w);
    Digits(r' * Pow2(w) + s', Pow2(w), r', s');
  }

  // ----- what undoes what -----

  /** A rotate through the carry one way, and as far the other way, gives back the value and the carry. */
  lemma RotateThroughCarryUndone(v: nat, cf: bool, n: nat, w: nat)
    requires w > 0 && n <= w + 1 && n <= 32 && v < Pow2(w)
    ensures var r, c := Value(Rcl, v, cf, n, w), Carry(Rcl, v, cf, n, w);
            r >= 0 && Value(Rcr, r, c, n, w) == v && Carry(Rcr, r, c, n, w) == cf
    ensures var r, c := Value(Rcr, v, cf, n, w), Carry(Rcr, v, cf, n, w);
            r >= 0 && Value(Rcl, r, c, n, w) == v && Carry(Rcl, r, c, n, w) == cf
  {
    hide Pow2, Rotl, Ring;
    var x := Ring(v, cf, w);
    RingUnique(v, cf, w);
    RotlWhole(x, w + 1);
    RotateUndone(x, n, w + 1);
    RingParts(Rotl(x, n, w + 1), w);
    RingParts(Rotr(x, n, w + 1), w);
  }

  /** A rotate one way, and as far the other way, gives back the value. */
  lemma RotateValueUndone(v: nat, cf: bool, n: nat, w: nat)
    requires w > 0 && n <= 32 && v < Pow2(w)
    ensures var r := Value(Rol, v, cf, n, w); r >= 0 && Value(Ror, r, Carry(Rol, v, cf, n, w), n, w) == v
    ensures var r := Value(Ror, v, cf, n, w); r >= 0 && Value(Rol, r, Carry(Ror, v, cf, n, w), n, w) == v
  {
    hide Pow2, Rotl;
    NextMod(n, w);
    RotateUndone(v, n % w, w);
  }

  /** Shifts left and right scale by a power of two; the signed one rounds toward minus infinity. */
  lemma ShiftsScale(v: nat, cf: bool, n: nat, w: nat)
    requires w > 0 && n <= 32 && v < Pow2(w)
    ensures v * Pow2(n) < Pow2(w) ==> Value(Shl, v, cf, n, w) == v * Pow2(n)
    ensures Signed(Value(Sar, v, cf, n, w), w) == Signed(v, w) / Pow2(n)
    ensures n > 0 ==> (Carry(Shr, v, cf, n, w) <==> v / Pow2(n - 1) % 2 == 1)
  {
    hide Pow2;
    if v * Pow2(n) < Pow2(w) {
      MulMono(0, v, Pow2(n));
      DivUnique(v * Pow2(n), Pow2(w), 0, v * Pow2(n));
    }
    Twice(w - 1);
    Shrunk(Signed(v, w), Pow2(n), Pow2(w - 1));
  }

  /** Up to the width, SHLD takes its low bits from the source's high ones, and SHRD its high bits from the source's
      low ones. */
  lemma DoubleSlices(value: nat, source: nat, n: nat, w: nat)
    requires w > 0 && n <= w && value < Pow2(w) && source < Pow2(w)
    ensures DoubleValue(value, source, n, w, false) == value % Pow2(w - n) * Pow2(n) + source / Pow2(w - n)
    ensures DoubleValue(value, source, n, w, true) == source % Pow2(n) * Pow2(w - n) + value / Pow2(n)
  {
    hide Pow2;
    Pow2Add(n, w - n);
    Pow2Add(w, w);
    assert w + w == 2 * w;
    SliceLeft(value, source, Pow2(n), Pow2(w - n), Pow2(w));
    SliceRight(value, source, Pow2(n), Pow2(w - n), Pow2(w));
  }

  lemma SliceLeft(value: nat, source: nat, p: nat, q: nat, m: nat)
    requires p > 0 && q > 0 && m == p * q && value < m && source < m
    ensures (value * m + source) * p % (m * m) / m == value % q * p + source / q
  {
    var a, b, c, d := value / q, value % q, source / q, source % q;
    CutParts(value, q);
    CutParts(source, q);
    SliceBound(source, q, p);
    Spread(a, b, c, d, p, q);
    LeftDigits((value * m + source) * p, a, b, c, d, p, q, m);
  }

  lemma CutParts(x: nat, q: nat)
    requires q > 0
    ensures x == x / q * q + x % q && 0 <= x % q < q && x / q >= 0
  {
  }

  lemma LeftDigits(x: int, a: nat, b: nat, c: nat, d: nat, p: nat, q: nat, m: nat)
    requires m == p * q && b < q && d < q && c < p && x == a * (m * m) + ((b * p + c) * m + d * p)
    ensures x % (m * m) / m == b * p + c
  {
    LowPart(b, q, p, c);
    MulMono(d + 1, q, p);
    MulMono(0, d, p);
    MulMono(0, b, p);
    assert q * p == m;
    TwoDigits(b * p + c, d * p, m);
    DivUnique(x, m * m, a, (b * p + c) * m + d * p);
  }

  lemma Spread(a: nat, b: nat, c: nat, d: nat, p: nat, q: nat)
    ensures ((a * q + b) * (p * q) + (c * q + d)) * p == a * ((p * q) * (p * q)) + ((b * p + c) * (p * q) + d * p)
  {
    assert (a * q + b) * p == a * (p * q) + b * p;
    assert (a * q + b) * (p * q) * p == ((a * q + b) * p) * (p * q);
    SpreadHigh(a, b * p, p * q);
    assert (c * q + d) * p == c * (p * q) + d * p;
    SpreadLow((a * q + b) * (p * q), c * q + d, p);
    SpreadLow(b * p, c, p * q);
  }

  lemma SpreadHigh(a: nat, b: nat, m: nat)
    ensures (a * m + b) * m == a * (m * m) + b * m
  {
  }

  lemma SpreadLow(x: nat, y: nat, p: nat)
    ensures (x + y) * p == x * p + y * p
  {
  }

  lemma SliceBound(source: nat, q: nat, p: nat)
    requires q > 0 && source < p * q
    ensures source / q < p
  {
    assert source == source / q * q + source % q;
    if source / q >= p {
      MulMono(p, source / q, q);
    }
  }

  lemma SliceRight(value: nat, source: nat, p: nat, q: nat, m: nat)
    requires p > 0 && q > 0 && m == p * q && value < m && source < m
    ensures (source * m + value) / p % m == source % p * q + value / p
  {
    var a, b, c, d := source / p, source % p, value / p, value % p;
    CutParts(source, p);
    CutParts(value, p);
    assert q * p == m;
    SliceBound(value, p, q);
    Gather(a, b, c, d, p, q);
    RightDigits(source * m + value, source * q + c, a, b, c, d, p, q, m);
  }

  lemma RightDigits(x: int, y: int, a: nat, b: nat, c: nat, d: nat, p: nat, q: nat, m: nat)
    requires m == p * q && b < p && d < p && c < q && x == y * p + d && y == a * m + (b * q + c)
    ensures x / p % m == b * q + c
  {
    DivUnique(x, p, y, d);
    LowPart(b, p, q, c);
    MulMono(0, b, q);
    DivUnique(y, m, a, b * q + c);
  }

  lemma Gather(a: nat, b: nat, c: nat, d: nat, p: nat, q: nat)
    ensures (a * p + b) * (p * q) + (c * p + d) == ((a * p + b) * q + c) * p + d
    ensures (a * p + b) * q + c == a * (p * q) + (b * q + c)
  {
  }
}

/**
 The strto* functions of libc/stdlib.c: what they read, and what they return when it does not fit.
 A C string is its characters; past the last of them there is a NUL. A long is 32 bits.
 */
module StrTo {
  import opened Arithmetic

  const W32 := 0x1_0000_0000
  const W64 := 0x1_0000_0000_0000_0000

  function CharAt(s: string, p: nat): char
  {
    if p < |s| then s[p] else '\0'
  }

  predicate IsSpace(c: char)
  {
    c == ' ' || '\t' <= c <= '\r'
  }

  function DigitValue(c: char): nat
  {
    if '0' <= c <= '9' then (c - '0') as nat
    else if 'a' <= c <= 'z' then (c - 'a') as nat + 10
    else if 'A' <= c <= 'Z' then (c - 'A') as nat + 10
    else 36
  }

  /** In ASCII: space, tab, line feed, vertical tab, form feed and carriage return; digits, and letters after them. */
  lemma Codes(c: char, d: nat)
    ensures IsSpace(c) <==> c as int in {32, 9, 10, 11, 12, 13}
    ensures d < 36 ==> (DigitValue(c) == d <==> c as int in if d < 10 then {48 + d} else {65 + d - 10, 97 + d - 10})
  {
  }

  // ----- what is read -----

  /** The first character from p on that is no space. */
  function Skip(s: string, p: nat): (q: nat)
    requires p <= |s|
    ensures p <= q <= |s| && (forall k :: p <= k < q ==> IsSpace(s[k])) && !IsSpace(CharAt(s, q))
    decreases |s| - p
  {
    if p < |s| && IsSpace(s[p]) then Skip(s, p + 1) else p
  }

  /** The first character from p on that is no digit to the base. */
  function Run(s: string, p: nat, base: nat): (q: nat)
    requires p <= |s| && base <= 36
    ensures p <= q <= |s| && (forall k :: p <= k < q ==> DigitValue(s[k]) < base) && DigitValue(CharAt(s, q)) >= base
    decreases |s| - p
  {
    if p < |s| && DigitValue(s[p]) < base then Run(s, p + 1, base) else p
  }

  lemma {:induction false} SkipIs(s: string, p: nat, q: nat)
    requires p <= q <= |s| && (forall k :: p <= k < q ==> IsSpace(s[k])) && !IsSpace(CharAt(s, q))
    ensures Skip(s, p) == q
    decreases q - p
  {
    if p < q {
      SkipIs(s, p + 1, q);
    }
  }

  lemma {:induction false} RunIs(s: string, p: nat, q: nat, base: nat)
    requires p <= q <= |s| && base <= 36
    requires (forall k :: p <= k < q ==> DigitValue(s[k]) < base) && DigitValue(CharAt(s, q)) >= base
    ensures Run(s, p, base) == q
    decreases q - p
  {
    if p < q {
      RunIs(s, p + 1, q, base);
    }
  }

  function Number(s: string, base: nat): (n: int)
    ensures n >= 0
  {
    if s == [] then 0
    else
      MulMono(0, Number(s[..|s| - 1], base), base);
      Number(s[..|s| - 1], base) * base + DigitValue(s[|s| - 1])
  }

  /** Where the sign, the digits and the end are, and what base they are in. */
  function Sign(s: string): nat
  {
    Skip(s, 0)
  }

  predicate Negative(s: string)
  {
    CharAt(s, Sign(s)) == '-'
  }

  function AfterSign(s: string): (p: nat)
    ensures p <= |s|
  {
    if CharAt(s, Sign(s)) == '+' || CharAt(s, Sign(s)) == '-' then Sign(s) + 1 else Sign(s)
  }

  predicate HexPrefix(s: string, base: int)
  {
    var p := AfterSign(s);
    && (base == 0 || base == 16) && CharAt(s, p) == '0' && (CharAt(s, p + 1) == 'x' || CharAt(s, p + 1) == 'X')
    && DigitValue(CharAt(s, p + 2)) < 16
  }

  function Radix(s: string, base: int): int
  {
    if HexPrefix(s, base) then 16 else if base == 0 then if CharAt(s, AfterSign(s)) == '0' then 8 else 10 else base
  }

  function First(s: string, base: int): (p: nat)
    ensures p <= |s|
  {
    if HexPrefix(s, base) then AfterSign(s) + 2 else AfterSign(s)
  }

  predicate ValidBase(s: string, base: int)
  {
    2 <= Radix(s, base) <= 36
  }

  function Last(s: string, base: int): (q: nat)
    requires ValidBase(s, base)
    ensures First(s, base) <= q <= |s|
  {
    Run(s, First(s, base), Radix(s, base))
  }

  /** The digits' value. */
  function Magnitude(s: string, base: int): int
  {
    if ValidBase(s, base) then Number(s[First(s, base)..Last(s, base)], Radix(s, base)) else 0
  }

  // ----- reading it -----

  /** A number with one digit more. */
  function With(v: int, base: nat, d: nat): int
  {
    v * base + d
  }

  /** v * base + d, unless that is too large for 64 bits. */
  method MulAdd(v: nat, base: nat, d: nat) returns (ok: bool, v': nat)
    requires v < W64 && base <= 36 && d < 36
    ensures ok <==> With(v, base, d) < W64
    ensures v' == (if ok then With(v, base, d) else v)
  {
    var lo := v % W32 * base + d;
    var hi := v / W32 * base + lo / W32;
    Wide(v, base, d, lo, hi);
    if hi >= W32 {
      return false, v;
    }
    return true, hi * W32 + lo % W32;
  }

  lemma Wide(v: nat, base: nat, d: nat, lo: int, hi: int)
    requires lo == v % W32 * base + d && hi == v / W32 * base + lo / W32
    ensures v * base + d == hi * W32 + lo % W32 && lo >= 0 && 0 <= lo % W32 < W32
  {
    var a, b := v / W32, v % W32;
    assert v == a * W32 + b;
    assert v * base == (a * base) * W32 + b * base by { assert (a * W32) * base == (a * base) * W32; }
    MulMono(0, b, base);
    assert lo == lo / W32 * W32 + lo % W32;
    assert hi * W32 == (a * base) * W32 + (lo / W32) * W32;
  }

  method Parse(s: string, base: int) returns (v: nat, end: nat, negative: bool, overflow: bool, invalid: bool)
    ensures invalid <==> !ValidBase(s, base)
    ensures negative == Negative(s)
    ensures overflow <==> Magnitude(s, base) >= W64
    ensures !overflow ==> v == Magnitude(s, base)
    ensures end == if invalid || Last(s, base) == First(s, base) then 0 else Last(s, base)
  {
    hide IsSpace, DigitValue, Number;
    var p := SkipSpaces(s);
    negative, overflow, v := false, false, 0;
    if CharAt(s, p) == '+' || CharAt(s, p) == '-' {
      negative := CharAt(s, p) == '-';
      p := p + 1;
    }
    assert p == AfterSign(s);
    var radix := base;
    if (base == 0 || base == 16) && CharAt(s, p) == '0' && (CharAt(s, p + 1) == 'x' || CharAt(s, p + 1) == 'X')
       && DigitValue(CharAt(s, p + 2)) < 16 {
      p, radix := p + 2, 16;
    } else if base == 0 {
      radix := if CharAt(s, p) == '0' then 8 else 10;
    }
    assert p == First(s, base) && radix == Radix(s, base);
    if radix < 2 || radix > 36 {
      return 0, 0, negative, false, true;
    }
    invalid := false;
    var q;
    v, q, overflow := Digits(s, p, radix);
    end := if q == p then 0 else q;
  }

  method SkipSpaces(s: string) returns (p: nat)
    ensures p == Skip(s, 0)
  {
    p := 0;
    while p < |s| && IsSpace(s[p])
      invariant 0 <= p <= |s| && Skip(s, p) == Skip(s, 0)
    {
      p := p + 1;
    }
  }

  /** Reads digits from p on. */
  method Digits(s: string, p: nat, radix: nat) returns (v: nat, q: nat, overflow: bool)
    requires p <= |s| && 2 <= radix <= 36
    ensures q == Run(s, p, radix)
    ensures overflow <==> Number(s[p..q], radix) >= W64
    ensures !overflow ==> v == Number(s[p..q], radix)
  {
    hide Number, DigitValue, With, Run;
    v, q, overflow := 0, p, false;
    NumberNone(s, p, radix);
    while q < |s| && DigitValue(s[q]) < radix
      invariant p <= q <= |s| && Run(s, q, radix) == Run(s, p, radix) && v < W64
      invariant overflow <==> Number(s[p..q], radix) >= W64
      invariant !overflow ==> v == Number(s[p..q], radix)
    {
      RunNext(s, q, radix);
      NumberNext(s, p, q, radix);
      DigitStep(Number(s[p..q], radix), v, radix, DigitValue(s[q]), overflow);
      var ok;
      ok, v := MulAdd(v, radix, DigitValue(s[q]));
      if !ok {
        overflow := true;
      }
      q := q + 1;
    }
    RunNext(s, q, radix);
  }

  lemma RunNext(s: string, q: nat, base: nat)
    requires q <= |s| && base <= 36
    ensures Run(s, q, base) == if q < |s| && DigitValue(s[q]) < base then Run(s, q + 1, base) else q
  {
  }

  lemma NumberNone(s: string, p: nat, base: nat)
    requires p <= |s|
    ensures Number(s[p..p], base) == 0
  {
    assert s[p..p] == [];
  }

  lemma NumberNext(s: string, p: nat, q: nat, base: nat)
    requires p <= q < |s|
    ensures Number(s[p..q + 1], base) == With(Number(s[p..q], base), base, DigitValue(s[q]))
  {
    assert s[p..q + 1] == s[p..q] + [s[q]];
    NumberMore(s[p..q], s[q], base);
  }

  lemma NumberMore(s: string, c: char, base: nat)
    ensures Number(s + [c], base) == With(Number(s, base), base, DigitValue(c))
  {
    hide DigitValue;
    assert (s + [c])[..|s|] == s;
  }

  /** One digit more: the number is right, or too large for good. */
  lemma DigitStep(n: nat, v: nat, base: nat, d: nat, overflow: bool)
    requires base >= 1 && (overflow <==> n >= W64) && (!overflow ==> v == n)
    ensures overflow || With(v, base, d) >= W64 <==> With(n, base, d) >= W64
  {
    MulMono(1, base, n);
    assert n * base == base * n;
  }

  // ----- the functions -----

  const LONG_MAX := 0x7FFF_FFFF
  const LLONG_MAX := 0x7FFF_FFFF_FFFF_FFFF

  function Exact(s: string, base: int): int
  {
    if Negative(s) then -Magnitude(s, base) else Magnitude(s, base)
  }

  /** The nearest there is to x. */
  function Saturated(x: int, max: nat): int
  {
    if x > max then max else if x < -1 - max then -1 - max else x
  }

  /** Where reading stops: after the digits, or at the very start if there are none. */
  function Stop(s: string, base: int): nat
  {
    if !ValidBase(s, base) || Last(s, base) == First(s, base) then 0 else Last(s, base)
  }

  method StrToL(s: string, base: int) returns (r: int, end: nat, range: bool)
    ensures end == Stop(s, base)
    ensures r == Saturated(Exact(s, base), LONG_MAX) && (range <==> r != Exact(s, base))
  {
    hide Magnitude, Negative, ValidBase;
    var v, negative, overflow, invalid;
    v, end, negative, overflow, invalid := Parse(s, base);
    var limit := if negative then LONG_MAX + 1 else LONG_MAX;
    if overflow || v > limit {
      return if negative then -LONG_MAX - 1 else LONG_MAX, end, true;
    }
    return if negative then -v else v, end, false;
  }

  method StrToLL(s: string, base: int) returns (r: int, end: nat, range: bool)
    ensures end == Stop(s, base)
    ensures r == Saturated(Exact(s, base), LLONG_MAX) && (range <==> r != Exact(s, base))
  {
    hide Magnitude, Negative, ValidBase;
    var v, negative, overflow, invalid;
    v, end, negative, overflow, invalid := Parse(s, base);
    var limit := if negative then LLONG_MAX + 1 else LLONG_MAX;
    if overflow || v > limit {
      return if negative then -LLONG_MAX - 1 else LLONG_MAX, end, true;
    }
    return if negative then -v else v, end, false;
  }

  /** A negative number comes back as what it is in w bits; a magnitude that is too large as the largest number. */
  method StrToUL(s: string, base: int) returns (r: int, end: nat, range: bool)
    ensures end == Stop(s, base)
    ensures range <==> Magnitude(s, base) >= W32
    ensures 0 <= r < W32 && (range ==> r == W32 - 1) && (!range ==> (r - Exact(s, base)) % W32 == 0)
  {
    hide Magnitude, Negative, ValidBase;
    var v, negative, overflow, invalid;
    v, end, negative, overflow, invalid := Parse(s, base);
    if overflow || v >= W32 {
      return W32 - 1, end, true;
    }
    return if negative then (W32 - v) % W32 else v, end, false;
  }

  method StrToULL(s: string, base: int) returns (r: int, end: nat, range: bool)
    ensures end == Stop(s, base)
    ensures range <==> Magnitude(s, base) >= W64
    ensures 0 <= r < W64 && (range ==> r == W64 - 1) && (!range ==> (r - Exact(s, base)) % W64 == 0)
  {
    hide Magnitude, Negative, ValidBase;
    var v, negative, overflow, invalid;
    v, end, negative, overflow, invalid := Parse(s, base);
    if overflow {
      return W64 - 1, end, true;
    }
    return if negative then (W64 - v) % W64 else v, end, false;
  }
}

/**
 The integer conversions of printf (libc/format.c), and that what they print reads back (libc/stdlib.c).
 */
module Format {
  import opened Arithmetic
  import opened StrTo

  datatype Flags = Flags(left: bool, zero: bool, plus: bool, space: bool, alt: bool)

  // ----- dividing -----

  /** Divides by a small base, 16 bits at a time. */
  method DivMod64(v: nat, base: nat) returns (q: nat, r: nat)
    requires v < W64 && 2 <= base <= 36
    ensures q == v / base && r == v % base
  {
    hide Quo, Rem;
    var hi, lo := v / W32, v % W32;
    if hi == 0 {
      ShortDivision(v, base);
      return Quo(lo, base), Rem(lo, base);
    }
    LongDivision(v, base);
    var qHi, rem := Quo(hi, base), Rem(hi, base);
    var cur := rem * 0x1_0000 + lo / 0x1_0000;
    var qMid := Quo(cur, base);
    rem := Rem(cur, base);
    cur := rem * 0x1_0000 + lo % 0x1_0000;
    var qLo := Quo(cur, base);
    q := qHi * W32 + qMid * 0x1_0000 + qLo;
    r := Rem(cur, base);
  }

  /** Division of 32 bits by the base, as the machine does it. */
  function Quo(a: nat, base: nat): (q: nat)
    requires base > 0
  {
    a / base
  }

  function Rem(a: nat, base: nat): (r: nat)
    requires base > 0
  {
    a % base
  }

  lemma QuoRem(a: nat, base: nat)
    requires base > 0
    ensures a == Quo(a, base) * base + Rem(a, base) && Rem(a, base) < base
  {
  }

  lemma ShortDivision(v: nat, base: nat)
    requires base > 0 && v / W32 == 0
    ensures v % W32 == v && Quo(v, base) == v / base && Rem(v, base) == v % base
  {
  }

  lemma LongDivision(v: nat, base: nat)
    requires 2 <= base <= 36
    ensures var hi, lo := v / W32, v % W32;
            var mid := Rem(hi, base) * 0x1_0000 + lo / 0x1_0000;
            var low := Rem(mid, base) * 0x1_0000 + lo % 0x1_0000;
            Quo(hi, base) * W32 + Quo(mid, base) * 0x1_0000 + Quo(low, base) == v / base && Rem(low, base) == v % base
  {
    hide Quo, Rem;
    var hi, lo := v / W32, v % W32;
    var mid := Rem(hi, base) * 0x1_0000 + lo / 0x1_0000;
    var low := Rem(mid, base) * 0x1_0000 + lo % 0x1_0000;
    QuoRem(hi, base);
    QuoRem(mid, base);
    QuoRem(low, base);
    Collect(Quo(hi, base), Quo(mid, base), Quo(low, base), base);
    DivUnique(v, base, Quo(hi, base) * W32 + Quo(mid, base) * 0x1_0000 + Quo(low, base), Rem(low, base));
  }

  lemma Collect(a: nat, b: nat, c: nat, base: nat)
    ensures (a * W32 + b * 0x1_0000 + c) * base == (a * base) * W32 + (b * base) * 0x1_0000 + c * base
  {
  }

  // ----- printing -----

  function DigitChar(d: nat, upper: bool): char
    requires d < 16
  {
    if d < 10 then '0' + d as char else if upper then 'A' + (d - 10) as char else 'a' + (d - 10) as char
  }

  /** The digits of v; none for zero. */
  function DigitsOf(v: nat, base: nat, upper: bool): string
    requires 2 <= base <= 16
  {
    if v == 0 then "" else DigitsOf(v / base, base, upper) + [DigitChar(v % base, upper)]
  }

  function Repeat(c: char, n: int): string
    decreases n
  {
    if n <= 0 then "" else [c] + Repeat(c, n - 1)
  }

  /** The zeros that the precision, or a zero, or the octal prefix ask for. */
  function Zeros(n: nat, negative: bool, base: nat, f: Flags, precision: int): int
  {
    var zeros := if precision > n then precision - n else if n == 0 && precision != 0 then 1 else 0;
    if !negative && !f.plus && !f.space && f.alt && base == 8 && zeros == 0 then 1 else zeros
  }

  function Prefix(n: nat, negative: bool, base: nat, upper: bool, f: Flags): string
  {
    if negative then "-" else if f.plus then "+" else if f.space then " "
    else if f.alt && base == 16 && n > 0 then if upper then "0X" else "0x"
    else ""
  }

  function Fill(v: nat, negative: bool, base: nat, upper: bool, f: Flags, width: int, precision: int): int
    requires 2 <= base <= 16
  {
    var n := |DigitsOf(v, base, upper)|;
    var len := |Prefix(n, negative, base, upper, f)| + Zeros(n, negative, base, f, precision) + n;
    if width > len then width - len else 0
  }

  predicate ZeroFill(f: Flags, precision: int)
  {
    f.zero && !f.left && precision < 0
  }

  /** What is printed: spaces, prefix, zeros, digits, spaces. */
  function Printed(v: nat, negative: bool, base: nat, upper: bool, f: Flags, width: int, precision: int): string
    requires 2 <= base <= 16
  {
    var digits := DigitsOf(v, base, upper);
    var fill := Fill(v, negative, base, upper, f, width, precision);
    var spaces := if ZeroFill(f, precision) then 0 else fill;
    var zeros := Zeros(|digits|, negative, base, f, precision) + if ZeroFill(f, precision) then fill else 0;
    Layout(f.left, spaces, Prefix(|digits|, negative, base, upper, f), zeros, digits)
  }

  function Layout(left: bool, spaces: int, prefix: string, zeros: int, digits: string): string
  {
    Repeat(' ', if left then 0 else spaces) + prefix + Repeat('0', zeros) + digits
    + Repeat(' ', if left then spaces else 0)
  }

  /** Emits n of a character, at most 16 at a time. */
  method Pad(out: string, c: char, n: int) returns (out': string)
    ensures out' == out + Repeat(c, n)
  {
    out' := out;
    var left := n;
    while left > 0
      invariant out' + Repeat(c, left) == out + Repeat(c, n)
      invariant left <= 0 ==> out' == out + Repeat(c, n)
    {
      var k := if left < 16 then left else 16;
      RepeatSplit(c, k, left - k);
      out' := out' + Repeat(c, k);
      left := left - k;
    }
  }

  lemma {:induction false} RepeatSplit(c: char, a: nat, b: nat)
    ensures Repeat(c, a) + Repeat(c, b) == Repeat(c, a + b) && |Repeat(c, a)| == a
    decreases a
  {
    if a > 0 {
      RepeatSplit(c, a - 1, b);
    }
  }

  lemma {:induction false} RepeatAll(c: char, n: int)
    ensures |Repeat(c, n)| == (if n <= 0 then 0 else n) && forall i :: 0 <= i < |Repeat(c, n)| ==> Repeat(c, n)[i] == c
    decreases n
  {
    if n > 0 {
      RepeatAll(c, n - 1);
    }
  }

  // ----- what digits are worth -----

  lemma DigitReads(d: nat, upper: bool)
    requires d < 16
    ensures DigitValue(DigitChar(d, upper)) == d && DigitChar(d, upper) != '+' && DigitChar(d, upper) != '-'
    ensures !IsSpace(DigitChar(d, upper)) && DigitChar(d, upper) != 'x' && DigitChar(d, upper) != 'X'
    ensures (d > 0 <==> DigitChar(d, upper) != '0') && OneCase([DigitChar(d, upper)], upper)
  {
  }

  /** Digits read back, and start with no zero. */
  lemma {:induction false} DigitsRead(v: nat, base: nat, upper: bool)
    requires 2 <= base <= 16
    ensures Number(DigitsOf(v, base, upper), base) == v
    ensures AllDigits(DigitsOf(v, base, upper), base) && OneCase(DigitsOf(v, base, upper), upper)
    ensures v > 0 ==> DigitsOf(v, base, upper) != "" && DigitsOf(v, base, upper)[0] != '0'
  {
    hide Number, DigitValue, DigitChar, With, DigitsOf;
    DigitsNone(base, upper);
    if v == 0 {
      OnlyZeros("", base);
    } else {
      var q, r := Split(v, base, upper);
      DigitsRead(q, base, upper);
      DigitReads(r, upper);
      NumberMore(DigitsOf(q, base, upper), DigitChar(r, upper), base);
    }
  }

  lemma Split(v: nat, base: nat, upper: bool) returns (q: nat, r: nat)
    requires v > 0 && 2 <= base <= 16
    ensures q < v && r < base && With(q, base, r) == v && (q == 0 ==> r == v)
    ensures DigitsOf(v, base, upper) == DigitsOf(q, base, upper) + [DigitChar(r, upper)]
  {
    q, r := v / base, v % base;
    assert v == q * base + r;
    MulMono(2, base, q);
  }

  /** No letter of the other case. */
  ghost predicate OneCase(s: string, upper: bool)
  {
    forall i :: 0 <= i < |s| ==> if upper then !('a' <= s[i] <= 'z') else !('A' <= s[i] <= 'Z')
  }

  ghost predicate AllDigits(s: string, base: nat)
  {
    forall i :: 0 <= i < |s| ==> DigitValue(s[i]) < base
  }

  /** Leading zeros do not matter. */
  lemma {:induction false} ZerosRead(z: int, ds: string, base: nat)
    requires base >= 1
    ensures Number(Repeat('0', z) + ds, base) == Number(ds, base)
    ensures AllDigits(ds, base) ==> AllDigits(Repeat('0', z) + ds, base)
    decreases |ds|
  {
    RepeatAll('0', z);
    var s := Repeat('0', z) + ds;
    if ds == "" {
      assert s == Repeat('0', z);
      OnlyZeros(s, base);
    } else {
      var ts, c := ds[..|ds| - 1], ds[|ds| - 1];
      ZerosRead(z, ts, base);
      assert s == (Repeat('0', z) + ts) + [c] && ds == ts + [c];
      NumberMore(Repeat('0', z) + ts, c, base);
      NumberMore(ts, c, base);
    }
  }

  lemma {:induction false} OnlyZeros(s: string, base: nat)
    requires forall i :: 0 <= i < |s| ==> s[i] == '0'
    ensures Number(s, base) == 0
  {
    if s != "" {
      OnlyZeros(s[..|s| - 1], base);
      assert s[|s| - 1] == '0';
    }
  }

  ghost predicate AllSpaces(s: string)
  {
    forall i :: 0 <= i < |s| ==> s[i] == ' '
  }

  // ----- how the parts stand -----

  /** No zero in front that nothing asks for: one for a zero, one for the octal form. */
  ghost predicate Lean(ds: string, octal: bool, precision: int)
  {
    && (ds != "" && ds[0] == '0' ==> octal || (ds == "0" && precision < 0))
    && (|ds| > 1 && octal ==> ds[1] != '0')
  }

  /** Where the parts of the layout are. */
  lemma Parts(left: bool, spaces: int, prefix: string, zeros: int, ds: string)
    returns (start: nat, first: nat, stop: nat)
    requires spaces >= 0
    ensures var out := Layout(left, spaces, prefix, zeros, ds);
            && start <= first <= stop <= |out|
            && AllSpaces(out[..start]) && AllSpaces(out[stop..]) && |out| == stop - start + spaces
            && (if left then start == 0 else stop == |out|)
            && out[start..first] == prefix && out[first..stop] == Repeat('0', zeros) + ds
  {
    hide Repeat;
    RepeatAll(' ', if left then 0 else spaces);
    RepeatAll(' ', if left then spaces else 0);
    RepeatAll('0', zeros);
    start := if left then 0 else spaces;
    first := start + |prefix|;
    stop := first + |Repeat('0', zeros)| + |ds|;
    var before, after := Repeat(' ', if left then 0 else spaces), Repeat(' ', if left then spaces else 0);
    var out := Layout(left, spaces, prefix, zeros, ds);
    assert out == before + prefix + (Repeat('0', zeros) + ds) + after;
    Sliced(before, prefix, Repeat('0', zeros) + ds, after, out);
  }

  lemma Sliced(a: string, b: string, c: string, d: string, s: string)
    requires s == a + b + c + d
    ensures var i, j, k := |a|, |a| + |b|, |a| + |b| + |c|;
            s[..i] == a && s[i..j] == b && s[j..k] == c && s[k..] == d
  {
  }

  /** The digits with their zeros: worth the number, at least the precision, and lean beyond it. */
  lemma Numeral(v: nat, negative: bool, base: nat, upper: bool, f: Flags, precision: int, fill: nat)
    requires base == 8 || base == 10 || base == 16
    ensures var ds := DigitsOf(v, base, upper);
            var zeros := Zeros(|ds|, negative, base, f, precision);
            var s := Repeat('0', zeros + fill) + ds;
            var octal := Octal(negative, base, f);
            && zeros >= 0 && |s| == zeros + fill + |ds|
            && Worth(s, v, base, upper)
            && |s| >= precision && (precision != 0 ==> s != "") && (octal ==> s != "" && s[0] == '0')
            && (|s| > precision && fill == 0 ==> Lean(s, octal, precision))
            && (v > 0 <==> |ds| > 0)
  {
    hide DigitsOf, Number, DigitValue, Repeat;
    var ds := DigitsOf(v, base, upper);
    var zeros := Zeros(|ds|, negative, base, f, precision);
    DigitsNone(base, upper);
    DigitsRead(v, base, upper);
    ZerosRead(zeros + fill, ds, base);
    RepeatAll('0', zeros + fill);
  }

  predicate Octal(negative: bool, base: nat, f: Flags)
  {
    f.alt && base == 8 && !negative && !f.plus && !f.space
  }

  /** How a printed number stands: padding up to `start`, a sign or prefix up to `first`, digits up to `stop`,
      padding. */
  ghost predicate Stands(out: string, start: nat, first: nat, stop: nat, v: nat, negative: bool, base: nat, upper: bool,
                         f: Flags, width: int, precision: int)
  {
    // as wide as the width, or as what there is to print
    && start <= first <= stop <= |out| == (if width > stop - start then width else stop - start)
    // the padding is on the side that the flag says, and of zeros when they are asked for
    && AllSpaces(out[..start]) && AllSpaces(out[stop..]) && (if f.left then start == 0 else stop == |out|)
    && (f.zero && !f.left && precision < 0 ==> start == 0)
    // the sign, or the prefix of a hexadecimal number
    && (negative ==> out[start..first] == "-")
    && (!negative && f.plus ==> out[start..first] == "+")
    && (!negative && !f.plus && f.space ==> out[start..first] == " ")
    && (!negative && !f.plus && !f.space ==>
          out[start..first] == if f.alt && base == 16 && v > 0 then if upper then "0X" else "0x" else "")
    // the digits are worth the number, and are as many as the precision at least
    && Worth(out[first..stop], v, base, upper)
    && stop - first >= precision && (precision != 0 ==> first < stop)
    && (Octal(negative, base, f) ==> first < stop && out[first] == '0')
    // with no zero in front that nothing asks for
    && (stop - first > precision && !(f.zero && !f.left && precision < 0 && |out| == width) ==>
          Lean(out[first..stop], Octal(negative, base, f), precision))
  }

  ghost predicate Worth(ds: string, v: nat, base: nat, upper: bool)
  {
    AllDigits(ds, base) && OneCase(ds, upper) && Number(ds, base) == v
  }

  lemma PrefixIs(n: nat, negative: bool, base: nat, upper: bool, f: Flags)
    ensures var p := Prefix(n, negative, base, upper, f);
            && (negative ==> p == "-")
            && (!negative && f.plus ==> p == "+")
            && (!negative && !f.plus && f.space ==> p == " ")
            && (!negative && !f.plus && !f.space ==>
                  p == if f.alt && base == 16 && n > 0 then if upper then "0X" else "0x" else "")
  {
  }

  /** What is printed stands as it should. */
  lemma PrintedStands(v: nat, negative: bool, base: nat, upper: bool, f: Flags, width: int, precision: int)
    returns (start: nat, first: nat, stop: nat)
    requires base == 8 || base == 10 || base == 16
    ensures Stands(Printed(v, negative, base, upper, f, width, precision), start, first, stop,
                   v, negative, base, upper, f, width, precision)
  {
    hide Prefix, DigitsOf, Layout, Zeros, Worth, AllSpaces, Lean, Repeat;
    var ds := DigitsOf(v, base, upper);
    var fill := Fill(v, negative, base, upper, f, width, precision);
    var zeros := Zeros(|ds|, negative, base, f, precision);
    var more := if ZeroFill(f, precision) then fill else 0;
    var prefix := Prefix(|ds|, negative, base, upper, f);
    Numeral(v, negative, base, upper, f, precision, more);
    start, first, stop := Parts(f.left, fill - more, prefix, zeros + more, ds);
    PrefixIs(|ds|, negative, base, upper, f);
  }

  /** One integer conversion. The digits go into a buffer of 24 from its end down. */
  method PrintNumber(v0: nat, negative: bool, base: nat, upper: bool, f: Flags, width: int, precision: int)
    returns (out: string, ghost start: nat, ghost first: nat, ghost stop: nat)
    requires v0 < W64 && (base == 8 || base == 10 || base == 16)
    ensures out == Printed(v0, negative, base, upper, f, width, precision)
    ensures Stands(out, start, first, stop, v0, negative, base, upper, f, width, precision)
  {
    hide Prefix, DigitsOf, Layout, Zeros, Stands;
    var digits := Buffer(v0, base, upper);
    var n := |digits|;
    var zeros := CountZeros(n, negative, base, f, precision);
    var prefix := Prefix(n, negative, base, upper, f);
    var len := |prefix| + zeros + n;
    var fill := if width > len then width - len else 0;
    if f.zero && !f.left && precision < 0 {
      zeros := zeros + fill;
      fill := 0;
    }
    out := Emit(f.left, fill, prefix, zeros, digits);
    start, first, stop := PrintedStands(v0, negative, base, upper, f, width, precision);
  }

  method CountZeros(n: nat, negative: bool, base: nat, f: Flags, precision: int) returns (zeros: int)
    ensures zeros == Zeros(n, negative, base, f, precision)
  {
    zeros := if precision > n then precision - n else 0;
    if n == 0 && precision != 0 {
      zeros := if zeros > 0 then zeros else 1;
    }
    if !negative && !f.plus && !f.space && f.alt && base == 8 && zeros == 0 {
      zeros := 1;
    }
  }

  method Emit(left: bool, fill: int, prefix: string, zeros: int, digits: string) returns (out: string)
    ensures out == Layout(left, fill, prefix, zeros, digits)
  {
    hide Repeat;
    NoRepeat(' ');
    out := "";
    if !left {
      out := Pad(out, ' ', fill);
    }
    out := out + prefix;
    out := Pad(out, '0', zeros);
    out := out + digits;
    if left {
      out := Pad(out, ' ', fill);
    }
  }

  lemma NoRepeat(c: char)
    ensures Repeat(c, 0) == ""
  {
  }

  /** The digits, through the buffer: 22 are enough for 64 bits. */
  method Buffer(v0: nat, base: nat, upper: bool) returns (digits: string)
    requires v0 < W64 && 8 <= base <= 16
    ensures digits == DigitsOf(v0, base, upper) && |digits| <= 22
  {
    hide DigitsOf, Pow2;
    var buf := new char[24](_ => '\0');
    var v, n := v0, 0;
    Pow2Words();
    Pow2Mono(64, 66);
    while v != 0
      invariant 0 <= n <= 22 && 0 <= v < W64 && v < Pow2(66 - 3 * n)
      invariant DigitsOf(v0, base, upper) == DigitsOf(v, base, upper) + buf[24 - n..]
      decreases v
    {
      Smaller(v, base, n);
      var q, r := DivMod64(v, base);
      DigitsStep(v, base, upper);
      ghost var done := buf[24 - n..];
      buf[23 - n] := DigitChar(r, upper);
      assert buf[23 - n..] == [DigitChar(r, upper)] + done;
      n := n + 1;
      v := q;
    }
    DigitsNone(base, upper);
    digits := buf[24 - n..];
  }

  lemma DigitsStep(v: nat, base: nat, upper: bool)
    requires v > 0 && 2 <= base <= 16
    ensures DigitsOf(v, base, upper) == DigitsOf(v / base, base, upper) + [DigitChar(v % base, upper)]
  {
  }

  lemma DigitsNone(base: nat, upper: bool)
    requires 2 <= base <= 16
    ensures DigitsOf(0, base, upper) == ""
  {
  }

  lemma Smaller(v: nat, base: nat, n: nat)
    requires n <= 22 && 0 < v < Pow2(66 - 3 * n) && 8 <= base <= 16
    ensures n < 22 && v / base < Pow2(66 - 3 * (n + 1)) && v / base < v
  {
    Eighths(n);
    DivLess(v, base);
  }

  lemma Eighths(n: nat)
    requires n <= 22
    ensures Pow2(66 - 3 * n) == if n == 22 then 1 else 8 * Pow2(66 - 3 * (n + 1))
  {
    assert Pow2(0) == 1;
    if n < 22 {
      var k := 63 - 3 * n;
      assert Pow2(k + 3) == 2 * Pow2(k + 2) && Pow2(k + 2) == 2 * Pow2(k + 1) && Pow2(k + 1) == 2 * Pow2(k);
    }
  }

  lemma DivLess(v: nat, base: nat)
    requires v > 0 && base >= 8
    ensures v / base <= v / 8 && v / base < v
  {
    var q := v / base;
    assert v == q * base + v % base;
    MulMono(8, base, q);
    assert q * 8 <= v;
  }
}

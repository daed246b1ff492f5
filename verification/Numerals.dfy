/**
 Printing an integer and reading it back: libc/format.c against libc/stdlib.c, for every 64-bit value and
 every flag, width and precision.
 */
module Numerals {
  import opened Arithmetic
  import opened StrTo
  import opened Format

  // ----- reading a text by its parts -----

  /** What parse sees of sp + sg + hx + dg + tr: spaces, a sign, a prefix, digits, spaces. */
  lemma ReadParts(sp: string, sg: string, hx: string, dg: string, tr: string, base: int, radix: nat)
    requires AllSpaces(sp) && AllSpaces(tr) && (sg == "" || sg == "+" || sg == "-")
    requires dg != "" && 2 <= radix <= 16 && AllDigits(dg, radix)
    requires hx == "" || ((hx == "0x" || hx == "0X") && radix == 16 && (base == 0 || base == 16))
    requires hx == "" ==> radix == if base == 0 then if dg[0] == '0' then 8 else 10 else base
    ensures var s := sp + sg + hx + dg + tr;
            Negative(s) == (sg == "-") && ValidBase(s, base) && Magnitude(s, base) == Number(dg, radix)
  {
    hide Number, DigitValue, IsSpace, Negative, ValidBase, Magnitude, AfterSign, First, Radix;
    var s := sp + sg + hx + dg + tr;
    var a, b, d, e := |sp|, |sp| + |sg|, |sp| + |sg| + |hx|, |sp| + |sg| + |hx| + |dg|;
    Places(sp, sg, hx, dg, tr, s);
    NotDigit();
    NotOther(dg[0], radix);
    if |dg| > 1 {
      NotOther(dg[1], radix);
      assert CharAt(s, d + 1) == dg[1];
    } else {
      assert CharAt(s, d + 1) == CharAt(s, e);
    }
    assert CharAt(s, e) == ' ' || CharAt(s, e) == '\0' by {
      if tr != "" {
        assert s[e] == tr[0];
      }
    }
    assert CharAt(s, d) == dg[0];
    if sg != "" {
      assert CharAt(s, a) == sg[0];
    }
    if hx != "" {
      assert CharAt(s, b) == hx[0] && CharAt(s, b + 1) == hx[1];
    }
    SignIs(s, a, b);
    HexIs(s, b, d, base, radix, hx != "");
    DigitsAre(s, d, e, base, radix);
  }

  lemma NotDigit()
    ensures DigitValue(' ') == 36 && DigitValue('\0') == 36 && DigitValue('0') == 0 && IsSpace(' ')
    ensures !IsSpace('+') && !IsSpace('-') && !IsSpace('0')
  {
  }

  /** Where the sign is, and what comes after it. */
  lemma SignIs(s: string, a: nat, b: nat)
    requires a <= b <= |s| && (forall k :: 0 <= k < a ==> IsSpace(s[k])) && !IsSpace(CharAt(s, a))
    requires if b == a then CharAt(s, a) != '+' && CharAt(s, a) != '-'
             else b == a + 1 && (CharAt(s, a) == '+' || CharAt(s, a) == '-')
    ensures AfterSign(s) == b && Negative(s) == (CharAt(s, a) == '-')
  {
    SkipIs(s, 0, a);
  }

  /** Whether there is a prefix, and what base the digits are in. */
  lemma HexIs(s: string, b: nat, d: nat, base: int, radix: int, hex: bool)
    requires AfterSign(s) == b && b <= d <= |s|
    requires hex ==>
               && d == b + 2 && radix == 16 && (base == 0 || base == 16) && CharAt(s, b) == '0'
               && (CharAt(s, b + 1) == 'x' || CharAt(s, b + 1) == 'X') && DigitValue(CharAt(s, d)) < 16
    requires !hex ==>
               && d == b && CharAt(s, b + 1) != 'x' && CharAt(s, b + 1) != 'X'
               && radix == if base == 0 then if CharAt(s, b) == '0' then 8 else 10 else base
    ensures First(s, base) == d && Radix(s, base) == radix
  {
  }

  lemma DigitsAre(s: string, d: nat, e: nat, base: int, radix: int)
    requires First(s, base) == d && Radix(s, base) == radix && 2 <= radix <= 36 && d <= e <= |s|
    requires AllDigits(s[d..e], radix) && DigitValue(CharAt(s, e)) >= radix
    ensures ValidBase(s, base) && Magnitude(s, base) == Number(s[d..e], radix)
  {
    hide DigitValue;
    forall k | d <= k < e ensures DigitValue(s[k]) < radix {
      assert s[k] == s[d..e][k - d];
    }
    RunIs(s, d, e, radix);
  }

  lemma Places(sp: string, sg: string, hx: string, dg: string, tr: string, s: string)
    requires s == sp + sg + hx + dg + tr
    ensures forall k :: 0 <= k < |sp| ==> s[k] == sp[k]
    ensures forall k {:trigger sg[k]} :: 0 <= k < |sg| ==> s[|sp| + k] == sg[k]
    ensures forall k {:trigger hx[k]} :: 0 <= k < |hx| ==> s[|sp| + |sg| + k] == hx[k]
    ensures forall k {:trigger dg[k]} :: 0 <= k < |dg| ==> s[|sp| + |sg| + |hx| + k] == dg[k]
    ensures s[|sp| + |sg| + |hx|..|sp| + |sg| + |hx| + |dg|] == dg
    ensures forall k {:trigger tr[k]} :: 0 <= k < |tr| ==> s[|sp| + |sg| + |hx| + |dg| + k] == tr[k]
  {
  }

  /** A digit is no space, sign or x. */
  lemma NotOther(c: char, base: nat)
    requires DigitValue(c) < base <= 16
    ensures !IsSpace(c) && c != '+' && c != '-' && c != 'x' && c != 'X'
  {
  }

  /** Spaces, perhaps a sign, and no digit: zero. */
  lemma ReadNothing(sp: string, sg: string, tr: string, base: int)
    requires AllSpaces(sp) && AllSpaces(tr) && (sg == "" || sg == "+" || sg == "-")
    requires base == 0 || 2 <= base <= 36
    ensures Magnitude(sp + sg + tr, base) == 0
  {
    hide Number, DigitValue, IsSpace, ValidBase, Magnitude, AfterSign, First, Radix;
    var s := sp + sg + tr;
    NotDigit();
    var a := if sg == "" then |s| else |sp|;
    var b := a + |sg|;
    assert forall k :: 0 <= k < a ==> s[k] == ' ';
    assert sg != "" ==> CharAt(s, a) == sg[0];
    assert forall k :: b <= k < |s| ==> s[k] == ' ';
    assert CharAt(s, b) == ' ' || CharAt(s, b) == '\0';
    assert CharAt(s, b + 1) == ' ' || CharAt(s, b + 1) == '\0';
    NulIsNoSpace();
    SignIs(s, a, b);
    var radix := if base == 0 then 10 else base;
    HexIs(s, b, b, base, radix, false);
    DigitsAre(s, b, b, base, radix);
    OnlyZeros(s[b..b], radix);
  }

  lemma NulIsNoSpace()
    ensures !IsSpace('\0')
  {
  }

  // ----- the round trip -----

  /** The base it is read in: its own, or 0 if the form tells it. */
  predicate Tells(base: nat, f: Flags, readBase: int)
  {
    readBase == base || (readBase == 0 && f.alt && !f.plus && !f.space && (base == 16 || base == 8))
  }

  /** What is printed reads back as the number, whatever the flags, the width and the precision. */
  lemma PrintedReads(v: nat, negative: bool, base: nat, upper: bool, f: Flags, width: int, precision: int,
                     readBase: int)
    requires base == 8 || base == 10 || base == 16
    requires Tells(base, f, readBase) && (negative ==> readBase == base && v > 0)
    ensures Exact(Printed(v, negative, base, upper, f, width, precision), readBase) == if negative then 0 - v else v
  {
    hide DigitsOf, Number, Repeat, Magnitude, Negative, DigitValue;
    var ds := DigitsOf(v, base, upper);
    DigitsRead(v, base, upper);
    DigitsNone(base, upper);
    var fill := Fill(v, negative, base, upper, f, width, precision);
    var spaces := if ZeroFill(f, precision) then 0 else fill;
    var zeros := Zeros(|ds|, negative, base, f, precision) + if ZeroFill(f, precision) then fill else 0;
    var prefix := Prefix(|ds|, negative, base, upper, f);
    var before, after := Repeat(' ', if f.left then 0 else spaces), Repeat(' ', if f.left then spaces else 0);
    RepeatAll(' ', if f.left then 0 else spaces);
    RepeatAll(' ', if f.left then spaces else 0);
    RepeatAll('0', zeros);
    ZerosRead(zeros, ds, base);
    LayoutReads(before, prefix, Repeat('0', zeros), ds, after, base, readBase, v);
    assert Printed(v, negative, base, upper, f, width, precision) == before + prefix + Repeat('0', zeros) + ds + after;
  }

  lemma LayoutReads(before: string, prefix: string, zeros: string, ds: string, after: string, base: nat,
                    readBase: int, v: nat)
    requires AllSpaces(before) && AllSpaces(after) && (base == 8 || base == 10 || base == 16)
    requires forall i :: 0 <= i < |zeros| ==> zeros[i] == '0'
    requires Number(zeros + ds, base) == v && AllDigits(zeros + ds, base)
    requires prefix == "-" || prefix == "+" || prefix == " " || prefix == "" || prefix == "0x" || prefix == "0X"
    requires prefix == "0x" || prefix == "0X" ==> base == 16 && ds != ""
    // read in its own base, or with the prefix it has, or an octal's leading zero
    requires readBase == base || (readBase == 0 && (prefix == "0x" || prefix == "0X"))
             || (readBase == 0 && prefix == "" && ds == "")
             || (readBase == 0 && prefix == "" && base == 8 && zeros != "")
    ensures Exact(before + prefix + zeros + ds + after, readBase) == if prefix == "-" then 0 - v else v
  {
    hide Number, DigitValue, Magnitude, Negative;
    var dg := zeros + ds;
    var s := before + prefix + zeros + ds + after;
    if dg == "" {
      OnlyZeros(dg, base);
      var sg := if prefix == " " then "" else prefix;
      var sp := if prefix == " " then before + " " else before;
      assert s == sp + sg + after;
      ReadNothing(sp, sg, after, readBase);
    } else if prefix == "0x" || prefix == "0X" {
      assert s == before + "" + prefix + dg + after;
      ReadParts(before, "", prefix, dg, after, readBase, 16);
    } else {
      var sg := if prefix == " " then "" else prefix;
      var sp := if prefix == " " then before + " " else before;
      assert s == sp + sg + "" + dg + after;
      var radix := if readBase != 0 then readBase else 8;
      if ds == "" {
        OnlyZeros(dg, radix);
        OnlyZeros(dg, base);
        NotDigit();
      }
      ReadParts(sp, sg, "", dg, after, readBase, radix);
    }
  }

  /** %lld, and strtoll to base 10. */
  method SignedRoundTrip(x: int, f: Flags, width: int, precision: int) returns (y: int, range: bool)
    requires -1 - LLONG_MAX <= x <= LLONG_MAX
    ensures y == x && !range
  {
    hide Exact, Printed, Stands;
    var mag := if x < 0 then -x else x;
    var out, _, _, _ := PrintNumber(mag, x < 0, 10, false, f, width, precision);
    PrintedReads(mag, x < 0, 10, false, f, width, precision, 10);
    var end;
    y, end, range := StrToLL(out, 10);
  }

  /** %d, and strtol to base 10. */
  method IntRoundTrip(x: int, f: Flags, width: int, precision: int) returns (y: int, range: bool)
    requires -1 - LONG_MAX <= x <= LONG_MAX
    ensures y == x && !range
  {
    hide Exact, Printed, Stands;
    var mag := if x < 0 then -x else x;
    var out, _, _, _ := PrintNumber(mag, x < 0, 10, false, f, width, precision);
    PrintedReads(mag, x < 0, 10, false, f, width, precision, 10);
    var end;
    y, end, range := StrToL(out, 10);
  }

  /** %llu, %llx, %llX and %llo, which print no plus or space, and strtoull: to their own base, or to base 0 of
      what the # flag prints. */
  method UnsignedRoundTrip(v: nat, base: nat, upper: bool, f: Flags, width: int, precision: int, readBase: int)
    returns (y: int, range: bool)
    requires v < W64 && (base == 8 || base == 10 || base == 16)
    requires readBase == base || (readBase == 0 && f.alt && base != 10)
    ensures y == v && !range
  {
    hide Exact, Printed, Magnitude, Stands;
    var g := f.(plus := false, space := false);
    var out, _, _, _ := PrintNumber(v, false, base, upper, g, width, precision);
    PrintedReads(v, false, base, upper, g, width, precision, readBase);
    SameMagnitude(out, readBase, v);
    var end;
    y, end, range := StrToULL(out, readBase);
    SameResidue(y, v);
  }

  lemma SameMagnitude(s: string, base: int, v: nat)
    requires Exact(s, base) == v
    ensures Magnitude(s, base) == v
  {
    assert Magnitude(s, base) >= 0;
  }

  lemma SameResidue(y: int, v: int)
    requires 0 <= y < W64 && 0 <= v < W64 && (y - v) % W64 == 0
    ensures y == v
  {
  }
}

/**
 The calculator itself (desktop/apps/calc.c): what each key does, what every sequence of keys keeps, and that
 a sum typed in comes out right.
 */
module Calc {
  import opened Arithmetic
  import opened FixedPoint
  import opened FixedText
  import StrTo
  import Format

  // ----- entries -----

  function FindDot(s: string): (p: nat)
    ensures p <= |s| && (p < |s| ==> s[p] == '.') && forall k :: 0 <= k < p ==> s[k] != '.'
  {
    if s == "" || s[0] == '.' then 0 else 1 + FindDot(s[1..])
  }

  predicate IsFull(e: string)
  {
    var dot := FindDot(e);
    if dot < |e| then |e| - dot - 1 >= 6 else |e| - Start(e) >= 11
  }

  /** The entry with a digit more, if there is room; a lone zero gives way to it. */
  function Typed(e: string, d: char): string
  {
    if IsFull(e) then e
    else if e == "0" || e == "-0" then e[..|e| - 1] + [d]
    else e + [d]
  }

  function Pointed(e: string): string
  {
    if FindDot(e) == |e| then e + "." else e
  }

  function Shortened(e: string): string
    requires e != ""
  {
    var t := e[..|e| - 1];
    if t == "" || t == "-" then "0" else t
  }

  function Negated(e: string): string
    requires e != ""
  {
    if e == "0" then e else if e[0] == '-' then e[1..] else "-" + e
  }

  /** An entry taken apart. */
  lemma PartsOf(s: string) returns (sg: string, whole: string, dot: bool, frac: string)
    requires IsEntry(s)
    ensures (sg == "" || sg == "-") && 1 <= |whole| <= 11 && Decimal(whole) && |frac| <= 6 && Decimal(frac)
            && (!dot ==> frac == "")
    ensures s == sg + whole + (if dot then "." + frac else "")
    ensures FindDot(s) == |sg| + |whole| && Start(s) == |sg| && (dot <==> FindDot(s) < |s|)
  {
    hide Span;
    var b, w := Start(s), WholeEnd(s);
    sg, whole, dot := s[..b], s[b..w], w < |s|;
    frac := if dot then s[w + 1..] else "";
    ThreeParts(s, b, w);
    assert sg == "" || sg == "-";
    DotAt(s, w);
  }

  lemma ThreeParts(s: string, b: nat, w: nat)
    requires b <= w <= |s| && (w < |s| ==> s[w] == '.')
    ensures s == s[..b] + s[b..w] + if w < |s| then "." + s[w + 1..] else ""
  {
    assert s[..w] == s[..b] + s[b..w];
    assert s == s[..w] + s[w..];
    assert w < |s| ==> s[w..] == "." + s[w + 1..];
  }

  lemma {:induction false} DotAt(s: string, w: nat)
    requires w <= |s| && (forall k :: 0 <= k < w ==> s[k] != '.') && (w < |s| ==> s[w] == '.')
    ensures FindDot(s) == w
  {
    if w > 0 {
      DotAt(s[1..], w - 1);
    }
  }

  lemma DecimalMore(t: string, d: char)
    requires Decimal(t) && IsDigit(d)
    ensures Decimal(t + [d])
  {
  }

  lemma DecimalPart(t: string, n: nat)
    requires Decimal(t) && n <= |t|
    ensures Decimal(t[..n])
  {
  }

  lemma TypedEntry(e: string, d: char)
    requires IsDigit(d) && (e == "" || IsEntry(e))
    ensures IsEntry(Typed(e, d))
  {
    hide IsEntry;
    if e == "" {
      assert "" + [d] + "" == [d];
      EntryOf("", [d], false, "");
    } else {
      var sg, whole, dot, frac := PartsOf(e);
      if IsFull(e) {
      } else if e == "0" || e == "-0" {
        assert Typed(e, d) == sg + [d] + "" by { assert whole == "0" by { LoneZero(sg, whole, dot, frac, e); } }
        EntryOf(sg, [d], false, "");
      } else if dot {
        assert Typed(e, d) == sg + whole + ("." + (frac + [d]));
        DecimalMore(frac, d);
        EntryOf(sg, whole, true, frac + [d]);
      } else {
        assert Typed(e, d) == sg + (whole + [d]) + "";
        DecimalMore(whole, d);
        EntryOf(sg, whole + [d], false, "");
      }
    }
  }

  lemma LoneZero(sg: string, whole: string, dot: bool, frac: string, e: string)
    requires e == sg + whole + (if dot then "." + frac else "") && (sg == "" || sg == "-") && Decimal(whole)
             && |whole| >= 1
    requires e == "0" || e == "-0"
    ensures whole == "0" && !dot && sg == e[..|e| - 1]
  {
    assert e[|sg|] == whole[0] && IsDigit(whole[0]);
  }

  lemma PointedEntry(e: string)
    requires IsEntry(e)
    ensures IsEntry(Pointed(e))
  {
    hide IsEntry;
    var sg, whole, dot, frac := PartsOf(e);
    if !dot {
      assert Pointed(e) == sg + whole + ("." + "");
      EntryOf(sg, whole, true, "");
    }
  }

  lemma ShortenedEntry(e: string)
    requires IsEntry(e)
    ensures e != "" && IsEntry(Shortened(e))
  {
    hide IsEntry;
    var sg, whole, dot, frac := PartsOf(e);
    if frac != "" {
      assert Shortened(e) == sg + whole + ("." + frac[..|frac| - 1]);
      DecimalPart(frac, |frac| - 1);
      EntryOf(sg, whole, true, frac[..|frac| - 1]);
    } else if dot {
      assert e[..|e| - 1] == sg + whole;
      assert sg + whole != "" && sg + whole != "-" by { assert (sg + whole)[|sg|] == whole[0] && IsDigit(whole[0]); }
      assert Shortened(e) == sg + whole + "";
      EntryOf(sg, whole, false, "");
    } else if |whole| > 1 {
      var t := whole[..|whole| - 1];
      assert e[..|e| - 1] == sg + t;
      assert sg + t != "" && sg + t != "-" by { assert (sg + t)[|sg|] == t[0] && IsDigit(whole[0]); }
      assert Shortened(e) == sg + t + "";
      DecimalPart(whole, |whole| - 1);
      EntryOf(sg, t, false, "");
    } else {
      assert e[..|e| - 1] == sg;
      assert "" + "0" + "" == "0";
      EntryOf("", "0", false, "");
    }
  }

  lemma NegatedEntry(e: string)
    requires IsEntry(e)
    ensures e != "" && IsEntry(Negated(e)) && Value(Negated(e)) == -Value(e)
  {
    hide IsEntry, Value, StrTo.Number, Millionths;
    var sg, whole, dot, frac := PartsOf(e);
    var tail := if dot then "." + frac else "";
    EntryOf(sg, whole, dot, frac);
    EntryOf(if sg == "" then "-" else "", whole, dot, frac);
    if e == "0" {
      assert whole == "0" by { LoneZero(sg, whole, dot, frac, e); }
      ZeroValue();
    } else if sg == "-" {
      assert e[1..] == "" + whole + tail;
    } else {
      assert e[0] == whole[0] && IsDigit(whole[0]);
      assert "-" + e == "-" + whole + tail;
    }
  }

  lemma ZeroValue()
    ensures Value("0") == 0 && IsEntry("0")
  {
    assert "" + "0" + "" == "0";
    EntryOf("", "0", false, "");
    assert StrTo.Number("0", 10) == 0 by { Format.OnlyZeros("0", 10); }
  }

  lemma {:induction false} NumberBelow(t: string)
    requires Decimal(t)
    ensures 0 <= StrTo.Number(t, 10) < Ten(|t|)
  {
    hide StrTo.Number;
    if t == "" {
      StrTo.NumberNone("", 0, 10);
      assert ""[0..0] == "";
    } else {
      var u, c := t[..|t| - 1], t[|t| - 1];
      DecimalPart(t, |t| - 1);
      NumberBelow(u);
      assert t == u + [c];
      StrTo.NumberMore(u, c, 10);
      DecimalDigit(c);
    }
  }

  lemma {:induction false} TenMono(a: nat, b: nat)
    requires a <= b
    ensures Ten(a) <= Ten(b)
  {
    if a < b {
      TenMono(a, b - 1);
    }
  }

  /** An entry is a number within the limit. */
  lemma EntryWithin(e: string)
    requires IsEntry(e)
    ensures Within(Value(e))
  {
    hide IsEntry, Value, StrTo.Number, Ten;
    var sg, whole, dot, frac := PartsOf(e);
    EntryOf(sg, whole, dot, frac);
    NumberBelow(whole);
    TenMono(|whole|, 11);
    TenEleven();
    NumberBelow(frac);
    TenSum(|frac|, 6 - |frac|);
    TenSix();
    Scaled(StrTo.Number(frac, 10), Ten(|frac|), Ten(6 - |frac|));
  }

  lemma Scaled(n: int, a: nat, b: nat)
    requires 0 <= n < a && b > 0
    ensures 0 <= n * b <= a * b - b
  {
    MulMono(n + 1, a, b);
    MulMono(0, n, b);
  }

  lemma {:induction false} TenSum(a: nat, b: nat)
    ensures Ten(a) * Ten(b) == Ten(a + b)
  {
    if a > 0 {
      TenSum(a - 1, b);
      assert (10 * Ten(a - 1)) * Ten(b) == 10 * (Ten(a - 1) * Ten(b));
    }
  }

  /** What the typed digit makes of the magnitude: before the point, ten times as much and the digit; after it, the
      digit in its place. */
  function More(e: string, d: char): int
    requires IsDigit(d) && !IsFull(e)
  {
    var n, dot := (d - '0') as int, FindDot(e);
    if dot == |e| then 10 * Abs(Value(e)) + n * SCALE else Abs(Value(e)) + n * Ten(5 - (|e| - dot - 1))
  }

  lemma TypedValue(e: string, d: char)
    requires IsEntry(e) && IsDigit(d) && !IsFull(e)
    ensures Value(Typed(e, d)) == if e[0] == '-' then 0 - More(e, d) else More(e, d)
  {
    var sg, whole, dot, frac := PartsOf(e);
    hide *;
    SignFirst(sg, whole, if dot then "." + frac else "");
    if e == "0" || e == "-0" {
      LoneZero(sg, whole, dot, frac, e);
      TypedOnZero(sg, e, d);
    } else if dot {
      TypedAfterPoint(sg, whole, frac, e, d);
    } else {
      assert sg + whole + "" == sg + whole;
      TypedBeforePoint(sg, whole, e, d);
    }
  }

  lemma MoreIs(e: string, d: char, m: int, k: int)
    requires IsDigit(d) && !IsFull(e) && (Value(e) == m || Value(e) == 0 - m) && m >= 0 && k == |e| - FindDot(e) - 1
    ensures k == -1 ==> More(e, d) == 10 * m + StrTo.DigitValue(d) * SCALE
    ensures 0 <= k <= 5 ==> More(e, d) == m + StrTo.DigitValue(d) * Ten(5 - k)
  {
    hide Value, Ten, IsFull;
    DecimalDigit(d);
  }

  lemma TypedOnZero(sg: string, e: string, d: char)
    requires IsDigit(d) && (sg == "" || sg == "-") && e == sg + "0" && !IsFull(e) && FindDot(e) == |e|
    ensures Value(Typed(e, d)) == if sg == "-" then 0 - More(e, d) else More(e, d)
  {
    assert e == sg + "0" + "" && Typed(e, d) == sg + [d] + "";
    hide *;
    TypedOne(d);
    DecimalZero();
    EntryOf(sg, "0", false, "");
    EntryOf(sg, [d], false, "");
    MoreIs(e, d, 0, -1);
  }

  lemma DecimalZero()
    ensures Decimal("0") && Decimal("")
  {
  }

  lemma NonNegative(whole: string, frac: string)
    requires |frac| <= 6
    ensures StrTo.Number(whole, 10) * SCALE >= 0 && StrTo.Number(whole, 10) * SCALE + Millionths(frac) >= 0
  {
    hide StrTo.Number, Ten;
    MulMono(0, StrTo.Number(frac, 10), Ten(6 - |frac|));
  }

  lemma AppendWhole(sg: string, whole: string, d: char)
    ensures sg + whole + [d] == sg + (whole + [d]) + "" && sg + whole == sg + whole + ""
  {
  }

  lemma TypedBeforePoint(sg: string, whole: string, e: string, d: char)
    requires IsDigit(d) && (sg == "" || sg == "-") && e == sg + whole && e != "0" && e != "-0"
    requires 1 <= |whole| && Decimal(whole) && !IsFull(e) && FindDot(e) == |e| && Start(e) == |sg|
    ensures Value(Typed(e, d)) == if sg == "-" then 0 - More(e, d) else More(e, d)
  {
    hide *;
    TypedAppends(e, d);
    AppendWhole(sg, whole, d);
    DecimalZero();
    DecimalMore(whole, d);
    EntryOf(sg, whole, false, "");
    EntryOf(sg, whole + [d], false, "");
    TypedWhole(whole, d);
    NonNegative(whole, "");
    MoreIs(e, d, StrTo.Number(whole, 10) * SCALE, -1);
  }

  lemma TypedAppends(e: string, d: char)
    requires !IsFull(e) && e != "0" && e != "-0"
    ensures Typed(e, d) == e + [d]
    ensures if FindDot(e) < |e| then |e| - FindDot(e) - 1 < 6 else |e| - Start(e) < 11
  {
  }

  lemma AppendText(sg: string, whole: string, frac: string, d: char)
    ensures sg + whole + ("." + frac) + [d] == sg + whole + ("." + (frac + [d]))
  {
  }

  lemma TypedAfterPoint(sg: string, whole: string, frac: string, e: string, d: char)
    requires IsDigit(d) && (sg == "" || sg == "-") && e == sg + whole + ("." + frac) && e != "0" && e != "-0"
    requires 1 <= |whole| <= 11 && Decimal(whole) && Decimal(frac) && !IsFull(e) && FindDot(e) == |sg| + |whole|
    ensures Value(Typed(e, d)) == if sg == "-" then 0 - More(e, d) else More(e, d)
  {
    hide *;
    TypedAppends(e, d);
    AppendText(sg, whole, frac, d);
    DecimalMore(frac, d);
    EntryOf(sg, whole, true, frac);
    EntryOf(sg, whole, true, frac + [d]);
    TypedFrac(frac, d);
    NonNegative(whole, frac);
    MoreIs(e, d, StrTo.Number(whole, 10) * SCALE + Millionths(frac), |frac|);
  }

  lemma SignFirst(sg: string, whole: string, tail: string)
    requires (sg == "" || sg == "-") && whole != "" && Decimal(whole)
    ensures (sg + whole + tail)[0] == '-' <==> sg == "-"
  {
    assert sg == "" ==> (sg + whole + tail)[0] == whole[0] && IsDigit(whole[0]);
  }

  lemma TypedOne(d: char)
    requires IsDigit(d)
    ensures StrTo.Number("0", 10) == 0 && StrTo.Number([d], 10) == StrTo.DigitValue(d) && Decimal([d])
  {
    Format.OnlyZeros("0", 10);
    OneDigit(d);
  }

  lemma TypedFrac(frac: string, d: char)
    requires |frac| < 6 && Decimal(frac)
    ensures Millionths(frac + [d]) == Millionths(frac) + StrTo.DigitValue(d) * Ten(5 - |frac|) && Millionths(frac) >= 0
  {
    hide StrTo.Number, Ten, StrTo.With;
    StrTo.NumberMore(frac, d, 10);
    TenMore(5 - |frac|);
    OneMore(StrTo.Number(frac, 10), StrTo.DigitValue(d), Ten(5 - |frac|));
    NumberBelow(frac);
    Scaled(StrTo.Number(frac, 10), Ten(|frac|), Ten(6 - |frac|));
  }

  lemma TypedWhole(whole: string, d: char)
    requires Decimal(whole)
    ensures StrTo.Number(whole + [d], 10) == StrTo.Number(whole, 10) * 10 + StrTo.DigitValue(d)
            && StrTo.Number(whole, 10) >= 0
  {
    hide StrTo.Number;
    StrTo.NumberMore(whole, d, 10);
    WithIs(StrTo.Number(whole, 10), StrTo.DigitValue(d));
  }

  lemma OneDigit(d: char)
    ensures StrTo.Number([d], 10) == StrTo.DigitValue(d)
  {
    assert [d][..0] == "";
    assert StrTo.Number("", 10) == 0;
  }

  lemma WithIs(n: int, d: nat)
    ensures StrTo.With(n, 10, d) == n * 10 + d
  {
  }

  // ----- operators -----

  datatype Option<T> = None | Some(value: T)

  const NONE := '\0'

  predicate IsOperator(op: char)
  {
    op == '+' || op == '-' || op == '*' || op == '/'
  }

  /** What an operator gives, if that is within the limit; with no operator, the value itself. */
  function Outcome(op: char, a: int, b: int): Option<int>
  {
    var r := if op == '+' then Some(a + b) else if op == '-' then Some(a - b)
             else if op == '*' then Some(Rounded(a * b, SCALE))
             else if op == '/' then if b == 0 then None else Some(Rounded(a * SCALE, b))
             else Some(b);
    if r.Some? && Within(r.value) then r else None
  }

  /** C's division by 100, which truncates. */
  function Hundredth(v: int): (h: int)
    ensures if v < 0 then v <= 100 * h <= 0 && 100 * h < v + 100 else 0 <= 100 * h <= v < 100 * h + 100
  {
    if v < 0 then -(-v / 100) else v / 100
  }

  // ----- the calculator -----

  class Calculator {
    var acc: int
    var op: char
    var entry: string
    var typing: bool
    var shown: int
    var error: string

    ghost predicate Valid()
      reads this
    {
      && Within(acc) && Within(shown) && (op == NONE || IsOperator(op))
      && (typing ==> IsEntry(entry)) && |entry| < 24
    }

    ghost predicate Cleared()
      reads this
    {
      acc == 0 && op == NONE && entry == "" && !typing && shown == 0
    }

    /** The number that is displayed. */
    ghost function Showing(): int
      reads this
    {
      if typing then Value(entry) else shown
    }

    constructor ()
      ensures Valid() && Cleared() && error == ""
    {
      acc, op, entry, typing, shown, error := 0, NONE, "", false, 0, "";
    }

    method Clear()
      modifies this
      ensures Valid() && Cleared() && error == ""
    {
      acc, op, entry, typing, shown, error := 0, NONE, "", false, 0, "";
    }

    method Fail(why: string)
      modifies this
      ensures Valid() && Cleared() && error == why
    {
      Clear();
      error := why;
    }

    method Current() returns (v: int)
      requires Valid()
      ensures v == Showing() && Within(v)
    {
      if typing {
        v := Parse(entry);
        EntryWithin(entry);
      } else {
        v := shown;
      }
    }

    /** Applies the pending operator. */
    method Apply(value: int) returns (ok: bool)
      requires Valid() && Within(value)
      modifies this
      ensures Valid()
      ensures ok <==> Outcome(old(op), old(acc), value).Some?
      ensures ok ==> acc == shown == Outcome(old(op), old(acc), value).value
      ensures ok ==> op == old(op) && entry == old(entry) && typing == old(typing) && error == old(error)
      ensures !ok ==> Cleared() && error == if old(op) == '/' && value == 0 then "Divide by 0" else "Overflow"
    {
      hide Rounded, IsEntry;
      var r;
      ok, r := true, value;
      if op == '+' {
        ok, r := Add(acc, value);
      } else if op == '-' {
        ok, r := Add(acc, -value);
      } else if op == '*' {
        ok, r := Mul(acc, value);
      } else if op == '/' {
        if value == 0 {
          Fail("Divide by 0");
          return false;
        }
        ok, r := Divide(acc, value);
      }
      if !ok {
        Fail("Overflow");
        return false;
      }
      acc, shown := r, r;
    }

    method Digit(d: char)
      requires Valid() && IsDigit(d)
      modifies this
      ensures Valid() && typing && op == old(op) && shown == old(shown) && error == old(error)
      ensures acc == if old(typing) || old(op) != NONE then old(acc) else 0
      ensures entry == Typed(if old(typing) then old(entry) else "", d)
    {
      hide IsEntry;
      if !typing {
        if op == NONE {
          acc := 0;
        }
        entry := "";
        typing := true;
      }
      TypedEntry(entry, d);
      EntryLength(Typed(entry, d));
      var dot := FindDot(entry);
      var len := |entry|;
      var whole := (if dot < len then dot else len) - Start(entry);
      if (dot < len && len - dot - 1 >= 6) || (dot == len && whole >= 11) {
        return;
      }
      if entry == "0" || entry == "-0" {
        len := len - 1;
      }
      assert entry[..|entry|] == entry;
      entry := entry[..len] + [d];
    }

    method Point()
      requires Valid()
      modifies this
      ensures Valid() && typing && op == old(op) && shown == old(shown) && error == old(error)
      ensures acc == if old(typing) || old(op) != NONE then old(acc) else 0
      ensures entry == Pointed(if old(typing) then old(entry) else "0")
    {
      hide IsEntry;
      if !typing {
        if op == NONE {
          acc := 0;
        }
        entry := "0";
        typing := true;
        ZeroValue();
      }
      PointedEntry(entry);
      EntryLength(entry);
      EntryLength(Pointed(entry));
      if FindDot(entry) == |entry| && |entry| < 22 {
        entry := entry + ".";
      }
    }

    /** All but the operator and the error is as it was. */
    twostate predicate SameNumbers()
      reads this
    {
      acc == old(acc) && shown == old(shown) && entry == old(entry) && typing == old(typing)
    }

    /** An operator straight after another replaces it; any other does the one before it. */
    twostate predicate Operated(key: char)
      reads this
    {
      if old(!typing && op != NONE) then SameNumbers() && op == key && error == old(error)
      else match Outcome(old(op), old(acc), old(Showing()))
           case Some(r) => acc == shown == r && op == key && !typing && error == old(error)
           case None => Cleared() && error != ""
    }

    twostate predicate Equalled()
      reads this
    {
      && !typing && op == NONE
      && match Outcome(old(op), old(acc), old(Showing()))
         case Some(r) => acc == shown == r && error == old(error)
         case None => Cleared() && error != ""
    }

    /** What is shown is a hundredth: of itself, or with + and - of its product with the first operand. */
    twostate predicate Percented()
      reads this
    {
      var m := if old(op) == '+' || old(op) == '-' then Rounded(old(acc) * old(Showing()), SCALE) else old(Showing());
      if Within(m)
      then typing && shown == Value(entry) == Hundredth(m) && acc == old(acc) && op == old(op) && error == old(error)
      else Cleared() && error == "Overflow"
    }

    twostate predicate Turned()
      reads this
    {
      && op == old(op) && typing == old(typing) && error == old(error) && Showing() == -old(Showing())
      && acc == if old(typing) || old(op) != NONE then old(acc) else -old(shown)
    }

    twostate predicate Backed()
      reads this
    {
      && acc == old(acc) && op == old(op) && shown == old(shown) && typing == old(typing) && error == old(error)
      && entry == if old(typing) && old(entry) != "" then Shortened(old(entry)) else old(entry)
    }

    /** An operator does the one before it, if there is a second number to do it with. */
    method Operator(key: char)
      requires Valid() && IsOperator(key)
      modifies this
      ensures Valid() && Operated(key)
    {
      hide IsEntry, Outcome, Value;
      if typing || op == NONE {
        var v := Current();
        if op != NONE {
          var ok := Apply(v);
          if !ok {
            return;
          }
        } else {
          JustValue(acc, v);
          acc, shown := v, v;
        }
        typing := false;
      }
      op := key;
    }

    method Equals()
      requires Valid()
      modifies this
      ensures Valid() && Equalled()
    {
      hide IsEntry, Outcome, Value;
      var v := Current();
      if op == NONE {
        JustValue(acc, v);
        shown := v;
        acc := shown;
        typing := false;
        return;
      }
      var ok := Apply(v);
      if ok {
        op := NONE;
        typing := false;
      }
    }

    /** A percentage: of the number shown, or with + and - of the first operand. */
    method Percent()
      requires Valid()
      modifies this
      ensures Valid() && Percented()
    {
      hide IsEntry, Value, Rounded;
      var v := Current();
      var r := Hundredth(v);
      if op == '+' || op == '-' {
        var ok;
        ok, r := Mul(acc, v);
        if !ok {
          Fail("Overflow");
          return;
        }
        r := Hundredth(r);
      }
      shown := r;
      FormatReads(r);
      entry := FormatValue(r);
      typing := true;
    }

    method Negate()
      requires Valid()
      modifies this
      ensures Valid() && Turned()
    {
      hide IsEntry, Value;
      if typing {
        NegatedEntry(entry);
        EntryLength(entry);
        EntryLength(Negated(entry));
        if entry != "0" {
          if entry[0] == '-' {
            entry := entry[1..];
          } else if |entry| < 22 {
            entry := "-" + entry;
          }
        } else {
          ZeroValue();
        }
      } else {
        shown := -shown;
        if op == NONE {
          acc := shown;
        }
      }
    }

    method Backspace()
      requires Valid()
      modifies this
      ensures Valid() && Backed()
    {
      hide IsEntry;
      if typing && entry != "" {
        ShortenedEntry(entry);
        EntryLength(Shortened(entry));
        entry := entry[..|entry| - 1];
        if entry == "-" {
          entry := "";
        }
        if entry == "" {
          entry := "0";
        }
      }
    }

    /** A key; false if it means nothing to a calculator. */
    method Key(key: char) returns (known: bool)
      requires Valid()
      modifies this
      ensures Valid()
      ensures known == IsKey(key)
      ensures !known ==> SameNumbers() && op == old(op) && error == old(error)
      // after an error, only a digit or a point does more than clear it
      ensures known && old(error) != "" && !IsDigit(key) && key != '.' && key != ',' ==>
                SameNumbers() && op == old(op) && error == ""
      ensures IsDigit(key) ==>
                && typing && error == "" && op == old(op) && entry == Typed(if old(typing) then old(entry) else "", key)
                && acc == (if old(typing) || old(op) != NONE then old(acc) else 0)
      ensures key == '.' || key == ',' ==>
                && typing && error == "" && op == old(op) && entry == Pointed(if old(typing) then old(entry) else "0")
                && acc == (if old(typing) || old(op) != NONE then old(acc) else 0)
      ensures IsOperator(key) && old(error) == "" ==> Operated(key)
      ensures (key == 'x' || key == 'X') && old(error) == "" ==> Operated('*')
      ensures (key == '=' || key == '\n' || key == '\r') && old(error) == "" ==> Equalled()
      ensures key == '%' && old(error) == "" ==> Percented()
      ensures (key == 'c' || key == 'C' || key == '\U{1B}') && old(error) == "" ==> Cleared() && error == ""
      ensures (key == '\U{8}' || key == '\U{7F}') && old(error) == "" ==> Backed()
      ensures (key == 'n' || key == 'N') && old(error) == "" ==> Turned()
    {
      hide IsEntry, Outcome, Value, Typed, Pointed, Rounded, Shortened, Within;
      known := IsKey(key);
      if !known {
        return;
      }
      if error != "" {
        error := "";
        if !IsDigit(key) && key != '.' && key != ',' {
          return;
        }
      }
      if IsDigit(key) {
        Digit(key);
      } else if key == '.' || key == ',' {
        Point();
      } else if IsOperator(key) {
        Operator(key);
      } else if key == 'x' || key == 'X' {
        Operator('*');
      } else if key == '=' || key == '\n' || key == '\r' {
        Equals();
      } else if key == '%' {
        Percent();
      } else if key == 'c' || key == 'C' || key == '\U{1B}' {
        Clear();
      } else if key == '\U{8}' || key == '\U{7F}' {
        Backspace();
      } else {
        Negate();
      }
    }
  }

  predicate IsKey(key: char)
  {
    || IsDigit(key) || IsOperator(key) || key == '.' || key == ',' || key == 'x' || key == 'X' || key == '='
    || key == '\n' || key == '\r' || key == '%' || key == 'c' || key == 'C' || key == '\U{1B}' || key == '\U{8}'
    || key == '\U{7F}' || key == 'n' || key == 'N'
  }

  lemma JustValue(a: int, v: int)
    requires Within(v)
    ensures Outcome(NONE, a, v) == Some(v)
  {
  }

  lemma EntryLength(e: string)
    requires IsEntry(e)
    ensures |e| <= 19
  {
    hide IsEntry;
    var sg, whole, dot, frac := PartsOf(e);
  }

  /** Whatever is typed, the numbers stay within the limit and the entry keeps its form. */
  method Run(keys: string) returns (shown: string, c: Calculator)
    ensures c.Valid()
    ensures c.error == "" ==> IsEntry(shown) && Value(shown) == c.Showing() && Within(c.Showing())
  {
    hide IsEntry, Value;
    c := new Calculator();
    var i := 0;
    while i < |keys|
      invariant 0 <= i <= |keys| && c.Valid() && fresh(c)
    {
      var known := c.Key(keys[i]);
      i := i + 1;
    }
    if c.error != "" {
      shown := c.error;
    } else if c.typing {
      shown := c.entry;
      EntryWithin(c.entry);
    } else {
      FormatReads(c.shown);
      shown := FormatValue(c.shown);
    }
  }

  // ----- a sum, typed in -----

  /** The text of a number: a point only where it has decimals, and no zero first unless it is alone. */
  lemma TextParts(v: int) returns (whole: string, tail: string)
    requires 0 <= v && Within(v)
    ensures Text(v) == whole + tail && 1 <= |whole| <= 11 && Decimal(whole) && (whole[0] == '0' ==> whole == "0")
    ensures tail == "" || (tail[0] == '.' && 1 <= |tail| - 1 <= 6 && Decimal(tail[1..]))
  {
    hide WholeText, FracText, StrTo.Number;
    var w, f := v / SCALE, v % SCALE;
    FixedPoint.Split(v);
    whole := WholeText(w);
    WholeTextIs(w);
    NoLeadingZero(w);
    if f == 0 {
      tail := "";
    } else {
      FracTextIs(f);
      TrimReads(FracText(f));
      tail := "." + Trim(FracText(f));
      assert tail[1..] == Trim(FracText(f));
    }
  }

  lemma NoLeadingZero(w: nat)
    ensures WholeText(w) != "" && (WholeText(w)[0] == '0' ==> WholeText(w) == "0")
  {
    hide Format.DigitsOf, StrTo.Number;
    var ds := Format.DigitsOf(w, 10, false);
    Format.DigitsRead(w, 10, false);
    Format.DigitsNone(10, false);
    assert Format.Repeat(' ', 0) == "" && Format.Repeat('0', 0) == "";
    assert Format.Repeat('0', 1) == "0";
  }

  /** Each character of it, typed after those before it, is added. */
  lemma TypingText(v: int, i: nat)
    requires 0 <= v && Within(v) && i < |Text(v)|
    ensures var t := Text(v);
            if IsDigit(t[i]) then Typed(t[..i], t[i]) == t[..i + 1]
            else t[i] == '.' && i > 0 && Pointed(t[..i]) == t[..i + 1]
  {
    var whole, tail := TextParts(v);
    var t := Text(v);
    hide Text;
    assert t[..i + 1] == t[..i] + [t[i]];
    if i <= |whole| {
      assert t[..i] == whole[..i];
      assert forall k :: 0 <= k < i ==> IsDigit(t[..i][k]);
      DotAt(t[..i], i);
      if i < |whole| {
        assert IsDigit(t[i]);
        assert i > 0 ==> t[0] == whole[0];
        NotAlone(t[..i], whole);
      } else {
        assert t[i] == tail[0];
      }
    } else {
      assert t[|whole|] == '.';
      assert forall k :: 0 <= k < |whole| ==> IsDigit(t[..i][k]);
      DotAt(t[..i], |whole|);
      assert t[i] == tail[1..][i - |whole| - 1];
    }
  }

  lemma NotAlone(e: string, whole: string)
    requires e < whole && Decimal(whole) && (whole[0] == '0' ==> whole == "0")
    ensures e != "0" && e != "-0" && (e == "" || e[0] != '-')
  {
    assert e != "" ==> e[0] == whole[0] && IsDigit(whole[0]);
  }

  /** Types a number, as it is written. */
  method TypeNumber(c: Calculator, v: int)
    requires c.Valid() && !c.typing && c.error == "" && 0 <= v && Within(v)
    modifies c
    ensures c.Valid() && c.typing && c.error == "" && c.op == old(c.op) && c.Showing() == v
    ensures c.acc == if old(c.op) != NONE then old(c.acc) else 0
  {
    hide IsEntry, Value, Typed, Pointed, Text, Within, Outcome;
    FormatReads(v);
    var t := FormatValue(v);
    var i := 0;
    TextThere(v);
    while i < |t|
      invariant 0 <= i <= |t| && c.Valid() && c.error == "" && c.op == old(c.op)
      invariant i == 0 ==> !c.typing && c.acc == old(c.acc)
      invariant i > 0 ==> c.typing && c.entry == t[..i] && c.acc == if old(c.op) != NONE then old(c.acc) else 0
    {
      TypingText(v, i);
      assert i == 0 ==> t[..i] == "";
      var known := c.Key(t[i]);
      i := i + 1;
    }
    assert t[..i] == t;
  }

  lemma TextThere(v: int)
    requires 0 <= v && Within(v)
    ensures Text(v) != ""
  {
    var whole, tail := TextParts(v);
  }

  /** Types a number of either sign, the sign last. */
  method TypeSigned(c: Calculator, v: int)
    requires c.Valid() && !c.typing && c.error == "" && Within(v)
    modifies c
    ensures c.Valid() && c.typing && c.error == "" && c.op == old(c.op) && c.Showing() == v
    ensures c.acc == if old(c.op) != NONE then old(c.acc) else 0
  {
    hide IsEntry, Value, Typed, Pointed, Outcome;
    TypeNumber(c, if v < 0 then -v else v);
    if v < 0 {
      var known := c.Key('n');
    }
  }

  /** An operator and the number typed after it. */
  datatype Term = Term(op: char, n: int)

  predicate IsTerm(t: Term)
  {
    IsOperator(t.op) && Within(t.n)
  }

  /** Each operator done on the result of those before it. */
  function Chained(a: int, terms: seq<Term>): Option<int>
  {
    if terms == [] then Some(a)
    else match Chained(a, terms[..|terms| - 1])
         case None => None
         case Some(r) => Outcome(terms[|terms| - 1].op, r, terms[|terms| - 1].n)
  }

  /** Any numbers with operators between them, typed in until an error is shown, and =: what is shown is the operators
      done in turn, or an error at the first that has no result. Each is done when the next one, or =, is typed. */
  method Calculate(a: int, terms: seq<Term>) returns (shown: int, error: string, done: nat)
    requires Within(a) && forall i :: 0 <= i < |terms| ==> IsTerm(terms[i])
    ensures done <= |terms| && (error == "" <==> done == |terms|)
    ensures error == "" ==> Chained(a, terms) == Some(shown)
    ensures error != "" ==> Chained(a, terms[..done]).Some? && Chained(a, terms[..done + 1]).None?
  {
    hide IsEntry, Value, Typed, Pointed, Outcome, Within;
    var c := new Calculator();
    TypeSigned(c, a);
    JustValue(c.acc, a);
    assert terms[..0] == [];
    done := 0;
    var i := 0;
    while i < |terms|
      invariant 0 <= i <= |terms| && fresh(c) && c.Valid() && c.typing && c.error == ""
      invariant done == (if i == 0 then 0 else i - 1) && Chained(a, terms[..done]).Some?
      invariant Outcome(c.op, c.acc, c.Showing()) == Chained(a, terms[..i])
    {
      var known := c.Key(terms[i].op);
      if c.error != "" {
        return c.shown, c.error, done;
      }
      done := i;
      assert IsTerm(terms[i]);
      TypeSigned(c, terms[i].n);
      assert terms[..i + 1][..i] == terms[..i];
      i := i + 1;
    }
    assert terms[..i] == terms;
    var known := c.Key('=');
    shown, error := c.shown, c.error;
    if error == "" {
      done := |terms|;
    }
  }

  /** 2 + 3 * 4 = is 20. */
  lemma LeftToRight()
    ensures Chained(2 * SCALE, [Term('+', 3 * SCALE), Term('*', 4 * SCALE)]) == Some(20 * SCALE)
  {
    var terms := [Term('+', 3 * SCALE), Term('*', 4 * SCALE)];
    assert terms[..1] == [Term('+', 3 * SCALE)] && terms[..1][..0] == [];
    assert Chained(2 * SCALE, terms[..1]) == Some(5 * SCALE);
    assert Rounded(5 * SCALE * (4 * SCALE), SCALE) == 20 * SCALE;
  }

  /** = with no second number typed uses the first for both sides: 2 * = is 4. */
  method Doubled(a: int, op: char) returns (shown: int, error: string)
    requires Within(a) && IsOperator(op)
    ensures match Outcome(op, a, a)
            case Some(r) => error == "" && shown == r
            case None => error != ""
  {
    hide IsEntry, Value, Typed, Pointed, Outcome;
    var c := new Calculator();
    TypeSigned(c, a);
    JustValue(c.acc, a);
    var known := c.Key(op);
    known := c.Key('=');
    shown, error := c.shown, c.error;
  }

  /** A percentage of what is there, added to it or taken from it: 200 + 10 % = is 220. */
  method WithPercent(a: int, op: char, b: int) returns (shown: int, error: string)
    requires Within(a) && Within(b) && (op == '+' || op == '-')
    ensures var m := Rounded(a * b, SCALE);
            if !Within(m) then error != ""
            else match Outcome(op, a, Hundredth(m))
                 case Some(r) => error == "" && shown == r
                 case None => error != ""
  {
    hide IsEntry, Value, Typed, Pointed, Outcome, Rounded, Within;
    var c := new Calculator();
    TypeSigned(c, a);
    JustValue(c.acc, a);
    var known := c.Key(op);
    TypeSigned(c, b);
    known := c.Key('%');
    if c.error == "" {
      known := c.Key('=');
    }
    shown, error := c.shown, c.error;
  }
}

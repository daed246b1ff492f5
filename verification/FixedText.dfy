/**
 The calculator's numbers as text (desktop/apps/calc.c): format and parse.
 */
module FixedText {
  import opened FixedPoint
  import opened StrTo
  import opened Format

  predicate IsDigit(c: char)
  {
    '0' <= c <= '9'
  }

  // ----- reading -----

  /** The digits from p on. */
  function Span(s: string, p: nat): (q: nat)
    requires p <= |s|
    ensures p <= q <= |s| && (forall k :: p <= k < q ==> IsDigit(s[k])) && !IsDigit(CharAt(s, q))
    decreases |s| - p
  {
    if p < |s| && IsDigit(s[p]) then Span(s, p + 1) else p
  }

  lemma {:induction false} SpanIs(s: string, p: nat, q: nat)
    requires p <= q <= |s| && (forall k :: p <= k < q ==> IsDigit(s[k])) && !IsDigit(CharAt(s, q))
    ensures Span(s, p) == q
    decreases q - p
  {
    if p < q {
      SpanIs(s, p + 1, q);
    }
  }

  function Start(s: string): nat
  {
    if CharAt(s, 0) == '-' then 1 else 0
  }

  function WholeEnd(s: string): (q: nat)
    ensures Start(s) <= q <= |s|
  {
    Span(s, Start(s))
  }

  /** Where the decimals that count end: there are at most six. */
  function FracEnd(s: string): (q: nat)
    requires WholeEnd(s) < |s|
    ensures WholeEnd(s) + 1 <= q <= |s| && q <= WholeEnd(s) + 7
  {
    var p := WholeEnd(s) + 1;
    if Span(s, p) <= p + 6 then Span(s, p) else p + 6
  }

  /** Decimals, as so many millionths. */
  function Millionths(t: string): int
    requires |t| <= 6
  {
    Number(t, 10) * Ten(6 - |t|)
  }

  function Magnitude(s: string): int
  {
    var w := WholeEnd(s);
    Number(s[Start(s)..w], 10) * SCALE + if CharAt(s, w) == '.' then Millionths(s[w + 1..FracEnd(s)]) else 0
  }

  function Value(s: string): int
  {
    if CharAt(s, 0) == '-' then -Magnitude(s) else Magnitude(s)
  }

  method Parse(s: string) returns (v: int)
    ensures v == Value(s)
  {
    hide Number, Ten;
    var negative := CharAt(s, 0) == '-';
    var p := if negative then 1 else 0;
    var whole, frac := 0, 0;
    NumberNone(s, p, 10);
    while p < |s| && IsDigit(s[p])
      invariant Start(s) <= p <= |s| && Span(s, p) == Span(s, Start(s)) && whole == Number(s[Start(s)..p], 10)
    {
      NumberNext(s, Start(s), p, 10);
      DecimalDigit(s[p]);
      whole := whole * 10 + (s[p] - '0') as int;
      p := p + 1;
    }
    if CharAt(s, p) == '.' {
      frac := Decimals(s, p + 1);
    }
    v := whole * SCALE + frac;
    v := if negative then -v else v;
  }

  lemma DecimalDigit(c: char)
    requires IsDigit(c)
    ensures DigitValue(c) == (c - '0') as int && DigitValue(c) < 10
  {
  }

  /** The decimals from p on. */
  method Decimals(s: string, p: nat) returns (frac: int)
    requires p <= |s|
    ensures var q := if Span(s, p) <= p + 6 then Span(s, p) else p + 6; frac == Millionths(s[p..q])
  {
    hide Number, Ten;
    TenSix();
    frac := 0;
    var scale, i := SCALE / 10, p;
    TenMore(5);
    NumberNone(s, p, 10);
    while i < |s| && IsDigit(s[i]) && scale != 0
      invariant p <= i <= |s| && i <= p + 6 && Span(s, i) == Span(s, p)
      invariant scale == (if i < p + 6 then Ten(5 - (i - p)) else 0) && frac == Number(s[p..i], 10) * Ten(6 - (i - p))
    {
      NumberNext(s, p, i, 10);
      DecimalDigit(s[i]);
      TenMore(5 - (i - p));
      OneMore(Number(s[p..i], 10), DigitValue(s[i]), Ten(5 - (i - p)));
      frac := frac + (s[i] - '0') as int * scale;
      if i < p + 5 {
        TenMore(4 - (i - p));
      }
      scale := scale / 10;
      i := i + 1;
    }
  }

  lemma OneMore(n: int, d: nat, t: nat)
    ensures n * (10 * t) + d * t == With(n, 10, d) * t
  {
  }

  // ----- writing -----

  const PLAIN := Flags(false, false, false, false, false)
  const PADDED := Flags(false, true, false, false, false)

  function Trim(t: string): string
  {
    if t != "" && t[|t| - 1] == '0' then Trim(t[..|t| - 1]) else t
  }

  /** Whole numbers as %llu prints them, and decimals as %06llu does. */
  function WholeText(w: nat): string
  {
    Printed(w, false, 10, false, PLAIN, 0, -1)
  }

  function FracText(f: nat): string
  {
    Printed(f, false, 10, false, PADDED, 6, -1)
  }

  function Text(v: int): string
  {
    var u := Abs(v);
    (if v < 0 then "-" else "") + WholeText(u / SCALE)
    + (if u % SCALE == 0 then "" else "." + Trim(FracText(u % SCALE)))
  }

  method FormatValue(v: int) returns (out: string)
    requires Within(v)
    ensures out == Text(v)
  {
    hide Printed, Stands;
    var u := Abs(v);
    out := if v < 0 then "-" else "";
    var whole, _, _, _ := PrintNumber(u / SCALE, false, 10, false, PLAIN, 0, -1);
    out := out + whole;
    if u % SCALE != 0 {
      var head := out + ".";
      var frac, _, _, _ := PrintNumber(u % SCALE, false, 10, false, PADDED, 6, -1);
      out := head + frac;
      while out[|out| - 1] == '0'
        invariant |head| <= |out| && out[..|head|] == head && Trim(out[|head|..]) == Trim(frac)
        invariant head[|head| - 1] == '.' && |head| > 0
        decreases |out|
      {
        assert out[|out| - 1] != '.';
        assert out[|head|..][..|out| - 1 - |head|] == out[..|out| - 1][|head|..];
        out := out[..|out| - 1];
      }
      assert out == head + out[|head|..];
    }
  }

  ghost predicate Decimal(t: string)
  {
    forall i :: 0 <= i < |t| ==> IsDigit(t[i])
  }

  lemma {:induction false} DigitsLength(v: nat, k: nat)
    requires v < Ten(k)
    ensures |DigitsOf(v, 10, false)| <= k
  {
    if v > 0 {
      assert k > 0;
      DigitsLength(v / 10, k - 1);
    }
  }

  lemma DecimalIs(t: string)
    requires AllDigits(t, 10)
    ensures Decimal(t)
  {
    forall i | 0 <= i < |t| ensures IsDigit(t[i]) {
      assert DigitValue(t[i]) < 10;
    }
  }

  lemma WholeTextIs(w: nat)
    requires w <= WHOLE
    ensures var t := WholeText(w); 1 <= |t| <= 11 && Decimal(t) && Number(t, 10) == w
  {
    hide DigitsOf, Number, DigitValue;
    var ds := DigitsOf(w, 10, false);
    DigitsRead(w, 10, false);
    DigitsNone(10, false);
    TenEleven();
    DigitsLength(w, 11);
    var z := if |ds| == 0 then 1 else 0;
    assert WholeText(w) == Repeat('0', z) + ds by {
      assert Repeat(' ', 0) == "";
    }
    RepeatAll('0', z);
    ZerosRead(z, ds, 10);
    DecimalIs(Repeat('0', z) + ds);
  }

  lemma TenEleven()
    ensures Ten(11) == WHOLE + 1
  {
    TenSix();
    assert Ten(11) == 10 * Ten(10) && Ten(10) == 10 * Ten(9) && Ten(9) == 10 * Ten(8);
    assert Ten(8) == 10 * Ten(7) && Ten(7) == 10 * Ten(6);
  }

  lemma FracTextIs(f: nat)
    requires 0 < f < SCALE
    ensures var t := FracText(f); |t| == 6 && Decimal(t) && Number(t, 10) == f
  {
    hide DigitsOf, Number, DigitValue;
    var ds := DigitsOf(f, 10, false);
    DigitsRead(f, 10, false);
    TenSix();
    DigitsLength(f, 6);
    var z := 6 - |ds|;
    assert FracText(f) == Repeat('0', z) + ds by {
      assert Repeat(' ', 0) == "";
    }
    RepeatAll('0', z);
    ZerosRead(z, ds, 10);
    DecimalIs(Repeat('0', z) + ds);
  }

  /** Trailing zeros do not matter after the point. */
  lemma {:induction false} TrimReads(t: string)
    requires |t| <= 6 && Decimal(t)
    ensures |Trim(t)| <= |t| && Decimal(Trim(t)) && Millionths(Trim(t)) == Millionths(t)
    ensures Number(t, 10) > 0 ==> Trim(t) != ""
    decreases |t|
  {
    hide Number, Ten;
    if t != "" && t[|t| - 1] == '0' {
      var u := t[..|t| - 1];
      assert t == u + "0";
      NumberMore(u, '0', 10);
      ZeroDigit();
      TenMore(6 - |t|);
      OneMore(Number(u, 10), 0, Ten(6 - |t|));
      TrimReads(u);
    } else if t == "" {
      NumberNone("", 0, 10);
      assert ""[0..0] == "";
    }
  }

  lemma ZeroDigit()
    ensures DigitValue('0') == 0
  {
  }

  // ----- what is typed -----

  /** The form of a number being typed: -?d{1,11}(.d{0,6})? */
  predicate IsEntry(s: string)
  {
    var w := WholeEnd(s);
    1 <= w - Start(s) <= 11 && (w == |s| || (s[w] == '.' && Span(s, w + 1) == |s| && |s| - w - 1 <= 6))
  }

  /** Where the parts of an entry are. */
  lemma EntryParts(sg: string, whole: string, tail: string, s: string)
    requires s == sg + whole + tail && (sg == "" || sg == "-") && 1 <= |whole| && Decimal(whole)
    requires tail == "" || tail[0] == '.'
    ensures (CharAt(s, 0) == '-' <==> sg == "-") && Start(s) == |sg| && WholeEnd(s) == |sg| + |whole|
    ensures s[Start(s)..WholeEnd(s)] == whole && s[WholeEnd(s)..] == tail
    ensures CharAt(s, WholeEnd(s)) == if tail == "" then '\0' else '.'
  {
    var b, w := |sg|, |sg| + |whole|;
    assert s[b..w] == whole && s[w..] == tail;
    assert forall k :: b <= k < w ==> s[k] == whole[k - b];
    assert s[b] == whole[0] && IsDigit(whole[0]);
    assert CharAt(s, w) == if tail == "" then '\0' else tail[0];
    SpanIs(s, b, w);
  }

  lemma FracParts(s: string, w: nat, frac: string)
    requires WholeEnd(s) == w < |s| && s[w + 1..] == frac && Decimal(frac) && |frac| <= 6
    ensures Span(s, w + 1) == |s| && FracEnd(s) == |s| && s[w + 1..FracEnd(s)] == frac
  {
    assert forall k :: w + 1 <= k < |s| ==> s[k] == frac[k - w - 1];
    SpanIs(s, w + 1, |s|);
  }

  /** An entry by its parts. */
  lemma EntryOf(sg: string, whole: string, dot: bool, frac: string)
    requires (sg == "" || sg == "-") && 1 <= |whole| <= 11 && Decimal(whole) && |frac| <= 6 && Decimal(frac)
             && (!dot ==> frac == "")
    ensures var s, m := sg + whole + (if dot then "." + frac else ""),
                        Number(whole, 10) * SCALE + if dot then Millionths(frac) else 0;
            && IsEntry(s) && Value(s) == if sg == "-" then 0 - m else m
  {
    hide Number, Millionths, Decimal, Span;
    var tail := if dot then "." + frac else "";
    var s := sg + whole + tail;
    EntryParts(sg, whole, tail, s);
    if dot {
      var w := WholeEnd(s);
      assert s[w..][1..] == s[w + 1..] && tail[1..] == frac;
      FracParts(s, w, frac);
    }
  }

  /** What format writes, parse reads; and it is an entry. */
  lemma FormatReads(v: int)
    requires Within(v)
    ensures Value(Text(v)) == v && IsEntry(Text(v)) && |Text(v)| <= 19
  {
    hide WholeText, FracText, Value, IsEntry, Number, Millionths;
    var u := Abs(v);
    FixedPoint.Split(u);
    var sg, whole := if v < 0 then "-" else "", WholeText(u / SCALE);
    WholeTextIs(u / SCALE);
    if u % SCALE == 0 {
      assert Text(v) == sg + whole + "";
      EntryOf(sg, whole, false, "");
    } else {
      var frac := FracText(u % SCALE);
      FracTextIs(u % SCALE);
      TrimReads(frac);
      AllMillionths(frac);
      assert Text(v) == sg + whole + ("." + Trim(frac));
      EntryOf(sg, whole, true, Trim(frac));
    }
  }

  lemma AllMillionths(t: string)
    requires |t| == 6
    ensures Millionths(t) == Number(t, 10)
  {
    hide Number;
    TenSix();
  }
}

/**
 What changes a CRC-32 is sure to show. A message is taken bit by bit, the lowest bit of each byte first, as
 boot/bootarea.h does: whatever is changed within 32 bits in a row, at any place of a message of any length, changes
 its CRC.
 */
module CrcBursts {
  import opened Crc

  function One(b: bool): bv32
  {
    if b then 1 else 0
  }

  /** One bit of the message. */
  function Feed(crc: bv32, b: bool): bv32
  {
    Step(Xor(crc, One(b)))
  }

  function FeedAll(crc: bv32, s: seq<bool>): bv32
  {
    if s == [] then crc else Feed(FeedAll(crc, s[..|s| - 1]), s[|s| - 1])
  }

  /** The low n bits of a word, the lowest first. */
  function LowBits(w: bv32, n: nat): (r: seq<bool>)
    ensures |r| == n
  {
    if n == 0 then [] else [Odd(w)] + LowBits(Half(w), n - 1)
  }

  /** The bits of a message, in the order they go in. */
  function BitsOf(s: seq<bv8>): (r: seq<bool>)
    ensures |r| == 8 * |s|
  {
    if s == [] then [] else BitsOf(s[..|s| - 1]) + LowBits(Wide(s[|s| - 1]), 8)
  }

  // ----- bytes are bits -----

  /** The word has no bit set from bit n on. */
  predicate Fit(w: bv32, n: nat)
  {
    if n == 0 then w == 0 else Fit(Half(w), n - 1)
  }

  lemma {:induction false} FitHalves(w: bv32, n: nat)
    ensures Fit(w, n) <==> Halves(w, n) == 0
    decreases n
  {
    hide Half;
    if n > 0 {
      FitHalves(Half(w), n - 1);
    }
  }

  lemma ByteFits(b: bv8)
    ensures Fit(Wide(b), 8)
  {
    hide Half;
    FitHalves(Wide(b), 8);
    EightHalves(Wide(b));
    assert Shr8(Wide(b)) == 0;
  }

  function Double(x: bv32): bv32
  {
    x << 1
  }

  lemma LowestAndRest(w: bv32)
    ensures w == Xor(One(Odd(w)), Double(Half(w)))
  {
  }

  lemma DoubledBack(w: bv32)
    ensures Step(Double(Half(w))) == Half(w)
  {
    assert !Odd(Double(Half(w))) && Half(Double(Half(w))) == Half(w);
    hide Odd, Half, Double, Xor;
    XorLaws(Half(w), 0, 0);
  }

  lemma {:induction false} FeedConcat(crc: bv32, a: seq<bool>, b: seq<bool>)
    ensures FeedAll(crc, a + b) == FeedAll(FeedAll(crc, a), b)
  {
    hide Feed;
    if b == [] {
      assert a + b == a;
    } else {
      var t := b[..|b| - 1];
      assert (a + b)[..|a + b| - 1] == a + t;
      FeedConcat(crc, a, t);
    }
  }

  lemma FeedFirst(crc: bv32, b: bool, s: seq<bool>)
    ensures FeedAll(crc, [b] + s) == FeedAll(Feed(crc, b), s)
  {
    hide Feed;
    FeedConcat(crc, [b], s);
    assert [b][..0] == [];
    assert FeedAll(crc, [b]) == Feed(FeedAll(crc, []), b);
  }

  /** Bits that go in one by one may all be added first. */
  lemma {:induction false} FeedWord(x: bv32, w: bv32, n: nat)
    requires Fit(w, n)
    ensures FeedAll(x, LowBits(w, n)) == Steps(Xor(x, w), n)
    decreases n
  {
    hide Half, Odd, Xor, Step, Double;
    if n == 0 {
      XorLaws(x, 0, 0);
    } else {
      var b, h := One(Odd(w)), Half(w);
      FeedFirst(x, Odd(w), LowBits(h, n - 1));
      FeedWord(Feed(x, Odd(w)), h, n - 1);
      LowestAndRest(w);
      DoubledBack(w);
      StepLinear(Xor(x, b), Double(h));
      XorLaws(x, b, Double(h));
      StepsFirst(Xor(x, w), n);
    }
  }

  lemma {:induction false} BytesAreBits(crc: bv32, s: seq<bv8>)
    ensures Bytes(crc, s) == FeedAll(crc, BitsOf(s))
  {
    hide Steps, Xor, Wide, Feed, LowBits, Fit;
    if s != [] {
      var t, b := s[..|s| - 1], s[|s| - 1];
      BytesAreBits(crc, t);
      ByteFits(b);
      FeedWord(Bytes(crc, t), Wide(b), 8);
      FeedConcat(crc, BitsOf(t), LowBits(Wide(b), 8));
    }
  }

  // ----- bits that tell -----

  lemma {:induction false} FeedInjective(x: bv32, y: bv32, s: seq<bool>)
    requires FeedAll(x, s) == FeedAll(y, s)
    ensures x == y
  {
    hide Step, Xor, One;
    if s != [] {
      var t, b := s[..|s| - 1], s[|s| - 1];
      StepInjective(Xor(FeedAll(x, t), One(b)), Xor(FeedAll(y, t), One(b)));
      XorCancel(FeedAll(x, t), FeedAll(y, t), One(b));
      FeedInjective(x, y, t);
    }
  }

  lemma {:induction false} FitMore(w: bv32, n: nat, m: nat)
    requires Fit(w, n) && n <= m
    ensures Fit(w, m)
    decreases m
  {
    hide Half;
    if n > 0 {
      FitMore(Half(w), n - 1, m - 1);
    } else if m > 0 {
      assert Half(0) == 0 by { HalfZero(); }
      FitMore(0, 0, m - 1);
    }
  }

  lemma HalfZero()
    ensures Half(0) == 0
  {
  }

  lemma TopClear(w: bv32)
    requires Fit(w, 31)
    ensures w >> 31 == 0
  {
    hide Half;
    FitHalves(w, 31);
    HalvesSum(w, 8, 23);
    EightHalves(w);
    var a := Shr8(w);
    HalvesSum(a, 8, 15);
    EightHalves(a);
    var b := Shr8(a);
    HalvesSum(b, 8, 7);
    EightHalves(b);
    var c := Shr8(b);
    HalvesSum(c, 4, 3);
    FourHalves(c);
    LastThree(c >> 4);
    assert (c >> 4) >> 3 == w >> 31;
  }

  lemma LastThree(x: bv32)
    ensures Halves(x, 3) == x >> 3
  {
    ThreeHalves(x);
    assert Half(Half(Half(x))) == x >> 3;
  }

  lemma ThreeHalves(x: bv32)
    ensures Halves(x, 3) == Half(Half(Half(x)))
  {
    hide Half;
    assert Halves(Half(Half(x)), 1) == Halves(Half(Half(Half(x))), 0);
    assert Halves(Half(x), 2) == Halves(Half(Half(x)), 1);
  }

  /** A step that leaves the top bit clear only shifted. */
  lemma StepBack(y: bv32, n: nat)
    requires Fit(Step(y), n) && n <= 31
    ensures Fit(y, n + 1)
  {
    hide Half, Odd, Xor;
    FitMore(Step(y), n, 31);
    TopClear(Step(y));
    TopBit(y);
    assert !Odd(y) by { ClearTop(Step(y)); }
    XorLaws(Half(y), 0, 0);
  }

  lemma ClearTop(x: bv32)
    ensures x >> 31 == 0 ==> (x >> 31) & 1 != 1
  {
  }

  lemma SameHalf(y: bv32, a: bool, b: bool)
    ensures Half(Xor(y, Xor(One(a), One(b)))) == Half(y)
  {
  }

  /** States that differ in so few bits, so many bits of the message before, differed in that many more at most. */
  lemma {:induction false} Back(x: bv32, y: bv32, u: seq<bool>, v: seq<bool>, n: nat)
    requires |u| == |v| && n + |u| <= 32 && Fit(Xor(FeedAll(x, u), FeedAll(y, v)), n)
    ensures Fit(Xor(x, y), n + |u|)
    decreases |u|
  {
    hide Half, Xor, Step, One;
    if u != [] {
      var u', a, v', b := u[..|u| - 1], u[|u| - 1], v[..|v| - 1], v[|v| - 1];
      var p, q := FeedAll(x, u'), FeedAll(y, v');
      var d := Xor(Xor(p, One(a)), Xor(q, One(b)));
      StepLinear(Xor(p, One(a)), Xor(q, One(b)));
      StepBack(d, n);
      Shuffle(p, One(a), q, One(b));
      SameHalf(Xor(p, q), a, b);
      Back(x, y, u', v', n + 1);
    }
  }

  lemma OneStep(x: bv32)
    ensures Xor(Feed(x, false), Feed(x, true)) == POLY && Xor(Feed(x, true), Feed(x, false)) == POLY
  {
    hide Step, Xor;
    StepLinear(Xor(x, 0), Xor(x, 1));
    StepLinear(Xor(x, 1), Xor(x, 0));
    OnlyOne(x);
    assert Step(1) == POLY by { StepOne(); }
  }

  lemma OnlyOne(x: bv32)
    ensures Xor(Xor(x, 0), Xor(x, 1)) == 1 && Xor(Xor(x, 1), Xor(x, 0)) == 1
  {
  }

  lemma StepOne()
    ensures Step(1) == POLY
  {
  }

  /** From the same state, different bits lead to different states, up to 32 of them. */
  lemma {:induction false} WindowTells(x: bv32, u: seq<bool>, v: seq<bool>)
    requires |u| == |v| <= 32 && FeedAll(x, u) == FeedAll(x, v)
    ensures u == v
    decreases |u|
  {
    hide Xor, Feed, FeedAll, Fit;
    if u != [] {
      FeedFirst(x, u[0], u[1..]);
      FeedFirst(x, v[0], v[1..]);
      assert u == [u[0]] + u[1..] && v == [v[0]] + v[1..];
      if u[0] == v[0] {
        WindowTells(Feed(x, u[0]), u[1..], v[1..]);
      } else {
        var p, q := Feed(x, u[0]), Feed(x, v[0]);
        assert Fit(Xor(FeedAll(p, u[1..]), FeedAll(q, v[1..])), 0) by { FitNone(FeedAll(p, u[1..])); }
        Back(p, q, u[1..], v[1..], 0);
        OneStep(x);
        FitMore(POLY, |u| - 1, 31);
        TopClear(POLY);
        assert false;
      }
    }
  }

  lemma FitNone(x: bv32)
    ensures Fit(Xor(x, x), 0)
  {
  }

  // ----- bursts -----

  /** The messages differ in no bit before bit p, nor from bit p + 32 on. */
  ghost predicate Within32(s: seq<bv8>, t: seq<bv8>, p: nat)
  {
    && |s| == |t|
    && forall k :: 0 <= k < |BitsOf(s)| && (k < p || p + 32 <= k) ==> BitsOf(s)[k] == BitsOf(t)[k]
  }

  /** Any such change shows. */
  lemma BitBurst(s: seq<bv8>, t: seq<bv8>, p: nat)
    requires Within32(s, t, p) && s != t
    ensures Crc32(s) != Crc32(t)
  {
    hide Bytes, Not, FeedAll, BitsOf;
    var u, v := BitsOf(s), BitsOf(t);
    if Crc32(s) == Crc32(t) {
      NotInjective(Bytes(Not(0), s), Bytes(Not(0), t));
      BytesAreBits(Not(0), s);
      BytesAreBits(Not(0), t);
      SameBits(Not(0), u, v, p);
      BitsTell(s, t);
    }
  }

  lemma SameBits(x: bv32, u: seq<bool>, v: seq<bool>, p: nat)
    requires |u| == |v| && (forall k :: 0 <= k < |u| && (k < p || p + 32 <= k) ==> u[k] == v[k])
    requires FeedAll(x, u) == FeedAll(x, v)
    ensures u == v
  {
    hide FeedAll;
    var i := if p < |u| then p else |u|;
    var j := if i + 32 < |u| then i + 32 else |u|;
    var a := u[..i];
    assert a == v[..i] && u[j..] == v[j..];
    assert u == a + (u[i..j] + u[j..]) && v == a + (v[i..j] + u[j..]);
    FeedConcat(x, a, u[i..j] + u[j..]);
    FeedConcat(x, a, v[i..j] + u[j..]);
    var y := FeedAll(x, a);
    FeedConcat(y, u[i..j], u[j..]);
    FeedConcat(y, v[i..j], u[j..]);
    FeedInjective(FeedAll(y, u[i..j]), FeedAll(y, v[i..j]), u[j..]);
    WindowTells(y, u[i..j], v[i..j]);
  }

  lemma {:induction false} LowBitsTell(w: bv32, z: bv32, n: nat)
    requires Fit(w, n) && Fit(z, n) && LowBits(w, n) == LowBits(z, n)
    ensures w == z
    decreases n
  {
    hide Half, Odd;
    if n > 0 {
      assert LowBits(w, n)[1..] == LowBits(Half(w), n - 1) && LowBits(z, n)[1..] == LowBits(Half(z), n - 1);
      assert LowBits(w, n)[0] == Odd(w) && LowBits(z, n)[0] == Odd(z);
      LowBitsTell(Half(w), Half(z), n - 1);
      HalfAndOdd(w, z);
    }
  }

  lemma {:induction false} BitsTell(s: seq<bv8>, t: seq<bv8>)
    requires |s| == |t| && BitsOf(s) == BitsOf(t)
    ensures s == t
  {
    hide LowBits, Wide, Fit;
    if s != [] {
      var n := |s| - 1;
      assert BitsOf(s)[..8 * n] == BitsOf(s[..n]) && BitsOf(t)[..8 * n] == BitsOf(t[..n]);
      assert BitsOf(s)[8 * n..] == LowBits(Wide(s[n]), 8) && BitsOf(t)[8 * n..] == LowBits(Wide(t[n]), 8);
      ByteFits(s[n]);
      ByteFits(t[n]);
      LowBitsTell(Wide(s[n]), Wide(t[n]), 8);
      WideInjective(s[n], t[n]);
      BitsTell(s[..n], t[..n]);
      assert s == s[..n] + [s[n]] && t == t[..n] + [t[n]];
    }
  }

  /** In particular one byte, or up to four in a row, of a message however short. */
  lemma BytesWithin(s: seq<bv8>, t: seq<bv8>, i: nat, n: nat)
    requires |s| == |t| && n <= 4 && i + n <= |s| && s[..i] == t[..i] && s[i + n..] == t[i + n..]
    ensures Within32(s, t, 8 * i)
  {
    hide BitsOf;
    BitsConcat(s[..i], s[i..]);
    BitsConcat(t[..i], t[i..]);
    BitsConcat(s[..i + n], s[i + n..]);
    BitsConcat(t[..i + n], t[i + n..]);
    assert s == s[..i] + s[i..] == s[..i + n] + s[i + n..] && t == t[..i] + t[i..] == t[..i + n] + t[i + n..];
    forall k | 0 <= k < |BitsOf(s)| && (k < 8 * i || 8 * i + 32 <= k) ensures BitsOf(s)[k] == BitsOf(t)[k] {
      if k < 8 * i {
        assert BitsOf(s)[k] == BitsOf(s[..i])[k] && BitsOf(t)[k] == BitsOf(t[..i])[k];
      } else {
        assert BitsOf(s)[k] == BitsOf(s[i + n..])[k - 8 * (i + n)]
               && BitsOf(t)[k] == BitsOf(t[i + n..])[k - 8 * (i + n)];
      }
    }
  }

  lemma {:induction false} BitsConcat(a: seq<bv8>, b: seq<bv8>)
    ensures BitsOf(a + b) == BitsOf(a) + BitsOf(b)
  {
    hide LowBits, Wide;
    if b == [] {
      assert a + b == a;
    } else {
      var t := b[..|b| - 1];
      assert (a + b)[..|a + b| - 1] == a + t;
      BitsConcat(a, t);
    }
  }
}

/**
 The bounds-checked message helpers of the ZRP file server (libc/zrpsrv.c).

 A message on the wire is `size[4] type[1] tag[2] body`, integers little-endian.
 `Msg` is the server's cursor over a buffer: reading or writing past the end does
 nothing but mark the message bad, and a bad message is never sent.
 */
module ZrpMessages {
  import opened Arithmetic

  type Byte = n: int | 0 <= n < 256

  const HEADER := 7

  function Pow256(n: nat): (p: nat)
    ensures p > 0
  {
    if n == 0 then 1 else 256 * Pow256(n - 1)
  }

  /** The number a little-endian byte string denotes. */
  function LE(s: seq<Byte>): nat
  {
    if s == [] then 0 else s[0] + 256 * LE(s[1..])
  }

  /** The low `n` bytes of `v`, least significant first. */
  function Bytes(v: nat, n: nat): (s: seq<Byte>)
    ensures |s| == n
  {
    if n == 0 then [] else [v % 256] + Bytes(v / 256, n - 1)
  }

  lemma {:induction false} BytesRoundTrip(v: nat, n: nat)
    ensures LE(Bytes(v, n)) == v % Pow256(n)
  {
    if n > 0 {
      BytesRoundTrip(v / 256, n - 1);
      var p := Pow256(n - 1);
      assert Bytes(v, n)[1..] == Bytes(v / 256, n - 1);
      DivModMul(v, 256, p);
    }
  }

  lemma {:induction false} LEAppend(s: seq<Byte>, b: Byte)
    ensures LE(s + [b]) == LE(s) + Pow256(|s|) * b
  {
    if s == [] {
      assert LE([b]) == b + 256 * LE([]);
    } else {
      LEAppend(s[1..], b);
      assert (s + [b])[1..] == s[1..] + [b];
      assert 256 * (Pow256(|s| - 1) * b) == (256 * Pow256(|s| - 1)) * b;
    }
  }

  lemma {:induction false} BytesSnoc(v: nat, n: nat)
    ensures Bytes(v, n + 1) == Bytes(v, n) + [(v / Pow256(n)) % 256]
    ensures v / Pow256(n) / 256 == v / Pow256(n + 1)
  {
    DivModMul(v, Pow256(n), 256);
    if n == 0 {
      assert Bytes(v, 1) == [v % 256] + Bytes(v / 256, 0);
    } else {
      BytesSnoc(v / 256, n - 1);
      DivModMul(v, 256, Pow256(n - 1));
      assert Bytes(v, n) == [v % 256] + Bytes(v / 256, n - 1);
    }
  }

  lemma LEUnits()
    ensures Pow256(0) == 1 && LE([]) == 0 && forall v :: Bytes(v, 0) == []
  {
  }

  lemma Pow256Next(n: nat)
    requires n > 0
    ensures Pow256(n) == 256 * Pow256(n - 1)
  {
  }

  /** A string on the wire: its length in two bytes, then its bytes. */
  function Str(s: seq<Byte>): seq<Byte>
  {
    Bytes(|s|, 2) + s
  }

  /** A whole message. */
  function Frame(kind: Byte, tag: nat, body: seq<Byte>): seq<Byte>
  {
    Bytes(HEADER + |body|, 4) + [kind] + Bytes(tag, 2) + body
  }

  predicate WellFramed(m: seq<Byte>)
  {
    |m| >= HEADER && LE(m[..4]) == |m|
  }

  function TagOf(m: seq<Byte>): nat
    requires |m| >= HEADER
  {
    LE(m[5..7])
  }

  /** What is sent is well framed itself, and its receiver reads back its type, tag and body. */
  lemma FrameReadsBack(kind: Byte, tag: nat, body: seq<Byte>)
    requires tag < 0x10000 && HEADER + |body| < 0x1_0000_0000
    ensures var m := Frame(kind, tag, body);
            && WellFramed(m) && m[4] == kind && TagOf(m) == tag && m[HEADER..] == body
            && |m| == HEADER + |body|
  {
    hide Pow256, LE, Bytes;
    var m := Frame(kind, tag, body);
    assert m[..4] == Bytes(HEADER + |body|, 4);
    assert m[5..7] == Bytes(tag, 2);
    BytesRoundTrip(HEADER + |body|, 4);
    BytesRoundTrip(tag, 2);
    LEUnits();
    Pow256Next(1);
    Pow256Next(2);
    Pow256Next(3);
    Pow256Next(4);
  }

  /** Appending past the header leaves the header. */
  lemma HeadAndBody(a: seq<Byte>, p: nat, b: seq<Byte>, x: seq<Byte>)
    requires HEADER <= p <= |a| && p + |x| <= |b| && b[..p + |x|] == a[..p] + x
    ensures b[4..HEADER] == a[4..HEADER] && b[HEADER..p + |x|] == a[HEADER..p] + x
  {
    assert b[4..HEADER] == b[..p + |x|][4..HEADER];
    assert a[4..HEADER] == a[..p][4..HEADER];
    assert b[HEADER..p + |x|] == (a[..p] + x)[HEADER..];
  }

  class Msg {
    var buf: seq<Byte>
    var pos: nat
    var bad: bool

    ghost predicate Valid()
      reads this
    {
      pos <= |buf|
    }

    /** What has been written so far, or has been read past. */
    ghost function Done(): seq<Byte>
      reads this
      requires Valid()
    {
      buf[..pos]
    }

    /** The type and tag of a reply, and its body so far. */
    ghost function Head(): seq<Byte>
      reads this
      requires Valid() && pos >= HEADER
    {
      buf[4..HEADER]
    }

    ghost function Body(): seq<Byte>
      reads this
      requires Valid() && pos >= HEADER
    {
      buf[HEADER..pos]
    }

    constructor (bytes: seq<Byte>)
      ensures Valid() && buf == bytes && pos == 0 && !bad
    {
      buf, pos, bad := bytes, 0, false;
    }

    /** The position of the next `n` bytes, moving past them; -1 (NULL) when they do not fit. */
    method Take(n: nat) returns (at: int)
      requires Valid()
      modifies this`pos, this`bad
      ensures Valid()
      ensures bad <==> old(bad) || old(pos) + n > |buf|
      ensures !bad ==> at == old(pos) && pos == old(pos) + n
      ensures bad ==> at == -1 && pos == old(pos)
    {
      if bad || n > |buf| - pos {
        bad := true;
        return -1;
      }
      at := pos;
      pos := pos + n;
    }

    method Get(n: nat) returns (v: nat)
      requires Valid()
      modifies this`pos, this`bad
      ensures Valid()
      ensures bad <==> old(bad) || old(pos) + n > |buf|
      ensures !bad ==> pos == old(pos) + n && v == LE(buf[old(pos)..pos])
      ensures bad ==> v == 0
    {
      hide Pow256, LE;
      var at := Take(n);
      v := 0;
      var i: nat, scale: nat := 0, 1;
      assert Pow256(0) == 1 && LE([]) == 0 by { LEUnits(); }
      assert at >= 0 ==> buf[at..at] == [];
      while at >= 0 && i < n
        invariant 0 <= i <= n && scale == Pow256(i)
        invariant at < 0 ==> v == 0
        invariant at >= 0 ==> v == LE(buf[at..at + i])
        modifies {}
      {
        assert buf[at..at + i + 1] == buf[at..at + i] + [buf[at + i]];
        LEAppend(buf[at..at + i], buf[at + i]);
        v := v + scale * buf[at + i];
        i, scale := i + 1, 256 * scale;
        Pow256Next(i);
      }
    }

    /** A string shorter than `size`; the empty one, and a bad message, otherwise. */
    method GetStr(size: nat) returns (s: seq<Byte>)
      requires Valid()
      modifies this`pos, this`bad
      ensures Valid()
      ensures old(bad) ==> bad
      ensures bad ==> s == []
      ensures !bad ==> |s| < size && pos == old(pos) + 2 + |s| && s == buf[old(pos) + 2..pos]
                       && LE(buf[old(pos)..old(pos) + 2]) == |s|
      ensures bad <==> (old(bad) || old(pos) + 2 > |buf|
                        || old(pos) + 2 + LE(buf[old(pos)..old(pos) + 2]) > |buf|
                        || LE(buf[old(pos)..old(pos) + 2]) >= size)
    {
      var n := Get(2);
      var at := Take(n);
      if at < 0 || n >= size {
        bad := true;
        return [];
      }
      s := buf[at..at + n];
    }

    method Put(v: nat, n: nat)
      requires Valid()
      modifies this
      ensures Valid() && |buf| == old(|buf|)
      ensures bad <==> old(bad) || old(pos) + n > |buf|
      ensures !bad ==> Done() == old(Done()) + Bytes(v, n)
      ensures !bad && old(pos) >= HEADER ==> Head() == old(Head()) && Body() == old(Body()) + Bytes(v, n)
      ensures bad ==> pos == old(pos)
    {
      hide Pow256, Bytes;
      var at := Take(n);
      var i, rest := 0, v;
      assert Pow256(0) == 1 && Bytes(v, 0) == [] by { LEUnits(); }
      while at >= 0 && i < n
        invariant 0 <= i <= n && |buf| == old(|buf|)
        invariant rest == v / Pow256(i)
        invariant at >= 0 ==> buf[..at + i] == old(buf[..pos]) + Bytes(v, i)
        modifies this`buf
      {
        BytesSnoc(v, i);
        buf := buf[at + i := rest % 256];
        i, rest := i + 1, rest / 256;
        assert buf[..at + i] == buf[..at + i - 1] + [buf[at + i - 1]];
      }
      if at >= HEADER {
        HeadAndBody(old(buf), old(pos), buf, Bytes(v, n));
      }
    }

    /** Copies `s` in. */
    method PutBytes(s: seq<Byte>)
      requires Valid()
      modifies this
      ensures Valid() && |buf| == old(|buf|)
      ensures bad <==> old(bad) || old(pos) + |s| > |buf|
      ensures pos >= old(pos)
      ensures !bad ==> Done() == old(Done()) + s
      ensures !bad && old(pos) >= HEADER ==> Head() == old(Head()) && Body() == old(Body()) + s
    {
      var at := Take(|s|);
      if at >= 0 {
        buf := buf[..at] + s + buf[at + |s|..];
        assert buf[..at + |s|] == old(buf[..pos]) + s;
        if at >= HEADER {
          HeadAndBody(old(buf), old(pos), buf, s);
        }
      }
    }

    method PutStr(s: seq<Byte>)
      requires Valid()
      modifies this
      ensures Valid() && |buf| == old(|buf|)
      ensures bad <==> old(bad) || old(pos) + 2 + |s| > |buf|
      ensures pos >= old(pos)
      ensures !bad ==> Done() == old(Done()) + Str(s)
      ensures !bad && old(pos) >= HEADER ==> Head() == old(Head()) && Body() == old(Body()) + Str(s)
    {
      Put(|s|, 2);
      PutBytes(s);
      assert old(Done()) + Bytes(|s|, 2) + s == old(Done()) + Str(s);
      if !bad && old(pos) >= HEADER {
        HeadAndBody(old(buf), old(pos), buf, Str(s));
      }
    }

    /** Begins a reply of at most `|buf|` bytes, leaving room for its size. */
    method Start(kind: Byte, tag: nat)
      requires |buf| >= HEADER
      modifies this
      ensures Valid() && |buf| == old(|buf|) && !bad && pos == HEADER
      ensures Head() == [kind] + Bytes(tag, 2) && Body() == []
    {
      pos, bad := 4, false;
      Put(kind, 1);
      assert Bytes(kind, 1) == [kind % 256] + Bytes(kind / 256, 0);
      ghost var before := Done();
      Put(tag, 2);
      assert buf[4..5] == before[4..5] == [kind];
      assert buf[4..7] == buf[4..5] + buf[5..7];
    }

    /** Overwrites four bytes with a number. */
    method Patch(at: nat, v: nat)
      requires Valid() && at + 4 <= |buf|
      modifies this`buf
      ensures buf == old(buf)[..at] + Bytes(v, 4) + old(buf)[at + 4..]
    {
      hide Pow256, Bytes;
      var i: nat, rest := 0, v;
      assert Pow256(0) == 1 && Bytes(v, 0) == [] by { LEUnits(); }
      while i < 4
        invariant 0 <= i <= 4 && |buf| == old(|buf|)
        invariant rest == v / Pow256(i)
        invariant buf == old(buf)[..at] + Bytes(v, i) + old(buf)[at + i..]
      {
        BytesSnoc(v, i);
        buf := buf[at + i := rest % 256];
        i, rest := i + 1, rest / 256;
      }
    }

    /** Overwrites the number that is the first thing in a reply's body. */
    method PatchBody(v: nat)
      requires Valid() && pos >= HEADER + 4
      modifies this`buf
      ensures |buf| == old(|buf|)
      ensures Head() == old(Head()) && Body() == Bytes(v, 4) + old(Body())[4..]
    {
      Patch(HEADER, v);
      assert buf[4..HEADER] == old(buf[4..HEADER]);
      assert buf[HEADER..pos] == Bytes(v, 4) + old(buf)[HEADER + 4..pos];
    }

    /** The bytes to send: the buffer up to the position, its size filled in. */
    method Finish() returns (m: seq<Byte>)
      requires Valid() && pos >= HEADER
      modifies this`buf
      ensures |buf| == old(|buf|)
      ensures m == Bytes(pos, 4) + old(Head()) + old(Body())
    {
      Patch(0, pos);
      m := buf[..pos];
      assert m == buf[..4] + buf[4..7] + buf[7..pos];
      assert buf[4..7] == old(buf[4..7]) && buf[7..pos] == old(buf[7..pos]);
    }
  }
}

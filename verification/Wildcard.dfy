/**
 Two DOS wildcard matchers: the recursive one of ManiDOS (userland/dos/drives.c) and the greedy one,
 with a single place to go back to, of dosrun (userland/dosrun/dosapi.c).
 */
module Wildcard {

  function Upper(c: char): char
  {
    if 'a' <= c <= 'z' then c - 'a' + 'A' else c
  }

  /** One pattern character, not '*', against one of the name. */
  predicate Fits(p: char, c: char)
  {
    p == '?' || Upper(p) == Upper(c)
  }

  /** The pattern matches the whole name. */
  predicate Matches(p: string, n: string)
    decreases |p|, 0, |n|
  {
    if p == [] then n == []
    else if p[0] == '*' then AfterStar(p[1..], n)
    else n != [] && Fits(p[0], n[0]) && Matches(p[1..], n[1..])
  }

  /** The pattern matches some end of the name. */
  predicate AfterStar(p: string, n: string)
    decreases |p|, 1, |n|
  {
    Matches(p, n) || (n != [] && AfterStar(p, n[1..]))
  }

  // ----- what matching means -----

  /** The same character, or the same letter of A to Z in the other case. */
  predicate SameLetter(c: char, d: char)
  {
    c == d || ('a' <= c <= 'z' && d as int == c as int - 32) || ('A' <= c <= 'Z' && d as int == c as int + 32)
  }

  predicate Piece(p: char, s: string)
  {
    p == '*' || (|s| == 1 && (p == '?' || SameLetter(p, s[0])))
  }

  function Concat(pieces: seq<string>): string
  {
    if pieces == [] then [] else pieces[0] + Concat(pieces[1..])
  }

  /** The name falls into pieces, one for each character of the pattern. */
  ghost predicate Cuts(p: string, n: string, pieces: seq<string>)
  {
    |pieces| == |p| && Concat(pieces) == n && forall i :: 0 <= i < |p| ==> Piece(p[i], pieces[i])
  }

  ghost predicate Denotes(p: string, n: string)
  {
    exists pieces :: Cuts(p, n, pieces)
  }

  ghost predicate SameLetters(s: string, t: string)
  {
    |s| == |t| && forall i :: 0 <= i < |s| ==> SameLetter(s[i], t[i])
  }

  /** The case of the letters of the pattern and of the name does not matter. */
  lemma {:induction false} CaseBlind(p: string, p': string, n: string, n': string)
    requires SameLetters(p, p') && SameLetters(n, n')
    ensures Matches(p, n) == Matches(p', n') && AfterStar(p, n) == AfterStar(p', n')
    decreases |p|, |n|
  {
    if p != [] {
      CaseBlind(p[1..], p'[1..], n, n');
      if n != [] {
        CaseBlind(p[1..], p'[1..], n[1..], n'[1..]);
      }
    }
    if n != [] {
      CaseBlind(p, p', n[1..], n'[1..]);
    }
  }

  lemma {:induction false} AfterStarEnds(p: string, n: string)
    ensures AfterStar(p, n) <==> exists k :: 0 <= k <= |n| && Matches(p, n[k..])
  {
    assert n[0..] == n;
    if n != [] {
      AfterStarEnds(p, n[1..]);
      var t := n[1..];
      if k :| 0 <= k <= |t| && Matches(p, t[k..]) {
        assert n[k + 1..] == t[k..];
      }
      if k :| 0 <= k <= |n| && Matches(p, n[k..]) {
        assert k > 0 ==> t[k - 1..] == n[k..];
      }
    }
  }

  lemma {:induction false} MatchesMeans(p: string, n: string)
    ensures Matches(p, n) <==> Denotes(p, n)
    decreases |p|
  {
    if p == [] {
      assert Concat([]) == [];
      if n == [] {
        assert Cuts(p, n, []);
      }
    } else {
      if Matches(p, n) {
        MeansCut(p, n);
      }
      if pieces :| Cuts(p, n, pieces) {
        CutMeans(p, n, pieces);
      }
    }
  }

  lemma MeansCut(p: string, n: string)
    requires p != [] && Matches(p, n)
    ensures Denotes(p, n)
    decreases |p|, 0
  {
    var k := 1;
    if p[0] == '*' {
      AfterStarEnds(p[1..], n);
      k :| 0 <= k <= |n| && Matches(p[1..], n[k..]);
    }
    MatchesMeans(p[1..], n[k..]);
    var rest :| Cuts(p[1..], n[k..], rest);
    var pieces := [n[..k]] + rest;
    assert pieces[1..] == rest && n == n[..k] + n[k..];
    assert Cuts(p, n, pieces);
  }

  lemma CutMeans(p: string, n: string, pieces: seq<string>)
    requires p != [] && Cuts(p, n, pieces)
    ensures Matches(p, n)
    decreases |p|, 0
  {
    var k := |pieces[0]|;
    assert n[k..] == Concat(pieces[1..]) && n[..k] == pieces[0];
    assert Cuts(p[1..], n[k..], pieces[1..]);
    MatchesMeans(p[1..], n[k..]);
    AfterStarEnds(p[1..], n);
    assert Piece(p[0], pieces[0]);
  }

  // ----- ManiDOS -----

  method MatchHere(p: string, n: string) returns (r: bool)
    ensures r == Matches(p, n)
    decreases |p|
  {
    var i, j := 0, 0;
    while i < |p|
      invariant 0 <= i <= |p| && 0 <= j <= |n|
      invariant Matches(p, n) == Matches(p[i..], n[j..])
    {
      assert p[i..][1..] == p[i + 1..];
      if p[i] == '*' {
        while true
          invariant 0 <= j <= |n| && Matches(p, n) == AfterStar(p[i + 1..], n[j..])
          decreases |n| - j
        {
          var found := MatchHere(p[i + 1..], n[j..]);
          if found {
            return true;
          }
          if j == |n| {
            return false;
          }
          assert n[j..][1..] == n[j + 1..];
          j := j + 1;
        }
      }
      if j == |n| || (p[i] != '?' && Upper(p[i]) != Upper(n[j])) {
        return false;
      }
      assert n[j..][1..] == n[j + 1..];
      i, j := i + 1, j + 1;
    }
    r := j == |n|;
  }

  /** "NAME.": a name with no extension. */
  predicate NoExtension(p: string)
  {
    |p| > 1 && p[|p| - 1] == '.' && p[|p| - 2] != '.'
  }

  ghost predicate WildSpec(p: string, n: string)
  {
    if p == "*.*" then true
    else if NoExtension(p) then '.' !in n && Matches(p[..|p| - 1], n)
    else Matches(p, n)
  }

  method WildMatch(p: string, n: string) returns (r: bool)
    ensures r == WildSpec(p, n)
  {
    if p == "*.*" {
      return true;
    }
    if |p| > 1 && p[|p| - 1] == '.' && p[|p| - 2] != '.' {
      if '.' in n {
        return false;
      }
      r := MatchHere(p[..|p| - 1], n);
      return;
    }
    r := MatchHere(p, n);
  }

  // ----- dosrun -----

  function DosPattern(p: string): string
  {
    if p == "*.*" then "*" else p
  }

  /** The characters of `seg`, none of them '*', fit those of the name one by one. */
  ghost predicate FitsAll(seg: string, n: string)
  {
    |seg| == |n| && '*' !in seg && forall i :: 0 <= i < |seg| ==> Fits(seg[i], n[i])
  }

  lemma {:induction false} FitsThen(seg: string, q: string, s: string, n: string)
    requires FitsAll(seg, s)
    ensures Matches(seg + q, s + n) <==> Matches(q, n)
  {
    if seg == [] {
      assert seg + q == q && s + n == n;
    } else {
      FitsThen(seg[1..], q, s[1..], n);
      assert (seg + q)[1..] == seg[1..] + q && (s + n)[1..] == s[1..] + n;
      assert (seg + q)[0] == seg[0] && (s + n)[0] == s[0];
      assert seg[0] in seg;
    }
  }

  /** A pattern that starts with `seg` takes exactly that many characters first. */
  lemma {:induction false} SegmentFirst(seg: string, q: string, n: string)
    requires '*' !in seg && Matches(seg + q, n)
    ensures |seg| <= |n| && Matches(q, n[|seg|..])
  {
    if seg == [] {
      assert seg + q == q && n[0..] == n;
    } else {
      assert (seg + q)[0] == seg[0] && seg[0] in seg && (seg + q)[1..] == seg[1..] + q;
      SegmentFirst(seg[1..], q, n[1..]);
      assert n[1..][|seg| - 1..] == n[|seg|..];
    }
  }

  /** What matches after skipping more matches after skipping less. */
  lemma {:induction false} SkipLess(p: string, n: string, a: nat, b: nat)
    requires a <= b <= |n| && AfterStar(p, n[b..])
    ensures AfterStar(p, n[a..])
    decreases b - a
  {
    if a < b {
      SkipLess(p, n, a + 1, b);
      assert n[a..][1..] == n[a + 1..];
    }
  }

  /** Once the text between two stars has been found, an earlier star need never be tried again. */
  lemma ForgetStar(seg: string, q: string, n: string, retry: nat, at: nat)
    requires retry <= at <= |n| && FitsAll(seg, n[retry..at])
    ensures AfterStar(seg + "*" + q, n[retry..]) <==> AfterStar(q, n[at..])
  {
    hide Matches, AfterStar;
    var p, sq := seg + "*" + q, "*" + q;
    assert p == seg + sq && sq[1..] == q && sq[0..] == sq && n[retry..] == n[retry..at] + n[at..];
    Unfold(sq, n, 0, at);
    FitsThen(seg, sq, n[retry..at], n[at..]);
    AfterStarEnds(p, n[retry..]);
    assert n[retry..][0..] == n[retry..];
    if AfterStar(p, n[retry..]) {
      var k :| 0 <= k <= |n[retry..]| && Matches(p, n[retry..][k..]);
      var from := retry + k;
      assert n[retry..][k..] == n[from..];
      SegmentFirst(seg, sq, n[from..]);
      assert n[from..][|seg|..] == n[from + |seg|..];
      Unfold(sq, n, 0, from + |seg|);
      SkipLess(q, n, at, from + |seg|);
    }
  }

  /** When the name ends right after that text, only what is left of the pattern matters. */
  lemma AtEnd(seg: string, q: string, n: string, retry: nat)
    requires retry <= |n| && FitsAll(seg, n[retry..])
    ensures AfterStar(seg + q, n[retry..]) <==> Matches(q, [])
  {
    assert n[retry..] == n[retry..] + [];
    FitsThen(seg, q, n[retry..], []);
    if AfterStar(seg + q, n[retry..]) {
      AfterStarEnds(seg + q, n[retry..]);
      var k :| 0 <= k <= |n[retry..]| && Matches(seg + q, n[retry..][k..]);
      SegmentFirst(seg, q, n[retry..][k..]);
      assert n[retry..][0..] == n[retry..];
    }
  }

  /** A misfit after it: the text must be looked for further on. */
  lemma Misfit(seg: string, q: string, n: string, retry: nat, at: nat)
    requires retry <= at < |n| && FitsAll(seg, n[retry..at])
    requires q != [] ==> q[0] != '*' && !Fits(q[0], n[at])
    ensures AfterStar(seg + q, n[retry..]) <==> AfterStar(seg + q, n[retry + 1..])
  {
    assert n[retry..] == n[retry..at] + n[at..];
    FitsThen(seg, q, n[retry..at], n[at..]);
    assert n[retry..][1..] == n[retry + 1..];
  }

  lemma {:induction false} AllStars(p: string)
    ensures Matches(p, []) <==> forall i :: 0 <= i < |p| ==> p[i] == '*'
  {
    if p != [] {
      AllStars(p[1..]);
      assert AfterStar(p[1..], []) == Matches(p[1..], []);
    }
  }

  /** The greedy matcher is at p[i] and n[j], with the last '*' at `star` (-1 for none) having taken n up to `retry`. */
  ghost predicate Progress(p: string, n: string, i: int, j: int, star: int, retry: int)
  {
    && 0 <= i <= |p| && 0 <= retry <= j <= |n| && -1 <= star < i && (star >= 0 ==> p[star] == '*')
    && (Matches(p[i..], n[j..]) ==> Matches(p, n))
    && (star >= 0 && retry < |n| && AfterStar(p[star + 1..], n[retry + 1..]) ==> Matches(p, n))
    && ('*' !in n ==> Exact(p, n, i, j, star, retry))
  }

  /** Where it is decides the match: from here on if there is no '*' to go back to, from the last '*' on if there is. */
  ghost predicate Exact(p: string, n: string, i: int, j: int, star: int, retry: int)
    requires 0 <= i <= |p| && 0 <= retry <= j <= |n| && -1 <= star < i
  {
    if star < 0 then Matches(p, n) == Matches(p[i..], n[j..])
    else Matches(p, n) == AfterStar(p[star + 1..], n[retry..]) && FitsAll(p[star + 1..i], n[retry..j])
  }

  /** Matching from p[i] and n[j], one step of it. */
  lemma Unfold(p: string, n: string, i: nat, j: nat)
    requires i <= |p| && j <= |n|
    ensures i < |p| && p[i] == '*' ==> Matches(p[i..], n[j..]) == AfterStar(p[i + 1..], n[j..])
    ensures i < |p| && p[i] != '*' ==>
              Matches(p[i..], n[j..]) == (j < |n| && Fits(p[i], n[j]) && Matches(p[i + 1..], n[j + 1..]))
    ensures AfterStar(p[i..], n[j..]) == (Matches(p[i..], n[j..]) || (j < |n| && AfterStar(p[i..], n[j + 1..])))
  {
    if i < |p| {
      assert p[i..][1..] == p[i + 1..];
    }
    if j < |n| {
      assert n[j..][1..] == n[j + 1..];
    }
  }

  lemma FitsOneMore(seg: string, s: string, p: char, c: char)
    requires FitsAll(seg, s) && p != '*' && Fits(p, c)
    ensures FitsAll(seg + [p], s + [c])
  {
  }

  lemma FitsStar(p: char, n: string, j: nat)
    requires j < |n| && Fits(p, n[j])
    ensures '*' !in n ==> p != '*'
  {
    assert n[j] in n;
  }

  lemma PastPattern(p: string, n: string, i: nat, j: nat)
    requires i <= |p| && j < |n|
    ensures i == |p| ==> !Matches(p[i..], n[j..])
  {
  }

  lemma StepOn(p: string, n: string, i: int, j: int, star: int, retry: int)
    requires Progress(p, n, i, j, star, retry) && i < |p| && j < |n| && Fits(p[i], n[j])
    ensures Progress(p, n, i + 1, j + 1, star, retry)
  {
    hide Matches, AfterStar, Exact;
    Unfold(p, n, i, j);
    if p[i] == '*' {
      Unfold(p, n, i + 1, j);
      Unfold(p, n, i + 1, j + 1);
    }
    if '*' !in n {
      FitsStar(p[i], n, j);
      ExactOn(p, n, i, j, star, retry);
    }
  }

  lemma ExactOn(p: string, n: string, i: int, j: int, star: int, retry: int)
    requires 0 <= i < |p| && 0 <= retry <= j < |n| && -1 <= star < i && p[i] != '*' && Fits(p[i], n[j])
    requires Exact(p, n, i, j, star, retry)
    ensures Exact(p, n, i + 1, j + 1, star, retry)
  {
    hide Matches, AfterStar, FitsAll, Fits;
    if star < 0 {
      Unfold(p, n, i, j);
    } else {
      FitsOneMore(p[star + 1..i], n[retry..j], p[i], n[j]);
      assert p[star + 1..i + 1] == p[star + 1..i] + [p[i]] && n[retry..j + 1] == n[retry..j] + [n[j]];
    }
  }

  lemma NewStar(p: string, n: string, i: int, j: int, star: int, retry: int)
    requires Progress(p, n, i, j, star, retry) && i < |p| && p[i] == '*'
    ensures Progress(p, n, i + 1, j, i, j)
  {
    hide Matches, AfterStar;
    Unfold(p, n, i, j);
    Unfold(p, n, i + 1, j);
    if '*' !in n && star >= 0 {
      assert p[star + 1..] == p[star + 1..i] + "*" + p[i + 1..];
      ForgetStar(p[star + 1..i], p[i + 1..], n, retry, j);
    }
    assert p[i + 1..i + 1] == [] && n[j..j] == [];
  }

  lemma GoBack(p: string, n: string, i: int, j: int, star: int, retry: int)
    requires Progress(p, n, i, j, star, retry) && star >= 0 && j < |n|
    requires i < |p| ==> p[i] != '*' && !Fits(p[i], n[j])
    ensures Progress(p, n, star + 1, retry + 1, star, retry + 1)
  {
    hide Matches, AfterStar;
    Unfold(p, n, star + 1, retry + 1);
    if '*' !in n {
      assert p[star + 1..] == p[star + 1..i] + p[i..];
      Misfit(p[star + 1..i], p[i..], n, retry, j);
    }
    assert p[star + 1..star + 1] == [] && n[retry + 1..retry + 1] == [];
  }

  lemma NameEnds(p: string, n: string, i: int, star: int, retry: int)
    requires Progress(p, n, i, |n|, star, retry)
    ensures (forall k :: i <= k < |p| ==> p[k] == '*') ==> Matches(p, n)
    ensures '*' !in n && Matches(p, n) ==> forall k :: i <= k < |p| ==> p[k] == '*'
  {
    var q := p[i..];
    AllStars(q);
    assert n[|n|..] == [];
    assert forall k :: i <= k < |p| ==> p[k] == q[k - i];
    assert forall k :: 0 <= k < |q| ==> q[k] == p[i + k];
    if '*' !in n && star >= 0 {
      assert p[star + 1..] == p[star + 1..i] + q && n[retry..|n|] == n[retry..];
      AtEnd(p[star + 1..i], q, n, retry);
    }
  }

  /** What the greedy matcher answers from where it is. */
  predicate Greedy(p: string, n: string, i: nat, j: nat, star: int, retry: nat)
    requires i <= |p| && retry <= j <= |n| && -1 <= star < i
    decreases |n| - retry, |p| - star, |n| - j
  {
    if j == |n| then forall k :: i <= k < |p| ==> p[k] == '*'
    else if i < |p| && Fits(p[i], n[j]) then Greedy(p, n, i + 1, j + 1, star, retry)
    else if i < |p| && p[i] == '*' then Greedy(p, n, i + 1, j, i, j)
    else star >= 0 && Greedy(p, n, star + 1, retry + 1, star, retry + 1)
  }

  /** Whatever it accepts matches, and for a name without '*' it accepts all that does. */
  lemma {:induction false} GreedyIs(p: string, n: string, i: nat, j: nat, star: int, retry: nat)
    requires Progress(p, n, i, j, star, retry)
    ensures Greedy(p, n, i, j, star, retry) ==> Matches(p, n)
    ensures '*' !in n ==> Greedy(p, n, i, j, star, retry) == Matches(p, n)
    decreases |n| - retry, |p| - star, |n| - j
  {
    hide Matches, AfterStar, FitsAll, Progress;
    assert i <= |p| && retry <= j <= |n| && -1 <= star < i by {
      InProgress(p, n, i, j, star, retry);
    }
    if j == |n| {
      NameEnds(p, n, i, star, retry);
    } else if i < |p| && Fits(p[i], n[j]) {
      StepOn(p, n, i, j, star, retry);
      GreedyIs(p, n, i + 1, j + 1, star, retry);
    } else if i < |p| && p[i] == '*' {
      NewStar(p, n, i, j, star, retry);
      GreedyIs(p, n, i + 1, j, i, j);
    } else if star >= 0 {
      GoBack(p, n, i, j, star, retry);
      GreedyIs(p, n, star + 1, retry + 1, star, retry + 1);
    } else {
      NoWay(p, n, i, j, retry);
    }
  }

  lemma InProgress(p: string, n: string, i: int, j: int, star: int, retry: int)
    requires Progress(p, n, i, j, star, retry)
    ensures 0 <= i <= |p| && 0 <= retry <= j <= |n| && -1 <= star < i
  {
  }

  lemma NoWay(p: string, n: string, i: nat, j: nat, retry: nat)
    requires Progress(p, n, i, j, -1, retry) && j < |n|
    requires i < |p| ==> p[i] != '*' && !Fits(p[i], n[j])
    ensures '*' !in n ==> !Matches(p, n)
  {
    hide Matches, AfterStar;
    Unfold(p, n, i, j);
    PastPattern(p, n, i, j);
  }

  lemma Start(p: string, n: string)
    ensures Progress(p, n, 0, 0, -1, 0)
  {
    assert p[0..] == p && n[0..] == n;
  }

  /** The greedy matcher, with its loops. */
  method DosMatch(pattern: string, name: string) returns (r: bool)
    ensures r ==> Matches(DosPattern(pattern), name)
    ensures '*' !in name ==> (r <==> Matches(DosPattern(pattern), name))
    ensures r == Greedy(DosPattern(pattern), name, 0, 0, -1, 0)
  {
    var p, n := DosPattern(pattern), name;
    var i, j := 0, 0;
    var star, retry := -1, 0;
    Start(p, n);
    GreedyIs(p, n, 0, 0, -1, 0);
    hide Matches;
    while j < |n|
      invariant 0 <= i <= |p| && 0 <= retry <= j <= |n| && -1 <= star < i
      invariant Greedy(p, n, i, j, star, retry) == Greedy(p, n, 0, 0, -1, 0)
      decreases |n| - retry, |p| - star, |n| - j
    {
      if i < |p| && (p[i] == '?' || Upper(p[i]) == Upper(n[j])) {
        i, j := i + 1, j + 1;
      } else if i < |p| && p[i] == '*' {
        star, retry := i, j;
        i := i + 1;
      } else if star >= 0 {
        i := star + 1;
        retry := retry + 1;
        j := retry;
      } else {
        return false;
      }
    }
    ghost var from := i;
    while i < |p| && p[i] == '*'
      invariant from <= i <= |p| && forall k :: from <= k < i ==> p[k] == '*'
    {
      i := i + 1;
    }
    r := i == |p|;
  }

  // ----- names with a star -----

  /** With no star in the pattern to go back to, '?' for '?' it moves on to the end of the marks. */
  lemma {:induction false} GreedyMarks(p: string, n: string, i: nat, j: nat, to: nat)
    requires i <= to <= |p| && j <= |n| - (to - i) && forall k :: i <= k < to ==> p[k] == '?'
    ensures Greedy(p, n, i, j, -1, 0) == Greedy(p, n, to, j + (to - i), -1, 0)
    decreases |p| - i
  {
    if i < to && j < |n| {
      GreedyMarks(p, n, i + 1, j + 1, to);
    }
  }

  lemma {:induction false} MarksMatch(p: string, n: string)
    requires |p| == |n| && forall k :: 0 <= k < |p| ==> p[k] == '?'
    ensures Matches(p, n)
  {
    if p != [] {
      MarksMatch(p[1..], n[1..]);
    }
  }

  /** A '?' for each character of the name, with a '*' put in at k. */
  function StarTrap(n: string, k: nat): (p: string)
    requires k < |n|
    ensures |p| == |n| + 1 && p[k] == '*' && forall i :: 0 <= i < |p| && i != k ==> p[i] == '?'
  {
    seq(|n| + 1, i => if i == k then '*' else '?')
  }

  lemma TrapMatches(n: string, k: nat)
    requires k < |n|
    ensures Matches(StarTrap(n, k), n)
  {
    var p := StarTrap(n, k);
    hide Matches, AfterStar, StarTrap;
    MarksMatch(p[k + 1..], n[k..]);
    Unfold(p, n, k + 1, k);
    Unfold(p, n, k, k);
    assert p == p[..k] + p[k..] && n == n[..k] + n[k..];
    FitsThen(p[..k], p[k..], n[..k], n[k..]);
  }

  lemma TrapCatches(n: string, k: nat)
    requires k < |n| && n[k] == '*'
    ensures !Greedy(StarTrap(n, k), n, 0, 0, -1, 0)
  {
    var p := StarTrap(n, k);
    hide StarTrap;
    assert !Greedy(p, n, k, k, -1, 0) by {
      GreedyMarks(p, n, k + 1, k + 1, |n|);
      assert p[|n|] == '?';
      assert !Greedy(p, n, |n|, |n|, -1, 0);
    }
    hide Greedy;
    GreedyMarks(p, n, 0, 0, k);
  }

  /** The greedy matcher is right about a name, whatever the pattern, exactly when the name has no '*'. */
  lemma GreedyExactly(n: string)
    ensures '*' !in n <==> forall p :: Greedy(DosPattern(p), n, 0, 0, -1, 0) == Matches(DosPattern(p), n)
  {
    hide Matches, AfterStar, Greedy;
    if k :| 0 <= k < |n| && n[k] == '*' {
      var p := StarTrap(n, k);
      TrapMatches(n, k);
      TrapCatches(n, k);
      assert p[|p| - 1] == '?';
      assert DosPattern(p) == p;
    } else {
      forall p ensures Greedy(DosPattern(p), n, 0, 0, -1, 0) == Matches(DosPattern(p), n) {
        Start(DosPattern(p), n);
        GreedyIs(DosPattern(p), n, 0, 0, -1, 0);
      }
    }
  }

  // ----- the two agree -----

  lemma {:induction false} StarMatchesAll(n: string)
    ensures AfterStar([], n)
  {
    if n != [] {
      StarMatchesAll(n[1..]);
    }
  }

  /** On every pattern that is not of the form "NAME." the two accept the same names. */
  lemma SameSpec(p: string, n: string)
    requires !NoExtension(p)
    ensures WildSpec(p, n) == Matches(DosPattern(p), n)
  {
    if p == "*.*" {
      StarMatchesAll(n);
      assert "*"[1..] == [];
    }
  }

  lemma {:induction false} LastLiteral(q: string, n: string)
    ensures Matches(q + ".", n) <==> n != [] && n[|n| - 1] == '.' && Matches(q, n[..|n| - 1])
    decreases |q|, |n|
  {
    var p := q + ".";
    if q == [] {
      assert p[1..] == [];
      assert n != [] ==> (n[1..] == [] <==> n[..|n| - 1] == []);
    } else if q[0] == '*' {
      assert p[1..] == q[1..] + ".";
      LastLiteral(q[1..], n);
      if n != [] {
        LastLiteral(q, n[1..]);
        assert p[0] == '*';
        if |n| > 1 {
          assert n[1..][..|n| - 2] == n[..|n| - 1][1..];
        } else {
          assert n[1..] == [] && n[..0] == [];
        }
      }
    } else {
      assert p[1..] == q[1..] + "." && p[0] == q[0];
      if n != [] {
        LastLiteral(q[1..], n[1..]);
        if |n| > 1 {
          assert n[1..][..|n| - 2] == n[..|n| - 1][1..];
        }
      }
    }
  }

  /** On "NAME." they differ, and exactly on the names that NAME matches: with no dot in them (only ManiDOS
      accepts), or with one dot more at their end (only dosrun does). */
  lemma DifferOnNoExtension(p: string, n: string)
    requires NoExtension(p)
    ensures var q := p[..|p| - 1];
            WildSpec(p, n) == Matches(DosPattern(p), n) <==>
            !('.' !in n && Matches(q, n)) && !(n != [] && n[|n| - 1] == '.' && Matches(q, n[..|n| - 1]))
  {
    var q := p[..|p| - 1];
    assert p == q + ".";
    LastLiteral(q, n);
  }

  /** "A." and "A" is such a pair; and "*", which matches everything, shows why the name must have no '*': the
      greedy matcher takes the pattern's '*' for the name's. */
  lemma WhereTheyDiffer()
    ensures WildSpec("A.", "A") && !Matches(DosPattern("A."), "A")
    ensures WildSpec("*", "*A") && !Greedy(DosPattern("*"), "*A", 0, 0, -1, 0)
  {
    assert "A."[..1] == "A" && "A"[1..] == [];
    assert "A."[1..] == ".";
    StarMatchesAll("*A");
    assert "*"[1..] == [];
    assert !Greedy("*", "*A", 1, 1, -1, 0);
  }
}

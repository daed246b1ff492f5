/**
 Where ManiDE's layouts put windows (desktop/manide/tile.c): the panes of a layout, each with the gap to its right
 and below it, fill the tiling area and the gap around it exactly, every point once.
 */
module Tiling {
  import opened Arithmetic

  const GAP := 4
  const BAR_H := 18
  const MAX_WINDOWS := 16

  datatype Rect = Rect(x: int, y: int, w: int, h: int)

  datatype Layout = Grid | Tall | Mono

  /** A pane, with the gap to its right and below it. */
  predicate InCell(r: Rect, x: int, y: int)
  {
    r.x <= x < r.x + r.w + GAP && r.y <= y < r.y + r.h + GAP
  }

  predicate InPane(r: Rect, x: int, y: int)
  {
    r.x <= x < r.x + r.w && r.y <= y < r.y + r.h
  }

  /** How many cells a point is in. */
  function Hits(rs: seq<Rect>, x: int, y: int): nat
  {
    if rs == [] then 0 else (if InCell(rs[0], x, y) then 1 else 0) + Hits(rs[1..], x, y)
  }

  lemma {:induction false} HitsConcat(a: seq<Rect>, b: seq<Rect>, x: int, y: int)
    ensures Hits(a + b, x, y) == Hits(a, x, y) + Hits(b, x, y)
  {
    if a == [] {
      assert a + b == b;
    } else {
      assert (a + b)[1..] == a[1..] + b;
      HitsConcat(a[1..], b, x, y);
    }
  }

  lemma {:induction false} HitsAt(rs: seq<Rect>, i: nat, x: int, y: int)
    requires i < |rs| && InCell(rs[i], x, y)
    ensures Hits(rs, x, y) >= 1
  {
    if i > 0 {
      HitsAt(rs[1..], i - 1, x, y);
    }
  }

  lemma {:induction false} HitsTwice(rs: seq<Rect>, i: nat, j: nat, x: int, y: int)
    requires i < j < |rs| && InCell(rs[i], x, y) && InCell(rs[j], x, y)
    ensures Hits(rs, x, y) >= 2
  {
    if i == 0 {
      HitsAt(rs[1..], j - 1, x, y);
    } else {
      HitsTwice(rs[1..], i - 1, j - 1, x, y);
    }
  }

  // ----- sharing out a length -----

  function Each(length: int, n: nat): int
    requires n > 0
  {
    (length - (n - 1) * GAP) / n
  }

  /** The start and size of part i of n. */
  function Share(start: int, length: int, n: nat, i: nat): (int, int)
    requires i < n
  {
    var at := start + i * (Each(length, n) + GAP);
    (at, if i == n - 1 then start + length - at else Each(length, n))
  }

  /** Parts follow one another, a gap apart, from the start to the end; none has a negative size. */
  lemma ShareFits(start: int, length: int, n: nat, i: nat)
    requires i < n && length >= (n - 1) * GAP
    ensures Share(start, length, n, 0).0 == start
    ensures Share(start, length, n, i).1 >= 0 && start <= Share(start, length, n, i).0
    ensures i + 1 < n ==>
              Share(start, length, n, i).0 + Share(start, length, n, i).1 + GAP == Share(start, length, n, i + 1).0
    ensures i + 1 == n ==> Share(start, length, n, i).0 + Share(start, length, n, i).1 == start + length
  {
    var e := Each(length, n);
    EachFits(length, n);
    MulMono(0, i, e + GAP);
    assert (i + 1) * (e + GAP) == i * (e + GAP) + (e + GAP);
  }

  /** All parts are the same size but the last, which has what the division leaves. */
  lemma ShareEven(start: int, length: int, n: nat, i: nat)
    requires i < n && length >= (n - 1) * GAP
    ensures i < n - 1 ==> Share(start, length, n, i).1 == Share(start, length, n, 0).1
    ensures 0 <= Share(start, length, n, n - 1).1 - Each(length, n) < n
    ensures n > 1 ==> Share(start, length, n, 0).1 == Each(length, n)
  {
    var t, e := length - (n - 1) * GAP, Each(length, n);
    assert t == e * n + t % n;
    assert (n - 1) * (e + GAP) + e == n * e + (n - 1) * GAP;
  }

  lemma EachFits(length: int, n: nat)
    requires n > 0 && length >= (n - 1) * GAP
    ensures Each(length, n) >= 0 && (n - 1) * (Each(length, n) + GAP) + Each(length, n) <= length
  {
    var t := length - (n - 1) * GAP;
    var e := t / n;
    assert t == e * n + t % n && 0 <= t % n < n;
    if e < 0 {
      MulMono(e, -1, n);
    }
    assert (n - 1) * (e + GAP) + e == n * e + (n - 1) * GAP;
  }

  // ----- the layouts -----

  /** Panes one above another, from part r of `rows` on, between x and x + w. */
  function Column(x: int, w: int, a: Rect, rows: nat, r: nat): seq<Rect>
    requires r <= rows
    decreases rows - r
  {
    if r == rows then []
    else
      var (y, h) := Share(a.y, a.h, rows, r);
      [Rect(x, y, w, h)] + Column(x, w, a, rows, r + 1)
  }

  lemma {:induction false} ColumnCovers(x0: int, w: int, a: Rect, rows: nat, r: nat, x: int, y: int)
    requires r < rows && a.h >= (rows - 1) * GAP
    ensures |Column(x0, w, a, rows, r)| == rows - r
    ensures Hits(Column(x0, w, a, rows, r), x, y) ==
            if x0 <= x < x0 + w + GAP && Share(a.y, a.h, rows, r).0 <= y < a.y + a.h + GAP then 1 else 0
    decreases rows - r
  {
    hide Share;
    ShareFits(a.y, a.h, rows, r);
    var s := Column(x0, w, a, rows, r);
    var rest := Column(x0, w, a, rows, r + 1);
    assert s[1..] == rest;
    if r + 1 < rows {
      ShareFits(a.y, a.h, rows, r + 1);
      ColumnCovers(x0, w, a, rows, r + 1, x, y);
      SharesEnd(a.y, a.h, rows, r + 1);
    }
  }

  lemma {:induction false} SharesEnd(start: int, length: int, n: nat, i: nat)
    requires i < n && length >= (n - 1) * GAP
    ensures Share(start, length, n, i).0 <= start + length
    decreases n - i
  {
    hide Share;
    ShareFits(start, length, n, i);
    if i + 1 < n {
      SharesEnd(start, length, n, i + 1);
    }
  }

  /** The least number of columns whose square holds n. */
  function Columns(n: nat): (c: nat)
    ensures c >= 1 && c * c >= n && (c > 1 ==> (c - 1) * (c - 1) < n)
  {
    ColumnsFrom(n, 1)
  }

  function ColumnsFrom(n: nat, c: nat): (r: nat)
    requires c >= 1 && (c > 1 ==> (c - 1) * (c - 1) < n)
    ensures r >= 1 && r * r >= n && (r > 1 ==> (r - 1) * (r - 1) < n)
    decreases n - c
  {
    if c * c >= n then c else MulMono(1, c, c); ColumnsFrom(n, c + 1)
  }

  /** How many windows column c has: the later ones take one more. */
  function Rows(n: nat, cols: nat, c: nat): nat
    requires cols > 0
  {
    n / cols + if c >= cols - n % cols then 1 else 0
  }

  function GridFrom(a: Rect, n: nat, cols: nat, c: nat): seq<Rect>
    requires 0 < cols && c <= cols
    decreases cols - c
  {
    if c == cols then []
    else
      var (x, w) := Share(a.x, a.w, cols, c);
      Column(x, w, a, Rows(n, cols, c), 0) + GridFrom(a, n, cols, c + 1)
  }

  /** How many windows the columns from c on have. */
  function RowsFrom(n: nat, cols: nat, c: nat): nat
    requires 0 < cols && c <= cols
    decreases cols - c
  {
    if c == cols then 0 else Rows(n, cols, c) + RowsFrom(n, cols, c + 1)
  }

  /** Between them the columns have all the windows. */
  lemma {:induction false} RowsTotal(n: nat, cols: nat, c: nat)
    requires 0 < cols && c <= cols
    ensures RowsFrom(n, cols, c) == (cols - c) * (n / cols) + (if c >= cols - n % cols then cols - c else n % cols)
    decreases cols - c
  {
    if c < cols {
      RowsTotal(n, cols, c + 1);
      assert (cols - c) * (n / cols) == (cols - c - 1) * (n / cols) + n / cols;
    }
  }

  lemma RowsAll(n: nat, cols: nat)
    requires 0 < cols <= n
    ensures RowsFrom(n, cols, 0) == n
    ensures forall c :: 0 <= c < cols ==> 1 <= Rows(n, cols, c) <= n / cols + 1
  {
    RowsTotal(n, cols, 0);
    assert n == cols * (n / cols) + n % cols;
    assert n / cols >= 1;
  }

  lemma {:induction false} GridCovers(a: Rect, n: nat, cols: nat, c: nat, x: int, y: int)
    requires 0 < cols && c < cols && a.w >= (cols - 1) * GAP
    requires forall k :: 0 <= k < cols ==> 1 <= Rows(n, cols, k) && a.h >= (Rows(n, cols, k) - 1) * GAP
    ensures |GridFrom(a, n, cols, c)| == RowsFrom(n, cols, c)
    ensures Hits(GridFrom(a, n, cols, c), x, y) ==
            if Share(a.x, a.w, cols, c).0 <= x < a.x + a.w + GAP && a.y <= y < a.y + a.h + GAP then 1 else 0
    decreases cols - c
  {
    hide Share, Rows, Column, Hits;
    var (x0, w) := Share(a.x, a.w, cols, c);
    var rows := Rows(n, cols, c);
    ShareFits(a.x, a.w, cols, c);
    ShareFits(a.y, a.h, rows, 0);
    ColumnCovers(x0, w, a, rows, 0, x, y);
    HitsConcat(Column(x0, w, a, rows, 0), GridFrom(a, n, cols, c + 1), x, y);
    if c + 1 < cols {
      ShareFits(a.x, a.w, cols, c + 1);
      GridCovers(a, n, cols, c + 1, x, y);
      SharesEnd(a.x, a.w, cols, c + 1);
    } else {
      NoHits(x, y);
    }
  }

  lemma NoHits(x: int, y: int)
    ensures Hits([], x, y) == 0
  {
  }

  /** The panes of n windows. */
  function Panes(layout: Layout, master: int, a: Rect, n: nat): seq<Rect>
    requires n > 0
  {
    if layout == Mono || n == 1 then [a]
    else if layout == Tall then
      var m := (a.w - GAP) * master / 100;
      [Rect(a.x, a.y, m, a.h)] + Column(a.x + m + GAP, a.w - m - GAP, a, n - 1, 0)
    else GridFrom(a, n, Columns(n), 0)
  }

  predicate Roomy(a: Rect)
  {
    a.w >= (MAX_WINDOWS - 1) * GAP && a.h >= (MAX_WINDOWS - 1) * GAP
  }

  lemma FewColumns(n: nat)
    requires n >= 2
    ensures 2 <= Columns(n) <= n && forall c :: 0 <= c < Columns(n) ==> 1 <= Rows(n, Columns(n), c) <= n
  {
    var cols := Columns(n);
    assert cols != 1;
    if cols > n {
      MulMono(n, cols - 1, cols - 1);
      MulMono(1, n, n);
      MulMono(cols - 1, cols - 1, n);
    }
    RowsAll(n, cols);
    HalfOf(n, cols);
  }

  lemma HalfOf(n: nat, cols: nat)
    requires n >= 2 && cols >= 2
    ensures n / cols + 1 <= n
  {
    assert n == n / cols * cols + n % cols;
    MulMono(2, cols, n / cols);
  }

  /** Every point of the area, and of the gap around it, is in the cell of one window; every other point is in none. */
  lemma PanesCover(layout: Layout, master: int, a: Rect, n: nat, x: int, y: int)
    requires 1 <= n <= MAX_WINDOWS && Roomy(a) && 20 <= master <= 80
    ensures |Panes(layout, master, a, n)| == if layout == Mono then 1 else n
    ensures Hits(Panes(layout, master, a, n), x, y) == if InCell(a, x, y) then 1 else 0
  {
    hide GridFrom, Hits, Column;
    if layout == Mono || n == 1 {
      OneHit(a, x, y);
    } else if layout == Tall {
      TallCovers(master, a, n, x, y);
    } else {
      AllGridCovers(a, n, x, y);
    }
  }

  lemma TallCovers(master: int, a: Rect, n: nat, x: int, y: int)
    requires 2 <= n <= MAX_WINDOWS && Roomy(a) && 20 <= master <= 80
    ensures var m := (a.w - GAP) * master / 100;
            var rs := [Rect(a.x, a.y, m, a.h)] + Column(a.x + m + GAP, a.w - m - GAP, a, n - 1, 0);
            |rs| == n && Hits(rs, x, y) == if InCell(a, x, y) then 1 else 0
  {
    hide Hits, Column, Share;
    var m := (a.w - GAP) * master / 100;
    MasterFits(a.w - GAP, master);
    ColumnCovers(a.x + m + GAP, a.w - m - GAP, a, n - 1, 0, x, y);
    ShareFits(a.y, a.h, n - 1, 0);
    HitsConcat([Rect(a.x, a.y, m, a.h)], Column(a.x + m + GAP, a.w - m - GAP, a, n - 1, 0), x, y);
    OneHit(Rect(a.x, a.y, m, a.h), x, y);
  }

  lemma AllGridCovers(a: Rect, n: nat, x: int, y: int)
    requires 2 <= n <= MAX_WINDOWS && Roomy(a)
    ensures var rs := GridFrom(a, n, Columns(n), 0);
            |rs| == n && Hits(rs, x, y) == if InCell(a, x, y) then 1 else 0
  {
    hide GridFrom, Hits, Share, Rows, Columns;
    FewColumns(n);
    RowsAll(n, Columns(n));
    GridCovers(a, n, Columns(n), 0, x, y);
    ShareFits(a.x, a.w, Columns(n), 0);
  }

  lemma OneHit(r: Rect, x: int, y: int)
    ensures Hits([r], x, y) == if InCell(r, x, y) then 1 else 0
  {
    assert [r][1..] == [];
    assert Hits([], x, y) == 0;
  }

  lemma MasterFits(w: int, master: int)
    requires w >= 0 && 20 <= master <= 80
    ensures 0 <= w * master / 100 <= w
  {
    MulMono(master, 100, w);
    MulMono(0, master, w);
    assert w * master == master * w;
  }

  /** So panes do not overlap, and are inside the area. */
  lemma PanesApart(layout: Layout, master: int, a: Rect, n: nat, i: nat, j: nat, x: int, y: int)
    requires 1 <= n <= MAX_WINDOWS && Roomy(a) && 20 <= master <= 80
    requires i < |Panes(layout, master, a, n)| && InPane(Panes(layout, master, a, n)[i], x, y)
    ensures InPane(a, x, y)
    ensures j < |Panes(layout, master, a, n)| && j != i ==> !InPane(Panes(layout, master, a, n)[j], x, y)
  {
    hide Panes, Hits;
    var rs := Panes(layout, master, a, n);
    PanesCover(layout, master, a, n, x, y);
    PanesCover(layout, master, a, n, x + GAP, y + GAP);
    HitsAt(rs, i, x, y);
    HitsAt(rs, i, x + GAP, y + GAP);
    if j < |rs| && j != i && InPane(rs[j], x, y) {
      HitsTwice(rs, if i < j then i else j, if i < j then j else i, x, y);
    }
  }

  lemma {:induction false} HitsSome(rs: seq<Rect>, x: int, y: int) returns (i: nat)
    requires Hits(rs, x, y) >= 1
    ensures i < |rs| && InCell(rs[i], x, y)
  {
    if InCell(rs[0], x, y) {
      i := 0;
    } else {
      i := HitsSome(rs[1..], x, y);
      i := i + 1;
    }
  }

  // ----- in what order -----

  /** The next pane is right below, or at the top of the next column when the column is full. */
  predicate Follows(a: Rect, p: Rect, q: Rect)
  {
    || (q.x == p.x && q.w == p.w && q.y == p.y + p.h + GAP)
    || (q.x == p.x + p.w + GAP && q.y == a.y && p.y + p.h == a.y + a.h)
  }

  ghost predicate InOrder(a: Rect, rs: seq<Rect>)
  {
    forall i :: 0 <= i < |rs| - 1 ==> Follows(a, rs[i], rs[i + 1])
  }

  lemma {:induction false} ColumnInOrder(x: int, w: int, a: Rect, rows: nat, r: nat)
    requires r < rows && a.h >= (rows - 1) * GAP
    ensures var rs := Column(x, w, a, rows, r);
            && |rs| == rows - r && InOrder(a, rs) && rs[0].y == Share(a.y, a.h, rows, r).0
            && rs[|rs| - 1].y + rs[|rs| - 1].h == a.y + a.h
            && forall i :: 0 <= i < |rs| ==> rs[i].x == x && rs[i].w == w
    decreases rows - r
  {
    hide Share;
    ShareFits(a.y, a.h, rows, r);
    if r + 1 < rows {
      ColumnInOrder(x, w, a, rows, r + 1);
    }
  }

  lemma OrderedConcat(a: Rect, rs: seq<Rect>, ts: seq<Rect>)
    requires InOrder(a, rs) && InOrder(a, ts)
    requires rs != [] && ts != [] ==> Follows(a, rs[|rs| - 1], ts[0])
    ensures InOrder(a, rs + ts)
  {
  }

  lemma {:induction false} GridInOrder(a: Rect, n: nat, cols: nat, c: nat)
    requires 0 < cols && c < cols && a.w >= (cols - 1) * GAP
    requires forall k :: 0 <= k < cols ==> 1 <= Rows(n, cols, k) && a.h >= (Rows(n, cols, k) - 1) * GAP
    ensures var rs := GridFrom(a, n, cols, c);
            && rs != [] && InOrder(a, rs) && rs[0].x == Share(a.x, a.w, cols, c).0 && rs[0].y == a.y
            && rs[|rs| - 1].x + rs[|rs| - 1].w == a.x + a.w && rs[|rs| - 1].y + rs[|rs| - 1].h == a.y + a.h
    decreases cols - c
  {
    hide Share, Rows, Column, InOrder;
    var (x, w) := Share(a.x, a.w, cols, c);
    var rows := Rows(n, cols, c);
    ShareFits(a.x, a.w, cols, c);
    ShareFits(a.y, a.h, rows, 0);
    ColumnInOrder(x, w, a, rows, 0);
    var column, rest := Column(x, w, a, rows, 0), GridFrom(a, n, cols, c + 1);
    if c + 1 < cols {
      GridInOrder(a, n, cols, c + 1);
      OrderedConcat(a, column, rest);
    } else {
      assert column + rest == column;
    }
  }

  /** From the top left corner to the bottom right. */
  ghost predicate Fills(a: Rect, rs: seq<Rect>)
  {
    && rs != [] && InOrder(a, rs) && rs[0].x == a.x && rs[0].y == a.y
    && rs[|rs| - 1].x + rs[|rs| - 1].w == a.x + a.w && rs[|rs| - 1].y + rs[|rs| - 1].h == a.y + a.h
  }

  lemma TallInOrder(a: Rect, n: nat, m: int)
    requires 2 <= n <= MAX_WINDOWS && Roomy(a)
    ensures Fills(a, [Rect(a.x, a.y, m, a.h)] + Column(a.x + m + GAP, a.w - m - GAP, a, n - 1, 0))
  {
    hide Share, Column, InOrder;
    ColumnInOrder(a.x + m + GAP, a.w - m - GAP, a, n - 1, 0);
    ShareFits(a.y, a.h, n - 1, 0);
    OneInOrder(a, Rect(a.x, a.y, m, a.h));
    OrderedConcat(a, [Rect(a.x, a.y, m, a.h)], Column(a.x + m + GAP, a.w - m - GAP, a, n - 1, 0));
  }

  lemma AllGridInOrder(a: Rect, n: nat)
    requires 2 <= n <= MAX_WINDOWS && Roomy(a)
    ensures Fills(a, GridFrom(a, n, Columns(n), 0))
  {
    hide GridFrom, Share, Rows, Columns, InOrder;
    FewColumns(n);
    RowsAll(n, Columns(n));
    ShareFits(a.x, a.w, Columns(n), 0);
    GridInOrder(a, n, Columns(n), 0);
  }

  /** Windows go down each column and then to the next. */
  lemma PanesInOrder(layout: Layout, master: int, a: Rect, n: nat)
    requires 1 <= n <= MAX_WINDOWS && Roomy(a)
    ensures Fills(a, Panes(layout, master, a, n))
  {
    hide GridFrom, Column, Columns, Fills;
    if layout == Mono || n == 1 {
      OneFills(a);
    } else if layout == Tall {
      TallInOrder(a, n, (a.w - GAP) * master / 100);
    } else {
      AllGridInOrder(a, n);
    }
  }

  lemma OneFills(a: Rect)
    ensures Fills(a, [a])
  {
  }

  lemma OneInOrder(a: Rect, r: Rect)
    ensures InOrder(a, [r])
  {
  }

  /** The first window of a tall layout has the whole height and `master` hundredths of the width. */
  lemma MasterShare(master: int, a: Rect, n: nat)
    requires n >= 2
    ensures var rs := Panes(Tall, master, a, n);
            && rs != [] && rs[0].h == a.h && 100 * rs[0].w <= (a.w - GAP) * master < 100 * rs[0].w + 100
            && (forall i :: 1 <= i < |rs| ==> rs[i].x == a.x + rs[0].w + GAP && rs[i].w == a.w - rs[0].w - GAP)
  {
    var m := (a.w - GAP) * master / 100;
    ColumnPlaces(a.x + m + GAP, a.w - m - GAP, a, n - 1, 0);
  }

  lemma {:induction false} ColumnPlaces(x: int, w: int, a: Rect, rows: nat, r: nat)
    requires r <= rows
    ensures forall i :: 0 <= i < |Column(x, w, a, rows, r)| ==>
                          Column(x, w, a, rows, r)[i].x == x && Column(x, w, a, rows, r)[i].w == w
    decreases rows - r
  {
    if r < rows {
      ColumnPlaces(x, w, a, rows, r + 1);
    }
  }
}

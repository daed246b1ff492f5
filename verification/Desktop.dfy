/**
 ManiDE's workspaces, layouts and focus (desktop/manide/tile.c): what every operation keeps. The focus is on a window
 in view or nowhere, each workspace remembers a window of its own or none, and the windows that are shown are those
 the layout places, where it places them.

 Drawing, the events windows are sent and the part of a pane its image goes in are not part of this model.
 */
module Desktop {
  import opened Arithmetic
  import opened Tiling

  const WORKSPACES := 9

  class Window {
    var ws: int
    var shown: bool
    var pane: Rect

    constructor (ws: int)
    {
      this.ws, shown, pane := ws, false, Rect(0, 0, 0, 0);
    }
  }

  datatype Workspace = Workspace(layout: Layout, master: int, focus: Window?)

  // ----- the windows of a workspace -----

  /** The windows on workspace k, in the tiling order. */
  ghost function OnView(order: seq<Window>, k: int): seq<Window>
    reads order`ws
  {
    if order == [] then []
    else
      var w := order[|order| - 1];
      OnView(order[..|order| - 1], k) + if w.ws == k then [w] else []
  }

  ghost predicate Distinct(s: seq<Window>)
  {
    forall i, j :: 0 <= i < j < |s| ==> s[i] != s[j]
  }

  lemma {:induction false} OnViewHas(order: seq<Window>, k: int)
    ensures forall w :: w in OnView(order, k) <==> w in order && w.ws == k
    ensures |OnView(order, k)| <= |order|
  {
    if order != [] {
      var t, w := order[..|order| - 1], order[|order| - 1];
      assert order == t + [w];
      OnViewHas(t, k);
    }
  }

  lemma {:induction false} OnViewDistinct(order: seq<Window>, k: int)
    requires Distinct(order)
    ensures Distinct(OnView(order, k))
  {
    if order != [] {
      var t, w := order[..|order| - 1], order[|order| - 1];
      OnViewDistinct(t, k);
      OnViewHas(t, k);
      assert w !in t;
    }
  }

  /** The windows the layout shows of those on workspace k. */
  ghost function Placed(order: seq<Window>, focus: Window?, k: int, layout: Layout): seq<Window>
    reads order`ws
  {
    var list := OnView(order, k);
    if list == [] then []
    else if layout == Mono || |list| == 1 then
      [if focus != null && focus in order && focus.ws == k then focus else list[0]]
    else list
  }

  function AllPanes(layout: Layout, master: int, a: Rect, n: nat): seq<Rect>
  {
    if n == 0 then [] else Panes(layout, master, a, n)
  }

  ghost predicate ShownAt(order: seq<Window>, placed: seq<Window>, panes: seq<Rect>)
    reads order`shown, order`pane
  {
    && (forall w :: w in order ==> (w.shown <==> w in placed)) && |panes| == |placed|
    && forall i :: 0 <= i < |panes| ==> placed[i] in order && placed[i].pane == panes[i]
  }

  // ----- placing windows -----

  /** The first k windows of the list are placed, at their panes, and the others hidden. */
  ghost predicate PlacedTo(list: seq<Window>, k: nat, rs: seq<Rect>)
    reads list`shown, list`pane
  {
    && k <= |list| == |rs|
    && (forall j :: 0 <= j < k ==> list[j].shown && list[j].pane == rs[j])
    && (forall j :: k <= j < |list| ==> !list[j].shown)
  }

  method Place(list: seq<Window>, k: nat, r: Rect, ghost rs: seq<Rect>)
    requires Distinct(list) && k < |list| && PlacedTo(list, k, rs) && r == rs[k]
    modifies {list[k]}`shown, {list[k]}`pane
    ensures PlacedTo(list, k + 1, rs)
  {
    list[k].shown := true;
    list[k].pane := r;
  }

  /** Windows one above another. */
  method PlaceColumn(list: seq<Window>, k0: nat, x: int, w: int, a: Rect, rows: nat, ghost rs: seq<Rect>,
                     ghost after: seq<Rect>)
    returns (k: nat)
    requires Distinct(list) && PlacedTo(list, k0, rs) && rs[k0..] == Column(x, w, a, rows, 0) + after
    requires |Column(x, w, a, rows, 0)| == rows
    modifies list`shown, list`pane
    ensures k == k0 + rows <= |list| && PlacedTo(list, k, rs) && rs[k..] == after
  {
    hide Share;
    k := k0;
    var r := 0;
    ColumnLength(x, w, a, rows, 0);
    while r < rows
      invariant 0 <= r <= rows && k == k0 + r <= |list| && PlacedTo(list, k, rs)
      invariant rs[k..] == Column(x, w, a, rows, r) + after
    {
      var (y, h) := Share(a.y, a.h, rows, r);
      ghost var rest := Column(x, w, a, rows, r + 1) + after;
      assert rs[k..] == [Rect(x, y, w, h)] + rest;
      NextPane(rs, k, Rect(x, y, w, h), rest);
      Place(list, k, Rect(x, y, w, h), rs);
      k := k + 1;
      r := r + 1;
    }
    assert Column(x, w, a, rows, rows) + after == after;
  }

  lemma {:induction false} ColumnLength(x: int, w: int, a: Rect, rows: nat, r: nat)
    requires r <= rows
    ensures |Column(x, w, a, rows, r)| == rows - r
    decreases rows - r
  {
    if r < rows {
      ColumnLength(x, w, a, rows, r + 1);
    }
  }

  lemma NextPane(rs: seq<Rect>, k: nat, r: Rect, rest: seq<Rect>)
    requires k <= |rs| && rs[k..] == [r] + rest
    ensures k < |rs| && rs[k] == r && rs[k + 1..] == rest
  {
    assert rs[k] == rs[k..][0];
    assert rs[k + 1..] == rs[k..][1..];
  }

  /** The grid: columns side by side, the windows shared out among them. */
  method PlaceGrid(list: seq<Window>, a: Rect, ghost rs: seq<Rect>)
    requires Distinct(list) && 2 <= |list| <= MAX_WINDOWS && Roomy(a)
    requires rs == GridFrom(a, |list|, Columns(|list|), 0) && PlacedTo(list, 0, rs)
    modifies list`shown, list`pane
    ensures PlacedTo(list, |list|, rs)
  {
    hide Share, Columns, Rows, Column;
    var n := |list|;
    var cols := 1;
    while cols * cols < n
      invariant 1 <= cols && (cols > 1 ==> (cols - 1) * (cols - 1) < n) && cols <= n
      modifies {}
    {
      SmallSquare(cols, n);
      cols := cols + 1;
    }
    ColumnsUnique(n, cols);
    var k: nat, c: nat := 0, 0;
    assert rs[0..] == rs;
    while c < cols
      invariant 0 <= c <= cols && k <= n && PlacedTo(list, k, rs) && rs[k..] == GridFrom(a, n, cols, c)
    {
      var rows := n / cols + (if c >= cols - n % cols then 1 else 0);
      var (x, w) := Share(a.x, a.w, cols, c);
      RowsIs(n, cols, c);
      ColumnLength(x, w, a, rows, 0);
      k := PlaceColumn(list, k, x, w, a, rows, rs, GridFrom(a, n, cols, c + 1));
      c := c + 1;
    }
    assert |rs[k..]| == 0;
  }

  lemma SmallSquare(cols: nat, n: nat)
    requires cols >= 1 && cols * cols < n
    ensures cols + 1 <= n
  {
    MulMono(1, cols, cols);
  }

  lemma ColumnsUnique(n: nat, c: nat)
    requires c >= 1 && c * c >= n && (c > 1 ==> (c - 1) * (c - 1) < n)
    ensures c == Columns(n)
  {
    var r := Columns(n);
    if c < r {
      Squares(c, r - 1);
    } else if r < c {
      Squares(r, c - 1);
    }
  }

  lemma Squares(a: nat, b: nat)
    requires a <= b
    ensures a * a <= b * b
  {
    MulMono(a, b, a);
    MulMono(a, b, b);
    assert b * a == a * b;
  }

  lemma RowsIs(n: nat, cols: nat, c: nat)
    requires cols > 0
    ensures Rows(n, cols, c) == n / cols + if c >= cols - n % cols then 1 else 0
  {
  }

  class Desktop {
    const width: int
    const height: int
    var order: seq<Window>
    var focus: Window?
    var ws: int
    var placeWs: int
    var wss: seq<Workspace>

    function Area(): Rect
    {
      Rect(GAP, BAR_H + GAP, width - 2 * GAP, height - BAR_H - 2 * GAP)
    }

    ghost predicate Sound()
      reads this`order, this`ws, this`placeWs, this`wss, order`ws
    {
      && Roomy(Area()) && |order| <= MAX_WINDOWS && Distinct(order) && |wss| == WORKSPACES
      && 0 <= ws < WORKSPACES && 0 <= placeWs < WORKSPACES
      && (forall w :: w in order ==> 0 <= w.ws < WORKSPACES)
      && (forall k :: 0 <= k < WORKSPACES ==> 20 <= wss[k].master <= 80)
    }

    /** A window that could have the focus: none, or a live one in view. */
    ghost predicate InView(w: Window?)
      reads this`order, this`ws, order`ws
    {
      w == null || (w in order && w.ws == ws)
    }

    /** Some window in view has the focus, if there is any in view. */
    ghost predicate Attended()
      reads this`order, this`ws, this`focus, order`ws
    {
      focus == null ==> forall w :: w in order ==> w.ws != ws
    }

    /** Each workspace remembers none, or a live window of its own. */
    ghost predicate Remembers()
      requires |wss| == WORKSPACES
      reads this`order, this`wss, order`ws
    {
      forall k :: 0 <= k < WORKSPACES ==> wss[k].focus == null || (wss[k].focus in order && wss[k].focus.ws == k)
    }

    /** The windows shown are those the layout places, at their panes. */
    ghost predicate Tiled()
      requires Sound()
      reads this`order, this`ws, this`placeWs, this`wss, this`focus, order`ws, order`shown, order`pane
    {
      ShownAt(order, Placed(order, focus, ws, wss[ws].layout),
              AllPanes(wss[ws].layout, wss[ws].master, Area(), |OnView(order, ws)|))
    }

    ghost predicate Valid()
      reads this, order`ws, order`shown, order`pane
    {
      Sound() && InView(focus) && Remembers() && Tiled()
    }

    /** Hides every window; those in view, in order. */
    method HideAll() returns (list: seq<Window>)
      requires Sound()
      modifies order`shown
      ensures list == OnView(order, ws) && forall w :: w in order ==> !w.shown
    {
      list := [];
      var i := 0;
      assert order[..0] == [];
      while i < |order|
        invariant 0 <= i <= |order| && list == OnView(order[..i], ws)
        invariant forall j :: 0 <= j < i ==> !order[j].shown
        modifies order`shown
      {
        order[i].shown := false;
        assert order[..i + 1][..i] == order[..i];
        if order[i].ws == ws {
          list := list + [order[i]];
        }
        i := i + 1;
      }
      assert order[..i] == order;
    }

    /** Places the windows in view as the layout has them. */
    method PlaceWindows()
      requires Sound() && (focus == null || focus in order)
      modifies order`shown, order`pane
      ensures Tiled()
    {
      hide OnView, Panes, Distinct, ShownAt;
      var list := HideAll();
      OnViewHas(order, ws);
      OnViewDistinct(order, ws);
      var n, a := |list|, Area();
      if n == 0 {
        NoneShown(order);
        return;
      }
      ghost var rs := Panes(wss[ws].layout, wss[ws].master, a, n);
      PanesCover(wss[ws].layout, wss[ws].master, a, n, 0, 0);
      if wss[ws].layout == Mono || n == 1 {
        var w := if focus != null && focus.ws == ws then focus else list[0];
        assert list[0] in list && w in order;
        PlaceOne(w, a);
        OnePane(wss[ws].layout, wss[ws].master, a, n);
        OneShown(order, w, a);
      } else {
        assert forall i :: 0 <= i < |list| ==> list[i] in list && list[i] in order;
        PlaceAll(list, wss[ws].layout, wss[ws].master, a, rs);
        AllShown(order, list, rs);
      }
    }

    method Retile()
      requires Sound() && InView(focus) && Remembers()
      modifies order`shown, order`pane
      ensures Valid()
    {
      PlaceWindows();
    }

    constructor (width: int, height: int)
      requires width >= 2 * GAP + (MAX_WINDOWS - 1) * GAP && height >= BAR_H + 2 * GAP + (MAX_WINDOWS - 1) * GAP
      ensures Valid() && order == [] && focus == null && ws == 0 && fresh(this)
    {
      this.width, this.height := width, height;
      order, focus, ws, placeWs := [], null, 0, 0;
      wss := seq(WORKSPACES, _ => Workspace(Grid, 55, null));
    }

    // ----- the focus -----

    method SetFocus(w: Window?)
      requires Sound() && Remembers() && InView(w) && (focus == null || focus in order)
      modifies this`focus, this`wss, order`shown, order`pane
      ensures Sound() && Remembers() && focus == w
      ensures old(Tiled()) ==> Tiled()
      ensures forall k :: 0 <= k < WORKSPACES ==>
                && wss[k].layout == old(wss)[k].layout && wss[k].master == old(wss)[k].master
                && wss[k].focus == if w != null && k == w.ws && old(focus) != w then w else old(wss)[k].focus
    {
      hide OnView, Placed, ShownAt, AllPanes, Distinct, Panes;
      if focus == w {
        return;
      }
      ghost var before := focus;
      Give(w);
      if wss[ws].layout == Mono {
        Retile();
      } else {
        SamePlaced(order, before, w, ws, wss[ws].layout);
      }
    }

    /** The focus given to w, which its workspace remembers. */
    method Give(w: Window?)
      requires Sound() && Remembers() && InView(w) && focus != w
      modifies this`focus, this`wss
      ensures Sound() && Remembers() && focus == w
      ensures forall k :: 0 <= k < WORKSPACES ==>
                && wss[k].layout == old(wss)[k].layout && wss[k].master == old(wss)[k].master
                && wss[k].focus == if w != null && k == w.ws then w else old(wss)[k].focus
    {
      hide Distinct;
      focus := w;
      if w != null {
        wss := wss[w.ws := wss[w.ws].(focus := w)];
      }
    }

    method IndexOf(w: Window) returns (i: int)
      ensures -1 <= i < |order|
      ensures if i < 0 then w !in order else order[i] == w && w !in order[..i]
    {
      i := 0;
      while i < |order|
        invariant 0 <= i <= |order| && w !in order[..i]
      {
        if order[i] == w {
          return;
        }
        i := i + 1;
      }
      assert order[..i] == order;
      i := -1;
    }

    /** The next window from w, going by delta around the order, that is on its workspace; w itself if there is none. */
    method StepFrom(w: Window, delta: int) returns (c: Window, ghost i: nat, ghost k: nat)
      requires w in order && -|order| <= delta
      ensures c in order && c.ws == w.ws
      ensures i < |order| && order[i] == w && 1 <= k <= |order|
      ensures forall j :: 1 <= j < k ==> order[Around(i, delta, j, |order|)].ws != w.ws
      ensures c == if k < |order| then order[Around(i, delta, k, |order|)] else w
    {
      var at := IndexOf(w);
      i, k := at, 1;
      var j := 1;
      while j < |order|
        invariant 1 <= j <= |order| && k == j
        invariant forall m :: 1 <= m < j ==> order[Around(i, delta, m, |order|)].ws != w.ws
      {
        AroundIs(at, delta, j, |order|);
        var there := order[(at + delta * j + |order| * j) % |order|];
        if there.ws == w.ws {
          return there, i, k;
        }
        j, k := j + 1, k + 1;
      }
      c := w;
    }

    method FocusStep(delta: int) returns (ghost i: nat, ghost k: nat)
      requires Valid() && (focus != null ==> -|order| <= delta)
      modifies this`focus, this`wss, order`shown, order`pane
      ensures Valid() && (old(focus) == null <==> focus == null)
      ensures old(focus) != null ==>
                && i < |order| && order[i] == old(focus) && 1 <= k <= |order|
                && (forall j :: 1 <= j < k ==> order[Around(i, delta, j, |order|)].ws != ws)
                && focus == if k < |order| then order[Around(i, delta, k, |order|)] else old(focus)
    {
      hide OnView, Placed, ShownAt, AllPanes, Distinct, Panes;
      i, k := 0, 0;
      if focus != null {
        var c;
        c, i, k := StepFrom(focus, delta);
        SetFocus(c);
      }
    }

    /** The focused window, at i, and the k-th place from it, the first on its workspace, change their windows. */
    method SwapStep(delta: int) returns (ghost i: nat, ghost k: nat)
      requires Valid() && (focus != null ==> -|order| <= delta)
      modifies this`order, order`shown, order`pane
      ensures Valid() && multiset(order) == old(multiset(order)) && (forall w :: w in order <==> w in old(order))
      ensures focus == null ==> order == old(order)
      ensures focus != null ==>
                && i < |old(order)| && old(order)[i] == focus && 1 <= k <= |old(order)|
                && (forall j :: 1 <= j < k ==> old(order)[Around(i, delta, j, |old(order)|)].ws != ws)
                && var b := if k < |old(order)| then Around(i, delta, k, |old(order)|) else i;
                   old(order)[b].ws == ws && order == old(order)[i := old(order)[b]][b := focus]
    {
      i, k := 0, 0;
      hide OnView, Placed, ShownAt, AllPanes, Distinct, Panes, Around;
      if focus == null {
        return;
      }
      ghost var was := order;
      i, k := SwapFrom(focus, delta);
      assert forall i :: 0 <= i < |order| ==> order[i] in order && order[i] in was;
      Retile();
    }

    /** A window and the next from it on its workspace change places in the order. */
    method SwapFrom(w: Window, delta: int) returns (ghost i: nat, ghost k: nat)
      requires Sound() && Remembers() && w in order && -|order| <= delta
      modifies this`order
      ensures Sound() && Remembers() && multiset(order) == old(multiset(order))
      ensures forall x :: x in order <==> x in old(order)
      ensures i < |old(order)| && old(order)[i] == w && 1 <= k <= |old(order)|
      ensures forall j :: 1 <= j < k ==> old(order)[Around(i, delta, j, |old(order)|)].ws != w.ws
      ensures var b := if k < |old(order)| then Around(i, delta, k, |old(order)|) else i;
              old(order)[b].ws == w.ws && order == old(order)[i := old(order)[b]][b := w]
    {
      hide Distinct, Around;
      var other;
      other, i, k := StepFrom(w, delta);
      ghost var was := order;
      var a, b := Swap(w, other);
      OnePlace(was, i, a);
      OnePlace(was, if k < |was| then Around(i, delta, k, |was|) else i, b);
    }

    /** The two windows change places in the order. */
    method Swap(w: Window, other: Window) returns (a: int, b: int)
      requires Sound() && Remembers() && w in order && other in order
      modifies this`order
      ensures Sound() && Remembers() && multiset(order) == old(multiset(order))
      ensures forall x :: x in order <==> x in old(order)
      ensures 0 <= a < |old(order)| && 0 <= b < |old(order)| && old(order)[a] == w && old(order)[b] == other
      ensures order == old(order)[a := other][b := w]
    {
      hide Distinct;
      a := IndexOf(w);
      b := IndexOf(other);
      ghost var was := order;
      order := order[a := other];
      order := order[b := w];
      Swapped(was, a, b);
    }

    /** The window to focus on workspace k: the one it last had. */
    method WorkspaceFocus(k: int) returns (w: Window?)
      requires Sound() && Remembers() && 0 <= k < WORKSPACES
      ensures w == null || (w in order && w.ws == k)
      ensures w == null <==> forall x :: x in order ==> x.ws != k
      ensures wss[k].focus != null ==> w == wss[k].focus
    {
      var f := wss[k].focus;
      if f != null {
        var i := IndexOf(f);
        if i >= 0 && f.ws == k {
          return f;
        }
      }
      var i := 0;
      while i < |order|
        invariant 0 <= i <= |order| && forall j :: 0 <= j < i ==> order[j].ws != k
      {
        if order[i].ws == k {
          return order[i];
        }
        i := i + 1;
      }
      w := null;
    }

    // ----- workspaces -----

    method ShowWorkspace(k: int)
      requires Valid() && 0 <= k < WORKSPACES
      modifies this`ws, this`placeWs, this`focus, this`wss, order`shown, order`pane
      ensures Valid() && ws == k
      // the window the workspace last had gets the focus, or another of its windows if it has any
      ensures old(ws) != k ==> (focus == null <==> forall x :: x in order ==> x.ws != k)
      ensures old(ws) != k && old(wss)[k].focus != null ==> focus == old(wss)[k].focus
      ensures old(ws) == k ==> focus == old(focus)
    {
      hide OnView, Placed, ShownAt, AllPanes, Distinct, Panes;
      if k == ws {
        return;
      }
      ws := k;
      placeWs := k;
      var w := WorkspaceFocus(k);
      SetFocus(w);
      Retile();
    }

    method SendToWorkspace(w: Window, k: int)
      requires Valid() && w in order && 0 <= k < WORKSPACES
      modifies this`focus, this`wss, w`ws, order`shown, order`pane
      ensures Valid() && w.ws == k
      ensures old(focus) == w && old(w.ws) != k ==> (focus == null <==> forall x :: x in order ==> x.ws != ws)
      ensures old(focus) != w || old(w.ws) == k ==> focus == old(focus)
      // a window that comes into a view with no focus does not get it
      ensures old(Attended()) ==> (Attended() <==> !(old(focus) == null && k == ws && old(w.ws) != k))
    {
      hide OnView, Placed, ShownAt, AllPanes, Distinct, Panes;
      if w.ws == k {
        return;
      }
      Move(w, k);
      if focus == w {
        var f := WorkspaceFocus(ws);
        SetFocus(f);
      }
      Retile();
    }

    /** The window moved, and remembered by its new workspace if that remembers none. */
    method Move(w: Window, k: int)
      requires Sound() && Remembers() && w in order && 0 <= k < WORKSPACES && w.ws != k
      modifies this`wss, w`ws
      ensures Sound() && Remembers() && w.ws == k
    {
      hide Distinct;
      var from := w.ws;
      w.ws := k;
      if wss[from].focus == w {
        wss := wss[from := wss[from].(focus := null)];
      }
      if wss[k].focus == null {
        wss := wss[k := wss[k].(focus := w)];
      }
    }

    method NextLayout()
      requires Valid()
      modifies this`wss, order`shown, order`pane
      ensures Valid()
      ensures wss[ws].layout == match old(wss)[ws].layout { case Grid => Tall case Tall => Mono case Mono => Grid }
    {
      hide OnView, Placed, ShownAt, AllPanes, Distinct, Panes;
      var l := match wss[ws].layout { case Grid => Tall case Tall => Mono case Mono => Grid };
      wss := wss[ws := wss[ws].(layout := l)];
      Retile();
    }

    method GrowMaster(delta: int)
      requires Valid()
      modifies this`wss, order`shown, order`pane
      ensures Valid()
      ensures var m := old(wss)[ws].master + delta; wss[ws].master == if m < 20 then 20 else if m > 80 then 80 else m
    {
      hide OnView, Placed, ShownAt, AllPanes, Distinct, Panes;
      var m := wss[ws].master + delta;
      ghost var was := wss[ws].master;
      wss := wss[ws := wss[ws].(master := if m < 20 then 20 else if m > 80 then 80 else m)];
      if wss[ws].layout == Tall {
        Retile();
      } else {
        SamePanes(wss[ws].layout, was, wss[ws].master, Area(), |OnView(order, ws)|);
      }
    }

    /** A new window: the last in the order, with the focus if it is in view. */
    method AddWindow(w: Window)
      requires Valid() && |order| < MAX_WINDOWS && w !in order
      modifies this`order, this`focus, this`wss, w, order`shown, order`pane
      ensures Valid() && order == old(order) + [w] && w.ws == placeWs
      ensures placeWs == ws ==> focus == w
      ensures placeWs != ws ==> focus == old(focus)
    {
      hide OnView, Placed, ShownAt, AllPanes, Distinct, Panes;
      w.ws := placeWs;
      DistinctMore(order, w);
      order := order + [w];
      if w.ws == ws {
        SetFocus(w);
      } else if wss[w.ws].focus == null {
        wss := wss[w.ws := wss[w.ws].(focus := w)];
      }
      Retile();
    }

    method RemoveWindow(w: Window)
      requires Valid() && w in order
      modifies this`order, this`focus, this`wss, order`shown, order`pane
      ensures Valid() && w !in order && multiset(order) == old(multiset(order)) - multiset{w}
      ensures forall x :: x in order <==> x in old(order) && x != w
      ensures old(focus) != w ==> focus == old(focus)
      ensures focus != w
      ensures old(focus) == w ==> (focus == null <==> forall x :: x in order ==> x.ws != ws)
    {
      hide OnView, Placed, ShownAt, AllPanes, Distinct, Panes;
      var next := Neighbour(w);
      ghost var was := order;
      Unlist(w, next);
      assert forall i :: 0 <= i < |order| ==> order[i] in order && order[i] in was;
      if focus == w {
        focus := null;
        SetFocus(next);
      }
      Retile();
    }

    /** The window that takes the place of w: the one before it on its workspace, if there is another. */
    method Neighbour(w: Window) returns (next: Window?)
      requires Sound() && w in order
      ensures next != w && (next != null ==> next in order && next.ws == w.ws)
      ensures next == null <==> forall x :: x in order && x != w ==> x.ws != w.ws
    {
      next := null;
      if |order| > 1 {
        var c, i, k := StepFrom(w, -1);
        NoOther(i, k, c);
        next := c;
      }
      if next == w || (next != null && next.ws != w.ws) {
        next := null;
      }
    }

    /** Going back around the order comes by every other window. */
    lemma NoOther(i: nat, k: nat, c: Window)
      requires Distinct(order) && i < |order| && 1 <= k <= |order|
      requires forall j :: 1 <= j < k ==> order[Around(i, -1, j, |order|)].ws != order[i].ws
      requires c == if k < |order| then order[Around(i, -1, k, |order|)] else order[i]
      requires c.ws == order[i].ws
      ensures c == order[i] <==> forall x :: x in order && x != order[i] ==> x.ws != order[i].ws
    {
      var n := |order|;
      if k < n {
        BackAt(i, k, n);
        assert c in order && c != order[i];
      } else {
        forall x | x in order && x != order[i] ensures x.ws != order[i].ws {
          var m :| 0 <= m < n && order[m] == x;
          BackTo(i, m, n);
          assert Around(i, -1, if m < i then i - m else i - m + n, n) == m;
        }
      }
    }

    /** Takes w out of the order, and out of what is remembered. */
    method Unlist(w: Window, next: Window?)
      requires Sound() && Remembers() && w in order && next != w && (next != null ==> next in order && next.ws == w.ws)
      modifies this`order, this`wss
      ensures Sound() && Remembers() && w !in order && multiset(order) == old(multiset(order)) - multiset{w}
      ensures forall x :: x in old(order) && x != w <==> x in order
    {
      hide Distinct;
      var i := IndexOf(w);
      ghost var was := order;
      order := order[..i] + order[i + 1..];
      Removed(was, i);
      if wss[w.ws].focus == w {
        wss := wss[w.ws := wss[w.ws].(focus := next)];
      }
    }

    // ----- who calls them -----

    /** The window shown at a point. */
    method WindowAt(x: int, y: int) returns (w: Window?)
      requires Valid()
      ensures w != null ==> w in order && w.shown && w.ws == ws && InPane(w.pane, x, y)
      ensures w == null ==> forall v :: v in order && v.shown ==> !InPane(v.pane, x, y)
    {
      OnViewHas(order, ws);
      var i := 0;
      while i < |order|
        invariant 0 <= i <= |order| && forall j :: 0 <= j < i && order[j].shown ==> !InPane(order[j].pane, x, y)
      {
        if order[i].shown && InPane(order[i].pane, x, y) {
          ShownInView(order, focus, ws, wss[ws].layout, order[i]);
          return order[i];
        }
        i := i + 1;
      }
      w := null;
    }

    /** A click focuses the window it is on. */
    method Click(x: int, y: int) returns (w: Window?)
      requires Valid()
      modifies this`focus, this`wss, order`shown, order`pane
      ensures Valid()
      ensures w != null ==> w in old(order) && old(w.shown) && old(InPane(w.pane, x, y)) && focus == w
      ensures w == null ==> focus == old(focus)
      ensures w == null ==> forall v :: v in old(order) && old(v.shown) ==> !old(InPane(v.pane, x, y))
    {
      hide OnView, Placed, ShownAt, AllPanes, Distinct, Panes;
      w := WindowAt(x, y);
      if w != null {
        SetFocus(w);
      }
    }

    /** The ctl command `top`: the window comes into view, with the focus. */
    method Top(w: Window)
      requires Valid() && w in order
      modifies this`ws, this`placeWs, this`focus, this`wss, order`shown, order`pane
      ensures Valid() && focus == w && ws == w.ws
    {
      ShowWorkspace(w.ws);
      SetFocus(w);
    }

    /** The session says where the windows to come go. */
    method PlaceOn(k: int)
      requires Valid() && 0 <= k < WORKSPACES
      modifies this`placeWs
      ensures Valid() && placeWs == k
    {
      hide OnView, Placed, ShownAt, AllPanes, Distinct, Panes, Roomy;
      ghost var n := |OnView(order, ws)|;
      assert ShownAt(order, Placed(order, focus, ws, wss[ws].layout),
                     AllPanes(wss[ws].layout, wss[ws].master, Area(), n));
      placeWs := k;
      assert Sound() && Remembers();
    }
  }

  /** Going around n places. */
  function Around(i: nat, delta: int, k: nat, n: nat): (j: nat)
    requires n > 0
    ensures j < n
  {
    (i + delta * k) % n
  }

  lemma BackAt(i: nat, k: nat, n: nat)
    requires i < n && 1 <= k < n
    ensures Around(i, -1, k, n) != i
  {
  }

  lemma BackTo(i: nat, m: nat, n: nat)
    requires i < n && m < n && m != i
    ensures Around(i, -1, if m < i then i - m else i - m + n, n) == m
  {
  }

  lemma AroundIs(i: nat, delta: int, k: nat, n: nat)
    requires n > 0
    ensures (i + delta * k + n * k) % n == Around(i, delta, k, n)
  {
    DivModAdd(i + delta * k, k, n);
    assert k * n == n * k;
  }

  /** Which windows are placed does not depend on the focus, but in mono. */
  lemma SamePlaced(order: seq<Window>, f: Window?, g: Window?, k: int, layout: Layout)
    requires layout != Mono
    ensures Placed(order, f, k, layout) == Placed(order, g, k, layout)
  {
    OnViewHas(order, k);
    var list := OnView(order, k);
    if |list| == 1 {
      assert list[0] in list;
    }
  }

  lemma SamePanes(layout: Layout, m: int, m': int, a: Rect, n: nat)
    requires layout != Tall
    ensures AllPanes(layout, m, a, n) == AllPanes(layout, m', a, n)
  {
  }

  lemma ShownInView(order: seq<Window>, f: Window?, k: int, layout: Layout, w: Window)
    requires w in Placed(order, f, k, layout)
    ensures w.ws == k
  {
    OnViewHas(order, k);
    var list := OnView(order, k);
    assert list != [] ==> list[0] in list;
  }

  lemma DistinctMore(s: seq<Window>, w: Window)
    requires Distinct(s) && w !in s
    ensures Distinct(s + [w])
  {
  }

  lemma Swapped(was: seq<Window>, a: int, b: int)
    requires 0 <= a < |was| && 0 <= b < |was| && Distinct(was)
    ensures var now := was[a := was[b]][b := was[a]];
            Distinct(now) && multiset(now) == multiset(was) && forall w :: w in now <==> w in was
  {
    var now := was[a := was[b]][b := was[a]];
    assert multiset(now) == multiset(was);
    forall w ensures w in now <==> w in was {
      assert w in multiset(now) <==> w in multiset(was);
    }
  }

  lemma OnePlace(s: seq<Window>, i: int, j: int)
    requires Distinct(s) && 0 <= i < |s| && 0 <= j < |s| && s[i] == s[j]
    ensures i == j
  {
  }

  lemma Removed(was: seq<Window>, i: nat)
    requires i < |was| && Distinct(was)
    ensures var now := was[..i] + was[i + 1..];
            && Distinct(now) && was[i] !in now && multiset(now) == multiset(was) - multiset{was[i]}
            && forall w :: w in was && w != was[i] <==> w in now
  {
    var now := was[..i] + was[i + 1..];
    RemovedHas(was, now, i);
    assert was == was[..i] + [was[i]] + was[i + 1..];
  }

  lemma RemovedHas(was: seq<Window>, now: seq<Window>, i: nat)
    requires i < |was| && Distinct(was) && now == was[..i] + was[i + 1..]
    ensures Distinct(now) && was[i] !in now && forall w :: w in was && w != was[i] <==> w in now
  {
    assert forall j :: 0 <= j < |now| ==> now[j] == was[if j < i then j else j + 1];
    forall w | w in was && w != was[i] ensures w in now {
      var j :| 0 <= j < |was| && was[j] == w;
      assert now[if j < i then j else j - 1] == w;
    }
  }

  method PlaceOne(w: Window, a: Rect)
    modifies w`shown, w`pane
    ensures w.shown && w.pane == a
  {
    w.shown := true;
    w.pane := a;
  }

  lemma OnePane(layout: Layout, master: int, a: Rect, n: nat)
    requires n > 0 && (layout == Mono || n == 1)
    ensures Panes(layout, master, a, n) == [a]
  {
  }

  lemma NoneShown(order: seq<Window>)
    requires forall w :: w in order ==> !w.shown
    ensures ShownAt(order, [], [])
  {
  }

  lemma OneShown(order: seq<Window>, v: Window, a: Rect)
    requires v in order && v.shown && v.pane == a && forall w :: w in order && w != v ==> !w.shown
    ensures ShownAt(order, [v], [a])
  {
    assert v in [v];
  }

  lemma AllShown(order: seq<Window>, list: seq<Window>, rs: seq<Rect>)
    requires PlacedTo(list, |list|, rs) && forall w :: w in list ==> w in order
    requires forall w :: w in order && w !in list ==> !w.shown
    ensures ShownAt(order, list, rs)
  {
    forall w | w in order ensures w.shown <==> w in list {
      if w in list {
        var j :| 0 <= j < |list| && list[j] == w;
      }
    }
  }

  /** The tall layout and the grid. */
  method PlaceAll(list: seq<Window>, layout: Layout, master: int, a: Rect, ghost rs: seq<Rect>)
    requires Distinct(list) && 2 <= |list| <= MAX_WINDOWS && Roomy(a) && layout != Mono && |rs| == |list|
    requires rs == Panes(layout, master, a, |list|) && forall w :: w in list ==> !w.shown
    modifies list`shown, list`pane
    ensures PlacedTo(list, |list|, rs)
  {
    hide Column, GridFrom, Columns, Distinct;
    var n := |list|;
    assert PlacedTo(list, 0, rs);
    if layout == Tall {
      var m := (a.w - GAP) * master / 100;
      Place(list, 0, Rect(a.x, a.y, m, a.h), rs);
      ColumnLength(a.x + m + GAP, a.w - m - GAP, a, n - 1, 0);
      assert rs[1..] == Column(a.x + m + GAP, a.w - m - GAP, a, n - 1, 0) + [];
      var k := PlaceColumn(list, 1, a.x + m + GAP, a.w - m - GAP, a, n - 1, rs, []);
    } else {
      PlaceGrid(list, a, rs);
    }
  }

  // ----- what is on the screen -----

  /** A shown window is one of those the layout places. */
  lemma ShownIndex(d: Desktop, w: Window) returns (i: nat)
    requires d.Valid() && w in d.order && w.shown
    ensures 1 <= |OnView(d.order, d.ws)| <= MAX_WINDOWS
    ensures var panes := Panes(d.wss[d.ws].layout, d.wss[d.ws].master, d.Area(), |OnView(d.order, d.ws)|);
            var placed := Placed(d.order, d.focus, d.ws, d.wss[d.ws].layout);
            |panes| == |placed| && i < |panes| && placed[i] == w && w.pane == panes[i]
  {
    hide Panes, OnView;
    OnViewHas(d.order, d.ws);
    var placed := Placed(d.order, d.focus, d.ws, d.wss[d.ws].layout);
    i :| 0 <= i < |placed| && placed[i] == w;
  }

  /** What is shown: all the windows in view, or in a mono layout the focused one alone. */
  lemma WhoIsShown(d: Desktop, w: Window)
    requires d.Valid() && w in d.order
    ensures w.shown ==> w.ws == d.ws
    ensures d.wss[d.ws].layout != Mono ==> (w.shown <==> w.ws == d.ws)
    ensures d.wss[d.ws].layout == Mono && d.focus != null ==> (w.shown <==> w == d.focus)
  {
    hide Panes, OnView;
    OnViewHas(d.order, d.ws);
    var list := OnView(d.order, d.ws);
    if |list| == 1 {
      assert forall v :: v in list ==> v == list[0];
    }
  }

  /** A window that is shown is inside the tiling area, and no other that is shown overlaps it. */
  lemma ShownApart(d: Desktop, v: Window, w: Window, x: int, y: int)
    requires d.Valid() && v in d.order && v.shown && w in d.order && w.shown && InPane(v.pane, x, y)
    ensures InPane(d.Area(), x, y) && (v != w ==> !InPane(w.pane, x, y))
    ensures GAP <= x < d.width - GAP && BAR_H + GAP <= y < d.height - GAP
  {
    hide Panes, OnView, ShownAt, Placed, Distinct;
    var i := ShownIndex(d, v);
    var j := ShownIndex(d, w);
    PanesApart(d.wss[d.ws].layout, d.wss[d.ws].master, d.Area(), |OnView(d.order, d.ws)|, i, j, x, y);
  }

  /** With any window in view, every point of the area is in one that is shown, or in the gap after it. */
  lemma ShownEverywhere(d: Desktop, x: int, y: int) returns (w: Window)
    requires d.Valid() && OnView(d.order, d.ws) != [] && InCell(d.Area(), x, y)
    ensures w in d.order && w.shown && w.ws == d.ws && InCell(w.pane, x, y)
  {
    hide Panes, OnView, Hits;
    OnViewHas(d.order, d.ws);
    var n := |OnView(d.order, d.ws)|;
    PanesCover(d.wss[d.ws].layout, d.wss[d.ws].master, d.Area(), n, x, y);
    var panes := Panes(d.wss[d.ws].layout, d.wss[d.ws].master, d.Area(), n);
    var placed := Placed(d.order, d.focus, d.ws, d.wss[d.ws].layout);
    var i := HitsSome(panes, x, y);
    w := placed[i];
    assert w in placed;
    ShownInView(d.order, d.focus, d.ws, d.wss[d.ws].layout, w);
  }

  // ----- any run -----

  datatype Event =
    | Add | Remove(i: nat) | Send(i: nat, ws: int) | Show(ws: int) | Step(back: bool) | Swap(back: bool)
    | Layout | Grow(delta: int) | Click(x: int, y: int) | Top(i: nat) | Session(ws: int)

  /** A window comes into the view, which has no focus, from another workspace. */
  predicate Strays(d: Desktop, e: Event)
    reads d, d.order
  {
    e.Send? && e.i < |d.order| && e.ws == d.ws && 0 <= e.ws < WORKSPACES && d.order[e.i].ws != d.ws && d.focus == null
  }

  /** One thing that happens; what names no window or workspace there is does nothing, as the callers see to it. */
  method Do(d: Desktop, e: Event)
    requires d.Valid()
    modifies d, d.order
    ensures d.Valid() && forall w :: w in d.order && w !in old(d.order) ==> fresh(w)
    ensures old(d.Attended()) ==> (d.Attended() <==> !old(Strays(d, e)))
  {
    hide OnView, Placed, ShownAt, AllPanes, Distinct, Panes;
    match e
    case Add =>
      if |d.order| < MAX_WINDOWS {
        var w := new Window(0);
        d.AddWindow(w);
      }
    case Remove(i) =>
      if i < |d.order| {
        RemoveAt(d, i);
      }
    case Send(i, k) =>
      if i < |d.order| && 0 <= k < WORKSPACES {
        d.SendToWorkspace(d.order[i], k);
      }
    case Show(k) =>
      if 0 <= k < WORKSPACES {
        d.ShowWorkspace(k);
      }
    case Step(back) =>
      ghost var i, k := d.FocusStep(if back then -1 else 1);
    case Swap(back) => SwapAround(d, back);
    case Layout => d.NextLayout();
    case Grow(delta) => d.GrowMaster(delta);
    case Click(x, y) => var _ := d.Click(x, y);
    case Top(i) =>
      if i < |d.order| {
        d.Top(d.order[i]);
      }
    case Session(k) =>
      if 0 <= k < WORKSPACES {
        d.PlaceOn(k);
      }
  }

  method RemoveAt(d: Desktop, i: nat)
    requires d.Valid() && i < |d.order|
    modifies d, d.order
    ensures d.Valid() && forall w :: w in d.order ==> w in old(d.order)
    ensures old(d.Attended()) ==> d.Attended()
  {
    hide OnView, Placed, ShownAt, AllPanes, Distinct, Panes;
    d.RemoveWindow(d.order[i]);
  }

  method SwapAround(d: Desktop, back: bool)
    requires d.Valid()
    modifies d, d.order
    ensures d.Valid() && forall w :: w in d.order ==> w in old(d.order)
    ensures old(d.Attended()) ==> d.Attended()
  {
    hide OnView, Placed, ShownAt, AllPanes, Distinct, Panes;
    ghost var i, k := d.SwapStep(if back then -1 else 1);
  }

  /** Whatever happens, the focus, the workspaces and the panes are in order. And the focus is null only with nothing in
      view, unless a window has come into a view without focus from another workspace. */
  method Run(width: int, height: int, events: seq<Event>) returns (d: Desktop, strayed: bool)
    requires width >= 2 * GAP + (MAX_WINDOWS - 1) * GAP && height >= BAR_H + 2 * GAP + (MAX_WINDOWS - 1) * GAP
    ensures d.Valid()
    ensures !strayed ==> (d.focus == null <==> forall w :: w in d.order ==> w.ws != d.ws)
    ensures strayed ==> exists e :: e in events && e.Send?
  {
    hide OnView, Placed, ShownAt, AllPanes, Distinct, Panes;
    d := new Desktop(width, height);
    strayed := false;
    var i := 0;
    while i < |events|
      invariant 0 <= i <= |events| && fresh(d) && d.Valid() && forall w :: w in d.order ==> fresh(w)
      invariant !strayed ==> d.Attended()
      invariant strayed ==> exists e :: e in events && e.Send?
    {
      assert forall j :: 0 <= j < |d.order| ==> d.order[j] in d.order;
      if Strays(d, events[i]) {
        assert events[i] in events;
        strayed := true;
      }
      Do(d, events[i]);
      i := i + 1;
    }
  }

  /** A window that was made on another workspace and sent to the empty one in view has no focus there. */
  method Stray() returns (d: Desktop, w: Window)
    ensures d.Valid() && w in d.order && w.ws == d.ws && d.focus == null
  {
    hide OnView, Placed, ShownAt, AllPanes, Distinct, Panes;
    d := new Desktop(1024, 768);
    d.PlaceOn(1);
    w := new Window(0);
    d.AddWindow(w);
    d.SendToWorkspace(w, d.ws);
  }
}

/** The window manager as it lies in memory: a linked list of windows per desktop, changed through
    pointers, and proved to do what the operations on values say. */
module WindowManager {
  import opened Words
  import opened WindowModel
  import opened Tiling

  class Window {
    const id: int
    var x: int
    var y: int
    var width: int
    var height: int
    var zOrder: int
    var focused: bool
    var next: Window?

    constructor (id: int, x: int, y: int, width: int, height: int, zOrder: int, next: Window?)
      ensures View() == Win(id, x, y, width, height, zOrder, false) && this.next == next
    {
      this.id, this.x, this.y, this.width, this.height := id, x, y, width, height;
      this.zOrder, this.focused, this.next := zOrder, false, next;
    }

    function View(): Win
      reads this
    {
      Win(id, x, y, width, height, zOrder, focused)
    }
  }

  /** The node behind position i, or null at the end. */
  function NodeAt(nodes: seq<Window>, i: nat): Window? {
    if i < |nodes| then nodes[i] else null
  }

  function Without(nodes: seq<Window>, i: nat): seq<Window>
    requires i < |nodes|
  {
    nodes[..i] + nodes[i + 1..]
  }

  lemma WithoutAt(nodes: seq<Window>, i: nat)
    requires i < |nodes|
    ensures var r := Without(nodes, i); |r| == |nodes| - 1 && forall j: nat :: j < |r| ==> r[j] == nodes[Was(j, i)]
  {
  }

  lemma WithoutDistinct(nodes: seq<Window>, i: nat)
    requires i < |nodes| && Distinct(nodes)
    ensures Distinct(Without(nodes, i)) && nodes[i] !in Without(nodes, i)
  {
    WithoutAt(nodes, i);
  }

  lemma DroppedIsRemoved(l: WinList, r: WinList, id: int, k: nat)
    requires DropsOne(l, r, k) && k == IndexOf(l, id)
    ensures r == Remove(l, id)
  {
    forall j: nat | j < |r| ensures r[j] == (l[..k] + l[k + 1..])[j] {
      assert r[j] == l[Was(j, k)];
    }
  }

  class Desktop {
    var windows: Window?
    var windowCount: nat
    ghost var nodes: seq<Window>

    constructor ()
      ensures Valid() && View() == [] && nodes == []
    {
      windows, windowCount, nodes := null, 0, [];
    }

    /** `nodes` are the windows reached from the head, without repetition, in order. */
    ghost predicate Valid()
      reads this, nodes
    {
      windows == NodeAt(nodes, 0) && windowCount == |nodes| &&
      (forall i: nat {:trigger nodes[i].next} :: i < |nodes| ==> nodes[i].next == NodeAt(nodes, i + 1)) &&
      Distinct(nodes)
    }

    ghost function View(): (l: WinList)
      reads this, nodes
      ensures |l| == |nodes| && forall i :: 0 <= i < |l| ==> l[i] == nodes[i].View()
    {
      seq(|nodes|, i requires 0 <= i < |nodes| reads this, nodes => nodes[i].View())
    }

    /** `find_window` */
    method Find(id: int) returns (w: Window?)
      requires Valid()
      ensures w == NodeAt(nodes, IndexOf(View(), id))
    {
      w := windows;
      ghost var i: nat := 0;
      while w != null
        invariant i <= |nodes| && w == NodeAt(nodes, i)
        invariant forall j :: 0 <= j < i ==> nodes[j].id != id
        decreases |nodes| - i
      {
        if w.id == id {
          IndexOfIs(View(), id, i);
          return w;
        }
        w := w.next;
        i := i + 1;
      }
      IndexOfIs(View(), id, |nodes|);
    }

    /** `get_focused_window` */
    method GetFocused() returns (w: Window?)
      requires Valid()
      ensures w == NodeAt(nodes, FocusedIndex(View()))
    {
      w := windows;
      ghost var i: nat := 0;
      while w != null
        invariant i <= |nodes| && w == NodeAt(nodes, i)
        invariant forall j :: 0 <= j < i ==> !nodes[j].focused
        decreases |nodes| - i
      {
        if w.focused {
          FocusedIndexIs(View(), i);
          return w;
        }
        w := w.next;
        i := i + 1;
      }
      FocusedIndexIs(View(), |nodes|);
    }

    /** `wm_create_window` on this desktop, with the id it is given. */
    method Create(id: int, x: int, y: int, width: int, height: int) returns (w: Window?)
      requires Valid()
      modifies this
      ensures Valid()
      ensures |old(View())| >= MAX_WINDOWS ==> w == null && View() == old(View()) && nodes == old(nodes)
      ensures |old(View())| < MAX_WINDOWS ==> w != null && fresh(w) && nodes == [w] + old(nodes)
      ensures |old(View())| < MAX_WINDOWS ==>
                View() == [Win(id, x, y, width, height, |old(View())|, false)] + old(View())
    {
      if windowCount >= MAX_WINDOWS {
        return null;
      }
      w := new Window(id, x, y, width, height, windowCount, windows);
      windows := w;
      windowCount := windowCount + 1;
      nodes := [w] + nodes;
    }

    /** `wm_destroy_window` on this desktop. `prev` is the node whose `next` points to the current one;
        null stands for the head pointer. */
    method Destroy(id: int)
      requires Valid()
      modifies this, nodes`next
      ensures Valid() && View() == Remove(old(View()), id)
      ensures forall w :: w in nodes ==> w in old(nodes)
    {
      var prev: Window?, cur := null, windows;
      ghost var i: nat := 0;
      while cur != null
        invariant i <= |nodes| && cur == NodeAt(nodes, i) && prev == if i == 0 then null else nodes[i - 1]
        invariant forall j :: 0 <= j < i ==> nodes[j].id != id
        decreases |nodes| - i
      {
        if cur.id == id {
          IndexOfIs(View(), id, i);
          ghost var l, before := View(), nodes;
          Unlink(prev, cur, i);
          ViewDrops(this, l, before, i);
          DroppedIsRemoved(l, View(), id, i);
          return;
        }
        prev := cur;
        cur := cur.next;
        i := i + 1;
      }
      IndexOfIs(View(), id, |nodes|);
    }

    static lemma ViewDrops(d: Desktop, l: WinList, before: seq<Window>, i: nat)
      requires i < |before| && d.nodes == Without(before, i)
      requires |l| == |before| && forall j :: 0 <= j < |l| ==> l[j] == before[j].View()
      ensures DropsOne(l, d.View(), i)
    {
      WithoutAt(before, i);
    }

    /** Takes the i-th node out of the list. */
    method Unlink(prev: Window?, cur: Window, ghost i: nat)
      requires Valid() && i < |nodes| && cur == nodes[i] && prev == if i == 0 then null else nodes[i - 1]
      modifies this, nodes`next
      ensures Valid() && nodes == Without(old(nodes), i)
    {
      ghost var before := nodes;
      ghost var after := Without(before, i);
      WithoutAt(before, i);
      WithoutDistinct(before, i);
      if prev == null {
        windows := cur.next;
      } else {
        Relink(prev, cur, before, i);
      }
      assert windows == NodeAt(after, 0);
      LinkedWithout(before, after, i);
      windowCount := windowCount - 1;
      nodes := after;
    }

    /** Links the node before i to the one behind it. */
    static method Relink(prev: Window, cur: Window, ghost before: seq<Window>, ghost i: nat)
      requires 0 < i < |before| && prev == before[i - 1] && cur == before[i] && Distinct(before)
      requires cur.next == NodeAt(before, i + 1)
      modifies prev`next
      ensures prev.next == NodeAt(before, i + 1)
      ensures forall j :: 0 <= j < |before| && j != i - 1 ==> before[j].next == old(before[j].next)
    {
      prev.next := cur.next;
    }

    static lemma LinkedWithout(before: seq<Window>, after: seq<Window>, i: nat)
      requires i < |before| && |after| == |before| - 1 && forall j: nat :: j < |after| ==> after[j] == before[Was(j, i)]
      requires forall j: nat :: j < |before| && j != i && j + 1 != i ==> before[j].next == NodeAt(before, j + 1)
      requires i > 0 ==> before[i - 1].next == NodeAt(before, i + 1)
      ensures forall j: nat :: j < |after| ==> after[j].next == NodeAt(after, j + 1)
    {
      forall j: nat | j < |after| ensures after[j].next == NodeAt(after, j + 1) {
        assert after[j] == before[Was(j, i)];
        assert j + 1 < |after| ==> after[j + 1] == before[Was(j + 1, i)];
      }
    }

    /** The first loop of `wm_focus_window`. */
    method UnfocusAll()
      requires Valid()
      modifies nodes`focused
      ensures Valid() && View() == Unfocused(old(View()))
    {
      var w := windows;
      ghost var i: nat := 0;
      while w != null
        invariant i <= |nodes| && w == NodeAt(nodes, i) && Valid()
        invariant forall j :: 0 <= j < |nodes| ==> nodes[j].focused == (old(nodes[j].focused) && j >= i)
        decreases |nodes| - i
      {
        w.focused := false;
        w := w.next;
        i := i + 1;
      }
      assert View() == Unfocused(old(View()));
    }

    /** `wm_focus_window` on this desktop. */
    method FocusOn(id: int)
      requires Valid()
      modifies nodes`focused
      ensures Valid() && View() == Focus(old(View()), id)
    {
      UnfocusAll();
      ghost var u := View();
      var win := Find(id);
      if win != null {
        SetFocused(win, IndexOf(u, id));
      }
    }

    method SetFocused(win: Window, ghost k: nat)
      requires Valid() && k < |nodes| && win == nodes[k]
      modifies win`focused
      ensures Valid() && View() == old(View())[k := old(View())[k].(focused := true)]
    {
      ghost var u := View();
      win.focused := true;
      forall j | 0 <= j < |nodes| ensures View()[j] == u[k := u[k].(focused := true)][j] {
        assert nodes[j].View() == if j == k then u[k].(focused := true) else u[j];
      }
    }

    /** `wm_tile_windows` */
    method TileWindows()
      requires Valid()
      modifies nodes`x, nodes`y, nodes`width, nodes`height
      ensures Valid() && View() == Tiled(old(View()))
    {
      var n := windowCount;
      if n == 0 {
        return;
      }
      var cols, rows := GridSize(n);
      ghost var tile := (i: nat) => GridTile(Cols(n), Rows(n), i);
      GridIsDealt(tile, cols, rows, SCREEN_WIDTH / cols, SCREEN_HEIGHT / rows);
      RowStartIs(rows, cols);
      DealTiles(cols, rows, SCREEN_WIDTH / cols, SCREEN_HEIGHT / rows, tile);
    }

    /** The first i windows have their tiles; `was` is the list before. */
    ghost predicate IsDealt(was: WinList, tile: nat -> Rect, i: nat)
      reads this, nodes
    {
      |was| == |nodes| &&
      forall j: nat :: j < |nodes| ==> nodes[j].View() == if j < i then Placed(was[j], tile(j)) else was[j]
    }

    /** The loop over the rows. */
    method DealTiles(cols: nat, rows: nat, w: nat, h: nat, ghost tile: nat -> Rect)
      requires Valid() && DealsGrid(tile, cols, w, h) && RowStart(rows, cols) >= |nodes|
      modifies nodes`x, nodes`y, nodes`width, nodes`height
      ensures Valid() && View() == Dealt(old(View()), tile, |nodes|)
    {
      ghost var was := View();
      var win := windows;
      var r: nat := 0;
      ghost var i: nat := 0;
      while r < rows && win != null
        invariant r <= rows && i <= |nodes| && win == NodeAt(nodes, i) && (win != null ==> i == RowStart(r, cols))
        invariant Valid() && IsDealt(was, tile, i)
      {
        win, i := DealRow(win, r, i, cols, w, h, tile, was);
        r := r + 1;
      }
      assert i == |nodes|;
      IsDealtView(this, was, tile);
    }

    static lemma IsDealtView(d: Desktop, was: WinList, tile: nat -> Rect)
      requires d.IsDealt(was, tile, |d.nodes|)
      ensures d.View() == Dealt(was, tile, |d.nodes|)
    {
    }

    /** The loop over the columns of row r. */
    method DealRow(first: Window, r: nat, ghost start: nat, cols: nat, w: nat, h: nat, ghost tile: nat -> Rect,
            ghost was: WinList)
        returns (win: Window?, ghost i: nat)
      requires Valid() && DealsGrid(tile, cols, w, h) && start < |nodes| && first == nodes[start] &&
               start == RowStart(r, cols)
      requires IsDealt(was, tile, start)
      modifies nodes`x, nodes`y, nodes`width, nodes`height
      ensures Valid() && i <= |nodes| && win == NodeAt(nodes, i) && (win != null ==> i == RowStart(r + 1, cols))
      ensures IsDealt(was, tile, i)
    {
      win := first;
      i := start;
      var c := 0;
      while c < cols && win != null
        invariant c <= cols && i == start + c && i <= |nodes| && win == NodeAt(nodes, i)
        invariant Valid() && IsDealt(was, tile, i)
      {
        assert tile(RowStart(r, cols) + c) == At(c, r, w, h);
        DealOne(win, i, c * w, r * h, w, h, tile, was);
        c, win, i := c + 1, win.next, i + 1;
      }
    }

    method DealOne(win: Window, ghost i: nat, x: int, y: int, w: nat, h: nat, ghost tile: nat -> Rect,
            ghost was: WinList)
      requires Valid() && i < |nodes| && win == nodes[i] && tile(i) == Rect(x, y, w, h)
      requires IsDealt(was, tile, i)
      modifies win`x, win`y, win`width, win`height
      ensures Valid() && IsDealt(was, tile, i + 1)
    {
      win.x := x;
      win.y := y;
      win.width := w;
      win.height := h;
    }

    /** Focuses the window behind the focused one, round the end. */
    method FocusNext(win: Window)
      requires Valid() && NodeAt(nodes, FocusedIndex(View())) == win
      modifies nodes`focused
      ensures Valid() && View() == Tab(old(View()))
    {
      ghost var l := View();
      var id := if win.next != null then win.next.id else windows.id;
      TabFocuses(l, FocusedIndex(l), id);
      FocusOn(id);
    }

    /** The Tab branch of the keyboard handler. */
    method PressTab()
      requires Valid()
      modifies nodes`focused
      ensures Valid() && View() == Tab(old(View()))
    {
      var win := GetFocused();
      if win == null {
        TabWithoutFocus(View());
        return;
      }
      FocusNext(win);
    }
  }

  lemma TabFocuses(l: WinList, k: nat, id: int)
    requires k < |l| && k == FocusedIndex(l) && id == l[if k + 1 < |l| then k + 1 else 0].id
    ensures Tab(l) == Focus(l, id)
  {
  }

  lemma TabWithoutFocus(l: WinList)
    requires FocusedIndex(l) == |l|
    ensures Tab(l) == l
  {
  }

  /** The position of the first window of row r. */
  function RowStart(r: nat, cols: nat): nat {
    if r == 0 then 0 else RowStart(r - 1, cols) + cols
  }

  lemma {:induction false} RowStartIs(r: nat, cols: nat)
    ensures RowStart(r, cols) == r * cols
  {
    if r > 0 {
      RowStartIs(r - 1, cols);
      Distribute(r - 1, 1, cols);
    }
  }

  /** `tile` deals tiles of width w and height h row by row. */
  ghost predicate DealsGrid(tile: nat -> Rect, cols: nat, w: nat, h: nat) {
    cols > 0 &&
    forall r: nat, c: nat {:trigger At(c, r, w, h)} :: c < cols ==> tile(RowStart(r, cols) + c) == At(c, r, w, h)
  }

  lemma GridTileAt(cols: nat, rows: nat, w: nat, h: nat, i: nat, r: nat, c: nat)
    requires cols > 0 && rows > 0 && w == SCREEN_WIDTH / cols && h == SCREEN_HEIGHT / rows
    requires i % cols == c && i / cols == r
    ensures GridTile(cols, rows, i) == At(c, r, w, h)
  {
  }

  lemma DealtAtStart(cols: nat, rows: nat, w: nat, h: nat, r: nat, c: nat)
    requires cols > 0 && rows > 0 && w == SCREEN_WIDTH / cols && h == SCREEN_HEIGHT / rows && c < cols
    ensures GridTile(cols, rows, RowStart(r, cols) + c) == At(c, r, w, h)
  {
    var i := RowStart(r, cols) + c;
    RowStartIs(r, cols);
    PositionOf(i, r, c, cols);
    GridTileAt(cols, rows, w, h, i, r, c);
  }

  lemma GridIsDealt(tile: nat -> Rect, cols: nat, rows: nat, w: nat, h: nat)
    requires cols > 0 && rows > 0 && w == SCREEN_WIDTH / cols && h == SCREEN_HEIGHT / rows
    requires forall i: nat :: tile(i) == GridTile(cols, rows, i)
    ensures DealsGrid(tile, cols, w, h)
  {
    forall r: nat, c: nat | c < cols ensures tile(RowStart(r, cols) + c) == At(c, r, w, h) {
      DealtAtStart(cols, rows, w, h, r, c);
    }
  }

  lemma PositionOf(i: nat, r: nat, c: nat, cols: nat)
    requires c < cols && i == r * cols + c
    ensures i % cols == c && i / cols == r
  {
    ModUnique(i, r, c, cols);
    DivModIs(i, cols);
    SameFactor(i / cols, r, cols);
  }

  lemma SameFactor(a: int, b: int, m: nat)
    requires m > 0 && a * m == b * m
    ensures a == b
  {
    Distribute(a, -b, m);
    assert (-b) * m == -(b * m);
    if a - b >= 1 {
      Scale(a - b, m);
    } else if b - a >= 1 {
      Scale(b - a, m);
    }
  }

  lemma IndexOfIs(l: WinList, id: int, k: nat)
    requires k <= |l| && (forall j :: 0 <= j < k ==> l[j].id != id) && (k < |l| ==> l[k].id == id)
    ensures IndexOf(l, id) == k
  {
  }

  lemma FocusedIndexIs(l: WinList, k: nat)
    requires k <= |l| && (forall j :: 0 <= j < k ==> !l[j].focused) && (k < |l| ==> l[k].focused)
    ensures FocusedIndex(l) == k
  {
  }

  /** The number of columns and rows for n windows. */
  method GridSize(n: nat) returns (cols: nat, rows: nat)
    requires n >= 1
    ensures cols == Cols(n) > 0 && rows == Rows(n) > 0 && rows * cols >= n
  {
    cols := 1;
    while cols * cols < n
      invariant cols >= 1 && ColsFrom(n, cols) == Cols(n)
      decreases n - cols
    {
      SquareAtLeast(cols);
      cols := cols + 1;
    }
    RowsFit(n);
    rows := (n + cols - 1) / cols;
  }

  method NewDesktops() returns (all: array<Desktop>)
    ensures fresh(all) && all.Length == MAX_DESKTOPS
    ensures forall j :: 0 <= j < MAX_DESKTOPS ==> fresh(all[j]) && all[j].Valid() && all[j].nodes == []
    ensures forall i, j :: 0 <= i < j < MAX_DESKTOPS ==> all[i] != all[j]
  {
    var d0 := new Desktop();
    all := new Desktop[MAX_DESKTOPS](_ => d0);
    for k := 1 to MAX_DESKTOPS
      invariant forall j :: 0 <= j < k ==> fresh(all[j]) && all[j].Valid() && all[j].nodes == []
      invariant forall i, j :: 0 <= i < j < k ==> all[i] != all[j]
    {
      var d := new Desktop();
      all[k] := d;
    }
  }

  lemma CreatedHere(m: Wm, l: WinList, x: int, y: int, width: int, height: int)
    requires OnDesktop(m)
    requires var h := WindowModel.Here(m); l == if |h| >= MAX_WINDOWS then h
             else [Win(m.nextId, x, y, width, height, |h|, false)] + h
    ensures Apply(m, Op.Create(x, y, width, height)) ==
            SetHere(m, l).(nextId := if |WindowModel.Here(m)| >= MAX_WINDOWS then m.nextId else m.nextId + 1)
  {
  }

  /** `window_manager_t`: eight desktops, of which the current one is operated on. */
  class Manager {
    const desktops: array<Desktop>
    var current: nat
    var nextId: int
    ghost var repr: set<object>

    /** `wm_init` */
    constructor ()
      ensures Valid() && View() == Boot() && fresh(repr)
    {
      var all := NewDesktops();
      desktops := all;
      current, nextId := 0, 1;
      repr := {};
      new;
      repr := set k | 0 <= k < MAX_DESKTOPS :: desktops[k];
      EmptyIsBoot(this);
    }

    ghost predicate Valid()
      reads this, desktops, repr
    {
      desktops.Length == MAX_DESKTOPS && current < MAX_DESKTOPS &&
      (forall d :: 0 <= d < MAX_DESKTOPS ==> Owns(desktops[d])) &&
      (forall d, e :: 0 <= d < e < MAX_DESKTOPS ==> Separate(desktops[d], desktops[e]))
    }

    /** A valid desktop among the objects of this manager. */
    ghost predicate Owns(d: Desktop)
      reads this, repr
    {
      d in repr && (forall w :: w in d.nodes ==> w in repr) && d.Valid()
    }

    /** Two desktops that share nothing. */
    static ghost predicate Separate(a: Desktop, b: Desktop)
      reads a, b
    {
      a != b && forall w :: w in a.nodes ==> w !in b.nodes
    }

    ghost function View(): (m: Wm)
      requires Valid()
      reads this, desktops, repr
      ensures OnDesktop(m) && m.current == current && m.nextId == nextId
      ensures forall d :: 0 <= d < MAX_DESKTOPS ==> m.desktops[d] == desktops[d].View()
    {
      Wm(seq(8, d requires 0 <= d < 8 && Valid() reads this, desktops, repr => desktops[d].View()), current, nextId)
    }

    static lemma EmptyIsBoot(m: Manager)
      requires m.Valid() && m.current == 0 && m.nextId == 1
      requires forall d :: 0 <= d < MAX_DESKTOPS ==> m.desktops[d].nodes == []
      ensures m.View() == Boot()
    {
      assert m.View().desktops == Boot().desktops;
    }

    twostate predicate Untouched(d: Desktop)
      reads d, d.nodes
    {
      unchanged(d) && forall w :: w in old(d.nodes) ==> unchanged(w)
    }

    twostate lemma UntouchedIsKept(d: Desktop)
      requires old(d.Valid()) && Untouched(d)
      ensures d.Valid() && d.View() == old(d.View()) && d.nodes == old(d.nodes)
    {
      forall i | 0 <= i < |d.nodes|
        ensures d.nodes[i].next == old(d.nodes[i].next) && d.nodes[i].View() == old(d.nodes[i].View())
      {
        assert d.nodes[i] in old(d.nodes);
      }
    }

    /** The manager when only the current desktop has changed, and its windows are old ones of its own or new. */
    twostate lemma OnlyHereChanged(m: Manager)
      requires old(m.Valid()) && unchanged(m.desktops) && m.current == old(m.current) && old(m.repr) <= m.repr
      requires forall e :: 0 <= e < MAX_DESKTOPS && e != m.current ==> Untouched(m.desktops[e])
      requires m.Owns(m.desktops[m.current])
      requires forall w :: w in m.desktops[m.current].nodes ==> w in old(m.desktops[m.current].nodes) || fresh(w)
      ensures m.Valid()
      ensures m.View() == SetHere(old(m.View()), m.desktops[m.current].View()).(nextId := m.nextId)
    {
      forall e | 0 <= e < MAX_DESKTOPS && e != m.current
        ensures m.Owns(m.desktops[e]) && m.desktops[e].nodes == old(m.desktops[e].nodes)
        ensures m.desktops[e].View() == old(m.desktops[e].View())
      {
        UntouchedIsKept(m.desktops[e]);
      }
      assert m.View().desktops == SetHere(old(m.View()), m.desktops[m.current].View()).desktops;
    }

    /** `wm_create_window` */
    method Create(x: int, y: int, width: int, height: int) returns (w: Window?)
      requires Valid()
      modifies this, repr
      ensures Valid() && fresh(repr - old(repr)) && View() == Apply(old(View()), Op.Create(x, y, width, height))
      ensures w == null <==> |WindowModel.Here(old(View()))| >= MAX_WINDOWS
    {
      var d := desktops[current];
      w := d.Create(nextId, x, y, width, height);
      if w != null {
        nextId := nextId + 1;
        repr := repr + {w};
      }
      OnlyHereChanged(this);
      CreatedHere(old(View()), d.View(), x, y, width, height);
    }

    /** `wm_destroy_window` */
    method Destroy(id: int)
      requires Valid()
      modifies repr
      ensures Valid() && View() == Apply(old(View()), Op.Destroy(id))
    {
      desktops[current].Destroy(id);
      OnlyHereChanged(this);
    }

    /** `wm_focus_window` */
    method Focus(id: int)
      requires Valid()
      modifies repr
      ensures Valid() && View() == Apply(old(View()), FocusWindow(id))
    {
      desktops[current].FocusOn(id);
      OnlyHereChanged(this);
    }

    /** The Tab key. */
    method PressTab()
      requires Valid()
      modifies repr
      ensures Valid() && View() == Apply(old(View()), Op.PressTab)
    {
      desktops[current].PressTab();
      OnlyHereChanged(this);
    }

    /** `wm_switch_desktop` */
    method SwitchTo(desktop: int)
      requires Valid()
      modifies this
      ensures Valid() && View() == Apply(old(View()), Switch(desktop))
    {
      if desktop < 0 || desktop >= MAX_DESKTOPS {
        return;
      }
      current := desktop;
    }

    /** `wm_tile_windows` */
    method TileWindows()
      requires Valid()
      modifies repr
      ensures Valid() && View() == Apply(old(View()), TileAll)
    {
      desktops[current].TileWindows();
      OnlyHereChanged(this);
    }
  }
}

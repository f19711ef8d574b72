/** The window manager on values: what each operation does to the list of windows of each desktop,
    and what every sequence of operations keeps. */
module WindowModel {
  import opened Tiling

  const MAX_WINDOWS: nat := 32
  const MAX_DESKTOPS: nat := 8

  datatype Win = Win(id: int, x: int, y: int, width: int, height: int, zOrder: int, focused: bool)

  type WinList = seq<Win>

  /** The lists of all desktops, newest window first. */
  type Desktops = s: seq<WinList> | |s| == 8 witness seq(8, i => [])

  datatype Wm = Wm(desktops: Desktops, current: nat, nextId: int)

  predicate OnDesktop(m: Wm) {
    m.current < MAX_DESKTOPS
  }

  function Here(m: Wm): WinList
    requires OnDesktop(m)
  {
    m.desktops[m.current]
  }

  function SetHere(m: Wm, l: WinList): Wm
    requires OnDesktop(m)
  {
    m.(desktops := m.desktops[m.current := l])
  }

  /** The position of the first window with this id; the length of the list if there is none. */
  function IndexOf(l: WinList, id: int): (k: nat)
    ensures k <= |l| && (k < |l| ==> l[k].id == id) && (forall j :: 0 <= j < k ==> l[j].id != id)
  {
    if l == [] || l[0].id == id then 0
    else
      var k := 1 + IndexOf(l[1..], id);
      assert forall j :: 0 < j < k ==> l[j] == l[1..][j - 1];
      k
  }

  function Remove(l: WinList, id: int): WinList {
    var k := IndexOf(l, id);
    if k == |l| then l else l[..k] + l[k + 1..]
  }

  function Unfocused(l: WinList): (r: WinList)
    ensures |r| == |l| && forall i :: 0 <= i < |l| ==> r[i] == l[i].(focused := false)
  {
    seq(|l|, i requires 0 <= i < |l| => l[i].(focused := false))
  }

  function Focus(l: WinList, id: int): WinList {
    var u := Unfocused(l);
    var k := IndexOf(u, id);
    if k == |u| then u else u[k := u[k].(focused := true)]
  }

  /** `get_focused_window`: the first focused window, or the length of the list. */
  function FocusedIndex(l: WinList): (k: nat)
    ensures k <= |l| && (k < |l| ==> l[k].focused) && (forall j :: 0 <= j < k ==> !l[j].focused)
  {
    if l == [] || l[0].focused then 0
    else
      var k := 1 + FocusedIndex(l[1..]);
      assert forall j :: 0 < j < k ==> l[j] == l[1..][j - 1];
      k
  }

  /** The Tab key. */
  function Tab(l: WinList): WinList {
    var k := FocusedIndex(l);
    if k == |l| then l else Focus(l, l[if k + 1 < |l| then k + 1 else 0].id)
  }

  function Placed(w: Win, t: Rect): Win {
    w.(x := t.x, y := t.y, width := t.width, height := t.height)
  }

  /** The list when the first i windows have been given their tiles. */
  function Dealt(l: WinList, tile: nat -> Rect, i: nat): (r: WinList)
    ensures |r| == |l| && forall j :: 0 <= j < |l| ==> r[j] == if j < i then Placed(l[j], tile(j)) else l[j]
  {
    seq(|l|, j requires 0 <= j < |l| => if j < i then Placed(l[j], tile(j)) else l[j])
  }

  /** What tiling makes of a list. */
  function Tiled(l: WinList): WinList {
    if l == [] then l
    else
      RowsFit(|l|);
      var n := |l|;
      Dealt(l, (i: nat) => GridTile(Cols(n), Rows(n), i), n)
  }

  datatype Op =
    | Create(x: int, y: int, width: int, height: int)
    | Destroy(id: int)
    | FocusWindow(id: int)
    | PressTab
    | TileAll
    | Switch(desktop: int)

  function Apply(m: Wm, op: Op): (r: Wm)
    requires OnDesktop(m)
    ensures OnDesktop(r)
  {
    match op
    case Create(x, y, width, height) =>
      if |Here(m)| >= MAX_WINDOWS then m
      else SetHere(m, [Win(m.nextId, x, y, width, height, |Here(m)|, false)] + Here(m)).(nextId := m.nextId + 1)
    case Destroy(id) => SetHere(m, Remove(Here(m), id))
    case FocusWindow(id) => SetHere(m, Focus(Here(m), id))
    case PressTab => SetHere(m, Tab(Here(m)))
    case TileAll => SetHere(m, Tiled(Here(m)))
    case Switch(d) => if d < 0 || d >= MAX_DESKTOPS then m else m.(current := d)
  }

  function Run(m: Wm, ops: seq<Op>): (r: Wm)
    requires OnDesktop(m)
    ensures OnDesktop(r)
    decreases |ops|
  {
    if ops == [] then m else Run(Apply(m, ops[0]), ops[1..])
  }

  function Boot(): Wm {
    Wm([[], [], [], [], [], [], [], []], 0, 1)
  }

  // ----- the invariant -----

  predicate Decreasing(l: WinList) {
    forall i, j :: 0 <= i < j < |l| ==> l[i].id > l[j].id
  }

  predicate AtMostOneFocused(l: WinList) {
    forall i, j :: 0 <= i < |l| && 0 <= j < |l| && l[i].focused && l[j].focused ==> i == j
  }

  predicate HasId(l: WinList, id: int) {
    exists i :: 0 <= i < |l| && l[i].id == id
  }

  predicate ListOk(l: WinList) {
    |l| <= 32 && Decreasing(l) && AtMostOneFocused(l)
  }

  ghost predicate IdsBelow(l: WinList, bound: int) {
    forall id :: HasId(l, id) ==> id < bound
  }

  ghost predicate Disjoint(l: WinList, k: WinList) {
    forall id :: !(HasId(l, id) && HasId(k, id))
  }

  ghost predicate Inv(m: Wm) {
    OnDesktop(m) &&
    (forall d :: 0 <= d < 8 ==> ListOk(m.desktops[d]) && IdsBelow(m.desktops[d], m.nextId)) &&
    (forall d, e :: 0 <= d < e < 8 ==> Disjoint(m.desktops[d], m.desktops[e]))
  }

  /** Replacing the current list by one that is well formed itself and brings no foreign id. */
  lemma SetHereInv(m: Wm, l: WinList, nextId: int)
    requires Inv(m) && ListOk(l) && nextId >= m.nextId && IdsBelow(l, nextId)
    requires forall id :: HasId(l, id) ==> HasId(Here(m), id) || id >= m.nextId
    ensures Inv(SetHere(m, l).(nextId := nextId))
  {
    var r := SetHere(m, l).(nextId := nextId);
    forall d, e | 0 <= d < e < 8 ensures Disjoint(r.desktops[d], r.desktops[e]) {
      assert Disjoint(m.desktops[d], m.desktops[e]);
      forall id ensures !(HasId(r.desktops[d], id) && HasId(r.desktops[e], id)) {
        assert HasId(m.desktops[d], id) ==> id < m.nextId;
        assert HasId(m.desktops[e], id) ==> id < m.nextId;
      }
    }
  }

  lemma CreateOk(l: WinList, w: Win)
    requires ListOk(l) && |l| < MAX_WINDOWS && !w.focused && IdsBelow(l, w.id)
    ensures ListOk([w] + l) && IdsBelow([w] + l, w.id + 1)
    ensures forall id :: HasId([w] + l, id) ==> HasId(l, id) || id == w.id
  {
    var r := [w] + l;
    assert forall i :: 0 < i < |r| ==> r[i] == l[i - 1];
    forall j | 0 < j < |r| ensures w.id > r[j].id {
      assert HasId(l, l[j - 1].id);
    }
    forall id | HasId(r, id) ensures HasId(l, id) || id == w.id {
      var i :| 0 <= i < |r| && r[i].id == id;
      if i > 0 {
        assert l[i - 1].id == id;
      }
    }
  }

  /** Where the i-th window was before the one at k was removed. */
  function Was(i: nat, k: nat): nat {
    if i < k then i else i + 1
  }

  /** `r` is `l` without the window at k. */
  predicate DropsOne(l: WinList, r: WinList, k: nat) {
    k < |l| && |r| == |l| - 1 && forall i: nat :: i < |r| ==> r[i] == l[Was(i, k)]
  }

  lemma RemoveShape(l: WinList, id: int)
    ensures var k := IndexOf(l, id); k < |l| ==> DropsOne(l, Remove(l, id), k)
  {
    var k, r := IndexOf(l, id), Remove(l, id);
    if k < |l| {
      forall i: nat | i < |r| ensures r[i] == l[Was(i, k)] {
        assert r[i] == (l[..k] + l[k + 1..])[i];
      }
    }
  }

  lemma DropOneOk(l: WinList, r: WinList, k: nat)
    requires ListOk(l) && DropsOne(l, r, k)
    ensures ListOk(r)
  {
    forall i: nat, j: nat | i < j < |r| ensures r[i].id > r[j].id {
      assert Was(i, k) < Was(j, k) < |l|;
    }
    forall i: nat, j: nat | i < |r| && j < |r| && r[i].focused && r[j].focused ensures i == j {
      assert Was(i, k) == Was(j, k);
    }
  }

  lemma RemovedIds(l: WinList, id: int, i: int)
    requires Decreasing(l)
    ensures HasId(Remove(l, id), i) <==> HasId(l, i) && i != id
  {
    var k, r := IndexOf(l, id), Remove(l, id);
    RemoveShape(l, id);
    if HasId(l, i) && i != id {
      var j :| 0 <= j < |l| && l[j].id == i;
      assert r[if j < k then j else j - 1].id == i;
    }
    if HasId(r, i) {
      var j :| 0 <= j < |r| && r[j].id == i;
      assert l[if j < k then j else j + 1].id == i;
    }
  }

  /** Destroying removes exactly the named window and keeps the others in order. */
  lemma RemoveOk(l: WinList, id: int)
    requires ListOk(l)
    ensures ListOk(Remove(l, id)) && forall i :: HasId(Remove(l, id), i) <==> HasId(l, i) && i != id
  {
    RemoveShape(l, id);
    var k := IndexOf(l, id);
    if k < |l| {
      DropOneOk(l, Remove(l, id), k);
    }
    forall i ensures HasId(Remove(l, id), i) <==> HasId(l, i) && i != id {
      RemovedIds(l, id, i);
    }
  }

  lemma FocusOk(l: WinList, id: int)
    requires ListOk(l)
    ensures ListOk(Focus(l, id))
    ensures forall i :: HasId(Focus(l, id), i) <==> HasId(l, i)
  {
    var r := Focus(l, id);
    assert |r| == |l| && forall i :: 0 <= i < |l| ==> r[i].id == l[i].id;
  }

  lemma TiledOk(l: WinList)
    requires ListOk(l)
    ensures ListOk(Tiled(l))
    ensures forall i :: HasId(Tiled(l), i) <==> HasId(l, i)
  {
    var r := Tiled(l);
    assert |r| == |l| && forall i :: 0 <= i < |l| ==> r[i].id == l[i].id && r[i].focused == l[i].focused;
  }

  lemma ApplyInv(m: Wm, op: Op)
    requires Inv(m)
    ensures Inv(Apply(m, op))
  {
    var l := Here(m);
    assert ListOk(l) && IdsBelow(l, m.nextId);
    match op
    case Create(x, y, width, height) =>
      if |l| < MAX_WINDOWS {
        var w := Win(m.nextId, x, y, width, height, |l|, false);
        CreateOk(l, w);
        SetHereInv(m, [w] + l, m.nextId + 1);
      }
    case Destroy(id) =>
      RemoveOk(l, id);
      SetHereInv(m, Remove(l, id), m.nextId);
    case FocusWindow(id) =>
      FocusOk(l, id);
      SetHereInv(m, Focus(l, id), m.nextId);
    case PressTab =>
      var k := FocusedIndex(l);
      if k < |l| {
        FocusOk(l, l[if k + 1 < |l| then k + 1 else 0].id);
      }
      SetHereInv(m, Tab(l), m.nextId);
    case TileAll =>
      TiledOk(l);
      SetHereInv(m, Tiled(l), m.nextId);
    case Switch(d) =>
  }

  lemma {:induction false} RunInv(m: Wm, ops: seq<Op>)
    requires Inv(m)
    ensures Inv(Run(m, ops))
    decreases |ops|
  {
    if ops != [] {
      ApplyInv(m, ops[0]);
      RunInv(Apply(m, ops[0]), ops[1..]);
    }
  }

  /** From start-up, after any operations: every desktop has at most 32 windows, ids strictly decrease
      along each list and never occur on two desktops, and at most one window per desktop is focused. */
  lemma EveryRunKeepsInv(ops: seq<Op>)
    ensures Inv(Run(Boot(), ops))
  {
    RunInv(Boot(), ops);
  }

  // ----- Tab -----

  function Presses(l: WinList, k: nat): WinList {
    if k == 0 then l else Tab(Presses(l, k - 1))
  }

  lemma IndexOfOwnId(l: WinList, i: nat)
    requires Decreasing(l) && i < |l|
    ensures IndexOf(l, l[i].id) == i
  {
  }

  predicate SameWindows(l: WinList, r: WinList) {
    |l| == |r| && forall i :: 0 <= i < |l| ==> r[i] == l[i].(focused := r[i].focused)
  }

  predicate OnlyFocused(l: WinList, f: nat) {
    f < |l| && forall i :: 0 <= i < |l| ==> (l[i].focused <==> i == f)
  }

  lemma FocusedIndexOf(l: WinList, f: nat)
    requires OnlyFocused(l, f)
    ensures FocusedIndex(l) == f
  {
    var k := FocusedIndex(l);
    assert l[f].focused;
    assert k <= f;
    assert l[k].focused;
  }

  lemma FocusAt(l: WinList, n: nat)
    requires Decreasing(l) && n < |l|
    ensures SameWindows(l, Focus(l, l[n].id)) && OnlyFocused(Focus(l, l[n].id), n)
  {
    var u := Unfocused(l);
    assert u[n].id == l[n].id;
    IndexOfOwnId(u, n);
  }

  /** k places on from f among n, for k up to n. */
  function Around(f: nat, k: nat, n: nat): nat
    requires f < n && k <= n
  {
    if f + k < n then f + k else f + k - n
  }

  /** One press moves the focus to the next window, round the end. */
  lemma TabMovesOn(l: WinList, f: nat)
    requires Decreasing(l) && OnlyFocused(l, f)
    ensures SameWindows(l, Tab(l)) && OnlyFocused(Tab(l), Around(f, 1, |l|))
  {
    FocusedIndexOf(l, f);
    FocusAt(l, Around(f, 1, |l|));
  }

  lemma {:induction false} PressesMoveOn(l: WinList, f: nat, k: nat)
    requires Decreasing(l) && OnlyFocused(l, f) && k <= |l|
    ensures SameWindows(l, Presses(l, k)) && Decreasing(Presses(l, k))
    ensures OnlyFocused(Presses(l, k), Around(f, k, |l|))
    decreases k
  {
    if k > 0 {
      PressesMoveOn(l, f, k - 1);
      TabMovesOn(Presses(l, k - 1), Around(f, k - 1, |l|));
    }
  }

  /** After k presses exactly window i is focused. */
  predicate FocusedAfter(l: WinList, k: nat, i: nat) {
    OnlyFocused(Presses(l, k), i)
  }

  ghost predicate FocusedOnce(l: WinList, i: nat) {
    exists k: nat :: 1 <= k <= |l| && FocusedAfter(l, k, i) &&
      forall j: nat :: 1 <= j <= |l| && FocusedAfter(l, j, i) ==> j == k
  }

  lemma EachFocusedOnce(l: WinList, f: nat, i: nat)
    requires Decreasing(l) && OnlyFocused(l, f) && i < |l|
    ensures FocusedOnce(l, i)
  {
    var n := |l|;
    var k: nat := if i > f then i - f else i + n - f;
    PressesMoveOn(l, f, k);
    assert FocusedAfter(l, k, i);
    forall j: nat | 1 <= j <= n && FocusedAfter(l, j, i) ensures j == k {
      PressesMoveOn(l, f, j);
      assert Presses(l, j)[i].focused;
      assert Around(f, j, n) == i;
    }
  }

  /** Tab is a full cycle: on a desktop with n windows of which window f is focused, n presses focus
      every window exactly once and end where they began. */
  lemma TabIsAFullCycle(l: WinList, f: nat)
    requires Decreasing(l) && OnlyFocused(l, f)
    ensures Presses(l, |l|) == l
    ensures forall i: nat :: i < |l| ==> FocusedOnce(l, i)
  {
    var r := Presses(l, |l|);
    PressesMoveOn(l, f, |l|);
    forall i: nat | i < |l| ensures r[i] == l[i] {
      assert r[i].focused == l[i].focused;
    }
    forall i: nat | i < |l| ensures FocusedOnce(l, i) {
      EachFocusedOnce(l, f, i);
    }
  }

  // ----- tiling -----

  lemma TiledIs(l: WinList, i: nat)
    requires i < |l|
    ensures |Tiled(l)| == |l| && Cols(|l|) > 0 && Rows(|l|) > 0
    ensures Tiled(l)[i] == Placed(l[i], Tile(|l|, i))
  {
    RowsFit(|l|);
  }

  lemma TiledAt(l: WinList, i: nat)
    requires i < |l|
    ensures |Tiled(l)| == |l| && Cols(|l|) > 0 && Rows(|l|) > 0
    ensures Area(Tiled(l)[i]) == Tile(|l|, i) && Tiled(l)[i].id == l[i].id
  {
    TiledIs(l, i);
  }

  /** After tiling, every window of the list lies on the screen, and no two of them overlap. */
  lemma TiledWindows(l: WinList)
    ensures |Tiled(l)| == |l|
    ensures forall i :: 0 <= i < |l| ==> OnScreen(Area(Tiled(l)[i])) && Tiled(l)[i].id == l[i].id
    ensures forall i, j :: 0 <= i < j < |l| ==> Apart(Area(Tiled(l)[i]), Area(Tiled(l)[j]))
  {
    forall i | 0 <= i < |l| ensures OnScreen(Area(Tiled(l)[i])) && Tiled(l)[i].id == l[i].id {
      TiledAt(l, i);
      TilesOnScreen(|l|, i);
    }
    forall i, j | 0 <= i < j < |l| ensures Apart(Area(Tiled(l)[i]), Area(Tiled(l)[j])) {
      TiledAt(l, i);
      TiledAt(l, j);
      TilesApart(|l|, i, j);
    }
  }

  function Area(w: Win): Rect {
    Rect(w.x, w.y, w.width, w.height)
  }
}

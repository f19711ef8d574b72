/** What each window operation does, told by ids, positions and focus alone, and which windows a desktop
    holds after any run. */
module WindowEffects {
  import opened Tiling
  import opened WindowModel

  /** At start-up there is no window, the first desktop is the current one, and ids begin at 1. */
  lemma StartsEmpty()
    ensures Boot().current == 0 && Boot().nextId == 1 && forall d :: 0 <= d < 8 ==> Boot().desktops[d] == []
  {
  }

  /** Only the current desktop's list differs. */
  predicate OnlyHere(m: Wm, r: Wm) {
    OnDesktop(m) && r.current == m.current && r.nextId == m.nextId &&
    forall d :: 0 <= d < 8 && d != m.current ==> r.desktops[d] == m.desktops[d]
  }

  /** Destroying takes the window of that id out of the current list, wherever it stands, and leaves all
      others as and where they were; an unknown id changes nothing. */
  lemma DestroyEffect(m: Wm, id: int)
    requires Inv(m)
    ensures var r := Apply(m, Destroy(id));
            OnlyHere(m, r) &&
            if HasId(Here(m), id) then
              exists k: nat :: k < |Here(m)| && Here(m)[k].id == id && Here(r) == Here(m)[..k] + Here(m)[k + 1..]
            else Here(r) == Here(m)
  {
    var l := Here(m);
    if HasId(l, id) {
      assert l[IndexOf(l, id)].id == id;
    }
  }

  /** Focusing marks the window of that id on the current desktop and no other; with an unknown id no
      window of the desktop keeps the focus. Nothing else changes. */
  lemma FocusEffect(m: Wm, id: int)
    requires Inv(m)
    ensures var r := Apply(m, FocusWindow(id));
            OnlyHere(m, r) && |Here(r)| == |Here(m)| &&
            forall i :: 0 <= i < |Here(m)| ==> Here(r)[i] == Here(m)[i].(focused := Here(m)[i].id == id)
  {
    var l := Here(m);
    assert ListOk(l);
    var u := Unfocused(l);
    var k := IndexOf(u, id);
    forall i | 0 <= i < |l| ensures (l[i].id == id <==> i == k) {
      assert u[i].id == l[i].id;
    }
  }

  /** A new window comes to the front of the current list, with the next id, the geometry asked for, no
      focus, and the number of windows before it as its depth. At 32 windows nothing happens. */
  lemma CreateEffect(m: Wm, x: int, y: int, width: int, height: int)
    requires OnDesktop(m)
    ensures var r := Apply(m, Create(x, y, width, height));
            if |Here(m)| < 32 then
              OnlyHere(m, r.(nextId := m.nextId)) && r.nextId == m.nextId + 1 &&
              Here(r) == [Win(m.nextId, x, y, width, height, |Here(m)|, false)] + Here(m)
            else r == m
  {
  }

  /** Switching touches no window, and happens only to one of the eight desktops. */
  lemma SwitchEffect(m: Wm, d: int)
    requires OnDesktop(m)
    ensures var r := Apply(m, Switch(d));
            r.desktops == m.desktops && r.nextId == m.nextId && r.current == if 0 <= d < 8 then d else m.current
  {
  }

  /** Tab moves the focus on to the next window of the current desktop, round the end, and does nothing
      where no window has it. */
  lemma TabEffect(m: Wm, f: nat)
    requires Inv(m) && OnlyFocused(Here(m), f)
    ensures var r := Apply(m, PressTab);
            OnlyHere(m, r) && |Here(r)| == |Here(m)| &&
            forall i :: 0 <= i < |Here(m)| ==>
              Here(r)[i] == Here(m)[i].(focused := i == if f + 1 == |Here(m)| then 0 else f + 1)
  {
    assert ListOk(Here(m));
    TabMovesOn(Here(m), f);
  }

  lemma TabWithoutFocusEffect(m: Wm)
    requires OnDesktop(m) && forall i :: 0 <= i < |Here(m)| ==> !Here(m)[i].focused
    ensures Apply(m, PressTab) == m
  {
    assert FocusedIndex(Here(m)) == |Here(m)|;
    assert m.desktops[m.current := Here(m)] == m.desktops;
  }

  /** The i-th of n windows goes to column i mod c and row i div c of a grid of c columns and r rows,
      c being the least number whose square is at least n, and r the least that makes room. */
  lemma TileEffect(m: Wm, i: nat) returns (c: nat, r: nat)
    requires OnDesktop(m) && i < |Here(m)|
    ensures var n := |Here(m)|;
            c >= 1 && c * c >= n && (forall b: nat :: 1 <= b && b * b >= n ==> c <= b) &&
            r >= 1 && r * c >= n && (r - 1) * c < n
    ensures var w, t := Here(m)[i], Apply(m, TileAll);
            OnlyHere(m, t) && |Here(t)| == |Here(m)| &&
            Here(t)[i] == w.(x := i % c * (1280 / c), y := i / c * (720 / r), width := 1280 / c, height := 720 / r)
  {
    var n := |Here(m)|;
    ColsIsLeast(n);
    RowsFit(n);
    c, r := Cols(n), Rows(n);
    TiledIs(Here(m), i);
  }

  // ----- which windows a desktop holds -----

  /** The windows after the first n operations from start-up. */
  function After(ops: seq<Op>, n: nat): (m: Wm)
    requires n <= |ops|
    ensures OnDesktop(m)
  {
    if n == 0 then Boot() else Apply(After(ops, n - 1), ops[n - 1])
  }

  lemma {:induction false} AfterInv(ops: seq<Op>, n: nat)
    requires n <= |ops|
    ensures Inv(After(ops, n))
  {
    if n > 0 {
      AfterInv(ops, n - 1);
      ApplyInv(After(ops, n - 1), ops[n - 1]);
    }
  }

  /** Operation k creates window id on desktop d. */
  predicate CreatedAt(ops: seq<Op>, k: nat, d: nat, id: int)
    requires k < |ops|
  {
    var m := After(ops, k);
    ops[k].Create? && m.current == d && m.nextId == id && |Here(m)| < 32
  }

  /** Operation k destroys window id while d is the current desktop. */
  predicate DestroyedAt(ops: seq<Op>, k: nat, d: nat, id: int)
    requires k < |ops|
  {
    ops[k] == Destroy(id) && After(ops, k).current == d
  }

  /** Among the first n operations, one creates the window and no later one destroys it. */
  ghost predicate Alive(ops: seq<Op>, n: nat, d: nat, id: int)
    requires n <= |ops|
  {
    exists k: nat :: k < n && CreatedAt(ops, k, d, id) && forall j: nat :: k < j < n ==> !DestroyedAt(ops, j, d, id)
  }

  lemma AliveNext(ops: seq<Op>, n: nat, d: nat, id: int)
    requires n < |ops|
    ensures Alive(ops, n + 1, d, id) <==>
            CreatedAt(ops, n, d, id) || (Alive(ops, n, d, id) && !DestroyedAt(ops, n, d, id))
  {
    if CreatedAt(ops, n, d, id) {
      assert Alive(ops, n + 1, d, id);
    } else if Alive(ops, n, d, id) && !DestroyedAt(ops, n, d, id) {
      var k: nat :| k < n && CreatedAt(ops, k, d, id) && forall j: nat :: k < j < n ==> !DestroyedAt(ops, j, d, id);
      assert forall j: nat :: k < j < n + 1 ==> !DestroyedAt(ops, j, d, id);
    }
  }

  /** What one operation does to the ids on desktop d. */
  lemma IdsAfterOne(m: Wm, op: Op, d: nat, id: int)
    requires Inv(m) && d < 8
    ensures var made, gone := op.Create? && m.current == d && m.nextId == id && |Here(m)| < 32,
                              op == Destroy(id) && m.current == d;
            HasId(Apply(m, op).desktops[d], id) <==> made || (HasId(m.desktops[d], id) && !gone)
  {
    if d == m.current {
      IdsHere(m, op, id);
    }
  }

  lemma IdsHere(m: Wm, op: Op, id: int)
    requires Inv(m)
    ensures var made := op.Create? && m.nextId == id && |Here(m)| < 32;
            HasId(Apply(m, op).desktops[m.current], id) <==> made || (HasId(Here(m), id) && op != Destroy(id))
  {
    var l := Here(m);
    assert ListOk(l) && IdsBelow(l, m.nextId);
    match op
    case Create(x, y, width, height) =>
      if |l| < 32 {
        CreatedIds(l, Win(m.nextId, x, y, width, height, |l|, false), id);
      }
    case Destroy(i) => RemoveOk(l, i);
    case FocusWindow(i) => FocusOk(l, i);
    case PressTab =>
      if FocusedIndex(l) < |l| {
        FocusOk(l, l[if FocusedIndex(l) + 1 < |l| then FocusedIndex(l) + 1 else 0].id);
      }
    case TileAll => TiledOk(l);
    case Switch(d) =>
  }

  lemma CreatedIds(l: WinList, w: Win, id: int)
    ensures HasId([w] + l, id) <==> id == w.id || HasId(l, id)
  {
    var r := [w] + l;
    assert r[0] == w;
    if HasId(l, id) {
      var i :| 0 <= i < |l| && l[i].id == id;
      assert r[i + 1].id == id;
    }
    if HasId(r, id) && id != w.id {
      var i :| 0 <= i < |r| && r[i].id == id;
      assert l[i - 1].id == id;
    }
  }

  /** After any operations from start-up, a desktop holds exactly the windows that were created while it
      was the current one and not destroyed since while it was the current one. */
  lemma {:induction false} HoldsIffAlive(ops: seq<Op>, n: nat, d: nat, id: int)
    requires n <= |ops| && d < 8
    ensures HasId(After(ops, n).desktops[d], id) <==> Alive(ops, n, d, id)
    decreases n
  {
    if n > 0 {
      HoldsIffAlive(ops, n - 1, d, id);
      AfterInv(ops, n - 1);
      IdsAfterOne(After(ops, n - 1), ops[n - 1], d, id);
      AliveNext(ops, n - 1, d, id);
    }
  }
}

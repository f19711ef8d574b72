/** The saved states of a window and the monitor that rewinds them, on values: what every history of
    saves, rewinds and ticks keeps. */
module TimelineModel {

  const MAX_STATES: nat := 16
  const MAX_BRANCHES: nat := 4
  const LABEL_SIZE: nat := 64
  const SNAPSHOT_SIZE: nat := 256

  datatype State = State(id: nat, title: string, snapshot: string)

  /** What `strncpy` and the closing zero leave of a string in a field of n bytes. */
  function Cut(s: string, n: nat): string
    requires n > 0
  {
    if |s| < n then s else s[..n - 1]
  }

  datatype Saved = Saved(states: seq<State>, current: int)

  const NOTHING: Saved := Saved([], -1)

  function Save(t: Saved, title: string, snapshot: string): Saved {
    if |t.states| < MAX_STATES
    then Saved(t.states + [State(|t.states|, Cut(title, LABEL_SIZE), Cut(snapshot, SNAPSHOT_SIZE))], |t.states|)
    else t
  }

  function Rewind(t: Saved, id: int): Saved {
    if 0 <= id < |t.states| then t.(current := id) else t
  }

  /** A monitor; `attached` tells whether it was given a timeline. */
  datatype Monitor = Monitor(attached: bool, unstableCount: nat, lastStateId: int)

  /** An unstable tick that makes the monitor rewind by itself. */
  predicate AutoRewinds(m: Monitor, t: Saved) {
    m.unstableCount + 1 >= 3 && m.attached && |t.states| >= 2
  }

  datatype Session = Session(timeline: Saved, monitor: Monitor)

  datatype Op = SaveState(title: string, snapshot: string) | RewindTo(id: int) | Tick(unstable: bool) | Trigger(id: int)

  function Apply(s: Session, op: Op): Session {
    var t, m := s.timeline, s.monitor;
    match op
    case SaveState(title, snapshot) => Session(Save(t, title, snapshot), m)
    case RewindTo(id) => Session(Rewind(t, id), m)
    case Tick(unstable) =>
      if !unstable then Session(t, m.(unstableCount := 0))
      else if AutoRewinds(m, t) then Session(Rewind(t, |t.states| - 2),
        m.(unstableCount := 0, lastStateId := |t.states| - 2))
      else Session(t, m.(unstableCount := m.unstableCount + 1))
    case Trigger(id) =>
      if m.attached && 0 <= id < |t.states| then Session(Rewind(t, id), m.(lastStateId := id)) else s
  }

  function Fresh(attached: bool): Session {
    Session(NOTHING, Monitor(attached, 0, -1))
  }

  /** The session after the first n operations. */
  function After(attached: bool, ops: seq<Op>, n: nat): Session
    requires n <= |ops|
  {
    if n == 0 then Fresh(attached) else Apply(After(attached, ops, n - 1), ops[n - 1])
  }

  // ----- the timeline -----

  /** The saves among the first n operations. */
  function Saves(ops: seq<Op>, n: nat): seq<Op>
    requires n <= |ops|
  {
    if n == 0 then []
    else Saves(ops, n - 1) + (if ops[n - 1].SaveState? then [ops[n - 1]] else [])
  }

  /** What a field keeps of a string: all of it, or its first n characters. */
  predicate Kept(stored: string, given: string, n: nat) {
    stored <= given && |stored| == if |given| < n then |given| else n
  }

  predicate IsSave(s: State, i: nat, op: Op) {
    op.SaveState? && s.id == i && Kept(s.title, op.title, 63) && Kept(s.snapshot, op.snapshot, 255)
  }

  lemma CutKeeps(s: string, n: nat)
    requires n > 0
    ensures Kept(Cut(s, n), s, n - 1)
  {
  }

  /** The states are the first sixteen of these saves, each under its number. */
  ghost predicate FirstSaves(states: seq<State>, saves: seq<Op>) {
    |states| == (if |saves| < 16 then |saves| else 16) &&
    forall i :: 0 <= i < |states| ==> IsSave(states[i], i, saves[i])
  }

  lemma SaveIsNext(t: Saved, saves: seq<Op>, op: Op)
    requires FirstSaves(t.states, saves) && op.SaveState?
    ensures FirstSaves(Save(t, op.title, op.snapshot).states, saves + [op])
  {
    CutKeeps(op.title, LABEL_SIZE);
    CutKeeps(op.snapshot, SNAPSHOT_SIZE);
    var r := Save(t, op.title, op.snapshot).states;
    forall i | 0 <= i < |r| ensures IsSave(r[i], i, (saves + [op])[i]) {
      if i < |t.states| {
        assert IsSave(t.states[i], i, saves[i]);
      }
    }
  }

  lemma {:induction false} HoldsFirstSaves(attached: bool, ops: seq<Op>, n: nat)
    requires n <= |ops|
    ensures FirstSaves(After(attached, ops, n).timeline.states, Saves(ops, n))
    decreases n
  {
    if n > 0 {
      HoldsFirstSaves(attached, ops, n - 1);
      var op, t, saves := ops[n - 1], After(attached, ops, n - 1).timeline, Saves(ops, n - 1);
      if op.SaveState? {
        SaveIsNext(t, saves, op);
      } else {
        assert saves + [] == saves;
        OnlySavesSave(After(attached, ops, n - 1), op);
      }
    }
  }

  lemma OnlySavesSave(s: Session, op: Op)
    requires !op.SaveState?
    ensures Apply(s, op).timeline.states == s.timeline.states
  {
  }

  lemma {:induction false} CurrentIsValid(attached: bool, ops: seq<Op>, n: nat)
    requires n <= |ops|
    ensures var t := After(attached, ops, n).timeline;
            if t.states == [] then t.current == -1 else 0 <= t.current < |t.states|
    decreases n
  {
    if n > 0 {
      CurrentIsValid(attached, ops, n - 1);
    }
  }

  /** After any history the timeline holds exactly the first sixteen saves, each under its number, and
      its current index names a saved state as soon as there is one. */
  lemma StatesAreTheFirstSaves(attached: bool, ops: seq<Op>, n: nat)
    requires n <= |ops|
    ensures var t, saves := After(attached, ops, n).timeline, Saves(ops, n);
            |t.states| == (if |saves| < 16 then |saves| else 16) &&
            (forall i :: 0 <= i < |t.states| ==> IsSave(t.states[i], i, saves[i])) &&
            (if t.states == [] then t.current == -1 else 0 <= t.current < |t.states|)
  {
    HoldsFirstSaves(attached, ops, n);
    CurrentIsValid(attached, ops, n);
  }

  /** Saved states are never changed or lost. */
  lemma {:induction false} AppendOnly(attached: bool, ops: seq<Op>, m: nat, n: nat)
    requires m <= n <= |ops|
    ensures After(attached, ops, m).timeline.states <= After(attached, ops, n).timeline.states
    decreases n
  {
    if m < n {
      AppendOnly(attached, ops, m, n - 1);
    }
  }

  /** Rewinding to i, however much later, brings back what the i-th save stored. */
  lemma RewindRestores(attached: bool, ops: seq<Op>, n: nat, i: nat)
    requires n < |ops| && ops[n] == RewindTo(i) && i < |Saves(ops, n)| && i < 16
    ensures var t, save := After(attached, ops, n + 1).timeline, Saves(ops, n)[i];
            t.current == i < |t.states| && IsSave(t.states[t.current], i, save) &&
            (|save.title| < 64 ==> t.states[t.current].title == save.title) &&
            (|save.snapshot| < 256 ==> t.states[t.current].snapshot == save.snapshot)
  {
    StatesAreTheFirstSaves(attached, ops, n);
  }

  /** Rewinding to a number that is not that of a saved state does nothing. */
  lemma RewindElsewhere(s: Session, id: int)
    requires id < 0 || id >= |s.timeline.states|
    ensures Apply(s, RewindTo(id)) == s && Apply(s, Trigger(id)) == s
  {
  }

  // ----- the monitor -----

  /** A manual rewind moves the timeline to a saved state and notes its number; unstable ticks stay
      counted. A monitor without a timeline does nothing. */
  lemma TriggerRewinds(s: Session, id: nat)
    requires id < |s.timeline.states|
    ensures var r := Apply(s, Trigger(id));
            r.timeline.states == s.timeline.states && r.monitor.unstableCount == s.monitor.unstableCount &&
            r.monitor.attached == s.monitor.attached &&
            if s.monitor.attached then r.timeline.current == id && r.monitor.lastStateId == id
            else r.timeline.current == s.timeline.current && r.monitor.lastStateId == s.monitor.lastStateId
  {
  }

  /** Operation k ends a streak of unstable ticks: a stable tick, or one that rewinds. */
  predicate Resets(attached: bool, ops: seq<Op>, k: nat)
    requires k < |ops|
  {
    var s := After(attached, ops, k);
    ops[k].Tick? && (!ops[k].unstable || AutoRewinds(s.monitor, s.timeline))
  }

  /** The unstable ticks among operations m..n. */
  function UnstableTicks(ops: seq<Op>, m: nat, n: nat): nat
    requires m <= n <= |ops|
    decreases n
  {
    if m == n then 0 else UnstableTicks(ops, m, n - 1) + (if ops[n - 1] == Tick(true) then 1 else 0)
  }

  /** The count is the number of unstable ticks since the last stable tick or automatic rewind. */
  lemma {:induction false} CountIsTheStreak(attached: bool, ops: seq<Op>, m: nat, n: nat)
    requires m <= n <= |ops| && (m == 0 || Resets(attached, ops, m - 1))
    requires forall k: nat :: m <= k < n ==> !Resets(attached, ops, k)
    ensures After(attached, ops, n).monitor.unstableCount == UnstableTicks(ops, m, n)
    ensures After(attached, ops, n).monitor.attached == attached
    decreases n
  {
    if n == m {
      StaysAttached(attached, ops, n);
    } else {
      CountIsTheStreak(attached, ops, m, n - 1);
      assert !Resets(attached, ops, n - 1);
    }
  }

  lemma {:induction false} StaysAttached(attached: bool, ops: seq<Op>, n: nat)
    requires n <= |ops|
    ensures After(attached, ops, n).monitor.attached == attached
  {
    if n > 0 {
      StaysAttached(attached, ops, n - 1);
    }
  }

  /** With a timeline of two states or more, no tick leaves more than two unstable ticks counted. */
  lemma NeverThreeAfterATick(attached: bool, ops: seq<Op>, n: nat)
    requires attached && 0 < n <= |ops| && ops[n - 1].Tick? && |After(attached, ops, n).timeline.states| >= 2
    ensures After(attached, ops, n).monitor.unstableCount <= 2
  {
    StaysAttached(attached, ops, n - 1);
  }

  function UnstableFor(s: Session, k: nat): Session {
    if k == 0 then s else Apply(UnstableFor(s, k - 1), Tick(true))
  }

  /** From a clean count, every third unstable tick in a row rewinds to the last state but one; the
      others change no saved state and no position. */
  lemma {:induction false} EveryThirdTickRewinds(s: Session, k: nat)
    requires s.monitor.attached && s.monitor.unstableCount == 0 && |s.timeline.states| >= 2
    ensures var r := UnstableFor(s, k);
            r.monitor.attached && r.monitor.unstableCount == k % 3 && r.timeline.states == s.timeline.states &&
            (r.timeline.current == if k < 3 then s.timeline.current else |s.timeline.states| - 2) &&
            (r.monitor.lastStateId == if k < 3 then s.monitor.lastStateId else |s.timeline.states| - 2)
  {
    if k > 0 {
      EveryThirdTickRewinds(s, k - 1);
    }
  }

  /** Without two saved states nothing is ever rewound, and the count grows without bound. */
  lemma {:induction false} TooFewStatesNeverRewind(s: Session, k: nat)
    requires !s.monitor.attached || |s.timeline.states| < 2
    ensures UnstableFor(s, k) == Session(s.timeline, s.monitor.(unstableCount := s.monitor.unstableCount + k))
  {
    if k > 0 {
      TooFewStatesNeverRewind(s, k - 1);
    }
  }
}

/** The timelines and the monitor as objects. */
module Timeline {
  import opened TimelineModel

  datatype Line =
    | Title(windowId: int, count: nat, current: int)
    | StateLine(i: nat, title: string, isCurrent: bool)
    | BranchLine(i: nat)

  const NO_STATE: State := State(0, "", "")

  /** `quantum_timeline_t`. Branches are made by the program one after the other: `born` numbers them. */
  class QuantumTimeline {
    const windowId: int
    const states: array<State>
    const branches: array<QuantumTimeline?>
    var stateCount: nat
    var current: int
    var branchCount: nat
    ghost const born: nat

    /** `quantum_timeline_create` */
    constructor (windowId: int, ghost born: nat)
      ensures this.windowId == windowId && this.born == born && fresh(states) && fresh(branches)
      ensures Valid() && View() == NOTHING && branchCount == 0
    {
      this.windowId, this.born := windowId, born;
      states := new State[MAX_STATES](_ => NO_STATE);
      branches := new QuantumTimeline?[MAX_BRANCHES](_ => null);
      stateCount, current, branchCount := 0, -1, 0;
    }

    ghost predicate Valid()
      reads this, branches
    {
      states.Length == MAX_STATES && branches.Length == MAX_BRANCHES &&
      stateCount <= MAX_STATES && branchCount <= MAX_BRANCHES &&
      forall i :: 0 <= i < branchCount ==> branches[i] != null
    }

    ghost function View(): Saved
      requires Valid()
      reads this, states, branches
    {
      Saved(states[..stateCount], current)
    }

    /** `quantum_timeline_save` */
    method SaveState(title: string, snapshot: string)
      requires Valid()
      modifies this`stateCount, this`current, states
      ensures Valid() && View() == Save(old(View()), title, snapshot)
    {
      if stateCount < MAX_STATES {
        states[stateCount] := State(stateCount, Cut(title, LABEL_SIZE), Cut(snapshot, SNAPSHOT_SIZE));
        current := stateCount;
        stateCount := stateCount + 1;
      }
    }

    /** `quantum_timeline_rewind` */
    method RewindTo(id: int)
      requires Valid()
      modifies this`current
      ensures Valid() && View() == Rewind(old(View()), id)
    {
      if 0 <= id < stateCount {
        current := id;
      }
    }

    /** `quantum_timeline_branch`: a new timeline with one state of its own, unless there are four. */
    method Branch(title: string, ghost all: set<QuantumTimeline>, ghost arrays: set<object>, ghost bound: nat)
            returns (branch: QuantumTimeline?)
      requires this in all && BornInOrder(all, arrays, bound)
      modifies this`branchCount, branches
      ensures Valid()
      ensures old(branchCount) >= MAX_BRANCHES ==>
                branch == null && branchCount == old(branchCount) && branches[..] == old(branches[..])
      ensures old(branchCount) < MAX_BRANCHES ==>
                branch != null && fresh(branch) && fresh(branch.states) && fresh(branch.branches) &&
                branches[..branchCount] == old(branches[..branchCount]) + [branch] &&
                branch.windowId == windowId && branch.Valid() && branch.branchCount == 0 &&
                branch.View() == Save(NOTHING, Cut("Branch: " + title, LABEL_SIZE), "Initial branch state") &&
                branch.stateCount == 1 && branch.current == 0 && Kept(branch.states[0].title, "Branch: " + title, 63) &&
                branch.states[0].snapshot == "Initial branch state" &&
                BornInOrder(all + {branch}, arrays + {branch.states, branch.branches}, bound + 1)
    {
      if branchCount >= MAX_BRANCHES {
        return null;
      }
      branch := new QuantumTimeline(windowId, bound);
      branch.SaveState(Cut("Branch: " + title, LABEL_SIZE), "Initial branch state");
      assert |branch.View().states| == branch.stateCount && branch.View().states[0] == branch.states[0];
      branches[branchCount] := branch;
      branchCount := branchCount + 1;
    }

    /** The title and the loop over the states. */
    method RenderStates() returns (lines: seq<Line>)
      requires Valid()
      ensures lines == [Title(windowId, stateCount, current)] + StateLines(View(), stateCount)
    {
      lines := [Title(windowId, stateCount, current)];
      for i := 0 to stateCount
        invariant lines == [Title(windowId, stateCount, current)] + StateLines(View(), i)
      {
        lines := lines + [StateLine(i, states[i].title, i == current)];
      }
    }

    /** `quantum_timeline_render`: terminates on whatever branches were ever made. */
    method Render(ghost all: set<QuantumTimeline>, ghost arrays: set<object>, ghost bound: nat)
            returns (lines: seq<Line>)
      requires this in all && BornInOrder(all, arrays, bound)
      ensures lines == Rendered(this, all, arrays, bound)
      decreases bound - born, 1
    {
      lines := RenderStates();
      ghost var head := lines;
      for b := 0 to branchCount
        invariant lines == head + BranchLines(this, b, all, arrays, bound)
      {
        lines := RenderBranch(b, lines, head, all, arrays, bound);
      }
    }

    /** One branch below its number, behind what has been listed so far. */
    method RenderBranch(b: nat, before: seq<Line>, ghost head: seq<Line>,
                        ghost all: set<QuantumTimeline>, ghost arrays: set<object>, ghost bound: nat)
            returns (lines: seq<Line>)
      requires this in all && BornInOrder(all, arrays, bound) && b < branchCount
      requires before == head + BranchLines(this, b, all, arrays, bound)
      ensures lines == head + BranchLines(this, b + 1, all, arrays, bound)
      decreases bound - born, 0
    {
      var inner := branches[b].Render(all, arrays, bound);
      lines := before + [BranchLine(b)] + inner;
      AppendBranch(head, BranchLines(this, b, all, arrays, bound), BranchLine(b), inner);
    }
  }

  lemma AppendBranch(head: seq<Line>, before: seq<Line>, title: Line, inner: seq<Line>)
    ensures head + before + [title] + inner == head + (before + [title] + inner)
  {
  }

  /** Every branch belongs to `all`, whose arrays are in `arrays`, and was made after the timeline it
      branches from, and no two timelines share an array of branches. */
  ghost predicate BornInOrder(all: set<QuantumTimeline>, arrays: set<object>, bound: nat)
    reads all, arrays
  {
    forall t :: t in all ==>
      t.states in arrays && t.branches in arrays && t.Valid() && t.born < bound &&
      (forall i :: 0 <= i < t.branchCount ==> t.branches[i] in all && t.born < t.branches[i].born) &&
      forall u :: u in all && u != t ==> u.branches != t.branches
  }

  function StateLines(t: Saved, n: nat): seq<Line>
    requires n <= |t.states|
  {
    if n == 0 then [] else StateLines(t, n - 1) + [StateLine(n - 1, t.states[n - 1].title, n - 1 == t.current)]
  }

  ghost function Rendered(t: QuantumTimeline, all: set<QuantumTimeline>, arrays: set<object>, bound: nat): seq<Line>
    requires t in all && BornInOrder(all, arrays, bound)
    reads all, arrays
    decreases bound - t.born, t.branchCount + 1
  {
    [Title(t.windowId, t.stateCount, t.current)] + StateLines(t.View(), t.stateCount) +
      BranchLines(t, t.branchCount, all, arrays, bound)
  }

  /** The first n branches of t, each below its number. */
  ghost function BranchLines(t: QuantumTimeline, n: nat, all: set<QuantumTimeline>, arrays: set<object>,
          bound: nat): seq<Line>
    requires t in all && BornInOrder(all, arrays, bound) && n <= t.branchCount
    reads all, arrays
    decreases bound - t.born, n
  {
    if n == 0 then []
    else
      BranchLines(t, n - 1, all, arrays, bound) + [BranchLine(n - 1)] +
      Rendered(t.branches[n - 1], all, arrays, bound)
  }

  lemma {:induction false} StateLineAt(t: Saved, n: nat, i: nat)
    requires i < n <= |t.states|
    ensures |StateLines(t, n)| == n && StateLines(t, n)[i] == StateLine(i, t.states[i].title, i == t.current)
    decreases n
  {
    if n > 1 {
      StateLineAt(t, n - 1, if i < n - 1 then i else 0);
    }
  }

  lemma {:induction false} StateLinesLength(t: Saved, n: nat)
    requires n <= |t.states|
    ensures |StateLines(t, n)| == n
  {
    if n > 0 {
      StateLinesLength(t, n - 1);
    }
  }

  /** The title comes first, then the states in the order of their numbers, the current one marked. */
  lemma RenderedStates(t: QuantumTimeline, all: set<QuantumTimeline>, arrays: set<object>, bound: nat, i: nat)
    requires t in all && BornInOrder(all, arrays, bound) && i < t.stateCount
    ensures var r := Rendered(t, all, arrays, bound);
            |r| > 1 + i && r[0] == Title(t.windowId, t.stateCount, t.current) &&
            r[1 + i] == StateLine(i, t.states[i].title, i == t.current)
  {
    StateLineAt(t.View(), t.stateCount, i);
  }

  /** Where the lines of branch b begin. */
  ghost function BranchAt(t: QuantumTimeline, b: nat, all: set<QuantumTimeline>, arrays: set<object>, bound: nat): nat
    requires t in all && BornInOrder(all, arrays, bound) && b <= t.branchCount
    reads all, arrays
  {
    1 + t.stateCount + |BranchLines(t, b, all, arrays, bound)|
  }

  lemma {:induction false} BranchLinesGrow(t: QuantumTimeline, b: nat, n: nat,
          all: set<QuantumTimeline>, arrays: set<object>, bound: nat)
    requires t in all && BornInOrder(all, arrays, bound) && b <= n <= t.branchCount
    ensures BranchLines(t, b, all, arrays, bound) <= BranchLines(t, n, all, arrays, bound)
    decreases n
  {
    if b < n {
      BranchLinesGrow(t, b, n - 1, all, arrays, bound);
    }
  }

  /** Behind the states come the branches in order, one after the other, each as it is rendered by
      itself below its number. */
  lemma RenderedBranch(t: QuantumTimeline, b: nat, all: set<QuantumTimeline>, arrays: set<object>, bound: nat)
    requires t in all && BornInOrder(all, arrays, bound) && b < t.branchCount
    ensures var r, p, q := Rendered(t, all, arrays, bound), BranchAt(t, b, all, arrays, bound),
                           BranchAt(t, b + 1, all, arrays, bound);
            p < q <= |r| && r[p] == BranchLine(b) && r[p + 1..q] == Rendered(t.branches[b], all, arrays, bound)
    ensures BranchAt(t, 0, all, arrays, bound) == 1 + t.stateCount
    ensures BranchAt(t, t.branchCount, all, arrays, bound) == |Rendered(t, all, arrays, bound)|
  {
    StateLinesLength(t.View(), t.stateCount);
    BranchLinesGrow(t, b + 1, t.branchCount, all, arrays, bound);
    var head := [Title(t.windowId, t.stateCount, t.current)] + StateLines(t.View(), t.stateCount);
    var before, inner := BranchLines(t, b, all, arrays, bound), Rendered(t.branches[b], all, arrays, bound);
    var lines := BranchLines(t, t.branchCount, all, arrays, bound);
    LinesWithin(head, before, BranchLine(b), inner, lines);
  }

  lemma LinesWithin(head: seq<Line>, before: seq<Line>, title: Line, inner: seq<Line>, lines: seq<Line>)
    requires before + [title] + inner <= lines
    ensures var r, p := head + lines, |head| + |before|;
            p + 1 + |inner| <= |r| && r[p] == title && r[p + 1..p + 1 + |inner|] == inner
  {
    var k := |before + [title] + inner|;
    assert lines[..k] == before + [title] + inner;
    assert lines[|before|] == title;
    assert forall i :: 0 <= i < |inner| ==> lines[|before| + 1 + i] == inner[i];
  }

  /** `self_heal_monitor_t` */
  class SelfHealMonitor {
    var unstableCount: nat
    var lastStateId: int
    const timeline: QuantumTimeline?

    /** `self_heal_monitor_init` */
    constructor (timeline: QuantumTimeline?)
      ensures this.timeline == timeline && View() == Monitor(timeline != null, 0, -1)
    {
      this.timeline := timeline;
      unstableCount, lastStateId := 0, -1;
    }

    function View(): Monitor
      reads this
    {
      Monitor(timeline != null, unstableCount, lastStateId)
    }

    ghost predicate Valid()
      reads if timeline == null then {} else {timeline, timeline.branches}
    {
      timeline != null ==> timeline.Valid()
    }

    /** The monitor with its timeline; without one, with an empty timeline. */
    ghost function Whole(): Session
      requires Valid()
      reads this, if timeline == null then {} else {timeline, timeline.states, timeline.branches}
    {
      Session(if timeline == null then NOTHING else timeline.View(), View())
    }

    /** `self_heal_monitor_tick` */
    method Tick(isUnstable: bool)
      requires Valid()
      modifies this, if timeline == null then {} else {timeline}
      ensures Valid() && Whole() == Apply(old(Whole()), Op.Tick(isUnstable))
      ensures timeline != null ==> timeline.branchCount == old(timeline.branchCount)
    {
      if isUnstable {
        unstableCount := unstableCount + 1;
        if unstableCount >= 3 && timeline != null && timeline.stateCount > 0 {
          var rewindId := timeline.stateCount - 2;
          if rewindId >= 0 {
            timeline.RewindTo(rewindId);
            unstableCount := 0;
            lastStateId := rewindId;
          }
        }
      } else {
        unstableCount := 0;
      }
    }

    /** `self_heal_trigger_rewind` */
    method TriggerRewind(id: int)
      requires Valid()
      modifies this, if timeline == null then {} else {timeline}
      ensures Valid() && Whole() == Apply(old(Whole()), Trigger(id))
      ensures timeline != null ==> timeline.branchCount == old(timeline.branchCount)
    {
      if timeline != null && 0 <= id < timeline.stateCount {
        timeline.RewindTo(id);
        lastStateId := id;
      }
    }
  }
}

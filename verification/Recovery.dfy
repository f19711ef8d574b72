/** `vm_run` and `vm_recover`: two functions that call each other, with a static snapshot each and a
    static counter. Nothing here depends on what an instruction does, so the loop body is a
    parameter; the VM's own is EngineOf(w). */
module Recovery {
  import opened Words
  import opened Bytecode
  import opened Vm

  /** The loop body of an interpreter: an iteration up to the call of `vm_recover`, and whether
      that call is made. */
  datatype Engine = Engine(step: VmState -> VmState, faults: VmState -> bool)

  function EngineOf(w: World): Engine {
    Engine(s => Step(w, s), s => Faults(w, s))
  }

  datatype Snapshot = Snapshot(regs: RegFile, stack: Stack, pc: u32, sp: u32, size: nat, halted: bool)

  function Take(s: VmState): Snapshot {
    Snapshot(s.data.regs, s.data.stack, s.pc, s.sp, s.size, s.data.halted)
  }

  function Restore(s: VmState, snap: Snapshot): VmState {
    VmState(Data(snap.regs, snap.stack, snap.halted, s.data.clock), snap.pc, snap.sp, snap.size)
  }

  /** A VM with the statics of `vm_run` and `vm_recover`. The two functions each own a variable
      called `last_snap`; only the one in `vm_run` is ever written. */
  datatype Machine = Machine(vm: VmState, runSnap: Snapshot, recoverSnap: Snapshot, recoveries: int)

  const MAX_RECOVERIES := 3

  function SetHalted(m: Machine, halted: bool): Machine {
    m.(vm := m.vm.(data := m.vm.data.(halted := halted)))
  }

  /** The entry of `vm_run`: snapshot, then clear `halted`. */
  function Enter(m: Machine): Machine {
    SetHalted(m.(runSnap := Take(m.vm)), false)
  }

  /** `vm_recover` up to its call of `vm_run`. */
  function Rollback(m: Machine): Machine {
    SetHalted(m.(vm := Restore(m.vm, m.recoverSnap), recoveries := m.recoveries + 1), false)
  }

  /** `vm_run`, with a bound on the number of loop iterations; None when it is used up. */
  function Run(e: Engine, m: Machine, fuel: nat): Option<Machine>
    decreases fuel, 1
  {
    Loop(e, Enter(m), fuel)
  }

  /** The loop of `vm_run`, which calls `vm_recover` and goes on with what that leaves. */
  function Loop(e: Engine, m: Machine, fuel: nat): Option<Machine>
    decreases fuel, 0
  {
    if Stopped(m.vm) then Some(m)
    else if fuel == 0 then None
    else
      var m' := m.(vm := e.step(m.vm));
      if !e.faults(m.vm) then Loop(e, m', fuel - 1)
      else
        match Recover(e, m', fuel - 1)
        case None => None
        case Some(m'') => Loop(e, m'', fuel - 1)
  }

  /** `vm_recover`. */
  function Recover(e: Engine, m: Machine, fuel: nat): Option<Machine>
    decreases fuel, 2
  {
    if m.recoveries < MAX_RECOVERIES then Run(e, Rollback(m), fuel) else Some(SetHalted(m, true))
  }

  // ----- the recursion is a loop -----

  /** One iteration of a machine without recursion: a fault rolls back in place. */
  function FlatStep(e: Engine, m: Machine): Machine {
    var m' := m.(vm := e.step(m.vm));
    if !e.faults(m.vm) then m'
    else if m'.recoveries < MAX_RECOVERIES then Enter(Rollback(m'))
    else SetHalted(m', true)
  }

  function Flat(e: Engine, m: Machine, n: nat): Machine
    decreases n
  {
    if n == 0 || Stopped(m.vm) then m else Flat(e, FlatStep(e, m), n - 1)
  }

  lemma RecoverUnfolds(e: Engine, m: Machine, fuel: nat)
    ensures Recover(e, m, fuel) ==
            if m.recoveries < MAX_RECOVERIES then Loop(e, Enter(Rollback(m)), fuel) else Some(SetHalted(m, true))
  {
    if m.recoveries < MAX_RECOVERIES {
      assert Recover(e, m, fuel) == Run(e, Rollback(m), fuel);
      assert Run(e, Rollback(m), fuel) == Loop(e, Enter(Rollback(m)), fuel);
    }
  }

  /** A finished run leaves the VM halted or past its code, whatever snapshot it was rolled back to. */
  lemma {:induction false} LoopEndsStopped(e: Engine, m: Machine, fuel: nat)
    requires Loop(e, m, fuel).Some?
    ensures Stopped(Loop(e, m, fuel).value.vm)
    decreases fuel
  {
    if !Stopped(m.vm) {
      var m' := m.(vm := e.step(m.vm));
      if !e.faults(m.vm) {
        LoopEndsStopped(e, m', fuel - 1);
      } else {
        LoopEndsStopped(e, Recover(e, m', fuel - 1).value, fuel - 1);
      }
    }
  }

  /** An invalid opcode is the last iteration of the loop that meets it: when the recovery returns,
      that loop is over and returns the recovery's result as its own. */
  lemma FaultIsLastIteration(e: Engine, m: Machine, fuel: nat)
    requires !Stopped(m.vm) && e.faults(m.vm) && fuel > 0
    ensures Loop(e, m, fuel) == Recover(e, m.(vm := e.step(m.vm)), fuel - 1)
  {
    var m' := m.(vm := e.step(m.vm));
    RecoverUnfolds(e, m', fuel - 1);
    if m'.recoveries < MAX_RECOVERIES && Recover(e, m', fuel - 1).Some? {
      LoopEndsStopped(e, Enter(Rollback(m')), fuel - 1);
    }
  }

  lemma {:induction false} LoopIsFlat(e: Engine, m: Machine, fuel: nat)
    ensures Loop(e, m, fuel) == if Stopped(Flat(e, m, fuel).vm) then Some(Flat(e, m, fuel)) else None
    decreases fuel
  {
    if !Stopped(m.vm) && fuel > 0 {
      var m' := m.(vm := e.step(m.vm));
      if e.faults(m.vm) {
        FaultIsLastIteration(e, m, fuel);
        RecoverUnfolds(e, m', fuel - 1);
      }
      LoopIsFlat(e, FlatStep(e, m), fuel - 1);
    }
  }

  ghost predicate Returns(e: Engine, m: Machine, r: Machine) {
    exists fuel: nat :: Run(e, m, fuel) == Some(r)
  }

  ghost predicate FlatReturns(e: Engine, m: Machine, r: Machine) {
    exists n: nat :: Flat(e, m, n) == r && Stopped(r.vm)
  }

  /** The mutual recursion of `vm_run` and `vm_recover` computes what the flat loop computes, and one
      terminates exactly when the other does, for every snapshot and every recovery count. */
  lemma RecursionIsFlat(e: Engine, m: Machine, r: Machine)
    ensures Returns(e, m, r) <==> FlatReturns(e, Enter(m), r)
  {
    if Returns(e, m, r) {
      var fuel: nat :| Run(e, m, fuel) == Some(r);
      assert Run(e, m, fuel) == Loop(e, Enter(m), fuel);
      LoopIsFlat(e, Enter(m), fuel);
    }
    if FlatReturns(e, Enter(m), r) {
      var n: nat :| Flat(e, Enter(m), n) == r && Stopped(r.vm);
      LoopIsFlat(e, Enter(m), n);
      assert Run(e, m, n) == Loop(e, Enter(m), n);
    }
  }

  lemma {:induction false} FaultFreeFlat(w: World, m: Machine, n: nat)
    requires NoFaults(w, m.vm, n)
    ensures Flat(EngineOf(w), m, n) == m.(vm := Iterate(w, m.vm, n))
    decreases n
  {
    if n > 0 && !Stopped(m.vm) {
      FaultFreeFlat(w, FlatStep(EngineOf(w), m), n - 1);
    }
  }

  /** Where no invalid opcode is met, `vm_run` is just its loop. */
  lemma FaultFreeRun(w: World, m: Machine, n: nat)
    requires var s := Enter(m).vm; NoFaults(w, s, n) && Stopped(Iterate(w, s, n))
    ensures Returns(EngineOf(w), m, Enter(m).(vm := Iterate(w, Enter(m).vm, n)))
  {
    var r := Enter(m).(vm := Iterate(w, Enter(m).vm, n));
    FaultFreeFlat(w, Enter(m), n);
    assert FlatReturns(EngineOf(w), Enter(m), r);
    RecursionIsFlat(EngineOf(w), m, r);
  }

  // ----- at most three restarts -----

  /** Number of rollbacks among the first n iterations. */
  function Rollbacks(e: Engine, m: Machine, n: nat): nat
    decreases n
  {
    if n == 0 || Stopped(m.vm) then 0
    else (if e.faults(m.vm) && m.recoveries < MAX_RECOVERIES then 1 else 0) + Rollbacks(e, FlatStep(e, m), n - 1)
  }

  lemma {:induction false} RollbacksCounted(e: Engine, m: Machine, n: nat)
    ensures Flat(e, m, n).recoveries == m.recoveries + Rollbacks(e, m, n)
    ensures m.recoveries <= 3 ==> Flat(e, m, n).recoveries <= 3
    decreases n
  {
    if n > 0 && !Stopped(m.vm) {
      RollbacksCounted(e, FlatStep(e, m), n - 1);
    }
  }

  /** A call of `vm_run`, followed for n iterations. */
  datatype Call = Call(e: Engine, vm: VmState, n: nat)

  /** A call on whatever VM the caller puts in place. The statics stay from call to call. */
  function Begin(m: Machine, vm: VmState): Machine {
    Enter(m.(vm := vm))
  }

  function Session(m: Machine, calls: seq<Call>): Machine
    decreases |calls|
  {
    if calls == [] then m
    else Session(Flat(calls[0].e, Begin(m, calls[0].vm), calls[0].n), calls[1..])
  }

  function SessionRollbacks(m: Machine, calls: seq<Call>): nat
    decreases |calls|
  {
    if calls == [] then 0
    else
      var c := calls[0];
      Rollbacks(c.e, Begin(m, c.vm), c.n) + SessionRollbacks(Flat(c.e, Begin(m, c.vm), c.n), calls[1..])
  }

  /** However many VMs are run one after the other, from boot there are at most three restarts. */
  lemma {:induction false} AtMostThreeRestarts(m: Machine, calls: seq<Call>)
    requires m.recoveries <= 3
    ensures m.recoveries + SessionRollbacks(m, calls) <= 3
    decreases |calls|
  {
    if calls != [] {
      var c := calls[0];
      RollbacksCounted(c.e, Begin(m, c.vm), c.n);
      AtMostThreeRestarts(Flat(c.e, Begin(m, c.vm), c.n), calls[1..]);
    }
  }

  /** After three recoveries a fault halts the VM where it is: the loop ends with what its last iteration
      left, and neither the snapshots nor the counter change. */
  lemma FourthFaultHalts(e: Engine, m: Machine, fuel: nat)
    requires !Stopped(m.vm) && e.faults(m.vm) && m.recoveries >= 3 && fuel > 0
    ensures var t := e.step(m.vm);
            Loop(e, m, fuel) == Some(m.(vm := t.(data := t.data.(halted := true))))
  {
    FaultIsLastIteration(e, m, fuel);
    RecoverUnfolds(e, m.(vm := e.step(m.vm)), fuel - 1);
  }

  /** Restoring what was taken of a VM gives that VM back, whatever has become of it since; only clock
      readings cannot be taken back. */
  lemma RestoreUndoes(s: VmState, later: VmState)
    ensures Restore(later, Take(s)) == s.(data := s.data.(clock := later.data.clock))
  {
  }

  /** `vm_run` begins by taking its snapshot of the VM as it finds it, and clears `halted`. */
  lemma EnterTakes(m: Machine)
    ensures Enter(m).runSnap == Take(m.vm)
    ensures Enter(m).recoverSnap == m.recoverSnap && Enter(m).recoveries == m.recoveries
    ensures Enter(m).vm == m.vm.(data := m.vm.data.(halted := false))
  {
  }

  // ----- termination -----

  function RestartsLeft(m: Machine): nat {
    if m.recoveries < MAX_RECOVERIES then MAX_RECOVERIES - m.recoveries else 0
  }

  /** Within `good`, every iteration that does not fault moves `pc` forward and stays in `good`. */
  ghost predicate Advances(e: Engine, good: VmState -> bool) {
    forall s :: good(s) && !Stopped(s) && !e.faults(s) ==>
      good(e.step(s)) && e.step(s).pc > s.pc && e.step(s).size == s.size
  }

  /** Rolling back to `snap` leads into `good`. */
  ghost predicate RestoresInto(snap: Snapshot, good: VmState -> bool) {
    forall s :: good(Unhalt(Restore(s, snap)))
  }

  function Unhalt(s: VmState): VmState {
    s.(data := s.data.(halted := false))
  }

  /** Where iterations only move forward, the loop ends, whatever it is rolled back to: a restart
      lowers the number of restarts left, any other iteration the distance to the end of the code. */
  lemma {:induction false} ForwardRunsEnd(e: Engine, m: Machine, good: VmState -> bool) returns (n: nat)
    requires Advances(e, good) && RestoresInto(m.recoverSnap, good) && good(m.vm)
    ensures Stopped(Flat(e, m, n).vm)
    decreases RestartsLeft(m), !m.vm.data.halted, m.vm.size - m.vm.pc
  {
    if Stopped(m.vm) {
      n := 0;
    } else {
      var m' := FlatStep(e, m);
      if e.faults(m.vm) && m.recoveries < MAX_RECOVERIES {
        assert m'.vm == Unhalt(Restore(e.step(m.vm), m.recoverSnap));
      } else if e.faults(m.vm) {
        assert Stopped(m'.vm);
        return 1;
      }
      var k := ForwardRunsEnd(e, m', good);
      n := k + 1;
    }
  }

  /** The mutual recursion terminates when jumps only go forward. */
  lemma ForwardRunReturns(e: Engine, m: Machine, good: VmState -> bool)
    requires Advances(e, good) && RestoresInto(m.recoverSnap, good) && good(Unhalt(m.vm))
    ensures exists r :: Returns(e, m, r)
  {
    var n := ForwardRunsEnd(e, Enter(m), good);
    var r := Flat(e, Enter(m), n);
    assert FlatReturns(e, Enter(m), r);
    RecursionIsFlat(e, m, r);
    assert Returns(e, m, r);
  }

  // ----- what recovery does with the snapshot it really has -----

  /** A static of C that nobody assigns. */
  const NEVER_TAKEN: Snapshot := Snapshot(ZERO_REGS, ZERO_STACK, 0, 0, 0, false)

  lemma {:induction false} FlatKeepsSnap(e: Engine, m: Machine, n: nat)
    ensures Flat(e, m, n).recoverSnap == m.recoverSnap
    decreases n
  {
    if n > 0 && !Stopped(m.vm) {
      FlatKeepsSnap(e, FlatStep(e, m), n - 1);
    }
  }

  lemma WipedWhereNeverTaken(e: Engine, m: Machine, fuel: nat)
    requires !Stopped(m.vm) && e.faults(m.vm) && fuel > 0
    requires m.recoverSnap == NEVER_TAKEN && m.recoveries < MAX_RECOVERIES
    ensures Loop(e, m, fuel).Some?
    ensures var r := Loop(e, m, fuel).value;
            r.vm == VmState(Data(ZERO_REGS, ZERO_STACK, false, e.step(m.vm).data.clock), 0, 0, 0) &&
            r.recoveries == m.recoveries + 1
  {
    var m' := m.(vm := e.step(m.vm));
    FaultIsLastIteration(e, m, fuel);
    RecoverUnfolds(e, m', fuel - 1);
    assert Stopped(Enter(Rollback(m')).vm);
  }

  lemma {:induction false} SessionKeepsSnap(m: Machine, calls: seq<Call>)
    ensures Session(m, calls).recoverSnap == m.recoverSnap
    decreases |calls|
  {
    if calls != [] {
      var c := calls[0];
      FlatKeepsSnap(c.e, Begin(m, c.vm), c.n);
      SessionKeepsSnap(Flat(c.e, Begin(m, c.vm), c.n), calls[1..]);
    }
  }

  /** Iterations do not change the size of the code. */
  ghost predicate KeepsSize(e: Engine) {
    forall s :: e.step(s).size == s.size
  }

  /** The VM always has as much code as the snapshot that `vm_run` took. */
  lemma {:induction false} RunSnapHasTheSize(e: Engine, m: Machine, n: nat)
    requires KeepsSize(e) && m.vm.size == m.runSnap.size
    ensures Flat(e, m, n).vm.size == Flat(e, m, n).runSnap.size
    decreases n
  {
    if n > 0 && !Stopped(m.vm) {
      RunSnapHasTheSize(e, FlatStep(e, m), n - 1);
    }
  }

  lemma EngineKeepsSize(w: World)
    ensures KeepsSize(EngineOf(w))
  {
  }

  /** From start-up, after any calls on any VMs, and any number of iterations into another one: if
      recovery is attempted, it leaves the VM wiped and without code, although the snapshot that
      `vm_run` took has code. It never goes back to that snapshot. */
  lemma NeverGoesBack(boot: Machine, calls: seq<Call>, w: World, vm: VmState, n: nat)
    requires boot.recoverSnap == NEVER_TAKEN
    ensures var e := EngineOf(w);
            var r := Flat(e, Begin(Session(boot, calls), vm), n);
            !Stopped(r.vm) && e.faults(r.vm) && r.recoveries < MAX_RECOVERIES ==>
              var wiped := FlatStep(e, r).vm;
              wiped == VmState(Data(ZERO_REGS, ZERO_STACK, false, e.step(r.vm).data.clock), 0, 0, 0) &&
              r.runSnap.size > 0 && wiped != Unhalt(Restore(e.step(r.vm), r.runSnap))
  {
    var e, m := EngineOf(w), Begin(Session(boot, calls), vm);
    EngineKeepsSize(w);
    SessionKeepsSnap(boot, calls);
    FlatKeepsSnap(e, m, n);
    RunSnapHasTheSize(e, m, n);
  }

  /** `vm_recover` promises to go back to the last snapshot, but the snapshot it restores is never
      taken: from start-up, after any calls, a VM that runs into an invalid opcode comes back at once
      as a VM without code, its registers and stack wiped, and not marked as halted. */
  lemma RecoveryWipesTheVm(boot: Machine, calls: seq<Call>, e: Engine, vm: VmState, n: nat, fuel: nat)
    requires boot.recoverSnap == NEVER_TAKEN && fuel > 0
    requires var m := Flat(e, Begin(Session(boot, calls), vm), n);
             !Stopped(m.vm) && e.faults(m.vm) && m.recoveries < MAX_RECOVERIES
    ensures var m := Flat(e, Begin(Session(boot, calls), vm), n);
            Loop(e, m, fuel).Some? &&
            Loop(e, m, fuel).value.vm ==
              VmState(Data(ZERO_REGS, ZERO_STACK, false, e.step(m.vm).data.clock), 0, 0, 0) &&
            Loop(e, m, fuel).value.recoveries == m.recoveries + 1
  {
    SessionKeepsSnap(boot, calls);
    FlatKeepsSnap(e, Begin(Session(boot, calls), vm), n);
    WipedWhereNeverTaken(e, Flat(e, Begin(Session(boot, calls), vm), n), fuel);
  }

  /** `vm_run` on a VM whose next byte is no opcode: as long as fewer than three recoveries have been
      made since start-up, it returns with the VM wiped. */
  lemma InvalidOpcodeWipes(boot: Machine, calls: seq<Call>, w: World, vm: VmState) returns (r: Machine)
    requires boot.recoverSnap == NEVER_TAKEN && Session(boot, calls).recoveries < MAX_RECOVERIES
    requires vm.pc < vm.size && w.code(vm.pc) > OP_HALT
    ensures Returns(EngineOf(w), Session(boot, calls).(vm := vm), r)
    ensures r.vm == VmState(Data(ZERO_REGS, ZERO_STACK, false, vm.data.clock), 0, 0, 0)
  {
    var e, start := EngineOf(w), Session(boot, calls).(vm := vm);
    assert Begin(Session(boot, calls), vm) == Enter(start);
    RecoveryWipesTheVm(boot, calls, e, vm, 0, 1);
    r := Loop(e, Enter(start), 1).value;
    assert Run(e, start, 1) == Some(r);
  }

  /** There is such a VM: one byte of code, which is 12. */
  lemma OneByteIsWiped(boot: Machine, data: Data) returns (w: World, vm: VmState, r: Machine)
    requires boot.recoverSnap == NEVER_TAKEN && boot.recoveries == 0
    ensures vm == VmState(data, 0, 0, 1) && w.code(0) == 12 && Faults(w, Enter(boot.(vm := vm)).vm)
    ensures Returns(EngineOf(w), boot.(vm := vm), r) && r.vm.size == 0 && r.vm.data.regs == ZERO_REGS
  {
    w, vm := World(a => 12, k => 0), VmState(data, 0, 0, 1);
    r := InvalidOpcodeWipes(boot, [], w, vm);
  }
}

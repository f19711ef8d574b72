/** A machine over a list of instructions, with an index instead of a byte offset, and the proof
    that the byte interpreter refines it on every assembled program with sound jump targets. */
module ListMachine {
  import opened Words
  import opened Bytecode
  import opened Vm
  import opened Recovery

  /** The last byte offset must be below 2^32 for `pc` not to wrap inside an instruction. */
  const CODE_LIMIT: int := TWO32 - 10

  /** An address that is the start of an instruction, or at or past the end of the code. */
  ghost predicate Boundary(prog: Program, addr: int) {
    addr >= Offset(prog, |prog|) || exists k: nat :: k < |prog| && Offset(prog, k) == addr
  }

  ghost predicate SoundJump(prog: Program, i: Instr) {
    (i.Jmp? || i.Jz?) ==> Boundary(prog, i.addr)
  }

  /** What an assembler guarantees of its output. */
  ghost predicate WellFormed(prog: Program) {
    EncodableProgram(prog) && Offset(prog, |prog|) <= CODE_LIMIT &&
    forall k :: 0 <= k < |prog| ==> SoundJump(prog, prog[k])
  }

  /** The instruction at an address; |prog| for addresses at or past the end. */
  function IndexOf(prog: Program, addr: int): (k: nat)
    ensures k <= |prog|
  {
    if prog == [] || addr == 0 then 0
    else if addr < Size(prog[0]) then |prog|
    else 1 + IndexOf(prog[1..], addr - Size(prog[0]))
  }

  lemma {:induction false} IndexOfOffset(prog: Program, k: nat)
    requires k <= |prog|
    ensures IndexOf(prog, Offset(prog, k)) == k
  {
    if k > 0 {
      IndexOfOffset(prog[1..], k - 1);
    }
  }

  lemma {:induction false} IndexOfPastEnd(prog: Program, addr: int)
    requires addr >= Offset(prog, |prog|)
    ensures IndexOf(prog, addr) == |prog|
    decreases |prog|
  {
    if prog != [] {
      IndexOfPastEnd(prog[1..], addr - Size(prog[0]));
    }
  }

  datatype ListState = ListState(data: Data, ip: nat)

  predicate ListStopped(prog: Program, a: ListState) {
    a.data.halted || a.ip >= |prog|
  }

  function ListStep(w: World, prog: Program, a: ListState): ListState
    requires a.ip < |prog|
  {
    var i := prog[a.ip];
    ListState(Effect(i, a.data, w.time),
              match Branch(i, a.data) case Some(addr) => IndexOf(prog, addr) case None => a.ip + 1)
  }

  function ListIterate(w: World, prog: Program, a: ListState, n: nat): ListState
    decreases n
  {
    if n == 0 || ListStopped(prog, a) then a else ListIterate(w, prog, ListStep(w, prog, a), n - 1)
  }

  /** The byte machine stands at the instruction the list machine stands at. */
  ghost predicate SameState(prog: Program, s: VmState, a: ListState) {
    s.data == a.data && s.size == Offset(prog, |prog|) && a.ip <= |prog| &&
    (a.ip < |prog| ==> s.pc == Offset(prog, a.ip)) &&
    (a.ip == |prog| ==> s.pc >= s.size)
  }

  lemma JumpTarget(prog: Program, addr: int)
    requires Boundary(prog, addr)
    ensures var k := IndexOf(prog, addr);
            (k < |prog| ==> Offset(prog, k) == addr) && (k == |prog| ==> addr >= Offset(prog, |prog|))
  {
    if addr >= Offset(prog, |prog|) {
      IndexOfPastEnd(prog, addr);
    } else {
      var k: nat :| k < |prog| && Offset(prog, k) == addr;
      IndexOfOffset(prog, k);
    }
  }

  lemma FetchesFlat(m: Memory, prog: Program, k: nat)
    requires EncodableProgram(prog) && Holds(m, 0, Assemble(prog)) && k < |prog|
    ensures Fetch(m, Offset(prog, k)) == prog[k]
  {
    FetchAtOffset(m, 0, prog, k);
  }

  lemma FetchesProgram(m: Memory, prog: Program, k: nat)
    requires WellFormed(prog) && Holds(m, 0, Assemble(prog)) && k < |prog|
    ensures Offset(prog, k) + Size(prog[k]) <= Offset(prog, |prog|)
    ensures FetchWrapped(m, Offset(prog, k)) == prog[k]
  {
    OffsetMonotone(prog, k, |prog|);
    FetchesFlat(m, prog, k);
    FetchWrappedIsFetch(m, Offset(prog, k));
  }

  lemma ExecRefines(w: World, prog: Program, s: VmState, a: ListState)
    requires WellFormed(prog) && SameState(prog, s, a) && a.ip < |prog|
    ensures SameState(prog, Exec(w, s, prog[a.ip]), ListStep(w, prog, a))
  {
    var i := prog[a.ip];
    OffsetNext(prog, a.ip);
    OffsetMonotone(prog, a.ip, |prog|);
    WrapSmall(s.pc + Size(i));
    var b := Branch(i, s.data);
    if b.Some? {
      assert SoundJump(prog, i);
      JumpTarget(prog, b.value);
    }
  }

  /** Lockstep: where the byte machine makes a step so does the list machine, no operand is read at
      or past the end of the code, and the two stand at the same instruction afterwards. */
  lemma StepRefines(w: World, prog: Program, s: VmState, a: ListState)
    requires WellFormed(prog) && Holds(w.code, 0, Assemble(prog)) && SameState(prog, s, a)
    ensures Stopped(s) <==> ListStopped(prog, a)
    ensures !Stopped(s) ==> a.ip < |prog| && FetchWrapped(w.code, s.pc) == prog[a.ip] &&
                            s.pc + Size(prog[a.ip]) <= s.size &&
                            SameState(prog, Step(w, s), ListStep(w, prog, a))
  {
    if a.ip < |prog| {
      FetchesProgram(w.code, prog, a.ip);
      ExecRefines(w, prog, s, a);
    }
  }

  /** Refinement for runs of any length. */
  lemma {:induction false} IterateRefines(w: World, prog: Program, s: VmState, a: ListState, n: nat)
    requires WellFormed(prog) && Holds(w.code, 0, Assemble(prog)) && SameState(prog, s, a)
    ensures SameState(prog, Iterate(w, s, n), ListIterate(w, prog, a, n))
    decreases n
  {
    StepRefines(w, prog, s, a);
    if n > 0 && !Stopped(s) {
      IterateRefines(w, prog, Step(w, s), ListStep(w, prog, a), n - 1);
    }
  }

  // ----- whole runs, with recovery -----

  /** The VM runs this program and `pc` is at an instruction or past the end; or it has no code. */
  ghost predicate Placed(prog: Program, pc: int, size: nat) {
    size == 0 || (size == Offset(prog, |prog|) && Boundary(prog, pc))
  }

  lemma PlacedStep(w: World, prog: Program, s: VmState)
    requires WellFormed(prog) && Holds(w.code, 0, Assemble(prog))
    requires Placed(prog, s.pc, s.size) && !Stopped(s)
    ensures var t := Step(w, s); Placed(prog, t.pc, t.size)
    ensures s.pc + Size(FetchWrapped(w.code, s.pc)) <= s.size
  {
    var a := ListState(s.data, IndexOf(prog, s.pc));
    JumpTarget(prog, s.pc);
    StepRefines(w, prog, s, a);
    var t, b := Step(w, s), ListStep(w, prog, a);
    assert SameState(prog, t, b);
    assert b.ip < |prog| ==> Offset(prog, b.ip) == t.pc;
  }

  /** Over every run of `vm_run`, through every recovery from a snapshot that is itself well placed
      (the never-written one is), `pc` stays on an instruction boundary or at or past the end, and
      every instruction executed lies wholly inside the code. */
  lemma {:induction false} RunsStayOnBoundaries(w: World, prog: Program, m: Machine, n: nat)
    requires WellFormed(prog) && Holds(w.code, 0, Assemble(prog))
    requires Placed(prog, m.vm.pc, m.vm.size) && Placed(prog, m.recoverSnap.pc, m.recoverSnap.size)
    ensures var r := Flat(EngineOf(w), m, n);
            Placed(prog, r.vm.pc, r.vm.size) &&
            (!Stopped(r.vm) ==> r.vm.pc + Size(FetchWrapped(w.code, r.vm.pc)) <= r.vm.size)
    decreases n
  {
    if !Stopped(m.vm) {
      PlacedStep(w, prog, m.vm);
      if n > 0 {
        RunsStayOnBoundaries(w, prog, FlatStep(EngineOf(w), m), n - 1);
      }
    }
  }

  /** Two memories with the same `size` first bytes. */
  ghost predicate AgreeBelow(m1: Memory, m2: Memory, size: int) {
    forall a :: 0 <= a < size ==> m1(a) == m2(a)
  }

  lemma FetchIsLocal(m1: Memory, m2: Memory, p: u32, size: int)
    requires AgreeBelow(m1, m2, size) && p + Size(Fetch(m1, p)) <= size
    ensures Fetch(m1, p) == Fetch(m2, p)
  {
    var i := Fetch(m1, p);
    FetchIsEncodable(m1, p);
    FetchInvertsEncode(m1, p, i);
    assert Holds(m2, p, Encode(i)) by {
      forall k | 0 <= k < |Encode(i)| ensures m2(p + k) == Encode(i)[k] {
        assert m1(p + k) == Encode(i)[k];
      }
    }
    FetchInvertsEncode(m2, p, i);
  }

  lemma StepIsLocal(w1: World, w2: World, prog: Program, s: VmState)
    requires WellFormed(prog) && Holds(w1.code, 0, Assemble(prog))
    requires w1.time == w2.time && AgreeBelow(w1.code, w2.code, Offset(prog, |prog|))
    requires Placed(prog, s.pc, s.size) && !Stopped(s)
    ensures FetchWrapped(w1.code, s.pc) == FetchWrapped(w2.code, s.pc)
  {
    PlacedStep(w1, prog, s);
    FetchWrappedIsFetch(w1.code, s.pc);
    FetchWrappedIsFetch(w2.code, s.pc);
    FetchIsLocal(w1.code, w2.code, s.pc, s.size);
  }

  lemma FlatStepIsLocal(w1: World, w2: World, prog: Program, m: Machine)
    requires WellFormed(prog) && Holds(w1.code, 0, Assemble(prog))
    requires w1.time == w2.time && AgreeBelow(w1.code, w2.code, Offset(prog, |prog|))
    requires Placed(prog, m.vm.pc, m.vm.size) && Placed(prog, m.recoverSnap.pc, m.recoverSnap.size) && !Stopped(m.vm)
    ensures var r := FlatStep(EngineOf(w1), m);
            r == FlatStep(EngineOf(w2), m) && r.recoverSnap == m.recoverSnap && Placed(prog, r.vm.pc, r.vm.size)
  {
    StepIsLocal(w1, w2, prog, m.vm);
    PlacedStep(w1, prog, m.vm);
    assert Step(w1, m.vm) == Step(w2, m.vm);
  }

  /** Two engines that agree wherever runs of the one can come run alike. */
  lemma {:induction false} RunsAgree(e1: Engine, e2: Engine, m: Machine, good: Machine -> bool, n: nat)
    requires good(m)
    requires forall k :: good(k) && !Stopped(k.vm) ==> FlatStep(e1, k) == FlatStep(e2, k) && good(FlatStep(e1, k))
    ensures Flat(e1, m, n) == Flat(e2, m, n)
    decreases n
  {
    if !Stopped(m.vm) && n > 0 {
      RunsAgree(e1, e2, FlatStep(e1, m), good, n - 1);
    }
  }

  /** What lies in memory past the code has no influence on a run. */
  lemma RunsReadOnlyTheCode(w1: World, w2: World, prog: Program, m: Machine, n: nat)
    requires WellFormed(prog) && Holds(w1.code, 0, Assemble(prog))
    requires w1.time == w2.time && AgreeBelow(w1.code, w2.code, Offset(prog, |prog|))
    requires Placed(prog, m.vm.pc, m.vm.size) && Placed(prog, m.recoverSnap.pc, m.recoverSnap.size)
    ensures Flat(EngineOf(w1), m, n) == Flat(EngineOf(w2), m, n)
  {
    var e1, e2 := EngineOf(w1), EngineOf(w2);
    var good := (k: Machine) => Placed(prog, k.vm.pc, k.vm.size) && Placed(prog, k.recoverSnap.pc, k.recoverSnap.size);
    forall k | good(k) && !Stopped(k.vm) ensures FlatStep(e1, k) == FlatStep(e2, k) && good(FlatStep(e1, k)) {
      FlatStepIsLocal(w1, w2, prog, k);
    }
    RunsAgree(e1, e2, m, good, n);
  }

  /** Every jump of the program goes to a later address. */
  ghost predicate ForwardJumps(prog: Program) {
    forall k :: 0 <= k < |prog| && (prog[k].Jmp? || prog[k].Jz?) ==> prog[k].addr > Offset(prog, k)
  }

  lemma ForwardPlacedStep(w: World, prog: Program, s: VmState)
    requires WellFormed(prog) && ForwardJumps(prog) && Holds(w.code, 0, Assemble(prog))
    requires Placed(prog, s.pc, s.size) && !Stopped(s)
    ensures var t := Step(w, s); Placed(prog, t.pc, t.size) && t.pc > s.pc && t.size == s.size
  {
    PlacedStep(w, prog, s);
    var k := IndexOf(prog, s.pc);
    JumpTarget(prog, s.pc);
    FetchesProgram(w.code, prog, k);
    ForwardExec(w, s, prog[k]);
  }

  /** Programs with forward jumps only: `vm_run` returns, from any boundary, with any number of
      recoveries left, and whatever well-placed snapshot it is rolled back to. */
  lemma ForwardProgramsReturn(w: World, prog: Program, m: Machine)
    requires WellFormed(prog) && ForwardJumps(prog) && Holds(w.code, 0, Assemble(prog))
    requires Placed(prog, m.vm.pc, m.vm.size) && Placed(prog, m.recoverSnap.pc, m.recoverSnap.size)
    ensures exists r :: Returns(EngineOf(w), m, r)
  {
    var e := EngineOf(w);
    var good := (s: VmState) => Placed(prog, s.pc, s.size);
    forall s | good(s) && !Stopped(s) && !e.faults(s)
      ensures good(e.step(s)) && e.step(s).pc > s.pc && e.step(s).size == s.size
    {
      ForwardPlacedStep(w, prog, s);
    }
    assert RestoresInto(m.recoverSnap, good);
    ForwardRunReturns(e, m, good);
  }
}

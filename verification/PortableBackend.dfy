/** The ARM, RISC-V and photonic back ends. The three sources are the same loop (their log messages
    aside): it runs the bytecode directly, from offset 0, with a 64-bit cursor of its own, and
    supports no control flow, memory or system calls. */
module PortableBackend {
  import opened Words
  import opened Bytecode
  import opened Vm
  import opened Recovery
  import opened Interpreter

  predicate Supported(i: Instr) {
    i.Nop? || i.LoadImm? || i.Alu? || i.Halt?
  }

  datatype Stop = AtHalt | AtEnd | AtUnsupported

  /** The final data, why the loop ended, and the offset of the instruction it ended at. */
  datatype Outcome = Outcome(data: Data, stop: Stop, at: nat)

  function BackendRun(w: World, d: Data, pc: nat, size: nat): Outcome
    decreases size - pc
  {
    if pc >= size then Outcome(d, AtEnd, pc)
    else
      var i := Fetch(w.code, pc);
      if i.Halt? then Outcome(d.(halted := true), AtHalt, pc)
      else if !Supported(i) then Outcome(d.(halted := true), AtUnsupported, pc)
      else BackendRun(w, Effect(i, d, w.time), pc + Size(i), size)
  }

  /** `jit_backend_arm`, `jit_backend_riscv`, `jit_backend_photonic`. */
  method JitBackend(vm: VmObject) returns (code: int)
    requires vm.Valid()
    modifies vm`halted, vm.regs
    ensures vm.codeSize == 0 ==> code == -1 && vm.View() == old(vm.View())
    ensures vm.codeSize > 0 ==> code == 0
    ensures vm.codeSize > 0 && old(vm.halted) ==> vm.View() == old(vm.View())
    ensures vm.codeSize > 0 && !old(vm.halted) ==>
              vm.View() == old(vm.View()).(data := BackendRun(vm.world, old(vm.View().data), 0, vm.codeSize).data)
  {
    if vm.codeSize == 0 {
      return -1;
    }
    ghost var start := vm.View();
    ghost var goal := if start.data.halted then start.data else BackendRun(vm.world, start.data, 0, vm.codeSize).data;
    var pc: nat := 0;
    while pc < vm.codeSize && !vm.halted
      invariant vm.View() == start.(data := vm.View().data)
      invariant goal == if vm.halted then vm.View().data else BackendRun(vm.world, vm.View().data, pc, vm.codeSize).data
      decreases vm.codeSize - pc
    {
      pc := BackendStep(vm, pc);
    }
    return 0;
  }

  /** One iteration: a `switch` on the opcode at `pc`. */
  method BackendStep(vm: VmObject, pc: nat) returns (next: nat)
    requires vm.Valid() && pc < vm.codeSize && !vm.halted
    modifies vm`halted, vm.regs
    ensures vm.View() == old(vm.View()).(data := vm.View().data)
    ensures var i := Fetch(vm.world.code, pc);
            vm.View().data == (if Supported(i) then Effect(i, old(vm.View().data), vm.world.time)
                               else old(vm.View().data).(halted := true)) &&
            next == pc + (if Supported(i) then Size(i) else 1)
  {
    var code := vm.world.code;
    var op := code(pc);
    next := pc + 1;
    if op == OP_NOP {
    } else if op == OP_LOAD_IMM {
      var reg, imm := code(next), Word(code, next + 1);
      next := next + 5;
      if reg < MAX_REGS {
        vm.regs[reg] := imm;
      }
    } else if op == OP_ADD {
      BackendAlu(vm, Add, code(next), code(next + 1));
      next := next + 2;
    } else if op == OP_SUB {
      BackendAlu(vm, Sub, code(next), code(next + 1));
      next := next + 2;
    } else if op == OP_MUL {
      BackendAlu(vm, Mul, code(next), code(next + 1));
      next := next + 2;
    } else if op == OP_DIV {
      BackendAlu(vm, Div, code(next), code(next + 1));
      next := next + 2;
    } else {
      vm.halted := true;
    }
  }

  method BackendAlu(vm: VmObject, op: AluOp, reg: byte, reg2: byte)
    requires vm.Valid()
    modifies vm.regs
    ensures vm.View() == old(vm.View()).(data := Effect(Alu(op, reg, reg2), old(vm.View().data), vm.world.time))
  {
    if reg < MAX_REGS && reg2 < MAX_REGS {
      if op != Div || vm.regs[reg2] != 0 {
        vm.regs[reg] := VmObject.Compute(op, vm.regs[reg], vm.regs[reg2]);
      }
    }
  }

  /** The VM is marked as halted by a HALT and by an unsupported opcode, but not by the end of the code;
      the stack and the clock are never touched. */
  lemma {:induction false} HaltedUnlessAtEnd(w: World, d: Data, pc: nat, size: nat)
    requires !d.halted
    ensures var r := BackendRun(w, d, pc, size);
            (r.data.halted <==> r.stop != AtEnd) && r.data.stack == d.stack && r.data.clock == d.clock
    ensures var r := BackendRun(w, d, pc, size);
            if r.stop == AtEnd then r.at >= size
            else
              r.at < size &&
              if r.stop == AtHalt then w.code(r.at) == 11 else 6 <= w.code(r.at) && w.code(r.at) != 11
    decreases size - pc
  {
    if pc < size {
      var i := Fetch(w.code, pc);
      if Supported(i) && !i.Halt? {
        HaltedUnlessAtEnd(w, Effect(i, d, w.time), pc + Size(i), size);
      }
    }
  }

  lemma SupportedStep(w: World, s: VmState)
    requires s.pc + 10 < TWO32 && Supported(Fetch(w.code, s.pc))
    ensures var i := Fetch(w.code, s.pc);
            Step(w, s) == s.(data := Effect(i, s.data, w.time), pc := s.pc + Size(i))
  {
    FetchWrappedIsFetch(w.code, s.pc);
    WrapSmall(s.pc + Size(Fetch(w.code, s.pc)));
  }

  /** The interpreter's state `t` is where the back end's outcome `r` says. */
  ghost predicate Meets(w: World, t: VmState, r: Outcome) {
    t.data.regs == r.data.regs && t.data.stack == r.data.stack &&
    (Stopped(t) <==> r.stop != AtUnsupported) &&
    (if r.stop == AtUnsupported then t.pc == r.at && !Supported(FetchWrapped(w.code, t.pc)) else t.data == r.data)
  }

  function RunFrom(w: World, s: VmState): Outcome {
    BackendRun(w, s.data, s.pc, s.size)
  }

  lemma RunFromSupported(w: World, s: VmState)
    requires !Stopped(s) && s.size + 10 < TWO32
    requires var i := Fetch(w.code, s.pc); Supported(i) && !i.Halt?
    ensures !Faults(w, s)
    ensures var s' := Step(w, s);
            RunFrom(w, s) == RunFrom(w, s') && !s'.data.halted && s'.size == s.size && s'.pc > s.pc
  {
    SupportedStep(w, s);
    FetchWrappedIsFetch(w.code, s.pc);
  }

  lemma RunFromHalt(w: World, s: VmState)
    requires !Stopped(s) && s.size + 10 < TWO32 && Fetch(w.code, s.pc).Halt?
    ensures Meets(w, Step(w, s), RunFrom(w, s)) && !Faults(w, s)
  {
    SupportedStep(w, s);
    FetchWrappedIsFetch(w.code, s.pc);
  }

  lemma RunFromUnsupported(w: World, s: VmState)
    requires !Stopped(s) && s.size + 10 < TWO32 && !Supported(Fetch(w.code, s.pc))
    ensures Meets(w, s, RunFrom(w, s))
  {
    FetchWrappedIsFetch(w.code, s.pc);
  }

  /** From any offset: the interpreter, n iterations later, is where the back end ended, with the
      same data up to `halted`. It is over exactly if the back end did not give up. */
  lemma {:induction false} BackendFollowsInterpreter(w: World, s: VmState) returns (n: nat)
    requires !s.data.halted && s.size + 10 < TWO32
    ensures Meets(w, Iterate(w, s, n), RunFrom(w, s)) && NoFaults(w, s, n)
    decreases s.size - s.pc
  {
    if Stopped(s) {
      n := 0;
    } else if !Supported(Fetch(w.code, s.pc)) {
      RunFromUnsupported(w, s);
      n := 0;
    } else if Fetch(w.code, s.pc).Halt? {
      RunFromHalt(w, s);
      n := 1;
      assert Iterate(w, s, 1) == Iterate(w, Step(w, s), 0);
    } else {
      RunFromSupported(w, s);
      n := BackendFollowsInterpreter(w, Step(w, s));
      n := n + 1;
    }
  }

  /** A back end started on a fresh VM ends where the interpreter's loop passes after n iterations,
      with its registers. That loop is over there, with the same data, if and only if the back end
      met no unsupported opcode; and then the result is that of the whole `vm_run`. */
  lemma BackendRefinesInterpreter(w: World, m: Machine) returns (n: nat)
    requires m.vm.pc == 0 && !m.vm.data.halted && m.vm.size + 10 < TWO32
    ensures var r, t := BackendRun(w, m.vm.data, 0, m.vm.size), Iterate(w, m.vm, n);
            t.data.regs == r.data.regs &&
            (r.stop == AtUnsupported ==> t.pc == r.at && !Supported(FetchWrapped(w.code, t.pc))) &&
            (Stopped(t) && t.data == r.data <==> r.stop != AtUnsupported) &&
            (r.stop != AtUnsupported ==> Returns(EngineOf(w), m, Enter(m).(vm := t)))
  {
    n := BackendFollowsInterpreter(w, m.vm);
    assert Enter(m).vm == m.vm;
    if BackendRun(w, m.vm.data, 0, m.vm.size).stop != AtUnsupported {
      FaultFreeRun(w, m, n);
    }
  }
}

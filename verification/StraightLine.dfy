/** Straight-line programs, given as instruction lists: when the generator compiles them, to which
    bytes, and what these compute. */
module StraightLine {
  import opened Words
  import opened Bytecode
  import opened Vm
  import opened Recovery
  import opened X86
  import opened Codegen
  import opened CompilerCorrect

  predicate Straight(prog: Program) {
    forall k :: 0 <= k < |prog| ==> InFragment(prog[k]) && !prog[k].Jmp?
  }

  /** What is emitted for the instructions of a list. */
  function EmittedBy(prog: Program): seq<byte> {
    if prog == [] then [] else Emit(prog[0]) + EmittedBy(prog[1..])
  }

  /** The list and a HALT behind it lie in the code from p on. */
  ghost predicate Loaded(code: Memory, p: int, prog: Program) {
    Holds(code, p, Assemble(prog)) && Fetch(code, p + |Assemble(prog)|) == Halt
  }

  lemma LoadedNext(code: Memory, p: int, prog: Program)
    requires Straight(prog) && prog != [] && Loaded(code, p, prog)
    ensures Fetch(code, p) == prog[0] && Loaded(code, p + Size(prog[0]), prog[1..])
    ensures |Assemble(prog)| == Size(prog[0]) + |Assemble(prog[1..])|
  {
    HoldsConcat(code, p, Encode(prog[0]), Assemble(prog[1..]));
    FetchInvertsEncode(code, p, prog[0]);
  }

  lemma StraightStep(code: Memory, g: Gen, i: Instr)
    requires i == Fetch(code, g.pc) && InFragment(i) && !i.Jmp?
    ensures GenStep(code, g) == Gen(g.pc + Size(i), g.out + Emit(i), Generating)
  {
    GeneratorStep(code, g, i);
  }

  /** The generator goes through the list as long as the buffer guard lets it. */
  lemma {:induction false} VisitsTheList(code: Memory, size: nat, g: Gen, prog: Program)
    requires Straight(prog) && Loaded(code, g.pc, prog) && g.status == Generating
    requires g.pc + |Assemble(prog)| < size && |g.out| + |EmittedBy(prog)| < BUFFER_SIZE - GUARD
    ensures Visits(code, size, g, |prog|)
    decreases |prog|
  {
    if prog != [] {
      LoadedNext(code, g.pc, prog);
      StraightStep(code, g, prog[0]);
      VisitsTheList(code, size, GenStep(code, g), prog[1..]);
    }
  }

  lemma {:induction false} EmitsTheList(code: Memory, size: nat, g: Gen, prog: Program)
    requires Straight(prog) && Loaded(code, g.pc, prog) && g.status == Generating
    requires Visits(code, size, g, |prog|)
    ensures Generate(code, size, g, |prog|) == Gen(g.pc + |Assemble(prog)|, g.out + EmittedBy(prog), Generating)
    decreases |prog|
  {
    if prog == [] {
      assert g.out + EmittedBy(prog) == g.out;
    } else {
      var rest, g' := prog[1..], GenStep(code, g);
      LoadedNext(code, g.pc, prog);
      StraightStep(code, g, prog[0]);
      VisitsStep(code, size, g, |prog|);
      EmitsTheList(code, size, g', rest);
      ConcatAssoc(g.out, Emit(prog[0]), EmittedBy(rest));
    }
  }

  lemma FitsCompiles(code: Memory, size: nat, prog: Program)
    requires Straight(prog) && Loaded(code, 0, prog) && |Assemble(prog)| < size
    requires |PROLOGUE| + |EmittedBy(prog)| < BUFFER_SIZE - GUARD
    ensures Compiles(code, size, |prog|)
  {
    VisitsTheList(code, size, START, prog);
    var r := ReachesEnd(code, size, START, prog, |Assemble(prog)|, EmittedBy(prog));
  }

  lemma ReachesEnd(code: Memory, size: nat, g: Gen, prog: Program, length: nat, emitted: seq<byte>) returns (r: Gen)
    requires Straight(prog) && Loaded(code, g.pc, prog) && g.status == Generating && Visits(code, size, g, |prog|)
    requires length == |Assemble(prog)| && emitted == EmittedBy(prog)
    requires g.pc + length < size && |g.out| + |emitted| < BUFFER_SIZE - GUARD
    ensures r == Generate(code, size, g, |prog|) && !GenOver(size, r) && Fetch(code, r.pc) == Halt
  {
    EmitsTheList(code, size, g, prog);
    r := Gen(g.pc + length, g.out + emitted, Generating);
    EndIsHalt(code, size, g, length, emitted);
  }

  lemma EndIsHalt(code: Memory, size: nat, g: Gen, length: nat, emitted: seq<byte>)
    requires g.pc + length < size && |g.out| + |emitted| < BUFFER_SIZE - GUARD && Fetch(code, g.pc + length) == Halt
    ensures var r := Gen(g.pc + length, g.out + emitted, Generating); !GenOver(size, r) && Fetch(code, r.pc) == Halt
  {
  }

  lemma CompilesFits(code: Memory, size: nat, prog: Program)
    requires Straight(prog) && Loaded(code, 0, prog) && Compiles(code, size, |prog|)
    ensures |PROLOGUE| + |EmittedBy(prog)| < BUFFER_SIZE - GUARD
  {
    EmitsTheList(code, size, START, prog);
  }

  /** A straight-line program of the fragment compiles if and only if what is emitted for it, prologue
      included, stays clear of the buffer guard. */
  lemma CompilesIffFits(code: Memory, size: nat, prog: Program)
    requires Straight(prog) && Loaded(code, 0, prog) && |Assemble(prog)| < size
    ensures Compiles(code, size, |prog|) <==> |PROLOGUE| + |EmittedBy(prog)| < BUFFER_SIZE - GUARD
  {
    var fits := |PROLOGUE| + |EmittedBy(prog)| < BUFFER_SIZE - GUARD;
    if fits {
      FitsCompiles(code, size, prog);
    } else if Compiles(code, size, |prog|) {
      CompilesFits(code, size, prog);
    }
  }

  /** And it compiles to the prologue, what is emitted for its instructions, and the epilogue. */
  lemma CompiledList(code: Memory, size: nat, prog: Program)
    requires Straight(prog) && Loaded(code, 0, prog) && Compiles(code, size, |prog|)
    ensures CompiledCode(code, size, |prog|) == PROLOGUE + EmittedBy(prog) + EPILOGUE
  {
    EmitsTheList(code, size, START, prog);
    GenerateLast(code, size, START, |prog|);
  }

  /** A list that does not fit is cut off at the guard: the loop ends before its HALT, in the same
      status as on success, and no epilogue is emitted. */
  lemma {:induction false} CutOffAtGuard(code: Memory, size: nat, g: Gen, prog: Program) returns (n: nat)
    requires Straight(prog) && Loaded(code, g.pc, prog) && g.status == Generating
    requires g.pc + |Assemble(prog)| < size && |g.out| + |EmittedBy(prog)| >= BUFFER_SIZE - GUARD
    ensures var r := Generate(code, size, g, n);
            GenOver(size, r) && r.status == Generating && r.out <= g.out + EmittedBy(prog)
    decreases |prog|
  {
    if GenOver(size, g) {
      n := 0;
    } else {
      var g' := GenStep(code, g);
      LoadedNext(code, g.pc, prog);
      StraightStep(code, g, prog[0]);
      ConcatAssoc(g.out, Emit(prog[0]), EmittedBy(prog[1..]));
      var k := CutOffAtGuard(code, size, g', prog[1..]);
      n := k + 1;
    }
  }

  /** What the generator leaves for a straight-line list. It reports success in either case, but what it
      emits ends with an epilogue if and only if the list fits. */
  lemma FinishedIffFits(code: Memory, size: nat, prog: Program) returns (n: nat)
    requires Straight(prog) && Loaded(code, 0, prog) && |Assemble(prog)| < size
    ensures var r := Generate(code, size, START, n);
            GenOver(size, r) && r.status != Rejected &&
            (r.status == Finished <==> |PROLOGUE| + |EmittedBy(prog)| < BUFFER_SIZE - GUARD) &&
            if r.status == Finished then r.out == PROLOGUE + EmittedBy(prog) + EPILOGUE
            else r.out <= PROLOGUE + EmittedBy(prog)
  {
    var fits := |PROLOGUE| + |EmittedBy(prog)| < BUFFER_SIZE - GUARD;
    if fits {
      n := |prog| + 1;
      FitsCompiles(code, size, prog);
      CompiledList(code, size, prog);
      EmitsTheList(code, size, START, prog);
      GenerateLast(code, size, START, |prog|);
    } else {
      n := CutOffAtGuard(code, size, START, prog);
    }
  }

  lemma {:induction false} ListAllVisited(code: Memory, g: Gen, prog: Program, kind: Instr -> bool)
    requires Straight(prog) && Loaded(code, g.pc, prog)
    requires forall i :: 0 <= i < |prog| ==> kind(prog[i])
    ensures AllVisited(code, g, |prog|, kind)
    decreases |prog|
  {
    if prog != [] {
      LoadedNext(code, g.pc, prog);
      StraightStep(code, g, prog[0]);
      ListAllVisited(code, GenStep(code, g), prog[1..], kind);
    }
  }

  /** Bytecode is at most ten times as long as what is emitted for it, if something is for each
      instruction. */
  lemma {:induction false} AssembledLength(prog: Program)
    requires forall i :: 0 <= i < |prog| ==> Emit(prog[i]) != []
    ensures |Assemble(prog)| <= 10 * |EmittedBy(prog)|
  {
    if prog != [] {
      AssembledLength(prog[1..]);
    }
  }

  /** The VM has a list and a HALT as its code, and the bytes of the list are about to be called. */
  ghost predicate Ready(w: World, m: Machine, prog: Program, c: Memory, x0: Cpu) {
    m.vm.pc == 0 && Loaded(w.code, 0, prog) && m.vm.size == |Assemble(prog)| + 1 &&
    |PROLOGUE| + |EmittedBy(prog)| < BUFFER_SIZE - GUARD &&
    Holds(c, 0, PROLOGUE + EmittedBy(prog) + EPILOGUE) && Entered(x0)
  }

  lemma ReadyCompiles(w: World, m: Machine, prog: Program, c: Memory, x0: Cpu, kind: Instr -> bool)
    requires Straight(prog) && Ready(w, m, prog, c, x0)
    requires forall i :: 0 <= i < |prog| ==> kind(prog[i]) && Emit(prog[i]) != []
    ensures m.vm.size + 10 < TWO32 && Compiles(w.code, m.vm.size, |prog|) && AllVisited(w.code, START, |prog|, kind)
    ensures Holds(c, 0, CompiledCode(w.code, m.vm.size, |prog|))
  {
    AssembledLength(prog);
    FitsCompiles(w.code, m.vm.size, prog);
    CompiledList(w.code, m.vm.size, prog);
    ListAllVisited(w.code, START, prog, kind);
  }

  /** NOP, LOAD_IMM to r0..r3 and ADD, SUB, MUL on good low pairs. */
  predicate LowList(prog: Program) {
    forall i :: 0 <= i < |prog| ==> LowInstr(prog[i]) && !prog[i].Jmp?
  }

  /** NOP, LOAD_IMM, ADD, SUB and MUL on r4..r15. */
  predicate HighList(prog: Program) {
    forall i :: 0 <= i < |prog| ==> HighInstr(prog[i]) && !prog[i].Jmp?
  }

  /** Every list on r0..r3 with good pairs, ended by HALT, that fits the buffer: calling the emitted
      bytes leaves RAX, RBX, RCX and RDX equal, mod 2^32, to the registers `vm_run` computes. */
  lemma LowListsCorrect(w: World, m: Machine, prog: Program, c: Memory, x0: Cpu) returns (k: nat, r: Machine)
    requires LowList(prog) && Ready(w, m, prog, c, x0)
    requires forall v :: v in LOW ==> Low(x0.regs[HostReg(v)]) == m.vm.data.regs[v]
    ensures Returns(EngineOf(w), m, r)
    ensures var y := CpuRun(Running(c), x0, k);
            y.exit == Some(Load64(x0.mem, x0.regs[RSP])) &&
            forall v :: v in LOW ==> Low(y.regs[HostReg(v)]) == r.vm.data.regs[v]
  {
    ReadyCompiles(w, m, prog, c, x0, i => LowInstr(i));
    k, r := LowProgramsCorrect(w, m, |prog|, c, x0);
  }

  /** Every list on r4..r15, likewise: the slots hold the registers `vm_run` computes, and of the low
      registers only r0 is lost. */
  lemma HighListsCorrect(w: World, m: Machine, prog: Program, c: Memory, x0: Cpu) returns (k: nat, r: Machine)
    requires HighList(prog) && Ready(w, m, prog, c, x0)
    requires MirrorsForCaller({1, 2, 3} + HIGH, m.vm.data.regs, x0, x0.regs[RSP])
    ensures Returns(EngineOf(w), m, r)
    ensures var y := CpuRun(Running(c), x0, k);
            y.exit == Some(Load64(x0.mem, x0.regs[RSP])) &&
            MirrorsForCaller({1, 2, 3} + HIGH, r.vm.data.regs, y, x0.regs[RSP])
  {
    ReadyCompiles(w, m, prog, c, x0, i => HighInstr(i));
    k, r := HighProgramsCorrect(w, m, |prog|, c, x0);
  }
}

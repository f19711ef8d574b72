/** Correctness of the x86-64 code generator: the emitted bytes, decoded and run on the processor
    model, compute what the interpreter computes, register by register. */
module CompilerCorrect {
  import opened Words
  import opened Bytecode
  import opened Vm
  import opened Recovery
  import opened X86
  import opened Codegen

  // ----- where the emitted code keeps a VM register -----

  const FRAME := 0x400

  /** VM registers 0 to 3 live in RAX, RBX, RCX and RDX. */
  function HostReg(r: nat): Gpr
    requires r < 4
  {
    if r == 0 then RAX else if r == 1 then RBX else if r == 2 then RCX else RDX
  }

  /** The low 32 bits of a VM register's home: a processor register, or the slot at [rbp-8*r]. */
  function HostValue(x: Cpu, r: nat): u32
    requires r < 16
  {
    if r < 4 then Low(x.regs[HostReg(r)]) else Word(x.mem, x.regs[RBP] - 8 * r)
  }

  /** The homes of the registers in `known` hold the VM's values. */
  ghost predicate Mirrors(known: set<nat>, regs: RegFile, x: Cpu) {
    forall r :: r in known ==> r < 16 && HostValue(x, r) == regs[r]
  }

  /** A call with room for the frame below the return address. */
  predicate Entered(x0: Cpu) {
    x0.rip == 0 && x0.exit.None? && FRAME + 8 <= x0.regs[RSP] < TWO64 - 16
  }

  /** Between prologue and epilogue of a call that began in x0. */
  ghost predicate InFrame(x0: Cpu, x: Cpu) {
    var sp: int := x0.regs[RSP];
    x.exit.None? && x.regs[RBP] == sp - 8 && x.regs[RSP] == sp - 8 - FRAME &&
    Load64(x.mem, sp - 8) == x0.regs[RBP] &&
    forall a :: a < sp - 8 - FRAME || a >= sp ==> x.mem(a) == x0.mem(a)
  }

  // ----- the fragment, and what is known after each instruction -----

  /** The pairs for which the ModRM tables name the right two registers. */
  predicate GoodPair(op: AluOp, reg: nat, reg2: nat) {
    match op
    case Add => (reg, reg2) in {(0, 0), (0, 1), (0, 2), (1, 2), (2, 0), (3, 0)}
    case Sub => (reg, reg2) in {(0, 0), (0, 1), (0, 2), (1, 2), (2, 0), (3, 0)}
    case Mul => (reg, reg2) in {(0, 0), (0, 1), (0, 2), (1, 0), (1, 2), (2, 1), (3, 1), (3, 2)}
    case Div => false
  }

  /** The registers the emitted instruction really names. */
  function EmittedDst(op: AluOp, reg: byte, reg2: byte): Gpr {
    if op == Mul then Reg(MulModRM(reg, reg2)) else Rm(AddModRM(reg, reg2))
  }

  function EmittedSrc(op: AluOp, reg: byte, reg2: byte): Gpr {
    if op == Mul then Rm(MulModRM(reg, reg2)) else Reg(AddModRM(reg, reg2))
  }

  /** The VM register that lives in the processor register the emitted instruction writes. */
  function Victim(op: AluOp, reg: byte, reg2: byte): nat {
    var g := EmittedDst(op, reg, reg2);
    if g == RAX then 0 else if g == RBX then 1 else if g == RCX then 2 else 3
  }

  /** Instructions the emitted code can be trusted around: not the ones that emit a division, follow
      a conditional jump blindly, end the run early, or address memory outside the frame. */
  predicate InFragment(i: Instr) {
    match i
    case Nop => true
    case LoadImm(reg, _) => reg <= 128
    case Alu(op, reg, reg2) =>
      op != Div && ((reg < 4 && reg2 < 4) || (1 <= reg <= 128 && reg2 <= 128))
    case Jmp(_) => true
    case Load(_, _) => true
    case Store(_, _) => true
    case Syscall(id, _, _) => id != 1
    case _ => false
  }

  /** The registers whose homes are right after an instruction, given those that were before. */
  function Transfer(i: Instr, known: set<nat>): set<nat> {
    match i
    case LoadImm(reg, _) => if reg < 16 then known + {reg} else known
    case Alu(op, reg, reg2) =>
      if reg < 4 && reg2 < 4 then
        if GoodPair(op, reg, reg2) && reg in known && reg2 in known then known
        else known - {reg, Victim(op, reg, reg2)}
      else if 4 <= reg < 16 && 4 <= reg2 < 16 && reg in known && reg2 in known then known - {0}
      else known - {0, reg}
    case Load(reg, _) => known - {reg}
    case Syscall(id, arg0, _) => if id == 2 then known - {arg0} else known
    case _ => known
  }

  /** Number of processor instructions emitted. */
  function HostSteps(i: Instr): nat {
    match i
    case Nop => 1
    case LoadImm(_, _) => 1
    case Alu(_, reg, reg2) => if reg < 4 && reg2 < 4 then 1 else 3
    case _ => 0
  }

  /** Number of bytes emitted. */
  function HostLength(i: Instr): nat {
    match i
    case Nop => 1
    case LoadImm(reg, _) => if reg < 4 then 5 else 10
    case Alu(op, reg, reg2) =>
      if reg < 4 && reg2 < 4 then (if op == Mul then 4 else 3) else (if op == Mul then 22 else 21)
    case _ => 0
  }

  lemma EmitLength(i: Instr)
    requires InFragment(i)
    ensures |Emit(i)| == HostLength(i)
  {
  }

  // ----- decoding what was emitted -----

  lemma SlotDispSigned(reg: byte)
    ensures Signed32(SlotDisp(reg)) == -8 * reg
  {
    if reg > 0 {
      ModShift(-8 * reg + TWO32, -1, TWO32);
      WrapSmall(-8 * reg + TWO32);
    }
  }

  lemma DecodeMovImm(c: Memory, p: int, reg: byte, imm: u32)
    requires reg < 4 && Holds(c, p, [MovOpcode(reg)] + Le4(imm))
    ensures Decode(c, p) == Decoded(MovImm(HostReg(reg), imm), 5)
  {
    HoldsOpWord(c, p, MovOpcode(reg), imm);
  }

  lemma SlotAt(c: Memory, p: int, opcode: seq<byte>, reg: byte)
    requires Holds(c, p, opcode + Slot(reg))
    ensures Holds(c, p, opcode) && Signed32(Word(c, p + |opcode|)) == -8 * reg
  {
    HoldsConcat(c, p, opcode, Slot(reg));
    Le4Word(c, p + |opcode|, SlotDisp(reg));
    SlotDispSigned(reg);
  }

  lemma DecodeStoreImm(c: Memory, p: int, reg: byte, imm: u32)
    requires Holds(c, p, [0xC7, 0x85] + Slot(reg) + Le4(imm))
    ensures Decode(c, p) == Decoded(StoreImm(RBP, -8 * reg, imm), 10)
  {
    HoldsConcat(c, p, [0xC7, 0x85] + Slot(reg), Le4(imm));
    SlotAt(c, p, [0xC7, 0x85], reg);
    HoldsTwo(c, p, 0xC7, 0x85);
    Le4Word(c, p + 6, imm);
    DecodeRbpStoreImm(c, p);
  }

  /** The low form of ADD, SUB and MUL is one instruction on the registers its ModRM byte names. */
  lemma DecodeLowAlu(c: Memory, p: int, op: AluOp, reg: byte, reg2: byte)
    requires reg < 4 && reg2 < 4 && op != Div && Holds(c, p, EmitAlu(op, reg, reg2))
    ensures Decode(c, p) ==
            Decoded(AluReg(op, EmittedDst(op, reg, reg2), EmittedSrc(op, reg, reg2)), |EmitAlu(op, reg, reg2)|)
  {
    match op
    case Add => HoldsThree(c, p, 0x48, 0x01, AddModRM(reg, reg2));
    case Sub => HoldsThree(c, p, 0x48, 0x29, AddModRM(reg, reg2));
    case Mul =>
      HoldsFour(c, p, 0x48, 0x0F, 0xAF, MulModRM(reg, reg2));
  }

  lemma DecodeLoadSlot(c: Memory, p: int, reg: byte)
    requires Holds(c, p, LoadSlot(reg))
    ensures Decode(c, p) == Decoded(LoadMem(RAX, RBP, -8 * reg), 7)
  {
    SlotAt(c, p, [0x48, 0x8B, 0x85], reg);
    HoldsThree(c, p, 0x48, 0x8B, 0x85);
    DecodeRbpForm(c, p, 0x8B);
  }

  lemma DecodeStoreSlot(c: Memory, p: int, reg: byte)
    requires Holds(c, p, StoreSlot(reg))
    ensures Decode(c, p) == Decoded(StoreMem(RBP, -8 * reg, RAX), 7)
  {
    SlotAt(c, p, [0x48, 0x89, 0x85], reg);
    HoldsThree(c, p, 0x48, 0x89, 0x85);
    DecodeRbpForm(c, p, 0x89);
  }

  lemma DecodeSlotOp(c: Memory, p: int, op: AluOp, reg: byte)
    requires op != Div && Holds(c, p, SlotOpcode(op) + Slot(reg))
    ensures Decode(c, p) == Decoded(AluMem(op, RAX, RBP, -8 * reg), |SlotOpcode(op)| + 4)
  {
    SlotAt(c, p, SlotOpcode(op), reg);
    match op
    case Add =>
      HoldsThree(c, p, 0x48, 0x03, 0x85);
      DecodeRbpForm(c, p, 0x03);
    case Sub =>
      HoldsThree(c, p, 0x48, 0x2B, 0x85);
      DecodeRbpForm(c, p, 0x2B);
    case Mul =>
      HoldsFour(c, p, 0x48, 0x0F, 0xAF, 0x85);
      DecodeRbpImul(c, p);
  }

  // ----- the ModRM tables -----

  /** The table of add and sub: which ModRM bytes name the registers meant. */
  lemma AddTable(reg: byte, reg2: byte)
    requires reg < 4 && reg2 < 4
    ensures GoodPair(Add, reg, reg2) <==>
            Rm(AddModRM(reg, reg2)) == HostReg(reg) && Reg(AddModRM(reg, reg2)) == HostReg(reg2)
    ensures Rm(AddModRM(reg, reg2)) < 4
  {
  }

  /** The table of imul. */
  lemma MulTable(reg: byte, reg2: byte)
    requires reg < 4 && reg2 < 4
    ensures GoodPair(Mul, reg, reg2) <==>
            Reg(MulModRM(reg, reg2)) == HostReg(reg) && Rm(MulModRM(reg, reg2)) == HostReg(reg2)
    ensures Reg(MulModRM(reg, reg2)) < 4
  {
  }

  /** A pair is good exactly if the emitted instruction names the homes of its two registers. */
  lemma GoodPairNamesRegisters(op: AluOp, reg: byte, reg2: byte)
    requires reg < 4 && reg2 < 4 && op != Div
    ensures GoodPair(op, reg, reg2) <==>
            EmittedDst(op, reg, reg2) == HostReg(reg) && EmittedSrc(op, reg, reg2) == HostReg(reg2)
    ensures HostReg(Victim(op, reg, reg2)) == EmittedDst(op, reg, reg2)
    ensures GoodPair(op, reg, reg2) ==> Victim(op, reg, reg2) == reg
  {
    if op == Mul {
      MulTable(reg, reg2);
    } else {
      AddTable(reg, reg2);
      assert GoodPair(op, reg, reg2) == GoodPair(Add, reg, reg2);
    }
    VictimHome(op, reg, reg2);
  }

  lemma VictimHome(op: AluOp, reg: byte, reg2: byte)
    requires EmittedDst(op, reg, reg2) < 4
    ensures HostReg(Victim(op, reg, reg2)) == EmittedDst(op, reg, reg2)
    ensures forall r: nat :: r < 4 && HostReg(r) == EmittedDst(op, reg, reg2) ==> Victim(op, reg, reg2) == r
  {
  }

  // ----- one processor instruction -----

  lemma HostRegsDiffer(r: nat, v: nat)
    requires r < 4 && v < 4 && r != v
    ensures HostReg(r) != HostReg(v)
  {
  }

  /** Writing the home of one of the VM registers 0 to 3 leaves every other home alone. */
  lemma HomesKept(x: Cpu, y: Cpu, v: nat, value: u64, r: nat)
    requires v < 4 && r < 16 && r != v
    requires y.regs == x.regs[HostReg(v) := value] && y.mem == x.mem
    ensures HostValue(y, r) == HostValue(x, r)
  {
    if r < 4 {
      HostRegsDiffer(r, v);
    }
  }

  /** A store into the slot of `k` leaves every other home alone; the slots do not overlap. */
  lemma SlotsKept(x: Cpu, y: Cpu, k: nat, value: u64, r: nat)
    requires r < 16
    requires y.regs == x.regs && y.mem == Store64(x.mem, x.regs[RBP] - 8 * k, value)
    ensures r != k ==> HostValue(y, r) == HostValue(x, r)
    ensures r == k && r >= 4 ==> HostValue(y, r) == Low(value)
  {
    Store64ThenWord(x.mem, x.regs[RBP] - 8 * k, value, x.regs[RBP] - 8 * r);
  }

  /** Whatever is written inside the frame, the call can still return. */
  lemma FrameKept(x0: Cpu, x: Cpu, y: Cpu)
    requires InFrame(x0, x) && y == x.(mem := y.mem, rip := y.rip)
    requires var bp: int := x.regs[RBP];
             Load64(y.mem, bp) == Load64(x.mem, bp) &&
             forall a :: a < bp - FRAME || a >= bp ==> y.mem(a) == x.mem(a)
    ensures InFrame(x0, y)
  {
  }

  /** A store into the slots 1 to 128 stays inside the frame. */
  lemma StoreInFrame(x0: Cpu, x: Cpu, y: Cpu, k: nat, value: u64)
    requires InFrame(x0, x) && 1 <= k <= 128
    requires y == x.(mem := Store64(x.mem, x.regs[RBP] - 8 * k, value), rip := y.rip)
    ensures InFrame(x0, y)
  {
    var bp: int := x.regs[RBP];
    forall a | a < bp - FRAME || a >= bp ensures y.mem(a) == x.mem(a) {
      StoreIsLocal(x.mem, bp - 8 * k, value, a);
    }
    Store64ThenWord(x.mem, bp - 8 * k, value, bp);
    Store64ThenWord(x.mem, bp - 8 * k, value, bp + 4);
    FrameKept(x0, x, y);
  }

  lemma SlotAddress(x0: Cpu, x: Cpu, k: nat)
    requires Entered(x0) && InFrame(x0, x) && k <= 128
    ensures Address(x, RBP, -8 * k) == x.regs[RBP] - 8 * k
  {
  }

  // ----- one VM instruction -----

  /** The processor finds at p the processor instructions meant for `i`. */
  ghost predicate Decodes(cpu: Processor, p: int, i: Instr) {
    match i
    case Nop => cpu.decode(p) == Decoded(XNop, 1)
    case LoadImm(reg, imm) =>
      cpu.decode(p) == if reg < 4 then Decoded(MovImm(HostReg(reg), imm), 5)
        else Decoded(StoreImm(RBP, -8 * reg, imm), 10)
    case Alu(op, reg, reg2) =>
      if reg < 4 && reg2 < 4 then
        cpu.decode(p) == Decoded(AluReg(op, EmittedDst(op, reg, reg2), EmittedSrc(op, reg, reg2)), HostLength(i))
      else
        var n := HostLength(i) - 14;
        cpu.decode(p) == Decoded(LoadMem(RAX, RBP, -8 * reg), 7) &&
        cpu.decode(p + 7) == Decoded(AluMem(op, RAX, RBP, -8 * reg2), n) &&
        cpu.decode(p + 7 + n) == Decoded(StoreMem(RBP, -8 * reg, RAX), 7)
    case _ => true
  }

  lemma SlotAluDecodes(c: Memory, p: int, op: AluOp, reg: byte, reg2: byte)
    requires !(reg < 4 && reg2 < 4) && op != Div && Holds(c, p, EmitAlu(op, reg, reg2))
    ensures Decode(c, p) == Decoded(LoadMem(RAX, RBP, -8 * reg), 7)
    ensures var n := |SlotOpcode(op)| + 4;
            Decode(c, p + 7) == Decoded(AluMem(op, RAX, RBP, -8 * reg2), n) &&
            Decode(c, p + 7 + n) == Decoded(StoreMem(RBP, -8 * reg, RAX), 7)
  {
    HoldsConcat(c, p, LoadSlot(reg) + (SlotOpcode(op) + Slot(reg2)), StoreSlot(reg));
    HoldsConcat(c, p, LoadSlot(reg), SlotOpcode(op) + Slot(reg2));
    DecodeLoadSlot(c, p, reg);
    DecodeSlotOp(c, p + 7, op, reg2);
    DecodeStoreSlot(c, p + 7 + |SlotOpcode(op)| + 4, reg);
  }

  /** The bytes emitted for an instruction decode to the processor instructions meant. */
  lemma EmissionDecodes(c: Memory, p: int, i: Instr)
    requires InFragment(i) && Holds(c, p, Emit(i))
    ensures Decodes(Running(c), p, i)
  {
    match i
    case Nop => HoldsOne(c, p, 0x90);
    case LoadImm(reg, imm) =>
      if reg < 4 {
        DecodeMovImm(c, p, reg, imm);
      } else {
        DecodeStoreImm(c, p, reg, imm);
      }
    case Alu(op, reg, reg2) =>
      if reg < 4 && reg2 < 4 {
        DecodeLowAlu(c, p, op, reg, reg2);
      } else {
        SlotAluDecodes(c, p, op, reg, reg2);
      }
    case _ =>
  }

  /** Low halves of results depend on low halves of operands, as 32-bit arithmetic. */
  ghost predicate LowExact(cpu: Processor) {
    forall op: AluOp, x: u64, y: u64 :: op != Div ==> Low(cpu.alu(op, x, y)) == AluResult(op, Low(x), Low(y))
  }

  lemma RunningIsLowExact(c: Memory)
    ensures LowExact(Running(c))
  {
    forall op: AluOp, x: u64, y: u64 | op != Div
      ensures Low(Running(c).alu(op, x, y)) == AluResult(op, Low(x), Low(y))
    {
      LowOfWide(op, x, y);
    }
  }

  /** The goal for one instruction: the code emitted for `i` has been run, the call is still in its
      frame, and every register that Transfer vouches for is at home. */
  ghost predicate Emulated(x0: Cpu, x: Cpu, y: Cpu, i: Instr, known: set<nat>, d: Data, time: nat -> u32) {
    y.rip == x.rip + HostLength(i) && InFrame(x0, y) && Mirrors(Transfer(i, known), Effect(i, d, time).regs, y)
  }

  lemma LoadImmLow(cpu: Processor, x0: Cpu, x: Cpu, reg: byte, imm: u32, known: set<nat>, d: Data, time: nat -> u32)
    requires reg < 4 && InFrame(x0, x) && Mirrors(known, d.regs, x) && Decodes(cpu, x.rip, LoadImm(reg, imm))
    ensures Emulated(x0, x, CpuStep(cpu, x), LoadImm(reg, imm), known, d, time)
  {
    var y := CpuStep(cpu, x);
    WrapSmall(imm);
    forall r | r in known && r != reg ensures r < 16 && HostValue(y, r) == d.regs[r] {
      HomesKept(x, y, reg, imm, r);
    }
  }

  lemma StoreImmSlot(cpu: Processor, x0: Cpu, x: Cpu, reg: byte, imm: u32)
    requires 4 <= reg <= 128 && Entered(x0) && InFrame(x0, x) && Decodes(cpu, x.rip, LoadImm(reg, imm))
    ensures CpuStep(cpu, x) == x.(mem := Store32(x.mem, x.regs[RBP] - 8 * reg, imm), rip := x.rip + 10)
  {
    SlotAddress(x0, x, reg);
  }

  lemma ImmSlotsKept(x: Cpu, y: Cpu, k: nat, imm: u32, r: nat)
    requires r < 16 && k >= 4
    requires y.regs == x.regs && y.mem == Store32(x.mem, x.regs[RBP] - 8 * k, imm)
    ensures HostValue(y, r) == if r == k then imm else HostValue(x, r)
  {
    StoreThenWord(x.mem, x.regs[RBP] - 8 * k, imm, x.regs[RBP] - 8 * r);
  }

  lemma ImmInFrame(x0: Cpu, x: Cpu, y: Cpu, k: nat, imm: u32)
    requires InFrame(x0, x) && 1 <= k <= 128
    requires y == x.(mem := Store32(x.mem, x.regs[RBP] - 8 * k, imm), rip := y.rip)
    ensures InFrame(x0, y)
  {
    var bp: int := x.regs[RBP];
    StoreThenWord(x.mem, bp - 8 * k, imm, bp);
    StoreThenWord(x.mem, bp - 8 * k, imm, bp + 4);
    FrameKept(x0, x, y);
  }

  lemma LoadImmSlot(cpu: Processor, x0: Cpu, x: Cpu, reg: byte, imm: u32, known: set<nat>, d: Data, time: nat -> u32)
    requires 4 <= reg <= 128 && Entered(x0) && InFrame(x0, x) && Mirrors(known, d.regs, x)
    requires Decodes(cpu, x.rip, LoadImm(reg, imm))
    ensures Emulated(x0, x, CpuStep(cpu, x), LoadImm(reg, imm), known, d, time)
  {
    StoreImmSlot(cpu, x0, x, reg, imm);
    var y := CpuStep(cpu, x);
    forall r | 0 <= r < 16 ensures HostValue(y, r) == if r == reg then imm else HostValue(x, r) {
      ImmSlotsKept(x, y, reg, imm, r);
    }
    ImmInFrame(x0, x, y, reg, imm);
  }

  /** A low ALU instruction writes the home of the victim and nothing else. */
  lemma LowAluStep(cpu: Processor, x: Cpu, op: AluOp, reg: byte, reg2: byte)
    requires reg < 4 && reg2 < 4 && op != Div && x.exit.None? && Decodes(cpu, x.rip, Alu(op, reg, reg2))
    ensures var v := cpu.alu(op, x.regs[EmittedDst(op, reg, reg2)], x.regs[EmittedSrc(op, reg, reg2)]);
            CpuStep(cpu, x) ==
              x.(regs := x.regs[HostReg(Victim(op, reg, reg2)) := v], rip := x.rip + HostLength(Alu(op, reg, reg2)))
  {
    GoodPairNamesRegisters(op, reg, reg2);
  }

  lemma LowAluRegister(cpu: Processor, x: Cpu, y: Cpu, op: AluOp, reg: byte, reg2: byte, known: set<nat>, d: Data,
          time: nat -> u32, r: nat)
    requires LowExact(cpu)
    requires reg < 4 && reg2 < 4 && op != Div && Mirrors(known, d.regs, x)
    requires var v := cpu.alu(op, x.regs[EmittedDst(op, reg, reg2)], x.regs[EmittedSrc(op, reg, reg2)]);
             y.regs == x.regs[HostReg(Victim(op, reg, reg2)) := v] && y.mem == x.mem
    requires r in Transfer(Alu(op, reg, reg2), known)
    ensures r < 16 && HostValue(y, r) == Effect(Alu(op, reg, reg2), d, time).regs[r]
  {
    var v := Victim(op, reg, reg2);
    GoodPairNamesRegisters(op, reg, reg2);
    if r != v {
      HomesKept(x, y, v, y.regs[HostReg(v)], r);
    } else {
      assert HostValue(x, reg) == d.regs[reg] && HostValue(x, reg2) == d.regs[reg2];
    }
  }

  lemma AluLow(cpu: Processor, x0: Cpu, x: Cpu, op: AluOp, reg: byte, reg2: byte, known: set<nat>, d: Data,
          time: nat -> u32)
    requires LowExact(cpu)
    requires reg < 4 && reg2 < 4 && op != Div && InFrame(x0, x) && Mirrors(known, d.regs, x)
    requires Decodes(cpu, x.rip, Alu(op, reg, reg2))
    ensures Emulated(x0, x, CpuStep(cpu, x), Alu(op, reg, reg2), known, d, time)
  {
    LowAluStep(cpu, x, op, reg, reg2);
    forall r | r in Transfer(Alu(op, reg, reg2), known)
      ensures r < 16 && HostValue(CpuStep(cpu, x), r) == Effect(Alu(op, reg, reg2), d, time).regs[r]
    {
      LowAluRegister(cpu, x, CpuStep(cpu, x), op, reg, reg2, known, d, time, r);
    }
  }

  /** The one instruction emitted for a low pair leaves the right value in the register meant. */
  predicate RightResult(cpu: Processor, op: AluOp, reg: byte, reg2: byte, x: Cpu)
    requires reg < 4 && reg2 < 4 && op != Div
  {
    Low(CpuStep(cpu, x).regs[HostReg(reg)]) == AluResult(op, Low(x.regs[HostReg(reg)]), Low(x.regs[HostReg(reg2)]))
  }

  /** A state on which every wrong choice of registers shows: all ones, but two in `r`. */
  function Telltale(p: int, r: Gpr): Cpu {
    Cpu([1, 1, 1, 1, 1, 1, 1, 1][r := 2], p, a => 0, None)
  }

  lemma GoodPairIsRight(cpu: Processor, op: AluOp, reg: byte, reg2: byte, x: Cpu)
    requires LowExact(cpu) && reg < 4 && reg2 < 4 && op != Div && x.exit.None? &&
             Decodes(cpu, x.rip, Alu(op, reg, reg2))
    requires GoodPair(op, reg, reg2)
    ensures RightResult(cpu, op, reg, reg2, x)
  {
    GoodPairNamesRegisters(op, reg, reg2);
    LowAluStep(cpu, x, op, reg, reg2);
  }

  lemma TelltaleDiffers(op: AluOp, a: u32)
    requires op != Div && 1 <= a <= 2
    ensures AluResult(op, a, 2) != a
    ensures AluResult(op, a, 1) != AluResult(op, a, 2)
  {
    if a == 1 {
      assert AluResult(op, 1, 2) != 1 && AluResult(op, 1, 1) != AluResult(op, 1, 2);
    } else {
      assert AluResult(op, 2, 2) != 2 && AluResult(op, 2, 1) != AluResult(op, 2, 2);
    }
  }

  lemma LowOfSmall(a: u64)
    requires a < TWO32
    ensures Low(a) == a
  {
  }

  lemma SmallExact(cpu: Processor, op: AluOp, a: u64, b: u64)
    requires LowExact(cpu) && op != Div && a < TWO32 && b < TWO32
    ensures Low(cpu.alu(op, a, b)) == AluResult(op, a, b)
  {
    LowOfSmall(a);
    LowOfSmall(b);
  }

  lemma TelltaleShows(cpu: Processor, op: AluOp, a: u64)
    requires LowExact(cpu) && op != Div && 1 <= a <= 2
    ensures Low(a) == a && Low(2) == 2
    ensures Low(a) != AluResult(op, a, 2) && Low(cpu.alu(op, a, 1)) != AluResult(op, a, 2)
  {
    LowOfSmall(a);
    LowOfSmall(2);
    TelltaleDiffers(op, a);
    SmallExact(cpu, op, a, 1);
  }

  /** With the wrong registers, the register meant keeps its value or is combined with a 1. */
  lemma WrongRegisters(cpu: Processor, op: AluOp, x: Cpu, y: Cpu, dst: Gpr, src: Gpr, r: Gpr, r2: Gpr) returns (a: u64)
    requires dst != r || src != r2
    requires x.regs == Telltale(x.rip, r2).regs && y.regs == x.regs[dst := cpu.alu(op, x.regs[dst], x.regs[src])]
    ensures x.regs[r] == a && 1 <= a <= 2 && x.regs[r2] == 2
    ensures y.regs[r] == a || y.regs[r] == cpu.alu(op, a, 1)
  {
    a := x.regs[r];
  }

  lemma BadPairIsWrong(cpu: Processor, op: AluOp, reg: byte, reg2: byte, x: Cpu)
    requires LowExact(cpu) && reg < 4 && reg2 < 4 && op != Div && Decodes(cpu, x.rip, Alu(op, reg, reg2))
    requires !GoodPair(op, reg, reg2) && x == Telltale(x.rip, HostReg(reg2))
    ensures !RightResult(cpu, op, reg, reg2, x)
  {
    GoodPairNamesRegisters(op, reg, reg2);
    LowAluStep(cpu, x, op, reg, reg2);
    var a := WrongRegisters(cpu, op, x, CpuStep(cpu, x), EmittedDst(op, reg, reg2), EmittedSrc(op, reg, reg2),
      HostReg(reg), HostReg(reg2));
    TelltaleShows(cpu, op, a);
  }

  /** The exact extent of the ModRM tables: over all processor states, the code emitted for a low
      pair computes what the interpreter does if and only if the pair is a good one. */
  lemma PairRightIffGood(c: Memory, p: int, op: AluOp, reg: byte, reg2: byte)
    requires reg < 4 && reg2 < 4 && op != Div && Holds(c, p, EmitAlu(op, reg, reg2))
    ensures GoodPair(op, reg, reg2) <==>
            forall x: Cpu :: x.rip == p && x.exit.None? ==> RightResult(Running(c), op, reg, reg2, x)
  {
    var cpu := Running(c);
    RunningIsLowExact(c);
    EmissionDecodes(c, p, Alu(op, reg, reg2));
    if GoodPair(op, reg, reg2) {
      forall x: Cpu | x.rip == p && x.exit.None? ensures RightResult(cpu, op, reg, reg2, x) {
        GoodPairIsRight(cpu, op, reg, reg2, x);
      }
    } else {
      BadPairIsWrong(cpu, op, reg, reg2, Telltale(p, HostReg(reg2)));
    }
  }

  /** RAX after the arithmetic of an operation on slots. */
  function SlotResult(cpu: Processor, x: Cpu, op: AluOp, reg: byte, reg2: byte): u64 {
    cpu.alu(op, Load64(x.mem, x.regs[RBP] - 8 * reg), Load64(x.mem, x.regs[RBP] - 8 * reg2))
  }

  lemma StepLoad(cpu: Processor, x: Cpu, disp: int, a: u64)
    requires x.exit.None? && cpu.decode(x.rip) == Decoded(LoadMem(RAX, RBP, disp), 7) && Address(x, RBP, disp) == a
    ensures CpuStep(cpu, x) == x.(regs := x.regs[RAX := Load64(x.mem, a)], rip := x.rip + 7)
  {
  }

  lemma StepSlotOp(cpu: Processor, x: Cpu, op: AluOp, disp: int, a: u64, n: nat)
    requires x.exit.None? && cpu.decode(x.rip) == Decoded(AluMem(op, RAX, RBP, disp), n) && Address(x, RBP, disp) == a
    ensures CpuStep(cpu, x) == x.(regs := x.regs[RAX := cpu.alu(op, x.regs[RAX], Load64(x.mem, a))], rip := x.rip + n)
  {
  }

  lemma StepStore(cpu: Processor, x: Cpu, disp: int, a: u64)
    requires x.exit.None? && cpu.decode(x.rip) == Decoded(StoreMem(RBP, disp, RAX), 7) && Address(x, RBP, disp) == a
    ensures CpuStep(cpu, x) == x.(mem := Store64(x.mem, a, x.regs[RAX]), rip := x.rip + 7)
  {
  }

  lemma ThreeSteps(cpu: Processor, x: Cpu, op: AluOp, reg: byte, reg2: byte, a: u64, b: u64, n: nat, v: u64)
          returns (y: Cpu)
    requires x.exit.None? && Address(x, RBP, -8 * reg) == a && Address(x, RBP, -8 * reg2) == b
    requires cpu.decode(x.rip) == Decoded(LoadMem(RAX, RBP, -8 * reg), 7)
    requires cpu.decode(x.rip + 7) == Decoded(AluMem(op, RAX, RBP, -8 * reg2), n)
    requires cpu.decode(x.rip + 7 + n) == Decoded(StoreMem(RBP, -8 * reg, RAX), 7)
    requires v == cpu.alu(op, Load64(x.mem, a), Load64(x.mem, b))
    ensures y == CpuStep(cpu, CpuStep(cpu, CpuStep(cpu, x)))
    ensures y == x.(regs := x.regs[RAX := v], mem := Store64(x.mem, a, v), rip := x.rip + 14 + n)
  {
    StepLoad(cpu, x, -8 * reg, a);
    var x1 := CpuStep(cpu, x);
    StepSlotOp(cpu, x1, op, -8 * reg2, b, n);
    var x2 := CpuStep(cpu, x1);
    assert x2.regs == x.regs[RAX := v];
    StepStore(cpu, x2, -8 * reg, a);
    y := CpuStep(cpu, x2);
  }

  lemma SlotDecodes(cpu: Processor, p: int, op: AluOp, reg: byte, reg2: byte, n: nat)
    requires !(reg < 4 && reg2 < 4) && op != Div && Decodes(cpu, p, Alu(op, reg, reg2))
    requires n + 14 == HostLength(Alu(op, reg, reg2))
    ensures cpu.decode(p) == Decoded(LoadMem(RAX, RBP, -8 * reg), 7)
    ensures cpu.decode(p + 7) == Decoded(AluMem(op, RAX, RBP, -8 * reg2), n)
    ensures cpu.decode(p + 7 + n) == Decoded(StoreMem(RBP, -8 * reg, RAX), 7)
  {
  }

  /** Registers after an operation on slots: only RAX and the slot of `reg` have changed. */
  lemma SlotAluRegister(cpu: Processor, x: Cpu, y: Cpu, op: AluOp, reg: byte, reg2: byte, known: set<nat>, d: Data,
          time: nat -> u32, r: nat)
    requires LowExact(cpu)
    requires !(reg < 4 && reg2 < 4) && op != Div && Mirrors(known, d.regs, x)
    requires var v := SlotResult(cpu, x, op, reg, reg2);
             y.regs == x.regs[RAX := v] && y.mem == Store64(x.mem, x.regs[RBP] - 8 * reg, v)
    requires r in Transfer(Alu(op, reg, reg2), known)
    ensures r < 16 && HostValue(y, r) == Effect(Alu(op, reg, reg2), d, time).regs[r]
  {
    var v := SlotResult(cpu, x, op, reg, reg2);
    var z := x.(mem := y.mem);
    SlotsKept(x, z, reg, v, r);
    HomesKept(z, y, 0, v, r);
    if r == reg {
      SlotHome(x, reg, known, d);
      SlotHome(x, reg2, known, d);
      SlotValue(cpu, op, Load64(x.mem, x.regs[RBP] - 8 * reg), Load64(x.mem, x.regs[RBP] - 8 * reg2), d.regs[reg],
        d.regs[reg2]);
    }
  }

  lemma SlotHome(x: Cpu, reg: byte, known: set<nat>, d: Data)
    requires Mirrors(known, d.regs, x) && 4 <= reg < 16 && reg in known
    ensures Low(Load64(x.mem, x.regs[RBP] - 8 * reg)) == d.regs[reg]
  {
    LowOfLoad(x.mem, x.regs[RBP] - 8 * reg);
    assert HostValue(x, reg) == d.regs[reg];
  }

  lemma SlotValue(cpu: Processor, op: AluOp, u: u64, v: u64, a: u32, b: u32)
    requires LowExact(cpu) && op != Div && Low(u) == a && Low(v) == b
    ensures Low(cpu.alu(op, u, v)) == AluResult(op, a, b)
  {
  }

  /** What the three instructions leave is right. */
  lemma SlotAluOutcome(cpu: Processor, x0: Cpu, x: Cpu, y: Cpu, op: AluOp, reg: byte, reg2: byte, known: set<nat>,
          d: Data, time: nat -> u32)
    requires LowExact(cpu) && !(reg < 4 && reg2 < 4) && op != Div && 1 <= reg <= 128
    requires InFrame(x0, x) && Mirrors(known, d.regs, x)
    requires var v := SlotResult(cpu, x, op, reg, reg2);
             y == x.(regs := x.regs[RAX := v], mem := Store64(x.mem, x.regs[RBP] - 8 * reg, v),
                     rip := x.rip + HostLength(Alu(op, reg, reg2)))
    ensures Emulated(x0, x, y, Alu(op, reg, reg2), known, d, time)
  {
    var v := SlotResult(cpu, x, op, reg, reg2);
    forall r | r in Transfer(Alu(op, reg, reg2), known)
      ensures r < 16 && HostValue(y, r) == Effect(Alu(op, reg, reg2), d, time).regs[r]
    {
      SlotAluRegister(cpu, x, y, op, reg, reg2, known, d, time, r);
    }
    var z := y.(regs := x.regs);
    StoreInFrame(x0, x, z, reg, v);
    assert y.regs == z.regs[RAX := v];
  }

  lemma SlotAluRun(cpu: Processor, x0: Cpu, x: Cpu, op: AluOp, reg: byte, reg2: byte, known: set<nat>, d: Data,
          time: nat -> u32, n: nat) returns (y: Cpu)
    requires LowExact(cpu) && !(reg < 4 && reg2 < 4) && InFragment(Alu(op, reg, reg2))
    requires n + 14 == HostLength(Alu(op, reg, reg2))
    requires Entered(x0) && InFrame(x0, x) && Mirrors(known, d.regs, x)
    requires cpu.decode(x.rip) == Decoded(LoadMem(RAX, RBP, -8 * reg), 7)
    requires cpu.decode(x.rip + 7) == Decoded(AluMem(op, RAX, RBP, -8 * reg2), n)
    requires cpu.decode(x.rip + 7 + n) == Decoded(StoreMem(RBP, -8 * reg, RAX), 7)
    ensures y == CpuStep(cpu, CpuStep(cpu, CpuStep(cpu, x)))
    ensures Emulated(x0, x, y, Alu(op, reg, reg2), known, d, time)
  {
    SlotAddress(x0, x, reg);
    SlotAddress(x0, x, reg2);
    y := ThreeSteps(cpu, x, op, reg, reg2, x.regs[RBP] - 8 * reg, x.regs[RBP] - 8 * reg2, n,
      SlotResult(cpu, x, op, reg, reg2));
    SlotAluOutcome(cpu, x0, x, y, op, reg, reg2, known, d, time);
  }

  lemma AluSlots(cpu: Processor, x0: Cpu, x: Cpu, op: AluOp, reg: byte, reg2: byte, known: set<nat>, d: Data,
          time: nat -> u32, k: nat)
    requires LowExact(cpu) && k == 3
    requires !(reg < 4 && reg2 < 4) && InFragment(Alu(op, reg, reg2))
    requires Entered(x0) && InFrame(x0, x) && Mirrors(known, d.regs, x) && Decodes(cpu, x.rip, Alu(op, reg, reg2))
    ensures Emulated(x0, x, CpuRun(cpu, x, k), Alu(op, reg, reg2), known, d, time)
  {
    var n := HostLength(Alu(op, reg, reg2)) - 14;
    SlotDecodes(cpu, x.rip, op, reg, reg2, n);
    var y := SlotAluRun(cpu, x0, x, op, reg, reg2, known, d, time, n);
    CpuRun3(cpu, x);
  }

  /** Whatever the instruction, the code emitted for it emulates it. */
  lemma InstructionEmulated(cpu: Processor, x0: Cpu, x: Cpu, i: Instr, known: set<nat>, d: Data, time: nat -> u32,
          k: nat)
    requires LowExact(cpu)
    requires InFragment(i) && Entered(x0) && InFrame(x0, x) && Mirrors(known, d.regs, x) && Decodes(cpu, x.rip, i)
    requires k == HostSteps(i)
    ensures Emulated(x0, x, CpuRun(cpu, x, k), i, known, d, time)
  {
    if i.Alu? && !(i.dst < 4 && i.src < 4) {
      AluSlots(cpu, x0, x, i.op, i.dst, i.src, known, d, time, k);
    } else if i.Alu? {
      AluLow(cpu, x0, x, i.op, i.dst, i.src, known, d, time);
      CpuRunOne(cpu, x, k);
    } else if i.LoadImm? && i.reg < 4 {
      LoadImmLow(cpu, x0, x, i.reg, i.imm, known, d, time);
      CpuRunOne(cpu, x, k);
    } else if i.LoadImm? {
      LoadImmSlot(cpu, x0, x, i.reg, i.imm, known, d, time);
      CpuRunOne(cpu, x, k);
    } else {
      OthersEmulated(cpu, x0, x, i, known, d, time, k);
    }
  }

  lemma CpuRunOne(cpu: Processor, x: Cpu, k: nat)
    requires k == 1
    ensures CpuRun(cpu, x, k) == CpuStep(cpu, x)
  {
    assert CpuRun(cpu, x, k) == CpuRun(cpu, CpuStep(cpu, x), 0);
  }

  lemma OthersEmulated(cpu: Processor, x0: Cpu, x: Cpu, i: Instr, known: set<nat>, d: Data, time: nat -> u32, k: nat)
    requires InFragment(i) && !i.Alu? && !i.LoadImm? && InFrame(x0, x) && Mirrors(known, d.regs, x) &&
             Decodes(cpu, x.rip, i)
    requires k == HostSteps(i)
    ensures Emulated(x0, x, CpuRun(cpu, x, k), i, known, d, time)
  {
    if i.Nop? {
      CpuRunOne(cpu, x, k);
      assert CpuStep(cpu, x) == x.(rip := x.rip + 1);
    } else {
      assert CpuRun(cpu, x, k) == x;
    }
  }

  // ----- runs of the generator -----

  /** The next n instructions the generator takes are all in the fragment. */
  ghost predicate Visits(code: Memory, size: nat, g: Gen, n: nat)
    decreases n
  {
    n == 0 || (!GenOver(size, g) && InFragment(Fetch(code, g.pc)) && Visits(code, size, GenStep(code, g), n - 1))
  }

  /** The registers at home after the next n instructions. */
  function Trusted(code: Memory, g: Gen, known: set<nat>, n: nat): set<nat>
    decreases n
  {
    if n == 0 then known
    else Trusted(code, GenStep(code, g), Transfer(Fetch(code, g.pc), known), n - 1)
  }

  /** Interpreter, generator and emitted code are at the same place. */
  ghost predicate Coupled(s: VmState, g: Gen, x0: Cpu, x: Cpu, known: set<nat>) {
    s.pc == g.pc && !s.data.halted && g.status == Generating &&
    x.rip == |g.out| && InFrame(x0, x) && Mirrors(known, s.data.regs, x)
  }

  lemma InterpreterStep(w: World, s: VmState, i: Instr)
    requires i == Fetch(w.code, s.pc) && InFragment(i) && s.pc + 10 < TWO32 && !s.data.halted
    ensures Step(w, s) == s.(data := Effect(i, s.data, w.time), pc := NextPc(i, s.pc))
    ensures !Effect(i, s.data, w.time).halted && !Faults(w, s)
  {
    FetchWrappedIsFetch(w.code, s.pc);
    WrapSmall(s.pc + Size(i));
  }

  lemma GeneratorStep(code: Memory, g: Gen, i: Instr)
    requires i == Fetch(code, g.pc) && InFragment(i)
    ensures GenStep(code, g) == Gen(NextPc(i, g.pc), g.out + Emit(i), Generating)
  {
  }

  lemma CoupledStep(w: World, c: Memory, s: VmState, g: Gen, x0: Cpu, x: Cpu, known: set<nat>, i: Instr, k: nat)
    requires Entered(x0) && Coupled(s, g, x0, x, known) && s.pc + 10 < TWO32
    requires i == Fetch(w.code, s.pc) && InFragment(i) && k == HostSteps(i)
    requires Holds(c, 0, g.out + Emit(i))
    ensures Coupled(Step(w, s), GenStep(w.code, g), x0, CpuRun(Running(c), x, k), Transfer(i, known))
  {
    HoldsConcat(c, 0, g.out, Emit(i));
    EmissionDecodes(c, x.rip, i);
    RunningIsLowExact(c);
    InstructionEmulated(Running(c), x0, x, i, known, s.data, w.time, k);
    EmitLength(i);
    InterpreterStep(w, s, i);
    GeneratorStep(w.code, g, i);
  }

  lemma HoldsPrefix(c: Memory, xs: seq<byte>, ys: seq<byte>)
    requires Holds(c, 0, ys) && xs <= ys
    ensures Holds(c, 0, xs)
  {
    forall i | 0 <= i < |xs| ensures c(0 + i) == xs[i] {
      assert c(0 + i) == ys[i];
    }
  }

  /** Interpreter, generator and processor side by side. */
  datatype Joint = Joint(s: VmState, g: Gen, x: Cpu, known: set<nat>)

  function JointStep(w: World, cpu: Processor, j: Joint): Joint {
    var i := Fetch(w.code, j.g.pc);
    Joint(Step(w, j.s), GenStep(w.code, j.g), CpuRun(cpu, j.x, HostSteps(i)), Transfer(i, j.known))
  }

  function Joints(step: Joint -> Joint, j: Joint, n: nat): Joint
    decreases n
  {
    if n == 0 then j else Joints(step, step(j), n - 1)
  }

  /** What has to hold for n more steps side by side. */
  ghost predicate Together(w: World, c: Memory, x0: Cpu, size: nat, j: Joint, n: nat) {
    Coupled(j.s, j.g, x0, j.x, j.known) && j.s.size == size && Visits(w.code, size, j.g, n) &&
    Holds(c, 0, Generate(w.code, size, j.g, n).out)
  }

  lemma VisitsStep(code: Memory, size: nat, g: Gen, n: nat)
    requires n > 0 && Visits(code, size, g, n)
    ensures !GenOver(size, g) && InFragment(Fetch(code, g.pc)) && Visits(code, size, GenStep(code, g), n - 1)
    ensures Generate(code, size, g, n) == Generate(code, size, GenStep(code, g), n - 1)
  {
  }

  lemma TogetherStep(w: World, c: Memory, x0: Cpu, size: nat, j: Joint, n: nat)
    requires Entered(x0) && size + 10 < TWO32 && n > 0 && Together(w, c, x0, size, j, n)
    ensures Together(w, c, x0, size, JointStep(w, Running(c), j), n - 1)
  {
    var i := Fetch(w.code, j.g.pc);
    var g' := GenStep(w.code, j.g);
    VisitsStep(w.code, size, j.g, n);
    OutputGrows(w.code, size, g', n - 1);
    GeneratorStep(w.code, j.g, i);
    HoldsPrefix(c, g'.out, Generate(w.code, size, j.g, n).out);
    CoupledStep(w, c, j.s, j.g, x0, j.x, j.known, i, HostSteps(i));
    InterpreterStep(w, j.s, i);
  }

  lemma {:induction false} TogetherSteps(w: World, c: Memory, x0: Cpu, size: nat, step: Joint -> Joint, j: Joint,
          n: nat)
    requires forall j :: step(j) == JointStep(w, Running(c), j)
    requires Entered(x0) && size + 10 < TWO32 && Together(w, c, x0, size, j, n)
    ensures Together(w, c, x0, size, Joints(step, j, n), 0)
    decreases n
  {
    if n > 0 {
      TogetherStep(w, c, x0, size, j, n);
      TogetherSteps(w, c, x0, size, step, step(j), n - 1);
    }
  }

  lemma {:induction false} JointsVm(w: World, c: Memory, x0: Cpu, size: nat, step: Joint -> Joint, j: Joint, n: nat)
    requires forall j :: step(j) == JointStep(w, Running(c), j)
    requires Entered(x0) && size + 10 < TWO32 && Together(w, c, x0, size, j, n)
    ensures Joints(step, j, n).s == Iterate(w, j.s, n) && NoFaults(w, j.s, n)
    decreases n
  {
    if n > 0 {
      TogetherStep(w, c, x0, size, j, n);
      JointsVm(w, c, x0, size, step, step(j), n - 1);
      VisitsStep(w.code, size, j.g, n);
      InterpreterStep(w, j.s, Fetch(w.code, j.g.pc));
    }
  }

  lemma {:induction false} JointsGen(code: Memory, size: nat, step: Joint -> Joint, j: Joint, n: nat)
    requires forall j :: step(j).g == GenStep(code, j.g)
    requires Visits(code, size, j.g, n)
    ensures Joints(step, j, n).g == Generate(code, size, j.g, n)
    decreases n
  {
    if n > 0 {
      VisitsStep(code, size, j.g, n);
      JointsGen(code, size, step, step(j), n - 1);
    }
  }

  lemma TrustedStep(code: Memory, g: Gen, known: set<nat>, next: Gen, kept: set<nat>, n: nat)
    requires n > 0 && next == GenStep(code, g) && kept == Transfer(Fetch(code, g.pc), known)
    ensures Trusted(code, g, known, n) == Trusted(code, next, kept, n - 1)
  {
  }

  lemma {:induction false} JointsKnown(code: Memory, step: Joint -> Joint, j: Joint, n: nat)
    requires forall j :: step(j).g == GenStep(code, j.g)
    requires forall j :: step(j).known == Transfer(Fetch(code, j.g.pc), j.known)
    ensures Joints(step, j, n).known == Trusted(code, j.g, j.known, n)
    decreases n
  {
    if n > 0 {
      TrustedStep(code, j.g, j.known, step(j).g, step(j).known, n);
      JointsKnown(code, step, step(j), n - 1);
    }
  }

  lemma {:induction false} JointsCpu(cpu: Processor, step: Joint -> Joint, steps: Joint -> nat, j: Joint, n: nat)
          returns (k: nat)
    requires forall j :: step(j).x == CpuRun(cpu, j.x, steps(j))
    ensures Joints(step, j, n).x == CpuRun(cpu, j.x, k)
    decreases n
  {
    k := 0;
    if n > 0 {
      var rest := JointsCpu(cpu, step, steps, step(j), n - 1);
      k := steps(j) + rest;
      CpuRunSplit(cpu, j.x, steps(j), rest);
    }
  }

  /** Lockstep for as many instructions as the generator takes: the emitted code, on the processor,
      keeps the homes of all trusted registers equal to the interpreter's registers. */
  lemma EmittedCodeFollows(w: World, c: Memory, s: VmState, g: Gen, x0: Cpu, x: Cpu, known: set<nat>, n: nat)
          returns (k: nat)
    requires Entered(x0) && Coupled(s, g, x0, x, known) && s.size + 10 < TWO32
    requires Visits(w.code, s.size, g, n)
    requires Holds(c, 0, Generate(w.code, s.size, g, n).out)
    ensures Coupled(Iterate(w, s, n), Generate(w.code, s.size, g, n), x0,
                    CpuRun(Running(c), x, k), Trusted(w.code, g, known, n))
    ensures NoFaults(w, s, n) && Iterate(w, s, n).size == s.size
  {
    var step := (j: Joint) => JointStep(w, Running(c), j);
    var j := Joint(s, g, x, known);
    TogetherSteps(w, c, x0, s.size, step, j, n);
    JointsVm(w, c, x0, s.size, step, j, n);
    JointsGen(w.code, s.size, step, j, n);
    k := JointsCpu(Running(c), step, (j: Joint) => HostSteps(Fetch(w.code, j.g.pc)), j, n);
    JointsKnown(w.code, step, j, n);
  }

  // ----- prologue and epilogue -----

  /** The home of a register as the caller of the code sees it, `sp` being the stack pointer at the
      call: the frame begins 8 bytes below. */
  function CallerValue(x: Cpu, sp: int, r: nat): u32
    requires r < 16
  {
    if r < 4 then Low(x.regs[HostReg(r)]) else Word(x.mem, sp - 8 - 8 * r)
  }

  ghost predicate MirrorsForCaller(known: set<nat>, regs: RegFile, x: Cpu, sp: int) {
    forall r :: r in known ==> r < 16 && CallerValue(x, sp, r) == regs[r]
  }

  lemma PrologueDecodes(c: Memory)
    requires Holds(c, 0, PROLOGUE)
    ensures Decode(c, 0) == Decoded(Push(RBP), 1)
    ensures Decode(c, 1) == Decoded(MovReg(RBP, RSP), 3)
    ensures Decode(c, 4) == Decoded(SubImm(RSP, FRAME), 7)
  {
    HoldsConcat(c, 0, [0x55] + [0x48, 0x89, 0xE5], [0x48, 0x81, 0xEC, 0x00, 0x04, 0x00, 0x00]);
    HoldsConcat(c, 0, [0x55], [0x48, 0x89, 0xE5]);
    HoldsOne(c, 0, 0x55);
    HoldsThree(c, 1, 0x48, 0x89, 0xE5);
    assert [0x48, 0x81, 0xEC, 0x00, 0x04, 0x00, 0x00] == [0x48, 0x81, 0xEC] + [0x00, 0x04, 0x00, 0x00];
    HoldsConcat(c, 4, [0x48, 0x81, 0xEC], [0x00, 0x04, 0x00, 0x00]);
    HoldsThree(c, 4, 0x48, 0x81, 0xEC);
    assert Le4(FRAME) == [0x00, 0x04, 0x00, 0x00];
    Le4Word(c, 7, FRAME);
  }

  lemma EpilogueDecodes(c: Memory, p: int)
    requires Holds(c, p, EPILOGUE)
    ensures Decode(c, p) == Decoded(StoreMem(RBP, -8, RAX), 4)
    ensures Decode(c, p + 4) == Decoded(Leave, 1)
    ensures Decode(c, p + 5) == Decoded(Ret, 1)
  {
    HoldsConcat(c, p, [0x48, 0x89, 0x45, 0xF8] + [0xC9], [0xC3]);
    HoldsConcat(c, p, [0x48, 0x89, 0x45, 0xF8], [0xC9]);
    HoldsFour(c, p, 0x48, 0x89, 0x45, 0xF8);
    HoldsOne(c, p + 4, 0xC9);
    HoldsOne(c, p + 5, 0xC3);
  }

  lemma PrologueRun(cpu: Processor, x0: Cpu, known: set<nat>, regs: RegFile, k: nat)
    requires Entered(x0) && k == 3 && MirrorsForCaller(known, regs, x0, x0.regs[RSP])
    requires cpu.decode(0) == Decoded(Push(RBP), 1)
    requires cpu.decode(1) == Decoded(MovReg(RBP, RSP), 3)
    requires cpu.decode(4) == Decoded(SubImm(RSP, FRAME), 7)
    ensures var x := CpuRun(cpu, x0, k); x.rip == 11 && InFrame(x0, x) && Mirrors(known, regs, x)
  {
    var x := PrologueSteps(cpu, x0);
    CpuRun3(cpu, x0);
    PrologueFrame(x0, x, known, regs);
  }

  lemma PrologueSteps(cpu: Processor, x0: Cpu) returns (x: Cpu)
    requires Entered(x0)
    requires cpu.decode(0) == Decoded(Push(RBP), 1)
    requires cpu.decode(1) == Decoded(MovReg(RBP, RSP), 3)
    requires cpu.decode(4) == Decoded(SubImm(RSP, FRAME), 7)
    ensures x == CpuStep(cpu, CpuStep(cpu, CpuStep(cpu, x0)))
    ensures var sp: int := x0.regs[RSP];
            x == x0.(regs := x0.regs[RBP := sp - 8][RSP := sp - 8 - FRAME],
                     mem := Store64(x0.mem, sp - 8, x0.regs[RBP]), rip := 11)
  {
    var sp: int := x0.regs[RSP];
    var x1 := CpuStep(cpu, x0);
    assert x1 == x0.(regs := x0.regs[RSP := sp - 8], mem := Store64(x0.mem, sp - 8, x0.regs[RBP]), rip := 1);
    var x2 := CpuStep(cpu, x1);
    assert x2 == x1.(regs := x1.regs[RBP := sp - 8], rip := 4);
    x := CpuStep(cpu, x2);
    assert x.regs == x0.regs[RBP := sp - 8][RSP := sp - 8 - FRAME];
  }

  lemma PrologueFrame(x0: Cpu, x: Cpu, known: set<nat>, regs: RegFile)
    requires Entered(x0) && MirrorsForCaller(known, regs, x0, x0.regs[RSP])
    requires var sp: int := x0.regs[RSP];
             x == x0.(regs := x0.regs[RBP := sp - 8][RSP := sp - 8 - FRAME],
                      mem := Store64(x0.mem, sp - 8, x0.regs[RBP]), rip := 11)
    ensures InFrame(x0, x) && Mirrors(known, regs, x)
  {
    var sp: int := x0.regs[RSP];
    Store64ThenWord(x0.mem, sp - 8, x0.regs[RBP], sp - 8);
    forall a | a < sp - 8 - FRAME || a >= sp ensures x.mem(a) == x0.mem(a) {
      StoreIsLocal(x0.mem, sp - 8, x0.regs[RBP], a);
    }
    forall r | r in known ensures r < 16 && HostValue(x, r) == regs[r] {
      assert CallerValue(x0, sp, r) == regs[r];
      Store64ThenWord(x0.mem, sp - 8, x0.regs[RBP], sp - 8 - 8 * r);
    }
  }

  /** The call is over: control goes back to the return address with the caller's rsp and rbp, no
      memory outside the frame has changed, and the registers in `known` can be read off. */
  ghost predicate Returned(x0: Cpu, y: Cpu, known: set<nat>, regs: RegFile) {
    var sp: int := x0.regs[RSP];
    y.exit == Some(Load64(x0.mem, sp)) && y.regs[RSP] == sp + 8 && y.regs[RBP] == x0.regs[RBP] &&
    (forall a :: a < sp - 8 - FRAME || a >= sp ==> y.mem(a) == x0.mem(a)) &&
    MirrorsForCaller(known, regs, y, sp) &&
    (0 in known ==> Word(y.mem, sp - 16) == regs[0])
  }

  lemma StoreResult(cpu: Processor, x: Cpu, a: u64)
    requires x.exit.None? && cpu.decode(x.rip) == Decoded(StoreMem(RBP, -8, RAX), 4) && Address(x, RBP, -8) == a
    ensures CpuStep(cpu, x) == x.(mem := Store64(x.mem, a, x.regs[RAX]), rip := x.rip + 4)
  {
  }

  lemma LeaveAndReturn(cpu: Processor, x: Cpu, bp: int)
    requires x.exit.None? && x.regs[RBP] == bp && bp + 16 < TWO64
    requires cpu.decode(x.rip) == Decoded(Leave, 1) && cpu.decode(x.rip + 1) == Decoded(Ret, 1)
    ensures var y := CpuStep(cpu, CpuStep(cpu, x));
            y.mem == x.mem && y.exit == Some(Load64(x.mem, bp + 8)) &&
            y.regs == x.regs[RBP := Load64(x.mem, bp)][RSP := bp + 16]
  {
    var x1 := CpuStep(cpu, x);
    assert x1 == x.(regs := x.regs[RBP := Load64(x.mem, bp)][RSP := bp + 8], rip := x.rip + 1);
    var y := CpuStep(cpu, x1);
    assert y.regs == x.regs[RBP := Load64(x.mem, bp)][RSP := bp + 16];
  }

  lemma EpilogueSteps(cpu: Processor, x0: Cpu, x: Cpu, sp: int) returns (y: Cpu)
    requires Entered(x0) && InFrame(x0, x) && sp == x0.regs[RSP]
    requires cpu.decode(x.rip) == Decoded(StoreMem(RBP, -8, RAX), 4)
    requires cpu.decode(x.rip + 4) == Decoded(Leave, 1)
    requires cpu.decode(x.rip + 5) == Decoded(Ret, 1)
    ensures y == CpuStep(cpu, CpuStep(cpu, CpuStep(cpu, x)))
    ensures y.mem == Store64(x.mem, sp - 16, x.regs[RAX])
    ensures y.exit == Some(Load64(y.mem, sp))
    ensures y.regs == x.regs[RBP := Load64(y.mem, sp - 8)][RSP := sp + 8]
  {
    SlotAddress(x0, x, 1);
    StoreResult(cpu, x, sp - 16);
    LeaveAndReturn(cpu, CpuStep(cpu, x), sp - 8);
    y := CpuStep(cpu, CpuStep(cpu, CpuStep(cpu, x)));
  }

  lemma EpilogueReturns(x0: Cpu, x: Cpu, y: Cpu, sp: int, known: set<nat>, regs: RegFile)
    requires Entered(x0) && InFrame(x0, x) && Mirrors(known, regs, x) && sp == x0.regs[RSP]
    requires y.mem == Store64(x.mem, sp - 16, x.regs[RAX])
    requires y.exit == Some(Load64(y.mem, sp))
    requires y.regs == x.regs[RBP := Load64(y.mem, sp - 8)][RSP := sp + 8]
    ensures Returned(x0, y, known, regs)
  {
    var v := x.regs[RAX];
    forall a | a < sp - 16 || a >= sp - 8 ensures y.mem(a) == x.mem(a) {
      StoreIsLocal(x.mem, sp - 16, v, a);
    }
    LeNumberLocal(y.mem, x0.mem, sp, 4);
    LeNumberLocal(y.mem, x0.mem, sp + 4, 4);
    LeNumberLocal(y.mem, x.mem, sp - 8, 4);
    LeNumberLocal(y.mem, x.mem, sp - 4, 4);
    Store64ThenWord(x.mem, sp - 16, v, sp - 16);
    forall r | r in known ensures r < 16 && CallerValue(y, sp, r) == regs[r] {
      assert HostValue(x, r) == regs[r];
      Store64ThenWord(x.mem, sp - 16, v, sp - 8 - 8 * r);
    }
    if 0 in known {
      assert HostValue(x, 0) == regs[0];
    }
  }

  lemma EpilogueRun(cpu: Processor, x0: Cpu, x: Cpu, known: set<nat>, regs: RegFile) returns (k: nat, y: Cpu)
    requires Entered(x0) && InFrame(x0, x) && Mirrors(known, regs, x)
    requires cpu.decode(x.rip) == Decoded(StoreMem(RBP, -8, RAX), 4)
    requires cpu.decode(x.rip + 4) == Decoded(Leave, 1)
    requires cpu.decode(x.rip + 5) == Decoded(Ret, 1)
    ensures y == CpuRun(cpu, x, k) && Returned(x0, y, known, regs)
  {
    k, y := EpilogueEffect(cpu, x0, x, x0.regs[RSP]);
    EpilogueReturns(x0, x, y, x0.regs[RSP], known, regs);
  }

  lemma EpilogueEffect(cpu: Processor, x0: Cpu, x: Cpu, sp: int) returns (k: nat, y: Cpu)
    requires Entered(x0) && InFrame(x0, x) && sp == x0.regs[RSP]
    requires cpu.decode(x.rip) == Decoded(StoreMem(RBP, -8, RAX), 4)
    requires cpu.decode(x.rip + 4) == Decoded(Leave, 1)
    requires cpu.decode(x.rip + 5) == Decoded(Ret, 1)
    ensures y == CpuRun(cpu, x, k)
    ensures y.mem == Store64(x.mem, sp - 16, x.regs[RAX])
    ensures y.exit == Some(Load64(y.mem, sp))
    ensures y.regs == x.regs[RBP := Load64(y.mem, sp - 8)][RSP := sp + 8]
  {
    y := EpilogueSteps(cpu, x0, x, sp);
    k := RunOfThree(cpu, x);
  }

  lemma RunOfThree(cpu: Processor, x: Cpu) returns (k: nat)
    ensures CpuRun(cpu, x, k) == CpuStep(cpu, CpuStep(cpu, CpuStep(cpu, x)))
  {
    k := 3;
    CpuRun3(cpu, x);
  }

  // ----- whole programs -----

  /** The generator reaches HALT, inside its buffer guard, after n instructions of the fragment. */
  ghost predicate Compiles(code: Memory, size: nat, n: nat) {
    var g := Generate(code, size, START, n);
    Visits(code, size, START, n) && !GenOver(size, g) && Fetch(code, g.pc) == Halt
  }

  /** The emitted code of a program that compiles. */
  function CompiledCode(code: Memory, size: nat, n: nat): seq<byte> {
    Generate(code, size, START, n + 1).out
  }

  lemma {:induction false} IterateLast(w: World, s: VmState, n: nat)
    requires NoFaults(w, s, n) && !Stopped(Iterate(w, s, n)) && !Faults(w, Iterate(w, s, n))
    ensures Iterate(w, s, n + 1) == Step(w, Iterate(w, s, n)) && NoFaults(w, s, n + 1)
    decreases n
  {
    if n > 0 {
      IterateLast(w, Step(w, s), n - 1);
    } else {
      assert Iterate(w, s, 1) == Iterate(w, Step(w, s), 0);
    }
  }

  lemma HaltStep(w: World, s: VmState)
    requires Fetch(w.code, s.pc) == Halt && s.pc + 10 < TWO32
    ensures Step(w, s).data == s.data.(halted := true) && !Faults(w, s)
  {
    FetchWrappedIsFetch(w.code, s.pc);
  }

  lemma CodeParts(code: Memory, size: nat, n: nat, c: Memory, g: Gen)
    requires Compiles(code, size, n) && Holds(c, 0, CompiledCode(code, size, n)) && g == Generate(code, size, START, n)
    ensures Holds(c, 0, PROLOGUE) && Holds(c, 0, g.out) && Holds(c, |g.out|, EPILOGUE)
  {
    GenerateLast(code, size, START, n);
    HoldsConcat(c, 0, g.out, EPILOGUE);
    OutputGrows(code, size, START, n);
    HoldsPrefix(c, PROLOGUE, g.out);
  }

  lemma EnterFrame(c: Memory, x0: Cpu, known: set<nat>, regs: RegFile) returns (k: nat, x: Cpu)
    requires Holds(c, 0, PROLOGUE) && Entered(x0) && MirrorsForCaller(known, regs, x0, x0.regs[RSP])
    ensures x == CpuRun(Running(c), x0, k) && x.rip == 11 && InFrame(x0, x) && Mirrors(known, regs, x)
  {
    PrologueDecodes(c);
    k := 3;
    PrologueRun(Running(c), x0, known, regs, k);
    x := CpuRun(Running(c), x0, k);
  }

  lemma LeaveFrame(c: Memory, x0: Cpu, x: Cpu, known: set<nat>, regs: RegFile) returns (k: nat, y: Cpu)
    requires Holds(c, x.rip, EPILOGUE) && Entered(x0) && InFrame(x0, x) && Mirrors(known, regs, x)
    ensures y == CpuRun(Running(c), x, k) && Returned(x0, y, known, regs)
  {
    EpilogueDecodes(c, x.rip);
    k, y := EpilogueRun(Running(c), x0, x, known, regs);
  }

  lemma RunsJoin(cpu: Processor, x: Cpu, j: nat, y: Cpu, k: nat, z: Cpu)
    requires y == CpuRun(cpu, x, j) && z == CpuRun(cpu, y, k)
    ensures z == CpuRun(cpu, x, j + k)
  {
    CpuRunSplit(cpu, x, j, k);
  }

  /** The interpreter, in state t, is where the generator is, and the processor, in state x, at the end
      of what has been emitted. */
  ghost predicate AtEpilogue(t: VmState, size: nat, g: Gen, x0: Cpu, x: Cpu, trusted: set<nat>) {
    x.rip == |g.out| && InFrame(x0, x) && Mirrors(trusted, t.data.regs, x) &&
    t.pc == g.pc && !t.data.halted && t.size == size
  }

  lemma ReachesEpilogue(w: World, s: VmState, t: VmState, g: Gen, n: nat, c: Memory, x0: Cpu, x1: Cpu, known: set<nat>,
          trusted: set<nat>) returns (j: nat, x: Cpu)
    requires s.pc == 0 && !s.data.halted && s.size + 10 < TWO32 && Visits(w.code, s.size, START, n)
    requires t == Iterate(w, s, n) && trusted == Trusted(w.code, START, known, n)
    requires g == Generate(w.code, s.size, START, n) && Holds(c, 0, g.out) && Entered(x0)
    requires x1.rip == 11 && InFrame(x0, x1) && Mirrors(known, s.data.regs, x1)
    ensures x == CpuRun(Running(c), x1, j) && AtEpilogue(t, s.size, g, x0, x, trusted) && NoFaults(w, s, n)
  {
    j := EmittedCodeFollows(w, c, s, START, x0, x1, known, n);
    x := CpuRun(Running(c), x1, j);
  }

  /** Prologue and instructions. */
  lemma RunsToEpilogue(w: World, s: VmState, t: VmState, g: Gen, n: nat, c: Memory, x0: Cpu, enter: nat, x1: Cpu,
          known: set<nat>, trusted: set<nat>) returns (i: nat, x: Cpu)
    requires s.pc == 0 && !s.data.halted && s.size + 10 < TWO32 && Visits(w.code, s.size, START, n)
    requires t == Iterate(w, s, n) && trusted == Trusted(w.code, START, known, n)
    requires g == Generate(w.code, s.size, START, n) && Holds(c, 0, g.out) && Entered(x0)
    requires x1 == CpuRun(Running(c), x0, enter) && x1.rip == 11 && InFrame(x0, x1) && Mirrors(known, s.data.regs, x1)
    ensures x == CpuRun(Running(c), x0, i) && AtEpilogue(t, s.size, g, x0, x, trusted) && NoFaults(w, s, n)
  {
    var j;
    j, x := ReachesEpilogue(w, s, t, g, n, c, x0, x1, known, trusted);
    i := enter + j;
    RunsJoin(Running(c), x0, enter, x1, j, x);
  }

  /** From the epilogue back to the caller. */
  lemma EpilogueToCaller(t: VmState, size: nat, g: Gen, c: Memory, x0: Cpu, i: nat, x: Cpu, trusted: set<nat>)
          returns (k: nat, y: Cpu)
    requires x == CpuRun(Running(c), x0, i) && AtEpilogue(t, size, g, x0, x, trusted)
    requires Entered(x0) && Holds(c, |g.out|, EPILOGUE)
    ensures y == CpuRun(Running(c), x0, k) && Returned(x0, y, trusted, t.data.regs)
  {
    var leave;
    leave, y := LeaveFrame(c, x0, x, trusted, t.data.regs);
    k := i + leave;
    RunsJoin(Running(c), x0, i, x, leave, y);
  }

  /** The emitted code up to its `ret`: prologue, instructions, epilogue. */
  lemma CompiledCodeReturns(w: World, s: VmState, t: VmState, g: Gen, n: nat, c: Memory, x0: Cpu, known: set<nat>,
          trusted: set<nat>) returns (k: nat, y: Cpu)
    requires s.pc == 0 && !s.data.halted && s.size + 10 < TWO32 && Compiles(w.code, s.size, n)
    requires t == Iterate(w, s, n) && trusted == Trusted(w.code, START, known, n)
    requires g == Generate(w.code, s.size, START, n) && Holds(c, 0, CompiledCode(w.code, s.size, n))
    requires Entered(x0) && MirrorsForCaller(known, s.data.regs, x0, x0.regs[RSP])
    ensures t.pc == g.pc && !t.data.halted && t.size == s.size && NoFaults(w, s, n)
    ensures y == CpuRun(Running(c), x0, k) && Returned(x0, y, trusted, t.data.regs)
  {
    CodeParts(w.code, s.size, n, c, g);
    var enter, x1 := EnterFrame(c, x0, known, s.data.regs);
    var i, x := RunsToEpilogue(w, s, t, g, n, c, x0, enter, x1, known, trusted);
    k, y := EpilogueToCaller(t, s.size, g, c, x0, i, x, trusted);
  }

  /** A run that gets to a HALT without faults ends there. */
  lemma RunEndsAtHalt(w: World, m: Machine, n: nat, t: VmState) returns (r: Machine)
    requires t == Iterate(w, Enter(m).vm, n) && NoFaults(w, Enter(m).vm, n) && !Stopped(t)
    requires Fetch(w.code, t.pc) == Halt && t.pc + 10 < TWO32
    ensures Returns(EngineOf(w), m, r) && r.vm.data == t.data.(halted := true)
  {
    HaltStep(w, t);
    IterateLast(w, Enter(m).vm, n);
    FaultFreeRun(w, m, n + 1);
    r := Enter(m).(vm := Step(w, t));
  }

  /** Compiler correctness. Take any bytecode on which the generator reaches HALT through the
      fragment, put the emitted bytes anywhere, and call them with any machine state in which the
      registers in `known` are at home. Then the code returns to its caller with the caller's stack
      and frame pointer, has written nothing outside its own frame, and every trusted register is,
      mod 2^32, what `vm_run` computes, although the emitted arithmetic is 64 bits wide. */
  lemma CompilerCorrect(w: World, m: Machine, n: nat, c: Memory, x0: Cpu, known: set<nat>) returns (k: nat, r: Machine)
    requires m.vm.pc == 0 && m.vm.size + 10 < TWO32 && Compiles(w.code, m.vm.size, n)
    requires Holds(c, 0, CompiledCode(w.code, m.vm.size, n))
    requires Entered(x0) && MirrorsForCaller(known, m.vm.data.regs, x0, x0.regs[RSP])
    ensures Returns(EngineOf(w), m, r) && r.vm.data.halted
    ensures Returned(x0, CpuRun(Running(c), x0, k), Trusted(w.code, START, known, n), r.vm.data.regs)
  {
    var s := Enter(m).vm;
    var t, y := Iterate(w, s, n), x0;
    k, y := CompiledCodeReturns(w, s, t, Generate(w.code, s.size, START, n), n, c, x0, known,
      Trusted(w.code, START, known, n));
    r := RunEndsAtHalt(w, m, n, t);
  }

  // ----- the two register classes -----

  /** The next n instructions the generator takes are all of one kind. */
  ghost predicate AllVisited(code: Memory, g: Gen, n: nat, kind: Instr -> bool)
    decreases n
  {
    n == 0 || (kind(Fetch(code, g.pc)) && AllVisited(code, GenStep(code, g), n - 1, kind))
  }

  /** Registers that no instruction of a kind loses stay trusted. */
  lemma {:induction false} KeptTrusted(code: Memory, g: Gen, keep: set<nat>, known: set<nat>, n: nat,
          kind: Instr -> bool)
    requires AllVisited(code, g, n, kind) && keep <= known
    requires forall i, k :: kind(i) && keep <= k ==> keep <= Transfer(i, k)
    ensures keep <= Trusted(code, g, known, n)
    decreases n
  {
    if n > 0 {
      KeptTrusted(code, GenStep(code, g), keep, Transfer(Fetch(code, g.pc), known), n - 1, kind);
    }
  }

  const LOW: set<nat> := {0, 1, 2, 3}
  const HIGH: set<nat> := {4, 5, 6, 7, 8, 9, 10, 11, 12, 13, 14, 15}

  predicate LowInstr(i: Instr) {
    match i
    case Nop => true
    case LoadImm(reg, _) => reg < 4
    case Alu(op, reg, reg2) => reg < 4 && reg2 < 4 && GoodPair(op, reg, reg2)
    case Jmp(_) => true
    case _ => false
  }

  predicate HighInstr(i: Instr) {
    match i
    case Nop => true
    case LoadImm(reg, _) => 4 <= reg < 16
    case Alu(op, reg, reg2) => op != Div && 4 <= reg < 16 && 4 <= reg2 < 16
    case Jmp(_) => true
    case _ => false
  }

  lemma LowKept(i: Instr, known: set<nat>)
    requires LowInstr(i) && LOW <= known
    ensures LOW <= Transfer(i, known)
  {
    if i.Alu? {
      assert (i.dst as nat) in LOW && (i.src as nat) in LOW;
    }
  }

  lemma HighKept(i: Instr, known: set<nat>)
    requires HighInstr(i) && {1, 2, 3} + HIGH <= known
    ensures {1, 2, 3} + HIGH <= Transfer(i, known)
  {
    if i.Alu? {
      assert (i.dst as nat) in HIGH && (i.src as nat) in HIGH;
    }
  }

  /** Programs on r0 to r3 whose pairs the tables get right: the four processor registers agree with
      the interpreter at the end if they did at the start, and r0 is also left at [rbp-8]. */
  lemma LowProgramsCorrect(w: World, m: Machine, n: nat, c: Memory, x0: Cpu) returns (k: nat, r: Machine)
    requires m.vm.pc == 0 && m.vm.size + 10 < TWO32 && Compiles(w.code, m.vm.size, n)
    requires AllVisited(w.code, START, n, i => LowInstr(i))
    requires Holds(c, 0, CompiledCode(w.code, m.vm.size, n)) && Entered(x0)
    requires forall v :: v in LOW ==> Low(x0.regs[HostReg(v)]) == m.vm.data.regs[v]
    ensures Returns(EngineOf(w), m, r)
    ensures var y := CpuRun(Running(c), x0, k);
            y.exit == Some(Load64(x0.mem, x0.regs[RSP])) &&
            (forall v :: v in LOW ==> Low(y.regs[HostReg(v)]) == r.vm.data.regs[v]) &&
            Word(y.mem, x0.regs[RSP] - 16) == r.vm.data.regs[0]
  {
    k, r := CompilerCorrect(w, m, n, c, x0, LOW);
    forall i: Instr, known: set<nat> | LowInstr(i) && LOW <= known ensures LOW <= Transfer(i, known) {
      LowKept(i, known);
    }
    KeptTrusted(w.code, START, LOW, LOW, n, i => LowInstr(i));
    var y, sp := CpuRun(Running(c), x0, k), x0.regs[RSP];
    forall v | v in LOW ensures Low(y.regs[HostReg(v)]) == r.vm.data.regs[v] {
      assert CallerValue(y, sp, v) == r.vm.data.regs[v];
    }
  }

  /** Programs on r4 to r15: the slots agree with the interpreter at the end, and of the registers
      0 to 3 only r0 is lost. */
  lemma HighProgramsCorrect(w: World, m: Machine, n: nat, c: Memory, x0: Cpu) returns (k: nat, r: Machine)
    requires m.vm.pc == 0 && m.vm.size + 10 < TWO32 && Compiles(w.code, m.vm.size, n)
    requires AllVisited(w.code, START, n, i => HighInstr(i))
    requires Holds(c, 0, CompiledCode(w.code, m.vm.size, n)) && Entered(x0)
    requires MirrorsForCaller({1, 2, 3} + HIGH, m.vm.data.regs, x0, x0.regs[RSP])
    ensures Returns(EngineOf(w), m, r)
    ensures var y := CpuRun(Running(c), x0, k);
            y.exit == Some(Load64(x0.mem, x0.regs[RSP])) &&
            MirrorsForCaller({1, 2, 3} + HIGH, r.vm.data.regs, y, x0.regs[RSP])
  {
    var keep := {1, 2, 3} + HIGH;
    k, r := CompilerCorrect(w, m, n, c, x0, keep);
    forall i: Instr, known: set<nat> | HighInstr(i) && keep <= known ensures keep <= Transfer(i, known) {
      HighKept(i, known);
    }
    KeptTrusted(w.code, START, keep, keep, n, i => HighInstr(i));
    var y, sp := CpuRun(Running(c), x0, k), x0.regs[RSP];
    forall v | v in keep ensures v < 16 && CallerValue(y, sp, v) == r.vm.data.regs[v] {
      assert v in Trusted(w.code, START, keep, n);
    }
  }
}

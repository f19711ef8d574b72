/** The interpreter of the portable VM as a state machine: what one iteration of its loop does. */
module Vm {
  import opened Words
  import opened Bytecode

  type RegFile = s: seq<u32> | |s| == 16 witness [0, 0, 0, 0, 0, 0, 0, 0, 0, 0, 0, 0, 0, 0, 0, 0]
  type Stack = s: seq<u32> | |s| == 256 witness seq(256, i => 0)

  /** What a program computes with; `clock` counts the wall-clock readings taken so far. */
  datatype Data = Data(regs: RegFile, stack: Stack, halted: bool, clock: nat)

  datatype VmState = VmState(data: Data, pc: u32, sp: u32, size: nat)

  /** The code bytes the VM points at and the readings of the wall clock, both arbitrary. */
  datatype World = World(code: Memory, time: nat -> u32)

  function AluResult(op: AluOp, x: u32, y: u32): u32
    requires op.Div? ==> y != 0
  {
    match op
    case Add => Wrap32(x + y)
    case Sub => Wrap32(x - y)
    case Mul => Wrap32(x * y)
    case Div => x / y
  }

  /** The effect of an instruction on everything but the program counter. */
  function Effect(i: Instr, d: Data, time: nat -> u32): Data {
    match i
    case LoadImm(reg, imm) =>
      if reg < MAX_REGS then d.(regs := d.regs[reg := imm]) else d
    case Alu(op, dst, src) =>
      if dst < MAX_REGS && src < MAX_REGS && (op.Div? ==> d.regs[src] != 0)
      then d.(regs := d.regs[dst := AluResult(op, d.regs[dst], d.regs[src])]) else d
    case Load(reg, addr) =>
      if reg < MAX_REGS && addr < MAX_STACK then d.(regs := d.regs[reg := d.stack[addr]]) else d
    case Store(reg, addr) =>
      if reg < MAX_REGS && addr < MAX_STACK then d.(stack := d.stack[addr := d.regs[reg]]) else d
    case Syscall(id, arg0, _) =>
      if id == 1 then d.(halted := true)
      else if id == 2 then
        var d' := d.(clock := d.clock + 1);
        if arg0 < MAX_REGS then d'.(regs := d.regs[arg0 := time(d.clock)]) else d'
      else d
    case Halt => d.(halted := true)
    case Invalid(_) => d.(halted := true)
    case _ => d
  }

  /** The address an instruction jumps to, if it does. */
  function Branch(i: Instr, d: Data): Option<u32> {
    match i
    case Jmp(addr) => Some(addr)
    case Jz(reg, addr) => if reg < MAX_REGS && d.regs[reg] == 0 then Some(addr) else None
    case _ => None
  }

  /** The interpreter's decoding: every increment of the 32-bit `pc` wraps. */
  function FetchWrapped(m: Memory, pc: u32): Instr {
    DecodeAt(m, pc, Wrap32(pc + 1), Wrap32(pc + 2), Wrap32(pc + 6))
  }

  lemma FetchWrappedIsFetch(m: Memory, pc: u32)
    requires pc + 6 < TWO32
    ensures FetchWrapped(m, pc) == Fetch(m, pc)
  {
    WrapSmall(pc + 1);
    WrapSmall(pc + 2);
    WrapSmall(pc + 6);
  }

  predicate Stopped(s: VmState) {
    s.data.halted || s.pc >= s.size
  }

  /** Executes `i`, whose opcode is at s.pc. */
  function Exec(w: World, s: VmState, i: Instr): VmState {
    var next := match Branch(i, s.data)
                case Some(addr) => addr
                case None => Wrap32(s.pc + Size(i));
    s.(data := Effect(i, s.data, w.time), pc := next)
  }

  /** One iteration of the loop of `vm_run`, up to the call of `vm_recover`. */
  function Step(w: World, s: VmState): VmState {
    Exec(w, s, FetchWrapped(w.code, s.pc))
  }

  predicate Faults(w: World, s: VmState) {
    FetchWrapped(w.code, s.pc).Invalid?
  }

  /** n iterations, or fewer if the loop is over before. */
  function Iterate(w: World, s: VmState, n: nat): VmState
    decreases n
  {
    if n == 0 || Stopped(s) then s else Iterate(w, Step(w, s), n - 1)
  }

  /** None of the next n iterations meets an invalid opcode. */
  predicate NoFaults(w: World, s: VmState, n: nat)
    decreases n
  {
    n == 0 || Stopped(s) || (!Faults(w, s) && NoFaults(w, Step(w, s), n - 1))
  }

  const ZERO_REGS: RegFile := [0, 0, 0, 0, 0, 0, 0, 0, 0, 0, 0, 0, 0, 0, 0, 0]
  const ZERO_STACK: Stack := seq(256, i => 0)

  lemma ForwardExec(w: World, s: VmState, i: Instr)
    requires s.pc + 10 < TWO32
    requires Branch(i, s.data).Some? ==> Branch(i, s.data).value > s.pc
    ensures Exec(w, s, i).pc > s.pc && Exec(w, s, i).size == s.size
  {
    WrapSmall(s.pc + Size(i));
  }
}

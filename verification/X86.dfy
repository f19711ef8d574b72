/** A small x86-64: the instructions the code generator emits (Intel SDM, volume 2), decoded from
    bytes, with 64-bit registers and byte-addressed little-endian memory. */
module X86 {
  import opened Words
  import opened Bytecode

  const RAX := 0
  const RCX := 1
  const RDX := 2
  const RBX := 3
  const RSP := 4
  const RBP := 5

  type Gpr = r: nat | r < 8
  type Registers = s: seq<u64> | |s| == 8 witness [0, 0, 0, 0, 0, 0, 0, 0]

  /** `exit` is the address that `ret` popped. Instructions are read from a separate code buffer,
      `rip` being an offset into it. */
  datatype Cpu = Cpu(regs: Registers, rip: int, mem: Memory, exit: Option<u64>)

  datatype XInstr =
    | XNop
    | MovImm(dst: Gpr, imm: u32)
    | AluReg(op: AluOp, dst: Gpr, src: Gpr)
    | AluMem(op: AluOp, dst: Gpr, base: Gpr, disp: int)
    | MovReg(dst: Gpr, src: Gpr)
    | LoadMem(dst: Gpr, base: Gpr, disp: int)
    | StoreMem(base: Gpr, disp: int, src: Gpr)
    | StoreImm(base: Gpr, disp: int, imm: u32)
    | SubImm(dst: Gpr, delta: int)
    | Push(src: Gpr)
    | Leave
    | Ret
    | Undecoded

  datatype Decoded = Decoded(instr: XInstr, length: nat)

  function Signed32(v: u32): int {
    if v < 0x8000_0000 then v else v - TWO32
  }

  function Signed8(b: byte): int {
    if b < 0x80 then b else b - 0x100
  }

  // The three fields of a ModRM byte.
  function Mod(b: byte): nat { b / 64 }
  function Reg(b: byte): Gpr { b / 8 % 8 }
  function Rm(b: byte): Gpr { b % 8 }

  /** Instructions after a REX.W prefix at p. An r/m field of 4 would announce a SIB byte. */
  function DecodeWide(c: Memory, p: int): Decoded {
    var op, mrm := c(p + 1), c(p + 2);
    var direct, disp32 := Mod(mrm) == 3, Mod(mrm) == 2 && Rm(mrm) != 4;
    if op == 0x01 && direct then Decoded(AluReg(Add, Rm(mrm), Reg(mrm)), 3)
    else if op == 0x29 && direct then Decoded(AluReg(Sub, Rm(mrm), Reg(mrm)), 3)
    else if op == 0x03 && disp32 then Decoded(AluMem(Add, Reg(mrm), Rm(mrm), Signed32(Word(c, p + 3))), 7)
    else if op == 0x2B && disp32 then Decoded(AluMem(Sub, Reg(mrm), Rm(mrm), Signed32(Word(c, p + 3))), 7)
    else if op == 0x8B && disp32 then Decoded(LoadMem(Reg(mrm), Rm(mrm), Signed32(Word(c, p + 3))), 7)
    else if op == 0x89 && direct then Decoded(MovReg(Rm(mrm), Reg(mrm)), 3)
    else if op == 0x89 && disp32 then Decoded(StoreMem(Rm(mrm), Signed32(Word(c, p + 3)), Reg(mrm)), 7)
    else if op == 0x89 && Mod(mrm) == 1 && Rm(mrm) != 4 then Decoded(StoreMem(Rm(mrm), Signed8(c(p + 3)), Reg(mrm)), 4)
    else if op == 0x81 && direct && Reg(mrm) == 5 then Decoded(SubImm(Rm(mrm), Signed32(Word(c, p + 3))), 7)
    else if op == 0x0F && c(p + 2) == 0xAF then
      var mrm2 := c(p + 3);
      if Mod(mrm2) == 3 then Decoded(AluReg(Mul, Reg(mrm2), Rm(mrm2)), 4)
      else if Mod(mrm2) == 2 && Rm(mrm2) != 4 then
        Decoded(AluMem(Mul, Reg(mrm2), Rm(mrm2), Signed32(Word(c, p + 4))), 8)
      else Decoded(Undecoded, 0)
    else Decoded(Undecoded, 0)
  }

  function Decode(c: Memory, p: int): Decoded {
    var op := c(p);
    if op == 0x48 then DecodeWide(c, p)
    else if op == 0x90 then Decoded(XNop, 1)
    else if 0xB8 <= op < 0xC0 then Decoded(MovImm(op - 0xB8, Word(c, p + 1)), 5)
    else if op == 0xC7 && Mod(c(p + 1)) == 2 && Rm(c(p + 1)) != 4 && Reg(c(p + 1)) == 0 then
      Decoded(StoreImm(Rm(c(p + 1)), Signed32(Word(c, p + 2)), Word(c, p + 6)), 10)
    else if 0x50 <= op < 0x58 then Decoded(Push(op - 0x50), 1)
    else if op == 0xC9 then Decoded(Leave, 1)
    else if op == 0xC3 then Decoded(Ret, 1)
    else Decoded(Undecoded, 0)
  }

  /** The forms with a 32-bit displacement off rbp: ModRM 10 000 101, RAX being the register. */
  lemma DecodeRbpForm(c: Memory, p: int, op: byte)
    requires c(p) == 0x48 && c(p + 1) == op && c(p + 2) == 0x85
    ensures op == 0x03 ==> Decode(c, p) == Decoded(AluMem(Add, RAX, RBP, Signed32(Word(c, p + 3))), 7)
    ensures op == 0x2B ==> Decode(c, p) == Decoded(AluMem(Sub, RAX, RBP, Signed32(Word(c, p + 3))), 7)
    ensures op == 0x8B ==> Decode(c, p) == Decoded(LoadMem(RAX, RBP, Signed32(Word(c, p + 3))), 7)
    ensures op == 0x89 ==> Decode(c, p) == Decoded(StoreMem(RBP, Signed32(Word(c, p + 3)), RAX), 7)
  {
  }

  lemma DecodeRbpImul(c: Memory, p: int)
    requires c(p) == 0x48 && c(p + 1) == 0x0F && c(p + 2) == 0xAF && c(p + 3) == 0x85
    ensures Decode(c, p) == Decoded(AluMem(Mul, RAX, RBP, Signed32(Word(c, p + 4))), 8)
  {
  }

  lemma DecodeRbpStoreImm(c: Memory, p: int)
    requires c(p) == 0xC7 && c(p + 1) == 0x85
    ensures Decode(c, p) == Decoded(StoreImm(RBP, Signed32(Word(c, p + 2)), Word(c, p + 6)), 10)
  {
  }

  function Store32(m: Memory, a: int, v: u32): Memory {
    b => if a <= b < a + 4 then Le4(v)[b - a] else m(b)
  }

  function Low(v: u64): u32 { v % TWO32 }
  function High(v: u64): u32 { v / TWO32 }

  function Store64(m: Memory, a: int, v: u64): Memory {
    Store32(Store32(m, a, Low(v)), a + 4, High(v))
  }

  function Load64(m: Memory, a: int): u64 {
    Word(m, a) + TWO32 * Word(m, a + 4)
  }

  /** 64-bit arithmetic. No division is ever decoded. */
  function WideResult(op: AluOp, x: u64, y: u64): u64 {
    match op
    case Add => Wrap64(x + y)
    case Sub => Wrap64(x - y)
    case Mul => Wrap64(x * y)
    case Div => x
  }

  function Address(x: Cpu, base: Gpr, disp: int): u64 {
    Wrap64(x.regs[base] + disp)
  }

  function SetReg(x: Cpu, r: Gpr, v: u64): Cpu {
    x.(regs := x.regs[r := v])
  }

  /** What a run depends on: the decoder of the code buffer and the 64-bit arithmetic. */
  datatype Processor = Processor(decode: int -> Decoded, alu: (AluOp, u64, u64) -> u64)

  /** The processor with the bytes `c` as its code. */
  function Running(c: Memory): Processor {
    Processor(p => Decode(c, p), (op, x, y) => WideResult(op, x, y))
  }

  /** The effect of an instruction on registers and memory. */
  function Execute(p: Processor, i: XInstr, x: Cpu): Cpu
  {
    match i
    case XNop => x
    case MovImm(r, imm) => SetReg(x, r, imm)
    case AluReg(op, dst, src) => SetReg(x, dst, p.alu(op, x.regs[dst], x.regs[src]))
    case AluMem(op, dst, base, disp) =>
      SetReg(x, dst, p.alu(op, x.regs[dst], Load64(x.mem, Address(x, base, disp))))
    case MovReg(dst, src) => SetReg(x, dst, x.regs[src])
    case LoadMem(dst, base, disp) => SetReg(x, dst, Load64(x.mem, Address(x, base, disp)))
    case StoreMem(base, disp, src) => x.(mem := Store64(x.mem, Address(x, base, disp), x.regs[src]))
    case StoreImm(base, disp, imm) => x.(mem := Store32(x.mem, Address(x, base, disp), imm))
    case SubImm(dst, delta) => SetReg(x, dst, Address(x, dst, -delta))
    case Push(src) =>
      var sp := Address(x, RSP, -8);
      SetReg(x, RSP, sp).(mem := Store64(x.mem, sp, x.regs[src]))
    case Leave =>
      var bp := x.regs[RBP];
      SetReg(SetReg(x, RBP, Load64(x.mem, bp)), RSP, Address(x, RBP, 8))
    case Ret =>
      SetReg(x, RSP, Address(x, RSP, 8)).(exit := Some(Load64(x.mem, x.regs[RSP])))
    case Undecoded => x
  }

  function CpuStep(p: Processor, x: Cpu): Cpu {
    if x.exit.Some? then x
    else Execute(p, p.decode(x.rip).instr, x).(rip := x.rip + p.decode(x.rip).length)
  }

  function CpuRun(p: Processor, x: Cpu, k: nat): Cpu
    decreases k
  {
    if k == 0 then x else CpuRun(p, CpuStep(p, x), k - 1)
  }

  lemma CpuRun3(p: Processor, x: Cpu)
    ensures CpuRun(p, x, 1) == CpuStep(p, x)
    ensures CpuRun(p, x, 3) == CpuStep(p, CpuStep(p, CpuStep(p, x)))
  {
    var x1 := CpuStep(p, x);
    var x2 := CpuStep(p, x1);
    var x3 := CpuStep(p, x2);
    assert CpuRun(p, x, 1) == CpuRun(p, x1, 0);
    assert CpuRun(p, x, 3) == CpuRun(p, x1, 2);
    assert CpuRun(p, x1, 2) == CpuRun(p, x2, 1);
    assert CpuRun(p, x2, 1) == CpuRun(p, x3, 0);
  }

  lemma {:induction false} CpuRunSplit(p: Processor, x: Cpu, j: nat, k: nat)
    ensures CpuRun(p, x, j + k) == CpuRun(p, CpuRun(p, x, j), k)
    decreases j
  {
    if j > 0 {
      CpuRunSplit(p, CpuStep(p, x), j - 1, k);
    }
  }

  // ----- memory -----

  lemma StoreThenWord(m: Memory, a: int, v: u32, b: int)
    ensures b == a ==> Word(Store32(m, a, v), b) == v
    ensures b + 4 <= a || a + 4 <= b ==> Word(Store32(m, a, v), b) == Word(m, b)
  {
    var m' := Store32(m, a, v);
    if b == a {
      forall i | 0 <= i < 4 ensures m'(a + i) == Le4(v)[i] {
      }
      Le4Word(m', a, v);
    } else if b + 4 <= a || a + 4 <= b {
      LeNumberLocal(m, m', b, 4);
    }
  }

  lemma Store64ThenWord(m: Memory, a: int, v: u64, b: int)
    ensures b == a ==> Word(Store64(m, a, v), b) == Low(v)
    ensures b == a ==> Load64(Store64(m, a, v), b) == v
    ensures b + 4 <= a || a + 8 <= b ==> Word(Store64(m, a, v), b) == Word(m, b)
  {
    var m1 := Store32(m, a, Low(v));
    StoreThenWord(m, a, Low(v), b);
    StoreThenWord(m1, a + 4, High(v), b);
    StoreThenWord(m1, a + 4, High(v), b + 4);
  }

  lemma StoreIsLocal(m: Memory, a: int, v: u64, b: int)
    requires b < a || b >= a + 8
    ensures Store64(m, a, v)(b) == m(b)
  {
  }

  lemma LowOfLoad(m: Memory, a: int)
    ensures Low(Load64(m, a)) == Word(m, a)
  {
  }

  /** 64-bit arithmetic agrees with 32-bit arithmetic in the low half. */
  lemma LowOfWide(op: AluOp, x: u64, y: u64)
    requires op != Div
    ensures Low(WideResult(op, x, y)) ==
            match op
            case Add => Wrap32(Low(x) + Low(y))
            case Sub => Wrap32(Low(x) - Low(y))
            case Mul => Wrap32(Low(x) * Low(y))
            case Div => 0
  {
    ModAbsorb(x, y, TWO32);
    Mod64Then32(x + y);
    Mod64Then32(x - y);
    Mod64Then32(x * y);
  }
}

/** The x86-64 code generator: the bytes it emits for each VM instruction, its loop over the
    bytecode, and its bound on the emission buffer. */
module Codegen {
  import opened Words
  import opened Bytecode

  const BUFFER_SIZE := 4096
  const GUARD := 32

  // ----- what is emitted -----

  /** push rbp; mov rbp, rsp; sub rsp, 0x400 */
  const PROLOGUE: seq<byte> := [0x55] + [0x48, 0x89, 0xE5] + [0x48, 0x81, 0xEC, 0x00, 0x04, 0x00, 0x00]

  /** mov [rbp-8], rax; leave; ret */
  const EPILOGUE: seq<byte> := [0x48, 0x89, 0x45, 0xF8] + [0xC9] + [0xC3]

  /** The displacement of the stack slot of a register: -8*reg as 32 bits. */
  function SlotDisp(reg: byte): u32 {
    Wrap32(-8 * reg)
  }

  function Slot(reg: byte): (bs: seq<byte>)
    ensures |bs| == 4
  {
    Le4(SlotDisp(reg))
  }

  /** The opcode of `mov r32, imm32` for VM registers 0 to 3. */
  function MovOpcode(reg: byte): byte
    requires reg < 4
  {
    if reg == 0 then 0xB8 else if reg == 1 then 0xBB else if reg == 2 then 0xB9 else 0xBA
  }

  /** The table of ModRM bytes for add and sub. */
  function AddModRM(reg: byte, reg2: byte): byte {
    if reg == 0 && reg2 == 1 then 0xD8
    else if reg == 0 && reg2 == 2 then 0xC8
    else if reg == 1 && reg2 == 0 then 0xD3
    else if reg == 1 && reg2 == 2 then 0xCB
    else if reg == 2 && reg2 == 0 then 0xC1
    else if reg == 2 && reg2 == 1 then 0xD1
    else if reg == 3 && reg2 == 0 then 0xC2
    else if reg == 3 && reg2 == 1 then 0xCA
    else if reg == 3 && reg2 == 2 then 0xD2
    else 0xC0
  }

  /** The table of ModRM bytes for imul. */
  function MulModRM(reg: byte, reg2: byte): byte {
    if reg == 0 && reg2 == 1 then 0xC3
    else if reg == 0 && reg2 == 2 then 0xC1
    else if reg == 1 && reg2 == 0 then 0xD8
    else if reg == 1 && reg2 == 2 then 0xD9
    else if reg == 2 && reg2 == 0 then 0xCA
    else if reg == 2 && reg2 == 1 then 0xCB
    else if reg == 3 && reg2 == 0 then 0xD2
    else if reg == 3 && reg2 == 1 then 0xD3
    else if reg == 3 && reg2 == 2 then 0xD1
    else 0xC0
  }

  /** mov rax, [rbp-8*reg] */
  function LoadSlot(reg: byte): (bs: seq<byte>)
    ensures |bs| == 7
  {
    [0x48, 0x8B, 0x85] + Slot(reg)
  }

  /** mov [rbp-8*reg], rax */
  function StoreSlot(reg: byte): (bs: seq<byte>)
    ensures |bs| == 7
  {
    [0x48, 0x89, 0x85] + Slot(reg)
  }

  /** The first bytes of add, sub or imul of rax with a slot. */
  function SlotOpcode(op: AluOp): (bs: seq<byte>)
    ensures |bs| <= 4
  {
    match op
    case Add => [0x48, 0x03, 0x85]
    case Sub => [0x48, 0x2B, 0x85]
    case Mul => [0x48, 0x0F, 0xAF, 0x85]
    case Div => [0x48, 0xF7, 0xB5]
  }

  function EmitAlu(op: AluOp, reg: byte, reg2: byte): (bs: seq<byte>)
    ensures 3 <= |bs| <= 24
  {
    if reg < 4 && reg2 < 4 then
      match op
      case Add => [0x48, 0x01, AddModRM(reg, reg2)]
      case Sub => [0x48, 0x29, AddModRM(reg, reg2)]
      case Mul => [0x48, 0x0F, 0xAF, MulModRM(reg, reg2)]
      case Div =>
        [0x48, 0x89, if reg == 0 then 0xC0 else if reg == 1 then 0xD8 else if reg == 2 then 0xC8 else 0xD0] +
        [0x48, 0x31, 0xD2] +
        [0x48, 0xF7, if reg2 == 1 then 0xF3 else if reg2 == 2 then 0xF1 else if reg2 == 3 then 0xF2 else 0xF0]
    else
      match op
      case Div => LoadSlot(reg) + [0x48, 0x31, 0xD2] + (SlotOpcode(op) + Slot(reg2)) + StoreSlot(reg)
      case _ => LoadSlot(reg) + (SlotOpcode(op) + Slot(reg2)) + StoreSlot(reg)
  }

  /** The bytes emitted for one instruction. */
  function Emit(i: Instr): (bs: seq<byte>)
    ensures |bs| <= 24
  {
    match i
    case Nop => [0x90]
    case LoadImm(reg, imm) =>
      if reg < 4 then [MovOpcode(reg)] + Le4(imm) else [0xC7, 0x85] + Slot(reg) + Le4(imm)
    case Alu(op, reg, reg2) => EmitAlu(op, reg, reg2)
    case Halt => EPILOGUE
    case _ => []
  }

  // ----- the loop -----

  datatype Status = Generating | Finished | Rejected

  datatype Gen = Gen(pc: nat, out: seq<byte>, status: Status)

  const START: Gen := Gen(0, PROLOGUE, Generating)

  predicate GenOver(size: nat, g: Gen) {
    g.status != Generating || g.pc >= size || |g.out| >= BUFFER_SIZE - GUARD
  }

  /** Where the cursor goes on: both jumps are followed at once. */
  function NextPc(i: Instr, pc: nat): nat {
    if i.Jmp? || i.Jz? then i.addr else pc + Size(i)
  }

  function GenStep(code: Memory, g: Gen): Gen {
    var i := Fetch(code, g.pc);
    if i.Invalid? then g.(status := Rejected)
    else Gen(NextPc(i, g.pc), g.out + Emit(i), if i.Halt? then Finished else Generating)
  }

  function Generate(code: Memory, size: nat, g: Gen, n: nat): Gen
    decreases n
  {
    if n == 0 || GenOver(size, g) then g else Generate(code, size, GenStep(code, g), n - 1)
  }

  /** For every program, even one whose jumps make the generator go over the same bytes for ever,
      the emitted code never comes within 8 bytes of the end of the buffer. */
  lemma {:induction false} EmissionBound(code: Memory, size: nat, g: Gen, n: nat)
    requires |g.out| <= BUFFER_SIZE - GUARD + 23
    ensures |Generate(code, size, g, n).out| <= 4087
    decreases n
  {
    if n > 0 && !GenOver(size, g) {
      EmissionBound(code, size, GenStep(code, g), n - 1);
    }
  }

  /** What has been emitted is never changed later. */
  lemma {:induction false} OutputGrows(code: Memory, size: nat, g: Gen, n: nat)
    ensures g.out <= Generate(code, size, g, n).out
    decreases n
  {
    if n > 0 && !GenOver(size, g) {
      OutputGrows(code, size, GenStep(code, g), n - 1);
    }
  }

  /** Every jump below `size` goes forward. */
  ghost predicate JumpsForward(code: Memory, size: nat) {
    forall p: nat :: p < size && (Fetch(code, p).Jmp? || Fetch(code, p).Jz?) ==> Fetch(code, p).addr > p
  }

  /** Without backward jumps the generator stops. */
  lemma {:induction false} GeneratorStops(code: Memory, size: nat, g: Gen) returns (n: nat)
    requires JumpsForward(code, size)
    ensures GenOver(size, Generate(code, size, g, n))
    decreases g.status == Generating, size - g.pc
  {
    if GenOver(size, g) {
      n := 0;
    } else {
      var k := GeneratorStops(code, size, GenStep(code, g));
      n := k + 1;
    }
  }

  /** A jump to itself is enough to keep it from stopping, with nothing emitted after the prologue. */
  lemma {:induction false} SelfJumpNeverStops(code: Memory, size: nat, n: nat)
    requires size > 0 && Fetch(code, 0) == Jmp(0)
    ensures Generate(code, size, START, n) == START && !GenOver(size, START)
    decreases n
  {
    if n > 0 {
      assert START.out + [] == START.out;
      assert GenStep(code, START) == START;
      SelfJumpNeverStops(code, size, n - 1);
    }
  }

  lemma {:induction false} GenerateLast(code: Memory, size: nat, g: Gen, n: nat)
    requires !GenOver(size, Generate(code, size, g, n))
    ensures Generate(code, size, g, n + 1) == GenStep(code, Generate(code, size, g, n))
    decreases n
  {
    if n > 0 {
      GenerateLast(code, size, GenStep(code, g), n - 1);
    } else {
      assert Generate(code, size, g, 1) == Generate(code, size, GenStep(code, g), 0);
    }
  }

  // ----- how the loop ends, in terms of the bytes it reads -----

  /** Where the cursor goes from p, by the byte at p. */
  function NextOffset(code: Memory, p: nat): nat {
    var b := code(p);
    if b == 0 || b == 11 then p + 1
    else if 2 <= b <= 5 then p + 3
    else if b == 1 || b == 8 || b == 9 then p + 6
    else if b == 6 then Word(code, p + 1)
    else if b == 7 then Word(code, p + 2)
    else if b == 10 then p + 10
    else p
  }

  /** The offset of the n-th instruction the generator looks at. */
  function Cursor(code: Memory, n: nat): nat {
    if n == 0 then 0 else NextOffset(code, Cursor(code, n - 1))
  }

  lemma StepByByte(code: Memory, g: Gen)
    requires g.status == Generating
    ensures var r, b := GenStep(code, g), code(g.pc);
            r.pc == NextOffset(code, g.pc) && (r.status == Rejected <==> b > 11) && (r.status == Finished <==> b == 11)
  {
  }

  /** As long as the loop goes on, the cursor is where the bytes send it. */
  lemma {:induction false} CursorFollowsBytes(code: Memory, size: nat, n: nat)
    requires forall m: nat :: m < n ==> !GenOver(size, Generate(code, size, START, m))
    ensures Generate(code, size, START, n).pc == Cursor(code, n)
    decreases n
  {
    if n > 0 {
      CursorFollowsBytes(code, size, n - 1);
      GenerateLast(code, size, START, n - 1);
      StepByByte(code, Generate(code, size, START, n - 1));
    }
  }

  /** How the loop ends that ends after n iterations: with a rejection exactly if the last byte looked at
      is above 11, with success exactly if it is 11, and otherwise past the code or at the guard. */
  lemma EndsByByte(code: Memory, size: nat, n: nat)
    requires GenOver(size, Generate(code, size, START, n))
    requires forall m: nat :: m < n ==> !GenOver(size, Generate(code, size, START, m))
    ensures var g := Generate(code, size, START, n);
            (g.status == Rejected <==> n > 0 && code(Cursor(code, n - 1)) > 11) &&
            (g.status == Finished <==> n > 0 && code(Cursor(code, n - 1)) == 11) &&
            (g.status == Generating ==> Cursor(code, n) >= size || |g.out| >= 4064)
  {
    if n > 0 {
      CursorFollowsBytes(code, size, n - 1);
      GenerateLast(code, size, START, n - 1);
      StepByByte(code, Generate(code, size, START, n - 1));
    }
  }

  /** The loop comes upon a byte that is no opcode. */
  ghost predicate MeetsInvalid(code: Memory, size: nat, m: nat) {
    var g := Generate(code, size, START, m);
    g.status == Generating && g.pc < size && |g.out| < 4064 && code(g.pc) > 11
  }

  lemma {:induction false} OverStaysOver(code: Memory, size: nat, g: Gen, m: nat, n: nat)
    requires GenOver(size, Generate(code, size, g, m)) && m <= n
    ensures Generate(code, size, g, n) == Generate(code, size, g, m)
    decreases m
  {
    if m > 0 && !GenOver(size, g) {
      OverStaysOver(code, size, GenStep(code, g), m - 1, n - 1);
    }
  }

  /** An ended loop has rejected the program if and only if it has come upon such a byte. */
  lemma {:induction false} RejectedIffMeetsInvalid(code: Memory, size: nat, n: nat)
    requires GenOver(size, Generate(code, size, START, n))
    ensures Generate(code, size, START, n).status == Rejected <==> exists m: nat :: MeetsInvalid(code, size, m)
    decreases n
  {
    if n > 0 && GenOver(size, Generate(code, size, START, n - 1)) {
      OverStaysOver(code, size, START, n - 1, n);
      RejectedIffMeetsInvalid(code, size, n - 1);
    } else {
      EndStatus(code, size, n);
    }
  }

  lemma EndStatus(code: Memory, size: nat, n: nat)
    requires GenOver(size, Generate(code, size, START, n))
    requires n > 0 ==> !GenOver(size, Generate(code, size, START, n - 1))
    ensures Generate(code, size, START, n).status == Rejected <==> exists m: nat :: MeetsInvalid(code, size, m)
  {
    forall m: nat | MeetsInvalid(code, size, m)
      ensures n == m + 1 && Generate(code, size, START, n).status == Rejected
    {
      GenerateLast(code, size, START, m);
      StepByByte(code, Generate(code, size, START, m));
      if n <= m {
        OverStaysOver(code, size, START, n, m);
      } else if m + 1 < n {
        OverStaysOver(code, size, START, m + 1, n - 1);
      }
    }
    if n > 0 {
      GenerateLast(code, size, START, n - 1);
      StepByByte(code, Generate(code, size, START, n - 1));
      if Generate(code, size, START, n).status == Rejected {
        assert MeetsInvalid(code, size, n - 1);
      }
    }
  }

  /** The bytes emitted for a division, which no theorem about their meaning covers. */
  lemma DivisionBytes(reg: byte, reg2: byte)
    ensures reg < 4 && reg2 < 4 ==>
              EmitAlu(Div, reg, reg2) ==
              [0x48, 0x89, [0xC0, 0xD8, 0xC8, 0xD0][reg], 0x48, 0x31, 0xD2, 0x48, 0xF7, [0xF0, 0xF3, 0xF1, 0xF2][reg2]]
    ensures !(reg < 4 && reg2 < 4) ==>
              EmitAlu(Div, reg, reg2) ==
              [0x48, 0x8B, 0x85] + Slot(reg) + [0x48, 0x31, 0xD2] + [0x48, 0xF7, 0xB5] + Slot(reg2) +
              [0x48, 0x89, 0x85] + Slot(reg)
  {
  }

  // ----- the generator as the kernel runs it -----

  /** The emission buffer with its cursor `e`. Every write is checked against its 4096 bytes. */
  class Emitter {
    const emit: array<byte>
    var e: nat

    constructor ()
      ensures Valid() && e == 0 && fresh(emit)
    {
      emit := new byte[BUFFER_SIZE];
      e := 0;
    }

    ghost predicate Valid()
      reads this
    {
      emit.Length == BUFFER_SIZE && e <= BUFFER_SIZE
    }

    ghost function Out(): seq<byte>
      requires Valid()
      reads this, emit
    {
      emit[..e]
    }

    /** Writes the bytes one after the other, moving the cursor on. */
    method Put(bs: seq<byte>)
      requires Valid() && e + |bs| <= BUFFER_SIZE
      modifies this, emit
      ensures Valid() && Out() == old(Out()) + bs
    {
      for k := 0 to |bs|
        invariant Valid() && e == old(e) + k
        invariant Out() == old(Out()) + bs[..k]
      {
        emit[e] := bs[k];
        e := e + 1;
      }
    }
  }

  method PutSlot(em: Emitter, reg: byte)
    requires em.Valid() && em.e + 4 <= BUFFER_SIZE
    modifies em, em.emit
    ensures em.Valid() && em.Out() == old(em.Out()) + Slot(reg)
  {
    var off := -8 * (reg as int);
    em.Put(Le4(Wrap32(off)));
  }

  method GenLoadImm(em: Emitter, reg: byte, imm: u32)
    requires em.Valid() && em.e + 24 <= BUFFER_SIZE
    modifies em, em.emit
    ensures em.Valid() && em.Out() == old(em.Out()) + Emit(LoadImm(reg, imm))
  {
    ghost var before := em.Out();
    if reg < 4 {
      em.Put([MovOpcode(reg)]);
      em.Put(Le4(imm));
      ConcatThree(before, [MovOpcode(reg)], Le4(imm), []);
    } else {
      em.Put([0xC7, 0x85]);
      PutSlot(em, reg);
      em.Put(Le4(imm));
      ConcatThree(before, [0xC7, 0x85], Slot(reg), Le4(imm));
    }
  }

  method GenLowAlu(em: Emitter, op: AluOp, reg: byte, reg2: byte)
    requires em.Valid() && em.e + 24 <= BUFFER_SIZE
    requires reg < 4 && reg2 < 4
    modifies em, em.emit
    ensures em.Valid() && em.Out() == old(em.Out()) + EmitAlu(op, reg, reg2)
  {
    match op
    case Add =>
      em.Put([0x48, 0x01]);
      em.Put([AddModRM(reg, reg2)]);
    case Sub =>
      em.Put([0x48, 0x29]);
      em.Put([AddModRM(reg, reg2)]);
    case Mul =>
      em.Put([0x48, 0x0F, 0xAF]);
      em.Put([MulModRM(reg, reg2)]);
    case Div =>
      em.Put([0x48, 0x89, if reg == 0 then 0xC0 else if reg == 1 then 0xD8 else if reg == 2 then 0xC8 else 0xD0]);
      em.Put([0x48, 0x31, 0xD2]);
      em.Put([0x48, 0xF7, if reg2 == 1 then 0xF3 else if reg2 == 2 then 0xF1 else if reg2 == 3 then 0xF2 else 0xF0]);
  }

  /** An instruction that addresses the slot of `reg`. */
  method PutWithSlot(em: Emitter, opcode: seq<byte>, reg: byte)
    requires em.Valid() && em.e + |opcode| + 4 <= BUFFER_SIZE
    modifies em, em.emit
    ensures em.Valid() && em.Out() == old(em.Out()) + (opcode + Slot(reg))
  {
    em.Put(opcode);
    PutSlot(em, reg);
  }

  method PutLoadSlot(em: Emitter, reg: byte)
    requires em.Valid() && em.e + 7 <= BUFFER_SIZE
    modifies em, em.emit
    ensures em.Valid() && em.Out() == old(em.Out()) + LoadSlot(reg)
  {
    PutWithSlot(em, [0x48, 0x8B, 0x85], reg);
  }

  method PutStoreSlot(em: Emitter, reg: byte)
    requires em.Valid() && em.e + 7 <= BUFFER_SIZE
    modifies em, em.emit
    ensures em.Valid() && em.Out() == old(em.Out()) + StoreSlot(reg)
  {
    PutWithSlot(em, [0x48, 0x89, 0x85], reg);
  }

  lemma Concat4(p: seq<byte>, a: seq<byte>, b: seq<byte>, c: seq<byte>, d: seq<byte>)
    ensures p + a + b + c + d == p + (a + b + c + d)
  {
  }

  method GenSlotAlu(em: Emitter, op: AluOp, reg: byte, reg2: byte)
    requires em.Valid() && em.e + 24 <= BUFFER_SIZE
    requires !(reg < 4 && reg2 < 4)
    modifies em, em.emit
    ensures em.Valid() && em.Out() == old(em.Out()) + EmitAlu(op, reg, reg2)
  {
    ghost var before := em.Out();
    PutLoadSlot(em, reg);
    if op == Div {
      em.Put([0x48, 0x31, 0xD2]);
    }
    PutWithSlot(em, SlotOpcode(op), reg2);
    PutStoreSlot(em, reg);
    ConcatThree(before, LoadSlot(reg), SlotOpcode(op) + Slot(reg2), StoreSlot(reg));
    Concat4(before, LoadSlot(reg), [0x48, 0x31, 0xD2], SlotOpcode(op) + Slot(reg2), StoreSlot(reg));
  }

  method GenAlu(em: Emitter, op: AluOp, reg: byte, reg2: byte)
    requires em.Valid() && em.e + 24 <= BUFFER_SIZE
    modifies em, em.emit
    ensures em.Valid() && em.Out() == old(em.Out()) + EmitAlu(op, reg, reg2)
  {
    if reg < 4 && reg2 < 4 {
      GenLowAlu(em, op, reg, reg2);
    } else {
      GenSlotAlu(em, op, reg, reg2);
    }
  }

  /** One iteration: a `switch` on the opcode at `pc`. */
  method GenOne(em: Emitter, code: Memory, pc: nat) returns (next: nat, status: Status)
    requires em.Valid() && em.e < BUFFER_SIZE - GUARD
    modifies em, em.emit
    ensures em.Valid()
    ensures Gen(next, em.Out(), status) == GenStep(code, Gen(pc, old(em.Out()), Generating))
  {
    var op := code(pc);
    next, status := pc + 1, Generating;
    if op == OP_NOP {
      em.Put([0x90]);
    } else if op == OP_LOAD_IMM {
      GenLoadImm(em, code(pc + 1), Word(code, pc + 2));
      next := next + 5;
    } else if op == OP_ADD {
      GenAlu(em, Add, code(pc + 1), code(pc + 2));
      next := next + 2;
    } else if op == OP_SUB {
      GenAlu(em, Sub, code(pc + 1), code(pc + 2));
      next := next + 2;
    } else if op == OP_MUL {
      GenAlu(em, Mul, code(pc + 1), code(pc + 2));
      next := next + 2;
    } else if op == OP_DIV {
      GenAlu(em, Div, code(pc + 1), code(pc + 2));
      next := next + 2;
    } else if op == OP_JMP {
      next := Word(code, pc + 1);
    } else if op == OP_JZ {
      next := Word(code, pc + 2);
    } else if op == OP_LOAD || op == OP_STORE {
      next := next + 5;
    } else if op == OP_SYSCALL {
      next := next + 9;
    } else if op == OP_HALT {
      em.Put(EPILOGUE);
      status := Finished;
    } else {
      next, status := pc, Rejected;
    }
  }

  method PutPrologue(em: Emitter)
    requires em.Valid() && em.e == 0
    modifies em, em.emit
    ensures em.Valid() && em.Out() == PROLOGUE
  {
    em.Put([0x55]);
    em.Put([0x48, 0x89, 0xE5]);
    em.Put([0x48, 0x81, 0xEC, 0x00, 0x04, 0x00, 0x00]);
  }

  lemma GenerateNext(code: Memory, size: nat, g: Gen, n: nat)
    requires !GenOver(size, g) && GenOver(size, Generate(code, size, g, n))
    ensures n > 0 && Generate(code, size, g, n) == Generate(code, size, GenStep(code, g), n - 1)
  {
  }

  /** The loop over the bytecode; `n` bounds its iterations. */
  method GenLoop(em: Emitter, code: Memory, size: nat, ghost n: nat) returns (status: Status)
    requires em.Valid() && GenOver(size, Generate(code, size, Gen(0, em.Out(), Generating), n))
    modifies em, em.emit
    ensures em.Valid()
    ensures var g := Generate(code, size, Gen(0, old(em.Out()), Generating), n);
            status == g.status && em.Out() == g.out
  {
    ghost var g := Gen(0, em.Out(), Generating);
    ghost var goal := Generate(code, size, g, n);
    var pc: nat := 0;
    status := Generating;
    ghost var left: nat := n;
    while status == Generating && pc < size && em.e < BUFFER_SIZE - GUARD
      invariant em.Valid() && g == Gen(pc, em.Out(), status)
      invariant Generate(code, size, g, left) == goal && GenOver(size, goal)
      decreases left
    {
      GenerateNext(code, size, g, left);
      pc, status := GenOne(em, code, pc);
      g := Gen(pc, em.Out(), status);
      left := left - 1;
    }
  }

  /** `jit_backend_x86_64` up to the execution of the code, on every program on which its loop ends. */
  method GenerateCode(code: Memory, size: nat, ghost n: nat) returns (em: Emitter, ok: bool)
    requires GenOver(size, Generate(code, size, START, n))
    ensures fresh(em) && fresh(em.emit) && em.Valid()
    ensures size == 0 ==> !ok
    ensures var g := Generate(code, size, START, n);
            size > 0 ==> ok == (g.status != Rejected) && em.Out() == g.out
    ensures size > 0 ==> (ok <==> !exists m: nat :: MeetsInvalid(code, size, m))
    ensures size > 0 && code(0) > 11 ==> !ok
  {
    em := new Emitter();
    if size == 0 {
      return em, false;
    }
    PutPrologue(em);
    var status := GenLoop(em, code, size, n);
    ok := status != Rejected;
    RejectedIffMeetsInvalid(code, size, n);
    assert Generate(code, size, START, 0) == START;
    assert code(0) > 11 ==> MeetsInvalid(code, size, 0);
  }
}

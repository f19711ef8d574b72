/** The instruction set of the portable VM: the byte format that the interpreter and all
    back ends read, an assembler for it, and a disassembler. */
module Bytecode {
  import opened Words

  const MAX_REGS := 16
  const MAX_STACK := 256

  const OP_NOP: byte := 0
  const OP_LOAD_IMM: byte := 1
  const OP_ADD: byte := 2
  const OP_SUB: byte := 3
  const OP_MUL: byte := 4
  const OP_DIV: byte := 5
  const OP_JMP: byte := 6
  const OP_JZ: byte := 7
  const OP_LOAD: byte := 8
  const OP_STORE: byte := 9
  const OP_SYSCALL: byte := 10
  const OP_HALT: byte := 11

  datatype AluOp = Add | Sub | Mul | Div

  datatype Instr =
    | Nop
    | LoadImm(reg: byte, imm: u32)
    | Alu(op: AluOp, dst: byte, src: byte)
    | Jmp(addr: u32)
    | Jz(reg: byte, addr: u32)
    | Load(reg: byte, addr: u32)
    | Store(reg: byte, addr: u32)
    | Syscall(id: byte, arg0: u32, arg1: u32)
    | Halt
    | Invalid(opcode: byte)

  /** Number of code bytes an instruction occupies. */
  function Size(i: Instr): (n: nat)
    ensures 1 <= n <= 10
  {
    match i
    case Nop => 1
    case LoadImm(_, _) => 6
    case Alu(_, _, _) => 3
    case Jmp(_) => 5
    case Jz(_, _) => 6
    case Load(_, _) => 6
    case Store(_, _) => 6
    case Syscall(_, _, _) => 10
    case Halt => 1
    case Invalid(_) => 1
  }

  /** Reads the instruction whose opcode is at p0, whose next two operand bytes are at p1 and p2,
      and whose second word operand (of a system call) is at p6. The interpreter advances a
      32-bit `pc`, the back ends a 64-bit one, so they differ in where p1, p2 and p6 are. */
  function DecodeAt(m: Memory, p0: int, p1: int, p2: int, p6: int): Instr {
    var op := m(p0);
    if op == OP_NOP then Nop
    else if op == OP_LOAD_IMM then LoadImm(m(p1), Word(m, p2))
    else if op == OP_ADD then Alu(Add, m(p1), m(p2))
    else if op == OP_SUB then Alu(Sub, m(p1), m(p2))
    else if op == OP_MUL then Alu(Mul, m(p1), m(p2))
    else if op == OP_DIV then Alu(Div, m(p1), m(p2))
    else if op == OP_JMP then Jmp(Word(m, p1))
    else if op == OP_JZ then Jz(m(p1), Word(m, p2))
    else if op == OP_LOAD then Load(m(p1), Word(m, p2))
    else if op == OP_STORE then Store(m(p1), Word(m, p2))
    else if op == OP_SYSCALL then Syscall(m(p1), Word(m, p2), Word(m, p6))
    else if op == OP_HALT then Halt
    else Invalid(op)
  }

  /** Decoding with a cursor that does not wrap around. */
  function Fetch(m: Memory, p: int): Instr {
    DecodeAt(m, p, p + 1, p + 2, p + 6)
  }

  predicate Encodable(i: Instr) {
    i.Invalid? ==> i.opcode > OP_HALT
  }

  function AluOpcode(op: AluOp): byte {
    match op
    case Add => OP_ADD
    case Sub => OP_SUB
    case Mul => OP_MUL
    case Div => OP_DIV
  }

  function Encode(i: Instr): (bs: seq<byte>)
    ensures |bs| == Size(i)
  {
    match i
    case Nop => [OP_NOP]
    case LoadImm(reg, imm) => [OP_LOAD_IMM, reg] + Le4(imm)
    case Alu(op, dst, src) => [AluOpcode(op), dst, src]
    case Jmp(addr) => [OP_JMP] + Le4(addr)
    case Jz(reg, addr) => [OP_JZ, reg] + Le4(addr)
    case Load(reg, addr) => [OP_LOAD, reg] + Le4(addr)
    case Store(reg, addr) => [OP_STORE, reg] + Le4(addr)
    case Syscall(id, arg0, arg1) => [OP_SYSCALL, id] + Le4(arg0) + Le4(arg1)
    case Halt => [OP_HALT]
    case Invalid(op) => [op]
  }

  lemma HoldsTwo(m: Memory, p: int, b: byte, c: byte)
    ensures Holds(m, p, [b, c]) <==> m(p) == b && m(p + 1) == c
  {
    if Holds(m, p, [b, c]) {
      assert m(p + 0) == [b, c][0] && m(p + 1) == [b, c][1];
    }
  }

  lemma HoldsRegWord(m: Memory, p: int, op: byte, reg: byte, v: u32)
    ensures Holds(m, p, [op, reg] + Le4(v)) <==> m(p) == op && m(p + 1) == reg && Word(m, p + 2) == v
  {
    HoldsConcat(m, p, [op, reg], Le4(v));
    HoldsTwo(m, p, op, reg);
    Le4Word(m, p + 2, v);
  }

  lemma HoldsOpWord(m: Memory, p: int, op: byte, v: u32)
    ensures Holds(m, p, [op] + Le4(v)) <==> m(p) == op && Word(m, p + 1) == v
  {
    HoldsConcat(m, p, [op], Le4(v));
    HoldsOne(m, p, op);
    Le4Word(m, p + 1, v);
  }

  lemma HoldsThree(m: Memory, p: int, a: byte, b: byte, c: byte)
    ensures Holds(m, p, [a, b, c]) <==> m(p) == a && m(p + 1) == b && m(p + 2) == c
  {
    if Holds(m, p, [a, b, c]) {
      assert m(p + 0) == [a, b, c][0] && m(p + 1) == [a, b, c][1] && m(p + 2) == [a, b, c][2];
    }
  }

  lemma HoldsFour(m: Memory, p: int, a: byte, b: byte, c: byte, d: byte)
    ensures Holds(m, p, [a, b, c, d]) <==> m(p) == a && m(p + 1) == b && m(p + 2) == c && m(p + 3) == d
  {
    var bs := [a, b, c, d];
    if Holds(m, p, bs) {
      assert m(p + 0) == bs[0] && m(p + 1) == bs[1] && m(p + 2) == bs[2] && m(p + 3) == bs[3];
    }
  }

  lemma HoldsSyscall(m: Memory, p: int, id: byte, v: u32, w: u32)
    ensures Holds(m, p, [OP_SYSCALL, id] + Le4(v) + Le4(w)) <==>
            m(p) == OP_SYSCALL && m(p + 1) == id && Word(m, p + 2) == v && Word(m, p + 6) == w
  {
    HoldsRegWord(m, p, OP_SYSCALL, id, v);
    HoldsConcat(m, p, [OP_SYSCALL, id] + Le4(v), Le4(w));
    Le4Word(m, p + 6, w);
  }

  /** Decoding and encoding are inverse: memory holds the encoding of `i` exactly when `i` is what
      the fetch at that address returns. */
  lemma FetchInvertsEncode(m: Memory, p: int, i: Instr)
    requires Encodable(i)
    ensures Holds(m, p, Encode(i)) <==> Fetch(m, p) == i
  {
    match i
    case Nop => HoldsOne(m, p, OP_NOP);
    case LoadImm(reg, imm) => HoldsRegWord(m, p, OP_LOAD_IMM, reg, imm);
    case Alu(op, dst, src) => HoldsThree(m, p, AluOpcode(op), dst, src);
    case Jmp(addr) => HoldsOpWord(m, p, OP_JMP, addr);
    case Jz(reg, addr) => HoldsRegWord(m, p, OP_JZ, reg, addr);
    case Load(reg, addr) => HoldsRegWord(m, p, OP_LOAD, reg, addr);
    case Store(reg, addr) => HoldsRegWord(m, p, OP_STORE, reg, addr);
    case Syscall(id, arg0, arg1) => HoldsSyscall(m, p, id, arg0, arg1);
    case Halt => HoldsOne(m, p, OP_HALT);
    case Invalid(op) => HoldsOne(m, p, op);
  }

  // ----- whole programs -----

  type Program = seq<Instr>

  predicate EncodableProgram(prog: Program) {
    forall k :: 0 <= k < |prog| ==> Encodable(prog[k])
  }

  function Assemble(prog: Program): seq<byte> {
    if prog == [] then [] else Encode(prog[0]) + Assemble(prog[1..])
  }

  /** Byte offset of instruction `k`; Offset(prog, |prog|) is the program's size in bytes. */
  function Offset(prog: Program, k: nat): nat
    requires k <= |prog|
  {
    if k == 0 then 0 else Size(prog[0]) + Offset(prog[1..], k - 1)
  }

  /** Reads instructions from p until exactly `end`; None if the last one sticks out. */
  function Disassemble(m: Memory, p: int, end: int): Option<Program>
    decreases end - p
  {
    if p == end then Some([])
    else if p > end then None
    else
      var i := Fetch(m, p);
      match Disassemble(m, p + Size(i), end)
      case None => None
      case Some(rest) => Some([i] + rest)
  }

  /** The disassembler inverts the assembler, in both directions. */
  lemma {:induction false} DisassembleIffAssembled(m: Memory, p: int, end: int, prog: Program)
    requires EncodableProgram(prog)
    ensures Disassemble(m, p, end) == Some(prog) <==>
            end == p + |Assemble(prog)| && Holds(m, p, Assemble(prog))
    decreases |prog|
  {
    if prog == [] {
      if p < end {
        assert Disassemble(m, p, end) != Some([]);
      }
    } else {
      var i, rest := prog[0], prog[1..];
      assert prog == [i] + rest;
      assert EncodableProgram(rest);
      FetchInvertsEncode(m, p, i);
      HoldsConcat(m, p, Encode(i), Assemble(rest));
      DisassembleIffAssembled(m, p + Size(i), end, rest);
      if p < end {
        var j := Fetch(m, p);
        var tail := Disassemble(m, p + Size(j), end);
        if tail.Some? {
          assert ([j] + tail.value)[0] == j && ([j] + tail.value)[1..] == tail.value;
        }
      }
    }
  }

  lemma FetchIsEncodable(m: Memory, p: int)
    ensures Encodable(Fetch(m, p))
  {
  }

  /** Every range of code bytes that disassembles is the encoding of what it disassembles to. */
  lemma {:induction false} DisassembleEncodable(m: Memory, p: int, end: int)
    ensures Disassemble(m, p, end).Some? ==> EncodableProgram(Disassemble(m, p, end).value)
    decreases end - p
  {
    if p < end {
      DisassembleEncodable(m, p + Size(Fetch(m, p)), end);
    }
  }

  /** In any memory, every range that disassembles is the assembled form of its disassembly. */
  lemma DisassembledIsAssembled(m: Memory, p: int, end: int)
    ensures var d := Disassemble(m, p, end);
            d.Some? ==> end == p + |Assemble(d.value)| && Holds(m, p, Assemble(d.value))
  {
    var d := Disassemble(m, p, end);
    if d.Some? {
      DisassembleEncodable(m, p, end);
      DisassembleIffAssembled(m, p, end, d.value);
    }
  }

  lemma {:induction false} OffsetNext(prog: Program, k: nat)
    requires k < |prog|
    ensures Offset(prog, k + 1) == Offset(prog, k) + Size(prog[k])
  {
    if k > 0 {
      OffsetNext(prog[1..], k - 1);
    }
  }

  lemma {:induction false} OffsetMonotone(prog: Program, j: nat, k: nat)
    requires j < k <= |prog|
    ensures Offset(prog, j) + Size(prog[j]) <= Offset(prog, k)
    decreases k
  {
    OffsetNext(prog, k - 1);
    if j < k - 1 {
      OffsetMonotone(prog, j, k - 1);
    }
  }

  /** In memory holding an assembled program, the fetch at offset k is instruction k. */
  lemma {:induction false} FetchAtOffset(m: Memory, p: int, prog: Program, k: nat)
    requires EncodableProgram(prog) && k < |prog|
    requires Holds(m, p, Assemble(prog))
    ensures Fetch(m, p + Offset(prog, k)) == prog[k]
    decreases |prog|
  {
    HoldsConcat(m, p, Encode(prog[0]), Assemble(prog[1..]));
    if k == 0 {
      FetchInvertsEncode(m, p, prog[0]);
    } else {
      FetchAtOffset(m, p + Size(prog[0]), prog[1..], k - 1);
    }
  }
}

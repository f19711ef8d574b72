/** What `vm_run` computes, stated of programs in bytes: every opcode by a program that contains it, and
    a loop. */
module Programs {
  import opened Words
  import opened Bytecode
  import opened Vm
  import opened Recovery

  /** The VM stands at the beginning of these bytes, which are its whole code. */
  ghost predicate Loaded(w: World, m: Machine, bytes: seq<byte>) {
    m.vm.pc == 0 && m.vm.size == |bytes| && Holds(w.code, 0, bytes)
  }

  /** `vm_run` on m returns with the VM in state t. */
  ghost predicate Ends(w: World, m: Machine, t: VmState) {
    Returns(EngineOf(w), m, Enter(m).(vm := t))
  }

  // ----- chains of iterations -----

  /** n iterations lead from s to t, without a fault. */
  ghost predicate Leads(w: World, s: VmState, n: nat, t: VmState) {
    t == Iterate(w, s, n) && NoFaults(w, s, n)
  }

  lemma LeadsOne(w: World, s: VmState, i: Instr)
    requires !Stopped(s) && s.size + 10 < TWO32 && Fetch(w.code, s.pc) == i && !i.Invalid?
    ensures Leads(w, s, 1, Exec(w, s, i))
    ensures Branch(i, s.data) == None ==> Exec(w, s, i).pc == s.pc + Size(i)
  {
    FetchWrappedIsFetch(w.code, s.pc);
    WrapSmall(s.pc + Size(i));
    assert Iterate(w, s, 1) == Iterate(w, Step(w, s), 0);
    assert NoFaults(w, Step(w, s), 0);
  }

  /** The state after the next iteration, and whether that iteration meets a fault. */
  lemma NextIteration(w: World, s: VmState) returns (next: VmState, fault: bool)
    requires !Stopped(s)
    ensures forall n: nat :: n > 0 ==> Iterate(w, s, n) == Iterate(w, next, n - 1)
    ensures forall n: nat :: n > 0 ==> (NoFaults(w, s, n) <==> !fault && NoFaults(w, next, n - 1))
  {
    next, fault := Step(w, s), Faults(w, s);
  }

  lemma {:induction false} LeadsOn(w: World, s: VmState, j: nat, t: VmState, k: nat, u: VmState)
    requires Leads(w, s, j, t) && Leads(w, t, k, u)
    ensures Leads(w, s, j + k, u)
    decreases j
  {
    if j > 0 && !Stopped(s) {
      var next, fault := NextIteration(w, s);
      LeadsOn(w, next, j - 1, t, k, u);
    }
  }

  lemma LeadsToEnd(w: World, m: Machine, n: nat, t: VmState)
    requires Leads(w, Enter(m).vm, n, t) && Stopped(t)
    ensures Ends(w, m, t)
  {
    FaultFreeRun(w, m, n);
  }

  /** An instruction that does not jump or end the run, and a HALT behind it. */
  lemma OneThenHalt(w: World, s: VmState, i: Instr) returns (t: VmState)
    requires !s.data.halted && s.size + 10 < TWO32 && s.pc + Size(i) + 1 == s.size && !i.Invalid?
    requires Fetch(w.code, s.pc) == i && Fetch(w.code, s.pc + Size(i)) == Halt
    requires Branch(i, s.data) == None && !Effect(i, s.data, w.time).halted
    ensures t == s.(data := Effect(i, s.data, w.time).(halted := true), pc := s.size) && Leads(w, s, 2, t)
  {
    LeadsOne(w, s, i);
    var u := Exec(w, s, i);
    LeadsOne(w, u, Halt);
    t := Exec(w, u, Halt);
    LeadsOn(w, s, 1, u, 1, t);
  }

  // ----- arithmetic -----

  lemma WrapCongruent(x: int)
    ensures (Wrap32(x) - x) % 0x1_0000_0000 == 0
  {
    DivModIs(x, TWO32);
    ModShift(0, -(x / TWO32), TWO32);
    assert (-(x / TWO32)) * TWO32 == -(x / TWO32 * TWO32);
  }

  lemma QuotientBounds(x: nat, y: nat)
    requires y > 0
    ensures x / y * y <= x < (x / y + 1) * y
  {
    DivModIs(x, y);
    Distribute(x / y, 1, y);
  }

  /** The result v of an opcode on x and y, in words of 32 bits. */
  predicate Computes(opcode: byte, x: u32, y: u32, v: u32) {
    (opcode == 2 ==> (v - (x + y)) % 0x1_0000_0000 == 0) &&
    (opcode == 3 ==> (v - (x - y)) % 0x1_0000_0000 == 0) &&
    (opcode == 4 ==> (v - x * y) % 0x1_0000_0000 == 0) &&
    (opcode == 5 ==> if y == 0 then v == x else v * y <= x < (v + 1) * y)
  }

  function OpOf(opcode: byte): AluOp
    requires 2 <= opcode <= 5
  {
    if opcode == 2 then Add else if opcode == 3 then Sub else if opcode == 4 then Mul else Div
  }

  lemma FetchArithmetic(c: Memory, opcode: byte, a: byte, b: byte)
    requires 2 <= opcode <= 5 && Holds(c, 0, [opcode, a, b, 11])
    ensures Fetch(c, 0) == Alu(OpOf(opcode), a, b)
    ensures Fetch(c, 3) == Halt
  {
    HoldsFour(c, 0, opcode, a, b, 11);
  }

  lemma ResultComputes(op: AluOp, x: u32, y: u32)
    requires op.Div? ==> y != 0
    ensures Computes(AluOpcode(op), x, y, AluResult(op, x, y))
  {
    match op
    case Add => WrapCongruent(x + y);
    case Sub => WrapCongruent(x - y);
    case Mul => WrapCongruent(x * y);
    case Div => QuotientBounds(x, y);
  }

  /** The opcodes 2 to 5 add, subtract, multiply and divide words; a division by zero, and a register
      number above 15, change nothing. */
  lemma ArithmeticComputes(w: World, m: Machine, opcode: byte, a: byte, b: byte) returns (t: VmState)
    requires 2 <= opcode <= 5 && Loaded(w, m, [opcode, a, b, 11])
    ensures Ends(w, m, t) && t.data.halted && t.data.stack == m.vm.data.stack
    ensures var x, v := m.vm.data.regs, t.data.regs;
            if a < 16 && b < 16 then Computes(opcode, x[a], x[b], v[a]) && v == x[a := v[a]] else v == x
  {
    FetchArithmetic(w.code, opcode, a, b);
    var i := Fetch(w.code, 0);
    t := OneThenHalt(w, Enter(m).vm, i);
    LeadsToEnd(w, m, 2, t);
    if a < 16 && b < 16 && !(i.op.Div? && m.vm.data.regs[b] == 0) {
      ResultComputes(i.op, m.vm.data.regs[a], m.vm.data.regs[b]);
    }
  }

  // ----- immediate values, memory -----

  /** The word of four bytes, least significant first. */
  function FromBytes(a: byte, b: byte, c: byte, d: byte): u32 {
    var v: int := a as int + 0x100 * (b as int) + 0x1_0000 * (c as int) + 0x100_0000 * (d as int);
    v
  }

  lemma WordAt(m: Memory, p: int, a: byte, b: byte, c: byte, d: byte)
    requires m(p) == a && m(p + 1) == b && m(p + 2) == c && m(p + 3) == d
    ensures Word(m, p) == FromBytes(a, b, c, d)
  {
    assert LeNumber(m, p + 4, 0) == 0;
    assert LeNumber(m, p + 3, 1) == d;
    assert LeNumber(m, p + 2, 2) == c + 256 * LeNumber(m, p + 3, 1);
    assert LeNumber(m, p + 1, 3) == b + 256 * LeNumber(m, p + 2, 2);
    assert LeNumber(m, p, 4) == a + 256 * LeNumber(m, p + 1, 3);
  }

  lemma ByteAt(c: Memory, bytes: seq<byte>, k: nat)
    requires Holds(c, 0, bytes) && k < |bytes|
    ensures c(k) == bytes[k]
  {
    assert c(0 + k) == bytes[k];
  }

  /** An instruction of a register and a word, at the beginning of the code. */
  lemma RegWordAt(c: Memory, bytes: seq<byte>, p: nat)
    requires Holds(c, 0, bytes) && p + 6 <= |bytes|
    ensures c(p) == bytes[p] && c(p + 1) == bytes[p + 1]
    ensures Word(c, p + 2) == FromBytes(bytes[p + 2], bytes[p + 3], bytes[p + 4], bytes[p + 5])
  {
    ByteAt(c, bytes, p);
    ByteAt(c, bytes, p + 1);
    ByteAt(c, bytes, p + 2);
    ByteAt(c, bytes, p + 3);
    ByteAt(c, bytes, p + 4);
    ByteAt(c, bytes, p + 5);
    WordAt(c, p + 2, bytes[p + 2], bytes[p + 3], bytes[p + 4], bytes[p + 5]);
  }

  /** Opcode 1 loads the four bytes behind the register number. */
  lemma ImmediateLoads(w: World, m: Machine, reg: byte, a: byte, b: byte, c: byte, d: byte) returns (t: VmState)
    requires Loaded(w, m, [1, reg, a, b, c, d, 11])
    ensures Ends(w, m, t) && t.data.halted && t.data.stack == m.vm.data.stack
    ensures t.data.regs == if reg < 16 then m.vm.data.regs[reg := FromBytes(a, b, c, d)] else m.vm.data.regs
  {
    RegWordAt(w.code, [1, reg, a, b, c, d, 11], 0);
    ByteAt(w.code, [1, reg, a, b, c, d, 11], 6);
    t := OneThenHalt(w, Enter(m).vm, LoadImm(reg, FromBytes(a, b, c, d)));
    LeadsToEnd(w, m, 2, t);
  }

  /** Opcode 9 writes a register to a cell of the stack, if there is such a register and cell. */
  lemma StoreWrites(w: World, m: Machine, reg: byte, a: byte, b: byte, c: byte, d: byte) returns (t: VmState)
    requires Loaded(w, m, [9, reg, a, b, c, d, 11])
    ensures Ends(w, m, t) && t.data.halted && t.data.regs == m.vm.data.regs
    ensures var cell := FromBytes(a, b, c, d);
            t.data.stack == if reg < 16 && cell < 256 then m.vm.data.stack[cell := m.vm.data.regs[reg]]
                            else m.vm.data.stack
  {
    RegWordAt(w.code, [9, reg, a, b, c, d, 11], 0);
    ByteAt(w.code, [9, reg, a, b, c, d, 11], 6);
    t := OneThenHalt(w, Enter(m).vm, Store(reg, FromBytes(a, b, c, d)));
    LeadsToEnd(w, m, 2, t);
  }

  /** Opcode 8 reads one. */
  lemma LoadReads(w: World, m: Machine, reg: byte, a: byte, b: byte, c: byte, d: byte) returns (t: VmState)
    requires Loaded(w, m, [8, reg, a, b, c, d, 11])
    ensures Ends(w, m, t) && t.data.halted && t.data.stack == m.vm.data.stack
    ensures var cell := FromBytes(a, b, c, d);
            t.data.regs == if reg < 16 && cell < 256 then m.vm.data.regs[reg := m.vm.data.stack[cell]]
                           else m.vm.data.regs
  {
    RegWordAt(w.code, [8, reg, a, b, c, d, 11], 0);
    ByteAt(w.code, [8, reg, a, b, c, d, 11], 6);
    t := OneThenHalt(w, Enter(m).vm, Load(reg, FromBytes(a, b, c, d)));
    LeadsToEnd(w, m, 2, t);
  }

  /** What is stored is what is loaded: the value of r gets into s through a cell, and nothing else
      changes but that cell. */
  lemma StoredIsLoaded(w: World, m: Machine, r: byte, s: byte, cell: byte) returns (t: VmState)
    requires r < 16 && s < 16 && Loaded(w, m, [9, r, cell, 0, 0, 0, 8, s, cell, 0, 0, 0, 11])
    ensures Ends(w, m, t) && t.data.halted
    ensures t.data.regs == m.vm.data.regs[s := m.vm.data.regs[r]]
    ensures t.data.stack == m.vm.data.stack[cell := m.vm.data.regs[r]]
  {
    var bytes := [9, r, cell, 0, 0, 0, 8, s, cell, 0, 0, 0, 11];
    RegWordAt(w.code, bytes, 0);
    RegWordAt(w.code, bytes, 6);
    ByteAt(w.code, bytes, 12);
    var u := Enter(m).vm;
    LeadsOne(w, u, Store(r, cell));
    var v := Exec(w, u, Store(r, cell));
    t := OneThenHalt(w, v, Load(s, cell));
    LeadsOn(w, u, 1, v, 2, t);
    LeadsToEnd(w, m, 3, t);
  }

  // ----- system calls, NOP, HALT -----

  lemma FetchSyscall(c: Memory, bytes: seq<byte>)
    requires |bytes| == 11 && bytes[0] == 10 && bytes[10] == 11 && Holds(c, 0, bytes)
    ensures Fetch(c, 0) == Syscall(bytes[1], FromBytes(bytes[2], bytes[3], bytes[4], bytes[5]), Word(c, 6))
    ensures Fetch(c, 10) == Halt
  {
    RegWordAt(c, bytes, 0);
    ByteAt(c, bytes, 10);
  }

  /** System call 1 ends the run before the instruction behind it, and changes nothing else. */
  lemma ExitEnds(w: World, m: Machine, bytes: seq<byte>) returns (t: VmState)
    requires |bytes| == 11 && bytes[0] == 10 && bytes[1] == 1 && bytes[10] == 11 && Loaded(w, m, bytes)
    ensures Ends(w, m, t) && t.pc == 10 && t.data == m.vm.data.(halted := true)
  {
    FetchSyscall(w.code, bytes);
    var i := Fetch(w.code, 0);
    LeadsOne(w, Enter(m).vm, i);
    t := Exec(w, Enter(m).vm, i);
    LeadsToEnd(w, m, 1, t);
  }

  /** System call 2 takes the next clock reading, into the register named, if there is one. All others
      change nothing. */
  lemma ClockIsRead(w: World, m: Machine, bytes: seq<byte>) returns (t: VmState)
    requires |bytes| == 11 && bytes[0] == 10 && bytes[1] != 1 && bytes[10] == 11 && Loaded(w, m, bytes)
    ensures Ends(w, m, t) && t.data.halted && t.data.stack == m.vm.data.stack
    ensures var reg, d := FromBytes(bytes[2], bytes[3], bytes[4], bytes[5]), m.vm.data;
            if bytes[1] == 2 then
              t.data.clock == d.clock + 1 &&
              t.data.regs == if reg < 16 then d.regs[reg := w.time(d.clock)] else d.regs
            else t.data.clock == d.clock && t.data.regs == d.regs
  {
    FetchSyscall(w.code, bytes);
    t := OneThenHalt(w, Enter(m).vm, Fetch(w.code, 0));
    LeadsToEnd(w, m, 2, t);
  }

  /** Opcode 0 does nothing, and code that ends without a HALT leaves the VM running past its end. */
  lemma NopFallsOff(w: World, m: Machine) returns (t: VmState)
    requires Loaded(w, m, [0])
    ensures Ends(w, m, t) && t.pc == 1 && t.data == m.vm.data.(halted := false)
  {
    ByteAt(w.code, [0], 0);
    LeadsOne(w, Enter(m).vm, Nop);
    t := Exec(w, Enter(m).vm, Nop);
    LeadsToEnd(w, m, 1, t);
  }

  /** Opcode 11 halts and does nothing else. */
  lemma HaltHalts(w: World, m: Machine) returns (t: VmState)
    requires Loaded(w, m, [11])
    ensures Ends(w, m, t) && t.data == m.vm.data.(halted := true)
  {
    ByteAt(w.code, [11], 0);
    LeadsOne(w, Enter(m).vm, Halt);
    t := Exec(w, Enter(m).vm, Halt);
    LeadsToEnd(w, m, 1, t);
  }

  // ----- jumps -----

  /** Opcode 6 jumps: here out of the code, to the address in the four bytes behind it. */
  lemma JumpJumps(w: World, m: Machine, a: byte, b: byte, c: byte, d: byte) returns (t: VmState)
    requires Loaded(w, m, [6, a, b, c, d]) && FromBytes(a, b, c, d) >= 5
    ensures Ends(w, m, t) && t.pc == FromBytes(a, b, c, d) && t.data == m.vm.data.(halted := false)
  {
    var bytes := [6, a, b, c, d];
    ByteAt(w.code, bytes, 0);
    ByteAt(w.code, bytes, 1);
    ByteAt(w.code, bytes, 2);
    ByteAt(w.code, bytes, 3);
    ByteAt(w.code, bytes, 4);
    WordAt(w.code, 1, a, b, c, d);
    LeadsOne(w, Enter(m).vm, Jmp(FromBytes(a, b, c, d)));
    t := Exec(w, Enter(m).vm, Jmp(FromBytes(a, b, c, d)));
    LeadsToEnd(w, m, 1, t);
  }

  /** Opcode 7 jumps out of the code if the register is zero, and otherwise goes on to the HALT. */
  lemma JumpsIffZero(w: World, m: Machine, reg: byte, a: byte, b: byte, c: byte, d: byte) returns (t: VmState)
    requires Loaded(w, m, [7, reg, a, b, c, d, 11]) && FromBytes(a, b, c, d) >= 7
    ensures Ends(w, m, t) && t.data.regs == m.vm.data.regs && t.data.stack == m.vm.data.stack
    ensures if reg < 16 && m.vm.data.regs[reg] == 0 then t.pc == FromBytes(a, b, c, d) && !t.data.halted
            else t.pc == 7 && t.data.halted
  {
    var i := Jz(reg, FromBytes(a, b, c, d));
    RegWordAt(w.code, [7, reg, a, b, c, d, 11], 0);
    ByteAt(w.code, [7, reg, a, b, c, d, 11], 6);
    if reg < 16 && m.vm.data.regs[reg] == 0 {
      LeadsOne(w, Enter(m).vm, i);
      t := Exec(w, Enter(m).vm, i);
      LeadsToEnd(w, m, 1, t);
    } else {
      t := OneThenHalt(w, Enter(m).vm, i);
      LeadsToEnd(w, m, 2, t);
    }
  }

  // ----- a loop -----

  /** JZ r0, 17; SUB r0, r2; ADD r1, r2; JMP 0; HALT */
  const COUNTDOWN: seq<byte> := [7, 0, 17, 0, 0, 0, 3, 0, 2, 2, 1, 2, 6, 0, 0, 0, 0, 11]

  lemma FetchTest(c: Memory)
    requires Holds(c, 0, COUNTDOWN)
    ensures Fetch(c, 0) == Jz(0, 17) && Fetch(c, 17) == Halt
  {
    RegWordAt(c, COUNTDOWN, 0);
    ByteAt(c, COUNTDOWN, 17);
  }

  lemma FetchCount(c: Memory)
    requires Holds(c, 0, COUNTDOWN)
    ensures Fetch(c, 6) == Alu(Sub, 0, 2) && Fetch(c, 9) == Alu(Add, 1, 2)
  {
    ByteAt(c, COUNTDOWN, 6);
    ByteAt(c, COUNTDOWN, 7);
    ByteAt(c, COUNTDOWN, 8);
    ByteAt(c, COUNTDOWN, 9);
    ByteAt(c, COUNTDOWN, 10);
    ByteAt(c, COUNTDOWN, 11);
  }

  lemma FetchBack(c: Memory)
    requires Holds(c, 0, COUNTDOWN)
    ensures Fetch(c, 12) == Jmp(0)
  {
    ByteAt(c, COUNTDOWN, 12);
    RegWordAt(c, COUNTDOWN, 11);
  }

  /** The state at the head of the loop, with k to count down. */
  ghost predicate AtHead(s: VmState, k: u32, count: u32) {
    s.pc == 0 && s.size == 18 && !s.data.halted && s.data.regs[0] == k && s.data.regs[1] == count && s.data.regs[2] == 1
  }

  /** Once round the loop. */
  lemma OneLap(w: World, s: VmState, k: u32, count: u32) returns (n: nat, t: VmState)
    requires Holds(w.code, 0, COUNTDOWN) && AtHead(s, k, count) && k > 0 && count + 1 < TWO32
    ensures Leads(w, s, n, t) && AtHead(t, k - 1, count + 1) && t.data.stack == s.data.stack
    ensures forall r :: 3 <= r < 16 ==> t.data.regs[r] == s.data.regs[r]
  {
    FetchTest(w.code);
    FetchCount(w.code);
    FetchBack(w.code);
    LeadsOne(w, s, Jz(0, 17));
    var s1 := Exec(w, s, Jz(0, 17));
    LeadsOne(w, s1, Alu(Sub, 0, 2));
    var s2 := Exec(w, s1, Alu(Sub, 0, 2));
    LeadsOne(w, s2, Alu(Add, 1, 2));
    var s3 := Exec(w, s2, Alu(Add, 1, 2));
    LeadsOne(w, s3, Jmp(0));
    t := Exec(w, s3, Jmp(0));
    LeadsOn(w, s, 1, s1, 1, s2);
    LeadsOn(w, s, 2, s2, 1, s3);
    LeadsOn(w, s, 3, s3, 1, t);
    WrapSmall(k - 1);
    WrapSmall(count + 1);
    n := 4;
  }

  lemma {:induction false} AllLaps(w: World, s: VmState, k: u32, count: u32) returns (n: nat, t: VmState)
    requires Holds(w.code, 0, COUNTDOWN) && AtHead(s, k, count) && count + k < TWO32
    ensures Leads(w, s, n, t) && AtHead(t, 0, count + k) && t.data.stack == s.data.stack
    ensures forall r :: 3 <= r < 16 ==> t.data.regs[r] == s.data.regs[r]
    decreases k
  {
    if k == 0 {
      n, t := 0, s;
    } else {
      var i, u := OneLap(w, s, k, count);
      var j;
      j, t := AllLaps(w, u, k - 1, count + 1);
      LeadsOn(w, s, i, u, j, t);
      n := i + j;
    }
  }

  /** For every k, the loop counts r0 down from k to zero and r1 up from zero to k, and returns. */
  lemma CountdownCounts(w: World, m: Machine, k: u32) returns (t: VmState)
    requires Loaded(w, m, COUNTDOWN)
    requires m.vm.data.regs[0] == k && m.vm.data.regs[1] == 0 && m.vm.data.regs[2] == 1
    ensures Ends(w, m, t) && t.data.halted && t.data.regs[0] == 0 && t.data.regs[1] == k
    ensures t.data.stack == m.vm.data.stack && forall r :: 2 <= r < 16 ==> t.data.regs[r] == m.vm.data.regs[r]
  {
    var s := Enter(m).vm;
    var n, u := AllLaps(w, s, k, 0);
    FetchTest(w.code);
    LeadsOne(w, u, Jz(0, 17));
    var v := Exec(w, u, Jz(0, 17));
    LeadsOne(w, v, Halt);
    t := Exec(w, v, Halt);
    LeadsOn(w, s, n, u, 1, v);
    LeadsOn(w, s, n + 1, v, 1, t);
    LeadsToEnd(w, m, n + 2, t);
  }
}

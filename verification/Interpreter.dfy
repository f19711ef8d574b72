/** The interpreter as the kernel runs it: a VM object updated in place, the two static snapshots
    filled and read by array copies, and `vm_run` / `vm_recover` calling each other. */
module Interpreter {
  import opened Words
  import opened Bytecode
  import opened Vm
  import opened Recovery

  class VmObject {
    const world: World
    const regs: array<u32>
    const stack: array<u32>
    var pc: u32
    var sp: u32
    var codeSize: nat
    var halted: bool
    /** Number of wall-clock readings so far; the k-th one is world.time(k). */
    var clock: nat

    constructor (world: World, codeSize: nat)
      ensures Valid() && fresh(regs) && fresh(stack)
      ensures this.world == world
      ensures View() == VmState(Data(ZERO_REGS, ZERO_STACK, false, 0), 0, 0, codeSize)
    {
      this.world := world;
      regs := new u32[MAX_REGS](_ => 0);
      stack := new u32[MAX_STACK](_ => 0);
      pc, sp, this.codeSize, halted, clock := 0, 0, codeSize, false, 0;
      new;
      assert regs[..] == ZERO_REGS;
      assert stack[..] == ZERO_STACK;
    }

    ghost predicate Valid() {
      regs.Length == MAX_REGS && stack.Length == MAX_STACK && regs != stack
    }

    ghost function View(): VmState
      requires Valid()
      reads this, regs, stack
    {
      VmState(Data(regs[..], stack[..], halted, clock), pc, sp, codeSize)
    }

    /** The byte at `pc`, which moves on by one. */
    method NextByte() returns (b: byte)
      modifies this`pc
      ensures b == world.code(old(pc)) && pc == Wrap32(old(pc) + 1)
    {
      b := world.code(pc);
      pc := Wrap32(pc + 1);
    }

    /** The word at `pc`, which moves on by four. */
    method NextWord() returns (v: u32)
      modifies this`pc
      ensures v == Word(world.code, old(pc)) && pc == Wrap32(old(pc) + 4)
    {
      v := Word(world.code, pc);
      pc := Wrap32(pc + 4);
    }

    /** The operands of LOAD_IMM, JZ, LOAD and STORE: a byte and a word. */
    method RegAndWord(ghost p: u32) returns (reg: byte, v: u32)
      requires pc == Wrap32(p + 1)
      modifies this`pc
      ensures reg == world.code(Wrap32(p + 1)) && v == Word(world.code, Wrap32(p + 2))
      ensures pc == Wrap32(p + 6)
    {
      reg := NextByte();
      WrapAgain(p + 1, 1);
      v := NextWord();
      WrapAgain(p + 2, 4);
    }

    method LoadImmediate(ghost p: u32)
      requires Valid() && pc == Wrap32(p + 1)
      modifies this`pc, regs
      ensures View() == Exec(world, old(View()).(pc := p),
                             LoadImm(world.code(Wrap32(p + 1)), Word(world.code, Wrap32(p + 2))))
    {
      var reg, imm := RegAndWord(p);
      if reg < MAX_REGS {
        regs[reg] := imm;
      }
    }

    static method Compute(op: AluOp, x: u32, y: u32) returns (r: u32)
      requires op == Div ==> y != 0
      ensures r == AluResult(op, x, y)
    {
      match op
      case Add => r := Wrap32(x + y);
      case Sub => r := Wrap32(x - y);
      case Mul => r := Wrap32(x * y);
      case Div => r := x / y;
    }

    method Arithmetic(op: AluOp, ghost p: u32)
      requires Valid() && pc == Wrap32(p + 1)
      modifies this`pc, regs
      ensures View() == Exec(world, old(View()).(pc := p),
                             Alu(op, world.code(Wrap32(p + 1)), world.code(Wrap32(p + 2))))
    {
      var r0 := NextByte();
      WrapAgain(p + 1, 1);
      var r1 := NextByte();
      WrapAgain(p + 2, 1);
      if r0 < MAX_REGS && r1 < MAX_REGS {
        if op != Div || regs[r1] != 0 {
          regs[r0] := Compute(op, regs[r0], regs[r1]);
        }
      }
    }

    method Jump(ghost p: u32)
      requires Valid() && pc == Wrap32(p + 1)
      modifies this`pc
      ensures View() == Exec(world, old(View()).(pc := p), Jmp(Word(world.code, Wrap32(p + 1))))
    {
      var addr := Word(world.code, pc);
      pc := addr;
    }

    method JumpIfZero(ghost p: u32)
      requires Valid() && pc == Wrap32(p + 1)
      modifies this`pc
      ensures View() == Exec(world, old(View()).(pc := p),
                             Jz(world.code(Wrap32(p + 1)), Word(world.code, Wrap32(p + 2))))
    {
      var reg, addr := RegAndWord(p);
      if reg < MAX_REGS && regs[reg] == 0 {
        pc := addr;
      }
    }

    method LoadStack(ghost p: u32)
      requires Valid() && pc == Wrap32(p + 1)
      modifies this`pc, regs
      ensures View() == Exec(world, old(View()).(pc := p),
                             Load(world.code(Wrap32(p + 1)), Word(world.code, Wrap32(p + 2))))
    {
      var reg, addr := RegAndWord(p);
      if reg < MAX_REGS && addr < MAX_STACK {
        regs[reg] := stack[addr];
      }
    }

    method StoreStack(ghost p: u32)
      requires Valid() && pc == Wrap32(p + 1)
      modifies this`pc, stack
      ensures View() == Exec(world, old(View()).(pc := p),
                             Store(world.code(Wrap32(p + 1)), Word(world.code, Wrap32(p + 2))))
    {
      var reg, addr := RegAndWord(p);
      if reg < MAX_REGS && addr < MAX_STACK {
        stack[addr] := regs[reg];
      }
    }

    method SystemCall(ghost p: u32)
      requires Valid() && pc == Wrap32(p + 1)
      modifies this, regs
      ensures View() == Exec(world, old(View()).(pc := p),
                             Syscall(world.code(Wrap32(p + 1)), Word(world.code, Wrap32(p + 2)),
                                     Word(world.code, Wrap32(p + 6))))
    {
      var id, arg0 := RegAndWord(p);
      var arg1 := NextWord();
      WrapAgain(p + 6, 4);
      if id == 1 {
        halted := true;
      } else if id == 2 {
        var t := world.time(clock);
        clock := clock + 1;
        if arg0 < MAX_REGS {
          regs[arg0] := t;
        }
      }
    }

    /** The body of the interpreter loop up to the call of `vm_recover`. */
    method Cycle() returns (fault: bool)
      requires Valid()
      modifies this, regs, stack
      ensures View() == Step(world, old(View()))
      ensures fault == Faults(world, old(View()))
    {
      ghost var p := pc;
      var op := NextByte();
      fault := false;
      if op == OP_NOP {
      } else if op == OP_LOAD_IMM {
        LoadImmediate(p);
      } else if op == OP_ADD {
        Arithmetic(Add, p);
      } else if op == OP_SUB {
        Arithmetic(Sub, p);
      } else if op == OP_MUL {
        Arithmetic(Mul, p);
      } else if op == OP_DIV {
        Arithmetic(Div, p);
      } else if op == OP_JMP {
        Jump(p);
      } else if op == OP_JZ {
        JumpIfZero(p);
      } else if op == OP_LOAD {
        LoadStack(p);
      } else if op == OP_STORE {
        StoreStack(p);
      } else if op == OP_SYSCALL {
        SystemCall(p);
      } else {
        halted := true;
        fault := op != OP_HALT;
      }
    }
  }

  /** The struct `vm_snapshot_t`. */
  class SnapshotObject {
    const regs: array<u32>
    const stack: array<u32>
    var pc: u32
    var sp: u32
    var codeSize: nat
    var halted: bool

    constructor ()
      ensures Valid() && fresh(regs) && fresh(stack)
      ensures View() == NEVER_TAKEN
    {
      regs := new u32[MAX_REGS](_ => 0);
      stack := new u32[MAX_STACK](_ => 0);
      pc, sp, codeSize, halted := 0, 0, 0, false;
      new;
      assert regs[..] == ZERO_REGS;
      assert stack[..] == ZERO_STACK;
    }

    ghost predicate Valid() {
      regs.Length == MAX_REGS && stack.Length == MAX_STACK && regs != stack
    }

    ghost function View(): Snapshot
      requires Valid()
      reads this, regs, stack
    {
      Snapshot(regs[..], stack[..], pc, sp, codeSize, halted)
    }
  }

  method CopyWords(dst: array<u32>, src: array<u32>)
    requires dst.Length == src.Length && dst != src
    modifies dst
    ensures dst[..] == src[..]
  {
    forall k | 0 <= k < dst.Length {
      dst[k] := src[k];
    }
  }

  /** `vm_run`, `vm_recover` and the statics they share. */
  class Executive {
    const runSnap: SnapshotObject
    const recoverSnap: SnapshotObject
    var recoveries: int

    constructor ()
      ensures runSnap.Valid() && recoverSnap.Valid() && Separate()
      ensures fresh(runSnap) && fresh(runSnap.regs) && fresh(runSnap.stack)
      ensures recoverSnap.View() == NEVER_TAKEN && recoveries == 0
    {
      runSnap := new SnapshotObject();
      recoverSnap := new SnapshotObject();
      recoveries := 0;
    }

    /** The two statics are different objects. */
    ghost predicate Separate() {
      runSnap != recoverSnap &&
      {runSnap.regs, runSnap.stack} !! {recoverSnap.regs, recoverSnap.stack}
    }

    ghost predicate Valid(vm: VmObject) {
      vm.Valid() && runSnap.Valid() && recoverSnap.Valid() && Separate() &&
      {vm.regs, vm.stack} !! {runSnap.regs, runSnap.stack, recoverSnap.regs, recoverSnap.stack}
    }

    ghost function View(vm: VmObject): Machine
      requires Valid(vm)
      reads this, vm, vm.regs, vm.stack, runSnap, runSnap.regs, runSnap.stack, recoverSnap, recoverSnap.regs,
            recoverSnap.stack
    {
      Machine(vm.View(), runSnap.View(), recoverSnap.View(), recoveries)
    }

    method VmSnapshot(vm: VmObject)
      requires Valid(vm)
      modifies runSnap, runSnap.regs, runSnap.stack
      ensures View(vm) == old(View(vm)).(runSnap := Take(old(vm.View())))
    {
      CopyWords(runSnap.regs, vm.regs);
      CopyWords(runSnap.stack, vm.stack);
      runSnap.pc := vm.pc;
      runSnap.sp := vm.sp;
      runSnap.codeSize := vm.codeSize;
      runSnap.halted := vm.halted;
    }

    method VmRestore(vm: VmObject)
      requires Valid(vm)
      modifies vm, vm.regs, vm.stack
      ensures View(vm) == old(View(vm)).(vm := Restore(old(vm.View()), old(recoverSnap.View())))
    {
      CopyWords(vm.regs, recoverSnap.regs);
      CopyWords(vm.stack, recoverSnap.stack);
      vm.pc := recoverSnap.pc;
      vm.sp := recoverSnap.sp;
      vm.codeSize := recoverSnap.codeSize;
      vm.halted := recoverSnap.halted;
    }

    /** `vm_run`, on every VM on which it returns; `fuel` bounds the iterations it takes to do so. */
    method VmRun(vm: VmObject, ghost fuel: nat)
      requires Valid(vm)
      requires Run(EngineOf(vm.world), View(vm), fuel).Some?
      modifies this, vm, vm.regs, vm.stack, runSnap, runSnap.regs, runSnap.stack
      ensures Some(View(vm)) == Run(EngineOf(vm.world), old(View(vm)), fuel)
      decreases fuel, 2
    {
      VmSnapshot(vm);
      vm.halted := false;
      RunLoop(vm, fuel);
    }

    /** The loop of `vm_run`. */
    method RunLoop(vm: VmObject, ghost fuel: nat)
      requires Valid(vm)
      requires Loop(EngineOf(vm.world), View(vm), fuel).Some?
      modifies this, vm, vm.regs, vm.stack, runSnap, runSnap.regs, runSnap.stack
      ensures Some(View(vm)) == Loop(EngineOf(vm.world), old(View(vm)), fuel)
      decreases fuel, 1
    {
      ghost var result := Loop(EngineOf(vm.world), View(vm), fuel);
      ghost var left: nat := fuel;
      while !vm.halted && vm.pc < vm.codeSize
        invariant left <= fuel
        invariant Loop(EngineOf(vm.world), View(vm), left) == result
        decreases left
      {
        LoopBody(vm, left);
        left := left - 1;
      }
    }

    /** One iteration of the loop of `vm_run`, with the recovery it may call. */
    method LoopBody(vm: VmObject, ghost left: nat)
      requires Valid(vm) && !Stopped(vm.View())
      requires Loop(EngineOf(vm.world), View(vm), left).Some?
      modifies this, vm, vm.regs, vm.stack, runSnap, runSnap.regs, runSnap.stack
      ensures left > 0
      ensures Loop(EngineOf(vm.world), View(vm), left - 1) == old(Loop(EngineOf(vm.world), View(vm), left))
      decreases left, 0
    {
      ghost var m := View(vm);
      var fault := vm.Cycle();
      assert View(vm) == m.(vm := Step(vm.world, m.vm));
      if fault {
        VmRecover(vm, left - 1);
      }
    }

    /** `vm_recover`. */
    method VmRecover(vm: VmObject, ghost fuel: nat)
      requires Valid(vm)
      requires Recover(EngineOf(vm.world), View(vm), fuel).Some?
      modifies this, vm, vm.regs, vm.stack, runSnap, runSnap.regs, runSnap.stack
      ensures Some(View(vm)) == Recover(EngineOf(vm.world), old(View(vm)), fuel)
      decreases fuel, 3
    {
      if recoveries < MAX_RECOVERIES {
        VmRestore(vm);
        recoveries := recoveries + 1;
        vm.halted := false;
        assert View(vm) == Rollback(old(View(vm)));
        VmRun(vm, fuel);
      } else {
        vm.halted := true;
      }
    }
  }
}

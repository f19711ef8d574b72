/** When the code generator's loop ends: exactly when its cursor never comes to an offset from which
    `size` instructions in a row emit nothing. */
module CodegenStops {
  import opened Words
  import opened Bytecode
  import opened Codegen

  /** The generator after n iterations from the start. */
  function After(code: Memory, size: nat, n: nat): Gen {
    Generate(code, size, START, n)
  }

  lemma {:induction false} GenerateSplit(code: Memory, size: nat, g: Gen, j: nat, k: nat)
    ensures Generate(code, size, g, j + k) == Generate(code, size, Generate(code, size, g, j), k)
    decreases j
  {
    if j > 0 && !GenOver(size, g) {
      GenerateSplit(code, size, GenStep(code, g), j - 1, k);
    }
  }

  /** After i iterations the loop goes on, and k iterations later it is in the same state. */
  ghost predicate Spins(code: Memory, size: nat, i: nat, k: nat) {
    k > 0 && !GenOver(size, After(code, size, i)) && After(code, size, i + k) == After(code, size, i)
  }

  ghost predicate Stops(code: Memory, size: nat) {
    exists n: nat :: GenOver(size, After(code, size, n))
  }

  /** A loop that comes back to the state it was in is never over. */
  lemma {:induction false} SpinningNeverStops(code: Memory, size: nat, i: nat, k: nat, n: nat)
    requires Spins(code, size, i, k)
    ensures !GenOver(size, After(code, size, n))
    decreases n
  {
    if GenOver(size, After(code, size, n)) {
      if n <= i + k {
        OverStaysOver(code, size, START, n, i + k);
      } else {
        GenerateSplit(code, size, START, i + k, n - i - k);
        GenerateSplit(code, size, START, i, n - i - k);
        SpinningNeverStops(code, size, i, k, n - k);
      }
    }
  }

  function Below(bound: nat): (s: set<nat>)
    ensures |s| == bound && forall v: nat :: v in s <==> v < bound
  {
    if bound == 0 then {} else Below(bound - 1) + {bound - 1}
  }

  /** Among more than `bound` numbers below `bound`, two are equal. */
  lemma {:induction false} Pigeonhole(f: nat -> nat, bound: nat) returns (i: nat, j: nat)
    requires forall n: nat :: n <= bound ==> f(n) < bound
    ensures i < j <= bound && f(i) == f(j)
  {
    var seen: map<nat, nat> := map[];
    var n: nat := 0;
    while n <= bound
      invariant n <= bound + 1 && |seen.Keys| == n
      invariant forall v :: v in seen ==> v < bound && seen[v] < n && f(seen[v]) == v
    {
      if f(n) in seen {
        return seen[f(n)], n;
      }
      seen := seen[f(n) := n];
      n := n + 1;
    }
    SubsetSize(seen.Keys, Below(bound));
    assert false;
  }

  lemma OutputBetween(code: Memory, size: nat, i: nat, j: nat)
    requires i <= j
    ensures After(code, size, i).out <= After(code, size, j).out
  {
    GenerateSplit(code, size, START, i, j - i);
    OutputGrows(code, size, After(code, size, i), j - i);
  }

  /** A stretch of `size` iterations that emits nothing passes some offset twice. */
  lemma QuietStretchSpins(code: Memory, size: nat, i: nat) returns (m: nat, k: nat)
    requires forall n: nat :: i <= n <= i + size ==> !GenOver(size, After(code, size, n))
    requires |After(code, size, i + size).out| == |After(code, size, i).out|
    ensures Spins(code, size, m, k)
  {
    var f := (d: nat) => After(code, size, i + d).pc;
    forall d: nat | d <= size ensures f(d) < size {
      assert !GenOver(size, After(code, size, i + d));
    }
    var a, b := Pigeonhole(f, size);
    OutputBetween(code, size, i, i + a);
    OutputBetween(code, size, i + a, i + b);
    OutputBetween(code, size, i + b, i + size);
    m, k := i + a, b - a;
    assert !GenOver(size, After(code, size, m)) && !GenOver(size, After(code, size, m + k));
  }

  // ----- the condition on the bytecode -----

  /** Instructions for which nothing is emitted, and after which generation goes on. */
  predicate Quiet(i: Instr) {
    i.Jmp? || i.Jz? || i.Load? || i.Store? || i.Syscall?
  }

  /** The k instructions from p on, both jumps followed at once, are quiet and inside the code. */
  predicate Trapped(code: Memory, size: nat, p: nat, k: nat)
    decreases k
  {
    p < size && (k == 0 || (Quiet(Fetch(code, p)) && Trapped(code, size, NextPc(Fetch(code, p), p), k - 1)))
  }

  lemma QuietStep(code: Memory, size: nat, g: Gen)
    requires !GenOver(size, g)
    ensures Quiet(Fetch(code, g.pc)) ==> GenStep(code, g) == g.(pc := NextPc(Fetch(code, g.pc), g.pc))
    ensures GenStep(code, g).status == Generating && |GenStep(code, g).out| == |g.out| ==> Quiet(Fetch(code, g.pc))
  {
    var i := Fetch(code, g.pc);
    if Quiet(i) {
      assert g.out + Emit(i) == g.out;
    }
  }

  lemma AfterNext(code: Memory, size: nat, i: nat)
    requires !GenOver(size, After(code, size, i))
    ensures After(code, size, i + 1) == GenStep(code, After(code, size, i))
  {
    var g := After(code, size, i);
    GenerateSplit(code, size, START, i, 1);
    assert Generate(code, size, GenStep(code, g), 0) == GenStep(code, g);
  }

  /** From a trapped offset the loop goes on, and nothing is emitted. */
  lemma {:induction false} TrappedGoesOn(code: Memory, size: nat, i: nat, d: nat, k: nat)
    requires !GenOver(size, After(code, size, i)) && Trapped(code, size, After(code, size, i).pc, k) && d <= k
    ensures !GenOver(size, After(code, size, i + d)) && After(code, size, i + d).out == After(code, size, i).out
    decreases d
  {
    if d > 0 {
      AfterNext(code, size, i);
      QuietStep(code, size, After(code, size, i));
      TrappedGoesOn(code, size, i + 1, d - 1, k - 1);
    }
  }

  lemma TrappedNeverStops(code: Memory, size: nat, i: nat, n: nat)
    requires !GenOver(size, After(code, size, i)) && Trapped(code, size, After(code, size, i).pc, size)
    ensures !GenOver(size, After(code, size, n))
  {
    forall m: nat | i <= m <= i + size
      ensures !GenOver(size, After(code, size, m)) && After(code, size, m).out == After(code, size, i).out
    {
      TrappedGoesOn(code, size, i, m - i, size);
    }
    var m, k := QuietStretchSpins(code, size, i);
    SpinningNeverStops(code, size, m, k, n);
  }

  /** Where k iterations emit nothing and the loop goes on, the cursor was trapped. */
  lemma {:induction false} QuietIsTrapped(code: Memory, size: nat, i: nat, k: nat)
    requires forall n: nat :: !GenOver(size, After(code, size, n))
    requires |After(code, size, i + k).out| == |After(code, size, i).out|
    ensures Trapped(code, size, After(code, size, i).pc, k)
    decreases k
  {
    assert !GenOver(size, After(code, size, i));
    if k > 0 {
      assert !GenOver(size, After(code, size, i + 1));
      OutputBetween(code, size, i, i + 1);
      OutputBetween(code, size, i + 1, i + k);
      AfterNext(code, size, i);
      QuietStep(code, size, After(code, size, i));
      QuietIsTrapped(code, size, i + 1, k - 1);
    }
  }

  /** Every stretch of `size` iterations emits something or begins trapped, and the buffer is finite. */
  lemma {:induction false} EndlessIsTrapped(code: Memory, size: nat, i: nat, stretches: nat) returns (n: nat)
    requires forall n: nat :: !GenOver(size, After(code, size, n))
    requires BUFFER_SIZE - |After(code, size, i).out| <= stretches
    ensures n <= i + stretches * size && Trapped(code, size, After(code, size, n).pc, size)
    decreases stretches
  {
    Distribute(stretches - 1, 1, size);
    assert !GenOver(size, After(code, size, i)) && !GenOver(size, After(code, size, i + size));
    OutputBetween(code, size, i, i + size);
    if |After(code, size, i + size).out| == |After(code, size, i).out| {
      QuietIsTrapped(code, size, i, size);
      n := i;
    } else {
      n := EndlessIsTrapped(code, size, i + size, stretches - 1);
    }
  }

  /** At iteration n the loop goes on from a trapped offset. */
  predicate TrappedAt(code: Memory, size: nat, n: nat) {
    !GenOver(size, After(code, size, n)) && Trapped(code, size, After(code, size, n).pc, size)
  }

  /** The generator ends exactly on the bytecode in which its cursor comes to no trapped offset, and
      it is enough to look at the first 4096 * size iterations. */
  lemma StopsIffNeverTrapped(code: Memory, size: nat)
    ensures Stops(code, size) <==> forall n: nat :: n <= BUFFER_SIZE * size ==> !TrappedAt(code, size, n)
    ensures Stops(code, size) <==> forall n: nat :: !TrappedAt(code, size, n)
  {
    if Stops(code, size) {
      var end: nat :| GenOver(size, After(code, size, end));
      forall n: nat ensures !TrappedAt(code, size, n) {
        if TrappedAt(code, size, n) {
          TrappedNeverStops(code, size, n, end);
        }
      }
    } else {
      var n := EndlessIsTrapped(code, size, 0, BUFFER_SIZE);
      assert TrappedAt(code, size, n);
    }
  }

  /** Bytecode without a trapped offset, whatever its jumps: the generator ends. */
  lemma StopsWithoutTraps(code: Memory, size: nat)
    requires forall p: nat :: p < size ==> !Trapped(code, size, p, size)
    ensures Stops(code, size)
  {
    forall n: nat ensures !TrappedAt(code, size, n) {
    }
    StopsIffNeverTrapped(code, size);
  }

  lemma {:induction false} ForwardIsNotTrapped(code: Memory, size: nat, p: nat, k: nat)
    requires JumpsForward(code, size) && Trapped(code, size, p, k)
    ensures p + k < size
    decreases k
  {
    if k > 0 {
      ForwardIsNotTrapped(code, size, NextPc(Fetch(code, p), p), k - 1);
    }
  }

  /** In particular, no offset is trapped when no jump goes backwards. */
  lemma ForwardHasNoTraps(code: Memory, size: nat)
    requires JumpsForward(code, size)
    ensures forall p: nat :: p < size ==> !Trapped(code, size, p, size)
  {
    forall p: nat | p < size ensures !Trapped(code, size, p, size) {
      if Trapped(code, size, p, size) {
        ForwardIsNotTrapped(code, size, p, size);
      }
    }
  }
}

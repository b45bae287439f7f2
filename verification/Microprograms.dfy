/**
 Multiply and divide as microprograms: straight-line code in control memory, executed
 cycle by cycle through the pipeline, computes exact products, quotients and remainders.
 */
module Microprograms {
  import opened Words
  import opened Arithmetic
  import opened Multiply
  import opened Divide
  import opened Microcode
  import opened PipelineTheory

  /** An ALU instruction of the multiply/divide group. */
  datatype AluStep = AluStep(op: nat, qControl: Index2, select: Index2) {
    predicate Valid() { (op == 32 || op == 33 || op == 37 || op == 41) && select != 0 }
  }

  /** Its encoding, with A-memory source a and M-memory source and destination m. */
  function Encode(s: AluStep, a: Index10, m: Index5): MicroWord
    requires s.Valid()
  {
    a * 0x1_0000_0000 + m * 0x400_0000 + m * 0x4000 + s.select * 0x1000 + s.op * 8 + s.qControl
  }

  /** Cutting a field out of a word given by its three parts. */
  lemma FieldOf(w: nat, unit: nat, count: nat, high: nat, field: nat, low: nat)
    requires unit > 0 && count > 0 && low < unit && field < count
    requires w == (high * count + field) * unit + low
    ensures w / unit % count == field
  {
    DivUnique(w, unit, high * count + field, low);
    DivUnique(high * count + field, count, high, field);
  }

  lemma ControlFields(w: MicroWord, s: AluStep, a: Index10, m: Index5)
    requires s.Valid() && w == Encode(s, a, m)
    ensures AluField(w) == s.op && !CarryField(w) && QField(w) == s.qControl
  {
    AluFields(w, s, a, m);
    hide AluField;
    FieldOf(w, 4, 2, a * 0x2000_0000 + m * 0x80_0000 + m * 0x800 + s.select * 0x200 + s.op, 0, s.qControl);
  }

  lemma AluFields(w: MicroWord, s: AluStep, a: Index10, m: Index5)
    requires s.Valid() && w == Encode(s, a, m)
    ensures AluField(w) == s.op
  {
    FieldOf(w, 8, 64, a * 0x80_0000 + m * 0x2_0000 + m * 0x20 + s.select * 8, s.op, s.qControl);
  }

  lemma DestinationFields(w: MicroWord, s: AluStep, a: Index10, m: Index5)
    requires s.Valid() && w == Encode(s, a, m)
    ensures DestField(w) == m && OutField(w) == s.select
  {
    var low := s.op * 8 + s.qControl;
    FieldOf(w, 0x4000, 4096, a * 64 + m, m, s.select * 0x1000 + low);
    FieldOf(w, 0x1000, 4, a * 0x4_0000 + m * 0x1000 + m, s.select, low);
  }

  lemma SourceFields(w: MicroWord, s: AluStep, a: Index10, m: Index5)
    requires s.Valid() && w == Encode(s, a, m)
    ensures AField(w) == a && MSourceField(w) == 0 && MField(w) == m
  {
    var middle := m * 0x4000 + s.select * 0x1000 + s.op * 8 + s.qControl;
    var upper := m * 0x400_0000 + middle;
    FieldOf(w, 0x1_0000_0000, 1024, 0, a, upper);
    FieldOf(w, 0x8000_0000, 2, a, 0, upper);
    FieldOf(w, 0x400_0000, 32, a * 2, m, middle);
  }

  lemma ClassFields(w: MicroWord, s: AluStep, a: Index10, m: Index5)
    requires s.Valid() && w == Encode(s, a, m)
    ensures OpField(w) == 0 && !PopjField(w)
  {
    FieldOf(w, 0x800_0000_0000, 4, 0, 0, w);
    FieldOf(w, 0x400_0000_0000, 2, 0, 0, w);
  }

  lemma EncodeFields(s: AluStep, a: Index10, m: Index5)
    requires s.Valid()
    ensures var w := Encode(s, a, m);
            && OpField(w) == 0 && !PopjField(w) && AField(w) == a && MSourceField(w) == 0 && MField(w) == m
            && DestField(w) == m && AluField(w) == s.op && !CarryField(w)
            && QField(w) == s.qControl && OutField(w) == s.select
  {
    hide Encode, OpField, PopjField, AField, MSourceField, MField, DestField, AluField, CarryField, QField, OutField;
    var w := Encode(s, a, m);
    ControlFields(w, s, a, m);
    DestinationFields(w, s, a, m);
    SourceFields(w, s, a, m);
    ClassFields(w, s, a, m);
  }

  /** No annulment and no OA modification is pending. */
  predicate Plain(c: Cpu) { !c.pipe.inhibit && !c.oal && !c.oah }

  /** The registers of a step loop over M-memory location m. */
  function Registers(c: Cpu, m: Index5): Pair { Pair(c.mem.mmem[m], c.path.q, c.path.alu.out) }

  function Perform(s: AluStep, a: Word, p: Pair): Pair
    requires s.Valid()
  {
    StepPair(s.op, s.qControl, s.select, a, p)
  }

  /** One cycle of an encoded step performs it on M, Q and the ALU, and leaves A and the code alone. */
  lemma StepPerforms(c: Cpu, env: Env, s: AluStep, a: Index10, m: Index5)
    requires s.Valid() && a != m && Plain(c) && c.pipe.p1 == Encode(s, a, m) && Fetch(c, c.pipe.npc).Some?
    ensures Step(c, env).Some?
    ensures var c' := Step(c, env).value;
            && Registers(c', m) == Perform(s, c.mem.amem[a], Registers(c, m))
            && c'.mem.amem[a] == c.mem.amem[a] && Plain(c') && SameStore(c, c')
            && c'.pipe.p1 == Fetch(c, c.pipe.npc).value && c'.pipe.npc == Successor(c.pipe.npc)
  {
    EncodeFields(s, a, m);
    hide Encode, Fetch, OpField, PopjField, AField, MSourceField, MField, DestField, AluField, CarryField, QField, OutField;
    hide DivOps, Arithmetic.QControl, Arithmetic.OutControl, LogiOps, ArithOps, MfRead;
    var c1 := TickMd(IncNpc(c).value);
    TickFrame(IncNpc(c).value);
    assert MergeOa(c1) == c1;
    hide TickMd, MergeOa;
    var c2 := LatchOperands(c1, env).value;
    StepDispatch(c2, env, s, m);
  }

  lemma TickFrame(c: Cpu)
    ensures TickMd(c) == c.(port := c.port.(newMdDelay := TickMd(c).port.newMdDelay, md := TickMd(c).port.md))
  {
  }

  lemma StepDispatch(c: Cpu, env: Env, s: AluStep, m: Index5)
    requires s.Valid()
    requires var w := c.pipe.p0;
             && OpField(w) == 0 && DestField(w) == m && AluField(w) == s.op && !CarryField(w)
             && QField(w) == s.qControl && OutField(w) == s.select
    ensures Dispatch(c, env).Some?
    ensures var c', r := Dispatch(c, env).value, Perform(s, c.path.aData, Pair(c.path.mData, c.path.q, c.path.alu.out));
            && Registers(c', m) == r
            && c' == c.(path := c'.path, mem := c.mem.(mmem := c.mem.mmem[m := r.m], amem := c.mem.amem[m := r.m]))
  {
    hide OpField, DestField, AluField, CarryField, QField, OutField, PosField, DivOps, Arithmetic.QControl, LogiOps, ArithOps;
    OutIgnoresOperands(s.select, AluResult(c), c.path.mData, PosField(c.pipe.p0), c.path.q);
    var c1 := AluCycle(c);
    assert MfWrite(c1, env, m, c1.path.out) == c1;
    hide MfWrite, Arithmetic.OutControl;
  }

  lemma OutIgnoresOperands(select: Index2, r: Result, m: Word, rot: Index5, q: Word)
    requires select != 0
    ensures Arithmetic.OutControl(select, r, m, rot, q) == Arithmetic.OutControl(select, r, m, 0, q)
  {
  }

  // ----- straight-line programs of steps -----

  /** The machine is about to execute the encoded steps one after the other. */
  ghost predicate ProgramAt(c: Cpu, steps: seq<AluStep>, a: Index10, m: Index5) {
    steps != [] ==>
    && steps[0].Valid() && c.pipe.p1 == Encode(steps[0], a, m)
    && c.pipe.npc + |steps| <= 0x3FFF
    && (forall i: nat :: 1 <= i < |steps| ==>
          steps[i].Valid() && Fetch(c, c.pipe.npc + i - 1) == Some(Encode(steps[i], a, m)))
    && Fetch(c, c.pipe.npc + |steps| - 1).Some?
  }

  function PerformAll(steps: seq<AluStep>, a: Word, p: Pair): Pair
    requires forall s :: s in steps ==> s.Valid()
    decreases |steps|
  {
    if steps == [] then p else PerformAll(steps[1..], a, Perform(steps[0], a, p))
  }

  /** Executing a program of steps performs them in order on the registers of location m. */
  lemma {:induction false} ProgramPerforms(c: Cpu, envs: seq<Env>, steps: seq<AluStep>, a: Index10, m: Index5)
    requires ProgramAt(c, steps, a, m) && Plain(c) && a != m && |envs| == |steps|
    requires forall s :: s in steps ==> s.Valid()
    ensures Run(c, envs).Some?
    ensures Registers(Run(c, envs).value, m) == PerformAll(steps, c.mem.amem[a], Registers(c, m))
    decreases |steps|
  {
    hide Step, Encode, Registers, Perform, Fetch, Plain;
    if steps != [] {
      assert Fetch(c, c.pipe.npc).Some? by {
        if |steps| > 1 { assert Fetch(c, c.pipe.npc + 1 - 1) == Some(Encode(steps[1], a, m)); }
      }
      StepPerforms(c, envs[0], steps[0], a, m);
      var c1 := Step(c, envs[0]).value;
      assert ProgramAt(c1, steps[1..], a, m) by { ProgramAdvances(c, c1, steps, a, m); }
      ProgramPerforms(c1, envs[1..], steps[1..], a, m);
    }
  }

  lemma ProgramAdvances(c: Cpu, c1: Cpu, steps: seq<AluStep>, a: Index10, m: Index5)
    requires steps != [] && ProgramAt(c, steps, a, m) && Fetch(c, c.pipe.npc).Some? && SameStore(c, c1)
    requires c1.pipe.p1 == Fetch(c, c.pipe.npc).value && c1.pipe.npc == Successor(c.pipe.npc)
    ensures ProgramAt(c1, steps[1..], a, m)
  {
    hide Encode;
    var rest := steps[1..];
    if rest != [] {
      assert Fetch(c, c.pipe.npc + 1 - 1) == Some(Encode(steps[1], a, m));
      forall i: nat | 1 <= i < |rest|
        ensures rest[i].Valid() && Fetch(c1, c1.pipe.npc + i - 1) == Some(Encode(rest[i], a, m))
      {
        assert Fetch(c, c.pipe.npc + (i + 1) - 1) == Some(Encode(steps[i + 1], a, m));
      }
    }
  }

  const MULTIPLY_STEP := AluStep(32, 2, 2)
  const INITIAL_DIVIDE_STEP := AluStep(41, 1, 3)
  const DIVIDE_STEP := AluStep(33, 1, 3)
  const REMAINDER_STEP := AluStep(37, 0, 1)

  function Repeat(s: AluStep, n: nat): seq<AluStep> { seq(n, _ => s) }

  lemma {:induction false} RepeatMultiply(a: Word, p: Pair, n: nat)
    ensures PerformAll(Repeat(MULTIPLY_STEP, n), a, p) == MultiplyRun(a, p, n)
    decreases n
  {
    hide StepPair;
    if n > 0 {
      assert Repeat(MULTIPLY_STEP, n)[1..] == Repeat(MULTIPLY_STEP, n - 1);
      RepeatMultiply(a, MultiplyStep(a, p), n - 1);
    }
  }

  lemma {:induction false} RepeatDivide(a: Word, p: Pair, n: nat)
    ensures PerformAll(Repeat(DIVIDE_STEP, n) + [REMAINDER_STEP], a, p) == RemainderStep(a, DivideRun(a, p, n))
    decreases n
  {
    hide StepPair;
    var steps := Repeat(DIVIDE_STEP, n) + [REMAINDER_STEP];
    if n > 0 {
      assert steps[1..] == Repeat(DIVIDE_STEP, n - 1) + [REMAINDER_STEP];
      RepeatDivide(a, DivideStep(a, p), n - 1);
    } else {
      assert steps == [REMAINDER_STEP];
    }
  }

  /**
   Thirty-two multiply instructions in a row leave in M and Q the signed 64-bit number
   A (signed) * Q (unsigned) + M (signed) of the registers they started with.
   */
  lemma MultiplyProgram(c: Cpu, envs: seq<Env>, a: Index10, m: Index5)
    requires ProgramAt(c, Repeat(MULTIPLY_STEP, 32), a, m) && Plain(c) && a != m && |envs| == 32
    ensures Run(c, envs).Some?
    ensures var c' := Run(c, envs).value;
            Signed(c'.mem.mmem[m]) * 0x1_0000_0000 + c'.path.q ==
            Signed(c.mem.amem[a]) * c.path.q + Signed(c.mem.mmem[m])
  {
    hide ProgramAt, Run, MultiplyRun, Signed;
    ProgramPerforms(c, envs, Repeat(MULTIPLY_STEP, 32), a, m);
    RepeatMultiply(c.mem.amem[a], Registers(c, m), 32);
    MultiplyIsExact(c.mem.amem[a], Registers(c, m));
  }

  /** The thirty-four instructions of a division. */
  function DivisionProgram(): seq<AluStep> { [INITIAL_DIVIDE_STEP] + (Repeat(DIVIDE_STEP, 32) + [REMAINDER_STEP]) }

  /** The 64-bit dividend M:Q. */
  function Dividend64(c: Cpu, m: Index5): nat { c.mem.mmem[m] * 0x1_0000_0000 + c.path.q }

  /**
   The division program divides the 64-bit number M:Q by the magnitude of A, for every M below
   it: Q is the quotient, M the remainder.
   */
  lemma DivideProgram(c: Cpu, envs: seq<Env>, a: Index10, m: Index5)
    requires ProgramAt(c, DivisionProgram(), a, m) && Plain(c) && a != m && |envs| == 34
    requires ProperDivisor(c.mem.amem[a]) && c.mem.mmem[m] < Divisor(c.mem.amem[a])
    ensures Run(c, envs).Some?
    ensures Run(c, envs).value.path.q == Dividend64(c, m) / Divisor(c.mem.amem[a])
    ensures Run(c, envs).value.mem.mmem[m] == Dividend64(c, m) % Divisor(c.mem.amem[a])
  {
    hide ProgramAt, Run, Divisor, Division, DivisionProgram, ProperDivisor, Registers;
    DivisionPerforms(c.mem.amem[a], Registers(c, m));
    ProgramPerforms(c, envs, DivisionProgram(), a, m);
    DivisionRegisters(c, Run(c, envs).value, a, m);
  }

  lemma DivisionRegisters(c: Cpu, c': Cpu, a: Index10, m: Index5)
    requires ProperDivisor(c.mem.amem[a]) && c.mem.mmem[m] < Divisor(c.mem.amem[a])
    requires Registers(c', m) == Division(c.mem.amem[a], Registers(c, m))
    ensures c'.path.q == Dividend64(c, m) / Divisor(c.mem.amem[a])
    ensures c'.mem.mmem[m] == Dividend64(c, m) % Divisor(c.mem.amem[a])
  {
    hide Divisor, Division, ProperDivisor;
    DivisionIsExact(c.mem.amem[a], Registers(c, m));
  }

  lemma DivisionPerforms(a: Word, p: Pair)
    ensures |DivisionProgram()| == 34 && (forall s :: s in DivisionProgram() ==> s.Valid())
    ensures PerformAll(DivisionProgram(), a, p) == Division(a, p)
  {
    hide StepPair, DivideRun;
    assert DivisionProgram()[1..] == Repeat(DIVIDE_STEP, 32) + [REMAINDER_STEP];
    RepeatDivide(a, InitialDivideStep(a, p), 32);
  }
}

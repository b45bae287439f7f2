/**
 What single instructions do, seen from their operands: which jumps are taken, what an ALU or
 byte instruction leaves in its destination, and that every functional destination is read back
 by the source that belongs to it. The fields of the instruction word are given by their weights.
 */
module Instructions {
  import opened Words
  import opened Arithmetic
  import opened Microcode
  import opened PipelineTheory
  import opened Transfers
  import opened ReturnStack
  import opened ByteFields

  // ----- jump conditions -----

  /** The sense of a jump with this word: a test of one bit of M, or one of the seven conditions. */
  predicate Condition(w: MicroWord, m: Word, a: Word, vmaOk: bool, control: Word, pending: bool) {
    if w / 0x20 % 2 == 0 then Bit(m, (32 - w % 32) % 32)
    else if w % 16 == 1 then Signed(m) < Signed(a)
    else if w % 16 == 2 then Signed(m) <= Signed(a)
    else if w % 16 == 3 then m == a
    else if w % 16 == 4 then !vmaOk
    else if w % 16 == 5 then !vmaOk || (pending && Bit(control, 27))
    else if w % 16 == 6 then !vmaOk || (pending && Bit(control, 27)) || Bit(control, 26)
    else true
  }

  /** The condition codes that exist. */
  predicate KnownCondition(w: MicroWord) { w / 0x20 % 2 == 0 || 1 <= w % 16 <= 7 }

  lemma ConditionIs(c: Cpu, env: Env)
    ensures CheckJumpCondition(c, env).Some? <==> KnownCondition(c.pipe.p0)
    ensures CheckJumpCondition(c, env).Some? ==>
              CheckJumpCondition(c, env).value.0 ==
              Condition(c.pipe.p0, c.path.mData, c.path.aData, c.port.vmaOk, c.interruptControl, env.interruptPending)
  {
    var w := c.pipe.p0;
    Digit27(c.interruptControl);
    if w / 0x20 % 2 == 0 {
      LowBitOfRotation(c.path.mData, w % 32);
    }
    hide Bit, Rol32, Signed;
  }

  lemma Digit27(x: nat)
    ensures Bit(x, 27) <==> x / 0x800_0000 % 2 == 1
    ensures Bit(x, 26) <==> x / 0x400_0000 % 2 == 1
  {
    Pow2Values();
    Pow2Add(24, 2);
    Pow2Add(24, 3);
    assert Pow2(2) == 4 && Pow2(3) == 8;
    BitIsDigit(x, 27);
    BitIsDigit(x, 26);
    hide Bit, Pow2;
  }

  lemma LowBitOfRotation(m: Word, n: nat)
    requires n < 32
    ensures Rol32(m, n) % 2 == 1 <==> Bit(m, (32 - n) % 32)
  {
    hide Bit, Rol32;
    RolBit(m, n, 0);
    LowestBit(Rol32(m, n));
  }

  lemma LowestBit(x: nat)
    ensures Bit(x, 0) <==> x % 2 == 1
  {
  }

  /** A jump-class instruction that is not a control store is taken exactly when its condition differs from its invert bit. */
  lemma JumpTakenIff(c: Cpu, env: Env)
    requires Step(c, env).Some? && !c.pipe.inhibit && IncNpc(c).Some? && Latched(c, env).Some?
    requires var w := Word0(c); w / 0x800_0000_0000 % 4 == 1 && !(w / 0x200 % 2 == 1 && w / 0x100 % 2 == 1)
    ensures var w, c2 := Word0(c), Latched(c, env).value;
            JumpTaken(c, env) <==>
            Condition(w, c2.path.mData, c2.path.aData, c.port.vmaOk, c.interruptControl, env.interruptPending) != (w / 0x40 % 2 == 1)
  {
    LatchedFrame(c, env);
    LatchedPort(c, env);
    StepChecks(c, env);
    hide Step, Latched, Word0, CheckJumpCondition, Condition, KnownCondition;
    ConditionIs(Latched(c, env).value, env);
  }

  lemma LatchedPort(c: Cpu, env: Env)
    requires Latched(c, env).Some?
    ensures Latched(c, env).value.port.vmaOk == c.port.vmaOk && Latched(c, env).value.interruptControl == c.interruptControl
  {
    hide Or64, MfRead, PopjField, MSourceField, MField, AField;
    var c1 := Merged(IncNpc(c).value);
    if MSourceField(c1.pipe.p0) != 0 {
      SourceKeepsControl(c1.(pipe := c1.pipe.(popj := PopjField(c1.pipe.p0))), env, MField(c1.pipe.p0));
    }
  }

  lemma SourceKeepsControl(c: Cpu, env: Env, addr: Index5)
    requires MfRead(c, env, addr).Some?
    ensures var c' := MfRead(c, env, addr).value.1; c'.port == c.port && c'.interruptControl == c.interruptControl && c'.path == c.path
  {
  }

  lemma StepChecks(c: Cpu, env: Env)
    requires Step(c, env).Some? && !c.pipe.inhibit && IncNpc(c).Some? && Latched(c, env).Some?
    requires OpField(Word0(c)) == 1 && !(PField(Word0(c)) && RField(Word0(c)))
    ensures CheckJumpCondition(Latched(c, env).value, env).Some?
  {
    LatchedFrame(c, env);
    assert TickMd(IncNpc(c).value).pipe == IncNpc(c).value.pipe by { TickRing(IncNpc(c).value); }
    var c2 := Latched(c, env).value;
    assert Dispatch(c2, env).Some?;
    hide CheckJumpCondition, MergeOa, LatchOperands, TickMd, IncNpc, Execute;
    HaltedIsIrrelevant(c2, env);
  }

  /** The operands an instruction takes from M and A memory, when it does not name a functional source. */
  function OperandM(c: Cpu): Word { c.mem.mmem[c.pipe.p1 / 0x400_0000 % 32] }
  function OperandA(c: Cpu): Word { c.mem.amem[c.pipe.p1 / 0x1_0000_0000 % 1024] }

  /** The next cycle executes the prefetched word as it stands, with its M operand from M memory. */
  predicate PlainInstruction(c: Cpu) { !c.pipe.inhibit && !c.oal && !c.oah && c.pipe.p1 / 0x8000_0000 % 2 == 0 }

  lemma PlainOperands(c: Cpu, env: Env)
    requires PlainInstruction(c) && IncNpc(c).Some?
    ensures Latched(c, env).Some? && Word0(c) == c.pipe.p1
    ensures var c2 := Latched(c, env).value;
            && c2.path.mData == OperandM(c) && c2.path.aData == OperandA(c)
            && c2.path == c.path.(mData := c2.path.mData, aData := c2.path.aData, iwr := c2.path.iwr)
            && c2.pipe.popj == (c.pipe.p1 / 0x400_0000_0000 % 2 == 1) && c2.mem == c.mem
  {
    var c1 := IncNpc(c).value;
    assert TickMd(c1).pipe == c1.pipe && TickMd(c1).path == c1.path && TickMd(c1).mem == c1.mem;
    assert MergeOa(TickMd(c1)) == TickMd(c1);
    hide TickMd, MergeOa, IncNpc;
  }

  /** An instruction that names a functional source takes its M operand there, with what reading it changes. */
  lemma FunctionalOperand(c: Cpu, env: Env)
    requires IncNpc(c).Some? && !c.oal && !c.oah && c.pipe.p1 / 0x8000_0000 % 2 == 1
    ensures var c1 := TickMd(IncNpc(c).value);
            var read := MfRead(c1, env, c.pipe.p1 / 0x400_0000 % 32);
            && (Latched(c, env).Some? <==> read.Some?)
            && (read.Some? ==>
                  var c2 := Latched(c, env).value;
                  && c2.path.mData == read.value.0 && c2.path.aData == OperandA(c)
                  && c2.pdlPointer == read.value.1.pdlPointer && c2.spcPtr == read.value.1.spcPtr && c2.port == c1.port)
  {
    var c1 := TickMd(IncNpc(c).value);
    assert c1.pipe.p0 == c.pipe.p1 && c1.mem == c.mem;
    assert MergeOa(c1) == c1;
    hide TickMd, MergeOa, IncNpc;
  }

  /**
   A plain jump, without POPJ, call or return, goes to its target exactly when its condition on
   the M and A operands differs from its invert bit, and then annuls the next word if it says so;
   otherwise the machine goes on.
   */
  lemma PlainJump(c: Cpu, env: Env)
    requires PlainInstruction(c) && Step(c, env).Some?
    requires var w := c.pipe.p1;
             w / 0x800_0000_0000 % 4 == 1 && w / 0x400_0000_0000 % 2 == 0 && w / 0x200 % 2 == 0 && w / 0x100 % 2 == 0
    ensures var w, c' := c.pipe.p1, Step(c, env).value;
            var taken := Condition(w, OperandM(c), OperandA(c), c.port.vmaOk, c.interruptControl, env.interruptPending) != (w / 0x40 % 2 == 1);
            && c'.pipe.npc == (if taken then w / 0x1000 % 0x4000 else if c.pipe.npc == 0x3FFF then 0 else c.pipe.npc + 1)
            && c'.pipe.inhibit == (taken && w / 0x80 % 2 == 1)
  {
    PlainOperands(c, env);
    JumpTakenIff(c, env);
    if JumpTaken(c, env) {
      JumpStep(c, env);
    } else {
      FallsThrough(c, env);
    }
    hide Condition, Step, Latched, JumpTaken;
  }

  /** A jump-class instruction with miscellaneous function 1 halts the machine, and goes on with its condition all the same. */
  lemma IllopHalts(c: Cpu, env: Env)
    requires Jmp(c, env).Some?
    ensures Jmp(c, env).value.halted == (c.halted || c.pipe.p0 / 0x400 % 4 == 1)
  {
    hide CheckJumpCondition, TakeJump;
    var w := c.pipe.p0;
    var c0 := if MiscField(w) == 1 then c.(halted := true) else c;
    if !(PField(w) && RField(w)) {
      ConditionKeepsHalted(c0, env);
      TakeJumpKeepsHalted(CheckJumpCondition(c0, env).value.1, env, NField(w), PField(w), RField(w), TargetField(w));
    }
  }

  lemma ConditionKeepsHalted(c: Cpu, env: Env)
    requires CheckJumpCondition(c, env).Some?
    ensures CheckJumpCondition(c, env).value.1.halted == c.halted
  {
    hide Rol32, Signed;
  }

  lemma TakeJumpKeepsHalted(c: Cpu, env: Env, n: bool, p: bool, r: bool, target: Word)
    ensures TakeJump(c, env, n, p, r, target).halted == c.halted
  {
    hide Return;
    ReturnKeepsHalted(if p then PushSpc(c, ReturnAddress(c, n)) else c, env);
  }

  lemma ReturnKeepsHalted(c: Cpu, env: Env)
    ensures Return(c, env).1.halted == c.halted
  {
    hide AdvanceLc;
    AdvanceKeepsHalted(PopSpc(c).1, env, PopSpc(c).0);
  }

  lemma AdvanceKeepsHalted(c: Cpu, env: Env, ppc: Word)
    ensures AdvanceLc(c, env, ppc).1.halted == c.halted
  {
    hide ForceBit1, WordBoundary, NeedFetch;
  }

  lemma FallsThrough(c: Cpu, env: Env)
    requires Step(c, env).Some? && !c.pipe.inhibit && IncNpc(c).Some? && Latched(c, env).Some? && !JumpTaken(c, env)
    requires OpField(Word0(c)) == 1 && !(PField(Word0(c)) && RField(Word0(c))) && !Latched(c, env).value.pipe.popj
    ensures Step(c, env).value.pipe.npc == Successor(c.pipe.npc) && !Step(c, env).value.pipe.inhibit
  {
    LatchedFrame(c, env);
    StepChecks(c, env);
    var c1, c2 := IncNpc(c).value, Latched(c, env).value;
    assert TickMd(c1).pipe == c1.pipe by { TickRing(c1); }
    hide MergeOa, LatchOperands, TickMd, CheckJumpCondition, TakeJump;
    var c0 := if MiscField(c2.pipe.p0) == 1 then c2.(halted := true) else c2;
    HaltedIsIrrelevant(c2, env);
    CheckFrame(c0, env);
  }

  // ----- ALU and byte instructions -----

  /** What becomes of the memories when a result goes to A memory, or to M memory with its shadow in A memory. */
  function Stored(mem: Memories, w: MicroWord, out: Word): Memories {
    if w / 0x200_0000 % 2 == 1 then mem.(amem := mem.amem[w / 0x4000 % 1024 := out])
    else mem.(mmem := mem.mmem[w / 0x4000 % 32 := out], amem := mem.amem[w / 0x4000 % 32 := out])
  }

  /** A destination that is no functional one: A memory, or plain M memory. */
  predicate PlainDestination(w: MicroWord) { w / 0x200_0000 % 2 == 1 || w / 0x8_0000 % 64 == 0 }

  /** The word an ALU instruction leaves on the output bus, for the operands, the ALU result and the old Q. */
  ghost predicate Selected(w: MicroWord, out: Word, alu: Result, m: Word, q: Word) {
    && (w / 0x1000 % 4 == 0 ==> forall i: nat :: i < 32 ==> Bit(out, i) == Bit(m, (i + 32 - w % 32) % 32))
    && (w / 0x1000 % 4 == 1 ==> out == alu.out)
    && (w / 0x1000 % 4 == 2 ==> out == alu.out / 2 + 0x8000_0000 * B2N(alu.carry))
    && (w / 0x1000 % 4 == 3 ==> out == 2 * alu.out % 0x1_0000_0000 + q / 0x8000_0000)
  }

  /** What an ALU instruction does to Q. */
  predicate Shifted(w: MicroWord, q': Word, q: Word, alu: Result) {
    && (w % 4 == 0 ==> q' == q)
    && (w % 4 == 1 ==> q' == 2 * q % 0x1_0000_0000 + (if Signed(alu.out) >= 0 then 1 else 0))
    && (w % 4 == 2 ==> q' == q / 2 + 0x8000_0000 * (alu.out % 2))
    && (w % 4 == 3 ==> q' == alu.out)
  }

  /** What the logical and the arithmetic codes compute on M and A. */
  ghost predicate Computed(w: MicroWord, alu: Result, m: Word, a: Word) {
    var op, cin := w / 8 % 64, w / 4 % 2 == 1;
    && (op < 16 && op != 9 ==> !alu.carry && forall i: nat :: i < 32 ==> Bit(alu.out, i) == TruthTable(op, Bit(m, i), Bit(a, i)))
    && (op == 9 ==> alu == Result(if m == a then 1 else 0, false))
    && (16 <= op < 32 ==> alu.out == ArithValue(op, m, a, cin) % 0x1_0000_0000)
    && (16 <= op < 32 && op != 16 && op != 22 && op != 28 ==> (alu.carry <==> ArithValue(op, m, a, cin) < 0))
  }

  /** The magnitude of A as the step codes see it: the most negative number stands for itself. */
  function Divisor(a: Word): int { if -0x8000_0000 < Signed(a) < 0 then -Signed(a) else Signed(a) }

  /** The output and the sign of a true sum. */
  predicate IsSum(alu: Result, x: int) { alu.out == x % 0x1_0000_0000 && (alu.carry <==> x < 0) }

  /** What the multiply, divide and correction codes compute, and that any other code repeats the last output. */
  predicate Iterated(w: MicroWord, alu: Result, last: Result, m: Word, a: Word, q: Word) {
    var op, cin, odd := w / 8 % 64, w / 4 % 2, q % 2 == 1;
    && (op == 32 && odd ==> IsSum(alu, Signed(m) + Signed(a) + cin))
    && (op == 32 && !odd ==> IsSum(alu, Signed(m)))
    && (op == 33 && !odd ==> IsSum(alu, Signed(m) + Divisor(a) + cin))
    && ((op == 33 && odd) || op == 41 ==>
          alu.out == (Signed(m) - Divisor(a) - cin) % 0x1_0000_0000 && (alu.carry <==> 0 < Divisor(a) % 0x1_0000_0000 + cin <= m))
    && (op == 37 && !odd ==>
          && alu.out == (Signed(last.out) + Divisor(a) + cin) % 0x1_0000_0000
          && (alu.carry <==> Signed(alu.out) + Divisor(a) + cin < 0))
    && ((op == 37 && odd) || (op >= 32 && op !in {32, 33, 37, 41}) ==> alu == Result(last.out, false))
  }

  lemma IteratedIs(c: Cpu)
    ensures Iterated(c.pipe.p0, AluResult(c), c.path.alu, c.path.mData, c.path.aData, c.path.q)
  {
    var w := c.pipe.p0;
    var op, cin, m, a, q, last := w / 8 % 64, w / 4 % 2 == 1, c.path.mData, c.path.aData, c.path.q, c.path.alu;
    hide LogiOps, ArithOps;
    if op == 32 || op == 33 || op == 37 || op == 41 {
      StepCodesAre(op, m, a, q, last.out, cin);
      hide Arithmetic.DivOps, IsSum, Divisor;
    }
  }

  lemma StepCodesAre(op: nat, m: Word, a: Word, q: Word, last: Word, cin: bool)
    requires op == 32 || op == 33 || op == 37 || op == 41
    ensures var alu, k, odd := Arithmetic.DivOps(op, m, a, q, Result(last, false), cin), B2N(cin), q % 2 == 1;
            && (op == 32 && odd ==> IsSum(alu, Signed(m) + Signed(a) + k))
            && (op == 32 && !odd ==> IsSum(alu, Signed(m)))
            && (op == 33 && !odd ==> IsSum(alu, Signed(m) + Divisor(a) + k))
            && ((op == 33 && odd) || op == 41 ==>
                  alu.out == (Signed(m) - Divisor(a) - k) % 0x1_0000_0000 && (alu.carry <==> 0 < Divisor(a) % 0x1_0000_0000 + k <= m))
            && (op == 37 && !odd ==>
                  && alu.out == (Signed(last) + Divisor(a) + k) % 0x1_0000_0000
                  && (alu.carry <==> Signed(alu.out) + Divisor(a) + k < 0))
            && (op == 37 && odd ==> alu == Result(last, false))
  {
    DivisorIs(a);
    hide Add32, Sub32, Abs32, Divisor, Signed, Wrap32, IsSum;
    if op == 32 {
      SumIs(a, m, cin);
      SignOfWord(m);
    } else if op == 33 && q % 2 == 0 {
      SumIs(m, Abs32(a), cin);
    } else if op == 37 {
      CorrectionIs(last, a, cin);
    } else {
      Sub32IsDifference(m, Abs32(a), !cin);
      SignOfWord(m);
    }
  }

  lemma CorrectionIs(last: Word, a: Word, cin: bool)
    ensures var alu := CorrectRemainder(last, Abs32(a), cin);
            && alu.out == (Signed(last) + Divisor(a) + B2N(cin)) % 0x1_0000_0000
            && (alu.carry <==> Signed(alu.out) + Divisor(a) + B2N(cin) < 0)
  {
    var b := Abs32(a);
    DivisorIs(a);
    SumIs(last, b, cin);
    SumIs(Add32(last, b, cin).out, b, cin);
    assert Add32(last, b, cin).out == Wrap32(last + b + B2N(cin));
    hide Add32, Abs32, Divisor, Signed, Wrap32;
  }

  lemma DivisorIs(a: Word)
    ensures Divisor(a) == Signed(Abs32(a)) && Divisor(a) % 0x1_0000_0000 == Abs32(a)
  {
    Abs32IsMagnitude(a);
    hide Abs32;
  }

  lemma SumIs(a: Word, b: Word, cin: bool)
    ensures IsSum(Add32(a, b, cin), Signed(a) + Signed(b) + B2N(cin))
  {
    Add32IsExact(a, b, cin);
    hide Add32;
  }

  lemma SignOfWord(m: Word)
    ensures IsSum(Result(m, m >= 0x8000_0000), Signed(m))
    ensures forall x: int {:trigger Wrap32(x)} :: Wrap32(x) == x % 0x1_0000_0000
  {
  }

  lemma ComputedIs(c: Cpu)
    ensures Computed(c.pipe.p0, AluResult(c), c.path.mData, c.path.aData)
  {
    var w := c.pipe.p0;
    var op, cin, m, a := w / 8 % 64, w / 4 % 2 == 1, c.path.mData, c.path.aData;
    hide LogiOps, ArithOps, ArithValue, Arithmetic.DivOps, TruthTable, Bit;
    if op < 16 {
      LogicalIs(op, m, a);
    } else if op < 32 {
      ArithWordIsExact(op, m, a, cin);
      if op != 16 && op != 22 && op != 28 { ArithIsExact(op, m, a, cin); }
    }
  }

  lemma LogicalIs(op: nat, m: Word, a: Word)
    requires op < 16
    ensures op == 9 ==> LogiOps(op, m, a) == if m == a then 1 else 0
    ensures op != 9 ==> forall i: nat :: i < 32 ==> Bit(LogiOps(op, m, a), i) == TruthTable(op, Bit(m, i), Bit(a, i))
  {
    if op != 9 {
      hide LogiOps, TruthTable, Bit;
      forall i: nat | i < 32 ensures Bit(LogiOps(op, m, a), i) == TruthTable(op, Bit(m, i), Bit(a, i)) {
        LogicalCodesAreTruthTables(op, m, a, i);
      }
    }
  }

  lemma AluCycleIs(c: Cpu)
    ensures var w, p, p' := c.pipe.p0, c.path, AluCycle(c).path;
            && Computed(w, p'.alu, p.mData, p.aData) && Iterated(w, p'.alu, p.alu, p.mData, p.aData, p.q) && Shifted(w, p'.q, p.q, p'.alu) && Selected(w, p'.out, p'.alu, p.mData, p.q)
  {
    ComputedIs(c);
    IteratedIs(c);
    hide Computed, Iterated, AluResult, Bit, Rol32;
    RotatedBits(c.path.mData, c.pipe.p0 % 32);
  }

  lemma RotatedBits(m: Word, n: nat)
    requires n < 32
    ensures forall i: nat :: i < 32 ==> Bit(Rol32(m, n), i) == Bit(m, (i + 32 - n) % 32)
  {
    hide Bit, Rol32;
    forall i: nat | i < 32 ensures Bit(Rol32(m, n), i) == Bit(m, (i + 32 - n) % 32) { RotatedBit(m, n, i); }
  }

  lemma RotatedBit(m: Word, n: nat, i: nat)
    requires n < 32 && i < 32
    ensures Bit(Rol32(m, n), i) == Bit(m, (i + 32 - n) % 32)
  {
    hide Bit, Rol32;
    RolBit(m, n, i);
  }

  /** A state as a result leaves it: stored in A memory, or sent to its functional destination and to M memory. */
  function Sent(c: Cpu, env: Env, w: MicroWord): Cpu {
    if w / 0x200_0000 % 2 == 1 then c.(mem := Stored(c.mem, w, c.path.out))
    else
      var c' := MfWrite(c, env, w / 0x4000 % 4096, c.path.out);
      c'.(mem := c'.mem.(mmem := Stored(c.mem, w, c.path.out).mmem, amem := Stored(c.mem, w, c.path.out).amem))
  }

  /**
   An ALU instruction on M and A memory: the ALU computes what its code says, Q and the output bus
   are shifted as selected, and the output goes to its destination, a functional one too, and with
   a plain destination nowhere else.
   */
  lemma AluInstruction(c: Cpu, env: Env)
    requires PlainInstruction(c) && IncNpc(c).Some? && c.pipe.p1 / 0x800_0000_0000 % 4 == 0
    requires c.pipe.p1 / 0x400_0000_0000 % 2 == 0
    ensures Step(c, env).Some?
    ensures var w, c' := c.pipe.p1, Step(c, env).value;
            && Computed(w, c'.path.alu, OperandM(c), OperandA(c))
            && Iterated(w, c'.path.alu, c.path.alu, OperandM(c), OperandA(c), c.path.q) && Shifted(w, c'.path.q, c.path.q, c'.path.alu)
            && Selected(w, c'.path.out, c'.path.alu, OperandM(c), c.path.q)
            && c' == Sent(Latched(c, env).value.(path := c'.path), env, w)
            && (PlainDestination(w) ==> c'.mem == Stored(c.mem, w, c'.path.out))
  {
    PlainOperands(c, env);
    var c2 := Latched(c, env).value;
    LatchedFrame(c, env);
    AluCycleIs(c2);
    CyclesFrame(c2);
    ResultIsSent(AluCycle(c2), env, c.pipe.p1);
    assert AluCycle(c2) == c2.(path := AluCycle(c2).path) by { CyclesChangePath(c2); }
    StepIs(c, env);
    hide Latched, Step, Word0, AluCycle, Computed, Iterated, Shifted, Selected, Stored, Sent, PlainDestination, WriteDest, PlainInstruction;
  }

  /** A cycle, from its latched operands on. */
  lemma StepIs(c: Cpu, env: Env)
    requires IncNpc(c).Some? && !c.pipe.inhibit && Latched(c, env).Some? && Dispatch(Latched(c, env).value, env).Some?
    ensures Step(c, env) == Some(FinishPopj(Dispatch(Latched(c, env).value, env).value, env))
  {
    assert TickMd(IncNpc(c).value).pipe == IncNpc(c).value.pipe by { TickRing(IncNpc(c).value); }
    hide MergeOa, LatchOperands, TickMd, IncNpc, Dispatch, FinishPopj;
  }

  lemma CyclesChangePath(c: Cpu)
    ensures AluCycle(c) == c.(path := AluCycle(c).path) && BytCycle(c) == c.(path := BytCycle(c).path)
  {
    hide AluResult, ByteOut, RotatePosition, Rol32;
  }

  lemma ResultIsSent(c: Cpu, env: Env, w: MicroWord)
    requires c.pipe.p0 == w
    ensures var c' := WriteDest(c, env, DestField(w));
            && c' == Sent(c, env, w) && c'.path == c.path && c'.pipe == c.pipe
            && (PlainDestination(w) ==> c'.mem == Stored(c.mem, w, c.path.out))
  {
    DestinationWeights(w);
    DestinationKeeps(c, env, DestField(w), c.path.out);
    assert PlainDestination(w) ==> MfWrite(c, env, DestField(w), c.path.out) == c || w / 0x200_0000 % 2 == 1;
    hide MfWrite;
  }

  lemma DestinationKeeps(c: Cpu, env: Env, dest: nat, data: Word)
    ensures var c' := MfWrite(c, env, dest, data);
            c'.path == c.path && c'.pipe == c.pipe && c'.mem.mmem == c.mem.mmem && c'.mem.amem == c.mem.amem
  {
    hide MemoryDest, LoadLc;
    assert LoadLc(c, data) == c.(port := LoadLc(c, data).port) by { LoadChangesPort(c, data); }
    assert MemoryDest(c, env, dest, data) == c.(port := MemoryDest(c, env, dest, data).port) by { MemoryDestChangesPort(c, env, dest, data); }
  }

  lemma LoadChangesPort(c: Cpu, data: Word)
    ensures LoadLc(c, data) == c.(port := LoadLc(c, data).port)
  {
  }

  lemma MemoryDestChangesPort(c: Cpu, env: Env, dest: nat, data: Word)
    ensures MemoryDest(c, env, dest, data) == c.(port := MemoryDest(c, env, dest, data).port)
  {
    hide StartRead, StartWrite;
    var c1, c2 := c.(port := c.port.(vma := data)), c.(port := c.port.(md := data));
    StartsChangePort(c1, env, data);
    StartsChangePort(c2, env, c.port.vma);
  }

  lemma StartsChangePort(c: Cpu, env: Env, vaddr: Word)
    ensures StartRead(c, env, vaddr) == c.(port := StartRead(c, env, vaddr).port)
    ensures StartWrite(c, env, vaddr) == c.(port := StartWrite(c, env, vaddr).port)
  {
    hide VirtualAddress;
  }

  lemma DestinationWeights(w: nat)
    ensures w / 0x4000 % 4096 / 0x800 % 2 == w / 0x200_0000 % 2 && w / 0x4000 % 4096 % 1024 == w / 0x4000 % 1024
    ensures w / 0x4000 % 4096 % 32 == w / 0x4000 % 32
    ensures w / 0x200_0000 % 2 == 0 ==> w / 0x4000 % 4096 / 32 == w / 0x8_0000 % 64
  {
    var d := w / 0x4000;
    assert w / 0x200_0000 == d / 0x800 && w / 0x8_0000 == d / 32;
    LowDigits(d, d / 4096, d % 4096);
  }

  lemma LowDigits(d: nat, q: nat, r: nat)
    requires d == q * 4096 + r && r < 4096
    ensures r / 0x800 % 2 == d / 0x800 % 2 && r % 1024 == d % 1024 && r % 32 == d % 32
    ensures d / 0x800 % 2 == 0 ==> r / 32 == d / 32 % 64
  {
    DivUnique(d, 0x800, 2 * q + r / 0x800, r % 0x800);
    DivUnique(d, 1024, 4 * q + r / 1024, r % 1024);
    DivUnique(d, 32, 128 * q + r / 32, r % 32);
    DivUnique(2 * q + r / 0x800, 2, q, r / 0x800);
    if r / 0x800 == 0 { DivUnique(128 * q + r / 32, 64, 2 * q, r / 32); }
  }

  /** The word a byte instruction makes of M and A: zero for select 0, and otherwise bit by bit. */
  ghost predicate Byted(w: MicroWord, out: Word, m: Word, a: Word) {
    && (w / 0x1000 % 4 == 0 ==> out == 0)
    && (w / 0x1000 % 4 != 0 ==> forall i: nat :: i < 32 ==> Bit(out, i) == BytedBit(w, m, a, i))
  }

  /** Its bit i: a load brings the field of M at the position down, a selective deposit leaves it there, a deposit brings it up. */
  predicate BytedBit(w: MicroWord, m: Word, a: Word, i: nat) {
    var p, n := w % 32, w / 0x20 % 32 + 1;
    if w / 0x1000 % 4 == 1 then (if i < n then Bit(m, (i + 32 - p) % 32) else Bit(a, i))
    else if p + n <= 32 && p <= i < p + n then Bit(m, if w / 0x1000 % 4 == 2 then i else i - p)
    else Bit(a, i)
  }

  lemma BytedIs(w: MicroWord, m: Word, a: Word)
    ensures Byted(w, ByteOut(w, w % 32, m, a), m, a)
  {
    var out := ByteOut(w, w % 32, m, a);
    assert OutField(w) == 0 ==> out == 0;
    hide ByteOut, Bit, BytedBit;
    if OutField(w) != 0 {
      forall i: nat | i < 32 ensures Bit(out, i) == BytedBit(w, m, a, i) { BytedBitIs(w, m, a, i); }
    }
  }

  lemma BytedBitIs(w: MicroWord, m: Word, a: Word, i: nat)
    requires i < 32 && OutField(w) != 0
    ensures Bit(ByteOut(w, w % 32, m, a), i) == BytedBit(w, m, a, i)
  {
    hide ByteOut, Bit;
    var p := w % 32;
    if OutField(w) == 1 {
      LdbBit(w, p, m, a, i);
      LoadSource(p, i);
    } else if OutField(w) == 2 {
      SelectiveDepositBit(w, p, m, a, i);
    } else {
      DpbBit(w, p, m, a, i);
    }
  }

  lemma LoadSource(p: Index5, i: nat)
    requires i < 32
    ensures (Source(p) + i) % 32 == (i + 32 - p) % 32
  {
  }

  /** What a byte instruction leaves in the M operand: it is rotated for a load or a deposit. */
  ghost predicate Turned(w: MicroWord, m': Word, m: Word) {
    && (w / 0x1000 % 2 == 0 ==> m' == m)
    && (w / 0x1000 % 2 == 1 ==> forall i: nat :: i < 32 ==> Bit(m', i) == Bit(m, (i + 32 - w % 32) % 32))
  }

  lemma BytTurns(c: Cpu)
    requires MiscField(c.pipe.p0) != 3
    ensures Turned(c.pipe.p0, BytCycle(c).path.mData, c.path.mData)
  {
    hide BytCycle, Rol32, Bit, MiscField;
    var w, m := c.pipe.p0, c.path.mData;
    TurnsM(c);
    LowOfFour(w / 0x1000);
    RotatedBits(m, w % 32);
  }

  lemma TurnsM(c: Cpu)
    requires MiscField(c.pipe.p0) != 3
    ensures BytCycle(c).path.mData == if c.pipe.p0 / 0x1000 % 4 % 2 == 1 then Rol32(c.path.mData, c.pipe.p0 % 32) else c.path.mData
  {
    hide ByteOut, Rol32, LcByteMode, MiscField;
  }

  lemma LowOfFour(x: nat)
    ensures x % 4 % 2 == x % 2
  {
    DivUnique(x, 2, 2 * (x / 4) + x % 4 / 2, x % 4 % 2);
  }

  /** A byte instruction on M and A memory, with no rotation by LC. */
  lemma ByteInstruction(c: Cpu, env: Env)
    requires PlainInstruction(c) && IncNpc(c).Some? && c.pipe.p1 / 0x800_0000_0000 % 4 == 3
    requires c.pipe.p1 / 0x400_0000_0000 % 2 == 0 && c.pipe.p1 / 0x400 % 4 != 3
    ensures Step(c, env).Some?
    ensures var w, c' := c.pipe.p1, Step(c, env).value;
            && Byted(w, c'.path.out, OperandM(c), OperandA(c)) && Turned(w, c'.path.mData, OperandM(c)) && c'.path.q == c.path.q
            && c' == Sent(Latched(c, env).value.(path := c'.path), env, w)
            && (PlainDestination(w) ==> c'.mem == Stored(c.mem, w, c'.path.out))
  {
    PlainOperands(c, env);
    var c2 := Latched(c, env).value;
    LatchedFrame(c, env);
    BytedIs(c.pipe.p1, c2.path.mData, c2.path.aData);
    BytOutIs(c2);
    CyclesFrame(c2);
    BytKeepsQ(c2);
    BytTurns(c2);
    ResultIsSent(BytCycle(c2), env, c.pipe.p1);
    assert BytCycle(c2) == c2.(path := BytCycle(c2).path) by { CyclesChangePath(c2); }
    StepIs(c, env);
    hide Latched, Step, Word0, BytCycle, ByteOut, Byted, Turned, Stored, Sent, PlainDestination, WriteDest, PlainInstruction;
  }

  lemma BytKeepsQ(c: Cpu)
    ensures BytCycle(c).path.q == c.path.q
  {
    hide ByteOut, RotatePosition, Rol32;
  }

  // ----- stores into control and dispatch memory -----

  /** A jump with both P and R stores the low half of A over all of M into control memory. */
  lemma ControlStore(c: Cpu, env: Env)
    requires PlainInstruction(c) && IncNpc(c).Some?
    requires var w := c.pipe.p1; w / 0x800_0000_0000 % 4 == 1 && w / 0x200 % 2 == 1 && w / 0x100 % 2 == 1
    ensures Step(c, env).Some?
    ensures Step(c, env).value.mem.imem ==
            c.mem.imem[c.pipe.p1 / 0x1000 % 0x4000 := OperandA(c) % 0x1_0000 * 0x1_0000_0000 + OperandM(c)]
  {
    PlainOperands(c, env);
    var c2 := Latched(c, env).value;
    LatchedFrame(c, env);
    assert c2.path.iwr == c2.path.aData % 0x1_0000 * 0x1_0000_0000 + c2.path.mData by { LatchedWord(c, env); }
    StepIs(c, env);
    hide Latched, Step, Word0, Return;
    ReturnFrame(Dispatch(c2, env).value, env);
  }

  lemma LatchedWord(c: Cpu, env: Env)
    requires Latched(c, env).Some?
    ensures var p := Latched(c, env).value.path; p.iwr == p.aData % 0x1_0000 * 0x1_0000_0000 + p.mData
  {
    hide Merged, MfRead, MSourceField, MField, AField, PopjField;
  }

  /** A dispatch with miscellaneous function 2 stores A into dispatch memory, and does not dispatch. */
  lemma DispatchStore(c: Cpu, env: Env)
    requires PlainInstruction(c) && IncNpc(c).Some?
    requires var w := c.pipe.p1; w / 0x800_0000_0000 % 4 == 2 && w / 0x400 % 4 == 2
    ensures Step(c, env).Some?
    ensures Step(c, env).value.mem == c.mem.(dmem := c.mem.dmem[c.pipe.p1 / 0x1000 % 0x800 := OperandA(c)])
  {
    PlainOperands(c, env);
    var c2 := Latched(c, env).value;
    LatchedFrame(c, env);
    StepIs(c, env);
    hide Latched, Step, Word0, Return;
    ReturnFrame(Dispatch(c2, env).value, env);
  }

  /** The dispatch address is completed by bits 18 and 19 of the second map level, each on its own request. */
  lemma MapBits(w: MicroWord, mapL2: Word)
    ensures MapBit(w, mapL2) == if (w / 0x100 % 2 == 1 && Bit(mapL2, 18)) || (w / 0x200 % 2 == 1 && Bit(mapL2, 19)) then 1 else 0
  {
    Digit18(mapL2);
    TwoBits(w / 0x100);
    assert w / 0x200 == w / 0x100 / 2;
    assert Or(1, 1) == 1 && Or(0, 1) == 1 && Or(1, 0) == 1 && Or(0, 0) == 0;
    hide Bit, Or;
  }

  lemma TwoBits(x: nat)
    ensures x % 4 == x % 2 + 2 * (x / 2 % 2)
  {
  }

  lemma Digit18(x: nat)
    ensures Bit(x, 18) <==> x / 0x4_0000 % 2 == 1
    ensures Bit(x, 19) <==> x / 0x8_0000 % 2 == 1
  {
    Pow2Values();
    Pow2Add(16, 2);
    Pow2Add(16, 3);
    assert Pow2(2) == 4 && Pow2(3) == 8;
    BitIsDigit(x, 18);
    BitIsDigit(x, 19);
    hide Bit, Pow2;
  }

  // ----- the OA registers -----

  /** The instruction executed: the prefetched word, with what the OA registers hold ORed into its halves. */
  lemma OaModifies(c: Cpu, i: nat)
    requires IncNpc(c).Some? && i < 64
    ensures Bit(Word0(c), i) <==>
            || Bit(c.pipe.p1, i) || (c.oal && i < 26 && Bit(c.oaLow, i))
            || (c.oah && 26 <= i < 48 && Bit(c.oaHigh, i - 26))
  {
    var c1 := TickMd(IncNpc(c).value);
    assert c1.pipe.p0 == c.pipe.p1 && c1.oal == c.oal && c1.oah == c.oah && c1.oaLow == c.oaLow && c1.oaHigh == c.oaHigh;
    hide TickMd, IncNpc;
    MergedBit(c1, i);
  }

  lemma MergedBit(c: Cpu, i: nat)
    ensures Bit(MergeOa(c).pipe.p0, i) <==>
            || Bit(c.pipe.p0, i) || (c.oal && i < 26 && Bit(c.oaLow, i))
            || (c.oah && 26 <= i < 48 && Bit(c.oaHigh, i - 26))
  {
    hide Bit, Or;
    var low, high := c.oaLow % 0x400_0000, c.oaHigh % 0x40_0000 * 0x400_0000;
    OaParts(c.oaLow, c.oaHigh, i);
    OrBit(c.pipe.p0, low, i);
    OrBit(if c.oal then Or64(c.pipe.p0, low) else c.pipe.p0, high, i);
    hide Or64;
  }

  lemma OaParts(low: nat, high: nat, i: nat)
    ensures Bit(low % 0x400_0000, i) <==> i < 26 && Bit(low, i)
    ensures Bit(high % 0x40_0000 * 0x400_0000, i) <==> 26 <= i < 48 && Bit(high, i - 26)
  {
    Pow2Values();
    Pow2Add(24, 2);
    Pow2Add(16, 6);
    assert Pow2(2) == 4 && Pow2(6) == 64;
    ModBit(low, 26, i);
    ShlBit(high % 0x40_0000, 26, i);
    if i >= 26 { ModBit(high, 22, i - 26); }
    hide Bit, Pow2;
  }

  /** A store into an OA register takes effect in the next instruction: 26 bits into the low part, or 22 above them. */
  lemma OaStores(c: Cpu, env: Env, data: Word)
    ensures var c' := MfWrite(c, env, 14 * 32, data); c' == c.(oaLow := data % 0x400_0000, oal := true)
    ensures var c' := MfWrite(c, env, 15 * 32, data); c' == c.(oaHigh := data % 0x80_0000, oah := true)
  {
  }

  /** An instruction that is executed uses the OA registers up. */
  lemma OaIsSpent(c: Cpu, env: Env)
    requires Latched(c, env).Some?
    ensures !Latched(c, env).value.oal && !Latched(c, env).value.oah
  {
    hide Or64, MfRead, PopjField, MSourceField, MField, AField;
    var c1 := Merged(IncNpc(c).value);
    if MSourceField(c1.pipe.p0) != 0 {
      SourceKeepsOa(c1.(pipe := c1.pipe.(popj := PopjField(c1.pipe.p0))), env, MField(c1.pipe.p0));
    }
  }

  lemma SourceKeepsOa(c: Cpu, env: Env, addr: Index5)
    requires MfRead(c, env, addr).Some?
    ensures var c' := MfRead(c, env, addr).value.1; c'.oal == c.oal && c'.oah == c.oah
  {
  }

  // ----- functional sources and destinations -----

  /** A functional destination is read back by the source that belongs to it: VMA, MD and the two pushdown registers. */
  lemma RegistersReadBack(c: Cpu, env: Env, v: Word)
    ensures MfRead(MfWrite(c, env, 16 * 32, v), env, 8) == Some((v, c.(port := c.port.(vma := v))))
    ensures MfRead(MfWrite(c, env, 24 * 32, v), env, 10) == Some((v, c.(port := c.port.(md := v))))
    ensures MfRead(MfWrite(c, env, 11 * 32, v), env, 3) == Some((v % 1024, c.(pdlIndex := v % 1024)))
    ensures MfRead(MfWrite(c, env, 12 * 32, v), env, 2) == Some((v % 1024, c.(pdlPointer := v % 1024)))
    ensures MfWrite(c, env, 19 * 32, v) == MfWrite(c, env, 16 * 32, v) && MfWrite(c, env, 27 * 32, v) == MfWrite(c, env, 24 * 32, v)
    ensures MfRead(c, env, 7) == Some((c.path.q, c)) && MfRead(c, env, 6) == Some((c.pipe.opc, c))
    ensures MfRead(c, env, 0) == Some((c.dispatchConstant, c))
  {
  }

  /** The pushdown list: a push is undone by a pop, and the word under the pointer or the index is read where it was stored. */
  lemma PdlReadsBack(c: Cpu, env: Env, v: Word)
    ensures var pushed := MfWrite(c, env, 9 * 32, v);
            var popped := MfRead(pushed, env, 20);
            && popped.Some? && popped.value.0 == v && popped.value.1.pdlPointer == c.pdlPointer
            && pushed.pdlPointer == (c.pdlPointer + 1) % 1024
            && (forall k: nat :: k < 1024 && k != pushed.pdlPointer ==> pushed.mem.pdl[k] == c.mem.pdl[k])
    ensures var c' := MfWrite(c, env, 8 * 32, v);
            MfRead(c', env, 21) == Some((v, c')) && c' == c.(mem := c.mem.(pdl := c.mem.pdl[c.pdlPointer := v]))
    ensures var c' := MfWrite(c, env, 10 * 32, v);
            MfRead(c', env, 5) == Some((v, c')) && c' == c.(mem := c.mem.(pdl := c.mem.pdl[c.pdlIndex := v]))
  {
  }

  /** The return ring: a push is read back with its pointer, and undone by the source that pops. */
  lemma SpcReadsBack(c: Cpu, env: Env, v: Word)
    ensures var pushed := MfWrite(c, env, 13 * 32, v);
            var word := (c.spcPtr + 1) % 32 * 0x100_0000 + v % 0x8_0000;
            && MfRead(pushed, env, 1) == Some((word, pushed))
            && MfRead(pushed, env, 12) == Some((word, pushed.(spcPtr := c.spcPtr)))
  {
  }

  /** The location counter is read back as it was loaded: its 26 bits, a whole halfword outside byte mode, asking for a fetch. */
  lemma LcReadsBack(c: Cpu, env: Env, v: Word)
    ensures var c' := MfWrite(c, env, 1 * 32, v);
            var address := if Bit(c.interruptControl, 29) then v % 0x400_0000 else v % 0x400_0000 / 2 * 2;
            && MfRead(c', env, 11).Some? && MfRead(c', env, 11).value.0 % 0x400_0000 == address
            && MfRead(c', env, 11).value.0 >= 0x8000_0000
  {
    Digit29(c.interruptControl);
    LoadedLc(c, v);
    hide Bit, LoadLc;
  }

  lemma LoadedLc(c: Cpu, v: Word)
    ensures var lc, address := LoadLc(c, v).port.lc, if ByteMode(c) then v % 0x400_0000 else v % 0x400_0000 / 2 * 2;
            && LoadLc(c, v).interruptControl == c.interruptControl
            && lc % 0x400_0000 == address && lc >= 0x8000_0000 && (ByteMode(c) || lc % 2 == 0)
  {
    var q, x := c.port.lc / 0x400_0000, v % 0x400_0000;
    assert c.port.lc - c.port.lc % 0x400_0000 == q * 0x400_0000 && q < 64;
    LcDigits(q, x);
    LcDigits(q, x / 2 * 2);
    LcDigits(q + 32, x);
    LcDigits(q + 32, x / 2 * 2);
  }

  lemma LcDigits(q: nat, x: nat)
    requires x < 0x400_0000
    ensures var lc := q * 0x400_0000 + x; lc % 0x400_0000 == x && lc % 2 == x % 2 && lc - lc % 2 == q * 0x400_0000 + x / 2 * 2
  {
    DivUnique(q * 0x400_0000 + x, 0x400_0000, q, x);
    DivUnique(q * 0x400_0000 + x, 2, q * 0x200_0000 + x / 2, x % 2);
  }

  lemma Digit29(x: nat)
    ensures Bit(x, 29) <==> x / 0x2000_0000 % 2 == 1
  {
    Pow2Values();
    Pow2Add(24, 5);
    assert Pow2(5) == 32;
    BitIsDigit(x, 29);
    hide Bit, Pow2;
  }

  /** An advance of LC that does not fetch sets bit 1 of the return address, and no other. */
  lemma ForcedBit(ppc: Word, i: nat)
    ensures Bit(ForceBit1(ppc), i) <==> Bit(ppc, i) || i == 1
  {
    OrBit(ppc, 2, i);
    assert Bit(2, 0) == false && Bit(2, 1);
    if i > 1 {
      Pow2Values();
      HighBitsClear(2, 2, i);
    }
    hide Bit, Or;
  }

  /** The interrupt control register keeps what is stored in it, and lends its bits 26 to 29 to LC, whose other bits stay. */
  lemma ControlIsStored(c: Cpu, env: Env, v: Word)
    ensures var c' := MfWrite(c, env, 2 * 32, v);
            && c'.interruptControl == v && c'.port.lc % 0x400_0000 == c.port.lc % 0x400_0000
            && c'.port.lc / 0x400_0000 % 16 == v / 0x400_0000 % 16 && c'.port.lc / 0x4000_0000 == c.port.lc / 0x4000_0000
  {
    var high, middle, low := c.port.lc / 0x4000_0000, v / 0x400_0000 % 16, c.port.lc % 0x400_0000;
    DivUnique((high * 16 + middle) * 0x400_0000 + low, 0x400_0000, high * 16 + middle, low);
    DivUnique(high * 16 + middle, 16, high, middle);
    DivUnique(high * 0x4000_0000 + (middle * 0x400_0000 + low), 0x4000_0000, high, middle * 0x400_0000 + low);
  }

  /** The four memory cycles: the address they use, and the permission that the next jump on a page fault sees. */
  lemma MemoryCycles(c: Cpu, env: Env, v: Word)
    ensures var p := MfWrite(c, env, 17 * 32, v).port; p.vma == v && p.vmaOk == env.readOk(v % 0x100_0000) && p.newMdDelay == 2
    ensures var p := MfWrite(c, env, 18 * 32, v).port; p.vma == v && p.vmaOk == env.writeOk(v % 0x100_0000)
    ensures var p := MfWrite(c, env, 25 * 32, v).port; p.md == v && p.vmaOk == env.readOk(c.port.vma % 0x100_0000) && p.newMdDelay == 2
    ensures var p := MfWrite(c, env, 26 * 32, v).port;
            && p.vmaOk == env.writeOk(c.port.vma % 0x100_0000)
            && (!env.isDevice(c.port.vma % 0x100_0000) ==> p.md == v && p.promDisabled == c.port.promDisabled)
  {
  }

  /** The map source: both map levels for MD, with each missing permission flagged. */
  lemma MapSource(c: Cpu, env: Env)
    ensures var r := MfRead(c, env, 9);
            && r.Some? && r.value.1 == c && r.value.0 % 0x100_0000 == env.mapL2 % 0x100_0000
            && r.value.0 / 0x100_0000 % 32 == env.mapL1 && (r.value.0 / 0x8000_0000 == 1 <==> !env.mapWrite)
            && (r.value.0 / 0x4000_0000 % 2 == 1 <==> !env.mapAccess)
  {
    var w, a, l1: nat, l2 := B2N(!env.mapWrite), B2N(!env.mapAccess), env.mapL1, env.mapL2 % 0x100_0000;
    var v := 0x8000_0000 * w + 0x4000_0000 * a + 0x2000_0000 + l1 * 0x100_0000 + l2;
    DivUnique(v, 0x100_0000, 128 * w + 64 * a + 32 + l1, l2);
    DivUnique(v, 0x8000_0000, w, v - 0x8000_0000 * w);
    DivUnique(v, 0x4000_0000, 2 * w + a, 0x2000_0000 + l1 * 0x100_0000 + l2);
  }

  /** Which sources exist. */
  lemma SourcesExist(c: Cpu, env: Env, addr: Index5)
    ensures MfRead(c, env, addr).Some? <==> addr in {0, 1, 2, 3, 5, 6, 7, 8, 9, 10, 11, 12, 13, 20, 21, 22}
    ensures addr == 13 || addr == 22 ==> MfRead(c, env, addr) == Some((0, c))
  {
  }

  /** Which destinations exist: a store into any other does nothing. */
  lemma OthersStoreNothing(c: Cpu, env: Env, dest: nat, data: Word)
    requires dest / 32 !in {1, 2, 8, 9, 10, 11, 12, 13, 14, 15, 16, 17, 18, 19, 24, 25, 26, 27}
    ensures MfWrite(c, env, dest, data) == c
  {
  }

  // ----- the instruction word -----

  /** Every field of the instruction word is so many bits from its position on. */
  lemma FieldsOfTheWord(w: MicroWord)
    ensures OpField(w) == Field(w, 43, 2) && AField(w) == Field(w, 32, 10) && MSourceField(w) == Field(w, 31, 1)
    ensures MField(w) == Field(w, 26, 5) && DestField(w) == Field(w, 14, 12) && AluField(w) == Field(w, 3, 6)
    ensures QField(w) == Field(w, 0, 2) && OutField(w) == Field(w, 12, 2) && PosField(w) == Field(w, 0, 5)
    ensures MiscField(w) == Field(w, 10, 2) && TargetField(w) == Field(w, 12, 14) && DispatchField(w) == Field(w, 12, 11)
    ensures LengthField(w) == Field(w, 5, 3) && MapField(w) == Field(w, 8, 2) && WidthField(w) == Field(w, 5, 5)
    ensures ConditionCode(w) == Field(w, 0, 4)
    ensures PopjField(w) == Bit(w, 42) && CarryField(w) == Bit(w, 2) && RField(w) == Bit(w, 9) && PField(w) == Bit(w, 8)
    ensures NField(w) == Bit(w, 7) && InvertField(w) == Bit(w, 6) && ConditionField(w) == Bit(w, 5)
    ensures PushOwnField(w) == Bit(w, 25) && IFetchField(w) == Bit(w, 24)
  {
    Weights();
    BitIsDigit(w, 42);
    BitIsDigit(w, 2);
    BitIsDigit(w, 9);
    BitIsDigit(w, 8);
    BitIsDigit(w, 7);
    BitIsDigit(w, 6);
    BitIsDigit(w, 5);
    BitIsDigit(w, 25);
    BitIsDigit(w, 24);
    hide Pow2, Bit;
  }

  lemma Weights()
    ensures Pow2(0) == 1 && Pow2(1) == 2 && Pow2(2) == 4 && Pow2(3) == 8 && Pow2(4) == 0x10 && Pow2(5) == 0x20 && Pow2(6) == 0x40
    ensures Pow2(7) == 0x80 && Pow2(8) == 0x100 && Pow2(9) == 0x200 && Pow2(10) == 0x400 && Pow2(11) == 0x800 && Pow2(12) == 0x1000
    ensures Pow2(14) == 0x4000 && Pow2(24) == 0x100_0000 && Pow2(25) == 0x200_0000 && Pow2(26) == 0x400_0000
    ensures Pow2(31) == 0x8000_0000 && Pow2(32) == 0x1_0000_0000 && Pow2(42) == 0x400_0000_0000 && Pow2(43) == 0x800_0000_0000
  {
    Pow2Values();
    assert Pow2(0) == 1 && Pow2(1) == 2 && Pow2(2) == 4 && Pow2(3) == 8 && Pow2(4) == 0x10 && Pow2(5) == 0x20 && Pow2(6) == 0x40;
    assert Pow2(7) == 0x80;
    assert Pow2(9) == 0x200 && Pow2(10) == 0x400 && Pow2(11) == 0x800 && Pow2(12) == 0x1000 && Pow2(14) == 0x4000;
    Pow2Add(24, 1);
    Pow2Add(24, 2);
    Pow2Add(32, 10);
    Pow2Add(32, 11);
    hide Pow2;
  }
}

/**
 Which instructions advance the location counter: returns through an address whose bit 14 is set,
 and dispatches that ask for the next macroinstruction.
 */
module Returns {
  import opened Words
  import opened Arithmetic
  import opened Microcode
  import opened PipelineTheory
  import opened Transfers
  import opened ReturnStack
  import opened MemoryTiming
  import opened Instructions

  /** A return through an address without bit 14 goes there, and only pops. */
  lemma PlainReturn(c: Cpu, env: Env)
    requires c.mem.spc[c.spcPtr] / 0x4000 % 2 == 0
    ensures Return(c, env) == (c.mem.spc[c.spcPtr] % 0x4000, c.(spcPtr := (c.spcPtr + 31) % 32))
  {
    hide AdvanceLc;
  }

  /**
   A return through an address with bit 14 set advances LC by a halfword, or a byte in byte mode. It
   goes to that address, with bit 1 set exactly if it was or if LC did not ask for a fetch; if it did,
   the read of the word that LC stood at is started. LC asks again exactly at the start of a word.
   */
  lemma ReturnAdvances(c: Cpu, env: Env, address: nat, fetch: bool)
    requires c.mem.spc[c.spcPtr] / 0x4000 % 2 == 1
    requires LcIs(c, address, fetch) && address + LcStride(c) < 0x400_0000 && (ByteMode(c) || address % 2 == 0)
    ensures var w, (t, c') := c.mem.spc[c.spcPtr], Return(c, env);
            && t / 4 == w % 0x4000 / 4 && t % 2 == w % 2 && t < 0x4000 && (t / 2 % 2 == 1 <==> w / 2 % 2 == 1 || !fetch)
            && LcIs(c', address + LcStride(c), (address + LcStride(c)) % 4 == 0) && c'.spcPtr == (c.spcPtr + 31) % 32
            && (fetch ==> JustStarted(c') && c'.port.vma == address / 4 && AnsweredFor(c', env))
            && (!fetch ==> c'.port.vma == c.port.vma && c'.port.newMdDelay == c.port.newMdDelay)
  {
    hide AdvanceLc, LcIs, AnsweredFor, ByteMode, ForceBit1;
    var w, c1 := PopSpc(c).0, PopSpc(c).1;
    PopKeepsLc(c, address, fetch);
    AdvanceLcStep(c1, env, w, address, fetch);
    AdvanceLcKeepsRing(c1, env, w);
    ForcedAddress(w);
    LowDigits14(w);
  }

  lemma PopKeepsLc(c: Cpu, address: nat, fetch: bool)
    ensures var c' := PopSpc(c).1; LcIs(c', address, fetch) == LcIs(c, address, fetch) && LcStride(c') == LcStride(c) && ByteMode(c') == ByteMode(c)
  {
  }

  lemma AdvanceLcKeepsRing(c: Cpu, env: Env, ppc: Word)
    ensures AdvanceLc(c, env, ppc).1.spcPtr == c.spcPtr && AdvanceLc(c, env, ppc).1.mem == c.mem
  {
    hide ForceBit1, WordBoundary, NeedFetch;
  }

  lemma ForcedAddress(w: Word)
    ensures var t := ForceBit1(w) % 0x4000; t / 4 == w % 0x4000 / 4 && t % 2 == w % 2 && t / 2 % 2 == 1
  {
    var v := ForceBit1(w);
    OrTwo(w);
    hide ForceBit1;
    LowDigits14(v);
    LowDigits14(w);
    assert v % 0x4000 / 4 == v / 4 % 0x1000 && w % 0x4000 / 4 == w / 4 % 0x1000;
  }

  lemma OrTwo(w: Word)
    ensures var v := ForceBit1(w); v / 4 == w / 4 && v % 2 == w % 2 && v / 2 % 2 == 1
  {
    var h := w / 2;
    OrZero(h / 2);
    OrDigits(w, 2);
    OrDigits(h, 1);
    assert ForceBit1(w) == Or(w, 2);
    hide Or, ForceBit1;
    BitOneSet(w, Or(h, 1), Or(w, 2));
  }

  lemma BitOneSet(w: nat, y: nat, x: nat)
    requires y == 2 * (w / 2 / 2) + 1 && x == 2 * y + w % 2
    ensures x / 4 == w / 4 && x % 2 == w % 2 && x / 2 % 2 == 1
  {
    DivUnique(w, 4, w / 2 / 2, w / 2 % 2 * 2 + w % 2);
    DivUnique(x, 4, w / 2 / 2, 2 + w % 2);
    DivUnique(x, 2, y, w % 2);
  }

  lemma OrDigits(a: nat, b: nat)
    ensures Or(a, b) == 2 * Or(a / 2, b / 2) + (if a % 2 == 1 || b % 2 == 1 then 1 else 0)
  {
  }

  lemma {:induction false} OrZero(a: nat)
    ensures Or(a, 0) == a
  {
    if a > 0 { OrZero(a / 2); }
  }

  lemma LowDigits14(v: nat)
    ensures v % 0x4000 / 4 == v / 4 % 0x1000 && v % 0x4000 % 2 == v % 2 && v % 0x4000 / 2 % 2 == v / 2 % 2
  {
    var q, r := v / 0x4000, v % 0x4000;
    DivUnique(v, 4, q * 0x1000 + r / 4, r % 4);
    DivUnique(q * 0x1000 + r / 4, 0x1000, q, r / 4);
    DivUnique(v, 2, q * 0x2000 + r / 2, r % 2);
    DivUnique(q * 0x2000 + r / 2, 2, q * 0x1000 + r / 4, r / 2 % 2);
  }

  /** A return depends on nothing but the ring, the memory port and the byte mode. */
  lemma ReturnDependsOn(c: Cpu, d: Cpu, env: Env)
    requires c.port == d.port && c.mem.spc == d.mem.spc && c.spcPtr == d.spcPtr && c.interruptControl == d.interruptControl
    ensures Return(c, env).0 == Return(d, env).0 && Return(c, env).1.port == Return(d, env).1.port
  {
    hide AdvanceLc;
    AdvanceDependsOn(PopSpc(c).1, PopSpc(d).1, env, PopSpc(c).0);
  }

  lemma AdvanceDependsOn(c: Cpu, d: Cpu, env: Env, ppc: Word)
    requires c.port == d.port && c.interruptControl == d.interruptControl
    ensures AdvanceLc(c, env, ppc).0 == AdvanceLc(d, env, ppc).0 && AdvanceLc(c, env, ppc).1.port == AdvanceLc(d, env, ppc).1.port
  {
    hide StepLc, MarkBoundary;
    StepDependsOn(c, d, env, ppc);
    MarkDependsOn(StepLc(c, env, ppc).1, StepLc(d, env, ppc).1);
  }

  lemma StepDependsOn(c: Cpu, d: Cpu, env: Env, ppc: Word)
    requires c.port == d.port && c.interruptControl == d.interruptControl
    ensures var (t, c'), (u, d') := StepLc(c, env, ppc), StepLc(d, env, ppc);
            t == u && c'.port == d'.port && c'.interruptControl == d'.interruptControl
  {
    hide ForceBit1, Wrap32;
    assert ByteMode(c) == ByteMode(d);
    hide ByteMode;
  }

  lemma MarkDependsOn(c: Cpu, d: Cpu)
    requires c.port == d.port && c.interruptControl == d.interruptControl
    ensures MarkBoundary(c).port == MarkBoundary(d).port
  {
    assert WordBoundary(c) == WordBoundary(d);
    hide WordBoundary;
  }

  /** A taken jump with R returns in that way, from the operands it latched; without R it leaves LC alone. */
  lemma JumpReturns(c: Cpu, env: Env)
    requires JumpTaken(c, env)
    ensures var c2, c' := Latched(c, env).value, Step(c, env).value;
            if Word0(c) / 0x200 % 2 == 1 then c'.pipe.npc == Return(c2, env).0 && c'.port == Return(c2, env).1.port
            else c'.port == c2.port
  {
    LatchedFrame(c, env);
    MergedFrame(IncNpc(c).value);
    var c2 := Latched(c, env).value;
    assert TickMd(IncNpc(c).value).pipe == IncNpc(c).value.pipe;
    assert Step(c, env).value == FinishPopj(Dispatch(c2, env).value, env);
    hide Step, Latched, Word0, LatchOperands, Merged, IncNpc;
    JmpReturns(c2, env);
  }

  lemma JmpReturns(c: Cpu, env: Env)
    requires OpField(c.pipe.p0) == 1 && !(PField(c.pipe.p0) && RField(c.pipe.p0))
    requires CheckJumpCondition(c, env).Some? && CheckJumpCondition(c, env).value.0 != InvertField(c.pipe.p0)
    ensures Dispatch(c, env).Some?
    ensures var c' := FinishPopj(Dispatch(c, env).value, env);
            if RField(c.pipe.p0) then c'.pipe.npc == Return(c, env).0 && c'.port == Return(c, env).1.port else c'.port == c.port
  {
    hide CheckJumpCondition, PField, RField, NField, TargetField, InvertField, MiscField, Return;
    var w := c.pipe.p0;
    var c0 := if MiscField(w) == 1 then c.(halted := true) else c;
    HaltedIsIrrelevant(c, env);
    CheckFrame(c0, env);
    var c1 := CheckJumpCondition(c0, env).value.1;
    ConditionKeepsPort(c0, env);
    ReturnDependsOn(c1, c, env);
  }

  lemma ConditionKeepsPort(c: Cpu, env: Env)
    requires CheckJumpCondition(c, env).Some?
    ensures var c' := CheckJumpCondition(c, env).value.1;
            c'.port == c.port && c'.mem == c.mem && c'.spcPtr == c.spcPtr && c'.interruptControl == c.interruptControl
  {
    hide Signed, Arithmetic.Rol32;
  }

  /** A taken dispatch advances LC first if bit 24 of its word asks for that, and once more by its return. */
  lemma DispatchReturns(c: Cpu, env: Env)
    requires DispatchTaken(c, env)
    ensures var c2, c' := Latched(c, env).value, Step(c, env).value;
            var c3 := if Word0(c) / 0x100_0000 % 2 == 1 then AdvanceLc(c2, env, 0).1 else c2;
            if RBit(DispatchWord(c2, env)) then c'.pipe.npc == Return(c3, env).0 && c'.port == Return(c3, env).1.port
            else c'.port == c3.port
  {
    LatchedFrame(c, env);
    MergedFrame(IncNpc(c).value);
    var c2 := Latched(c, env).value;
    assert TickMd(IncNpc(c).value).pipe == IncNpc(c).value.pipe;
    assert Dispatch(c2, env).Some? && Step(c, env).value == FinishPopj(Dispatch(c2, env).value, env);
    hide Step, Latched, Word0, LatchOperands, Merged, IncNpc, DispatchWord, RBit, PBit;
    DspReturns(c2, env);
  }

  lemma DspReturns(c: Cpu, env: Env)
    requires OpField(c.pipe.p0) == 2 && MiscField(c.pipe.p0) != 2
    requires !(PBit(DispatchWord(c, env)) && RBit(DispatchWord(c, env)))
    ensures Dispatch(c, env).Some?
    ensures var c', c3 := FinishPopj(Dispatch(c, env).value, env), if IFetchField(c.pipe.p0) then AdvanceLc(c, env, 0).1 else c;
            if RBit(DispatchWord(c, env)) then c'.pipe.npc == Return(c3, env).0 && c'.port == Return(c3, env).1.port else c'.port == c3.port
  {
    var word := DispatchWord(c, env);
    DispatchIs(c, env);
    hide Dispatch, DispatchWord, DispatchPrefix, Return, AdvanceLc, Rol32, RotatePosition, AField, NBit, PBit, RBit;
    var c0 := c.(path := c.path.(mData := Rol32(c.path.mData, RotatePosition(c))), dispatchConstant := AField(c.pipe.p0));
    var c1, c3 := DispatchPrefix(c0, env, NBit(word)), if IFetchField(c.pipe.p0) then AdvanceLc(c, env, 0).1 else c;
    PrefixAdvances(c0, c, env, NBit(word));
    ReturnDependsOn(c1, c3, env);
  }

  lemma PrefixAdvances(c: Cpu, d: Cpu, env: Env, n: bool)
    requires c.port == d.port && c.interruptControl == d.interruptControl && c.pipe.p0 == d.pipe.p0 && c.mem == d.mem && c.spcPtr == d.spcPtr
    ensures var c', d' := DispatchPrefix(c, env, n), if IFetchField(d.pipe.p0) then AdvanceLc(d, env, 0).1 else d;
            c'.port == d'.port && c'.mem == d'.mem && c'.spcPtr == d'.spcPtr && c'.interruptControl == d'.interruptControl
  {
    hide AdvanceLc, IFetchField, PushOwnField;
    AdvanceDependsOn(BackUp(c, n), d, env, 0);
    AdvanceKeepsControl(BackUp(c, n), env);
    AdvanceKeepsControl(d, env);
  }

  lemma AdvanceKeepsControl(c: Cpu, env: Env)
    ensures var c' := AdvanceLc(c, env, 0).1; c'.interruptControl == c.interruptControl && c'.mem == c.mem && c'.spcPtr == c.spcPtr
  {
    hide ForceBit1, WordBoundary, NeedFetch;
  }

  /** A POPJ that is still pending after its instruction returns in the same way from the state it leaves. */
  lemma PopjReturns(c: Cpu, env: Env)
    requires PopjTaken(c, env)
    ensures var c3, c' := Dispatch(Latched(c, env).value, env).value, Step(c, env).value;
            c'.pipe.npc == Return(c3, env).0 && c'.port == Return(c3, env).1.port
  {
    assert TickMd(IncNpc(c).value).pipe == IncNpc(c).value.pipe;
    hide Dispatch, Return, LatchOperands, Merged;
  }
}

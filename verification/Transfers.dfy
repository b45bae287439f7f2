/**
 Jumps, dispatches, calls and returns as microprograms see them: which addresses execute after
 a taken transfer, and where a call resumes once everything it nested has returned.
 */
module Transfers {
  import opened Words
  import opened Arithmetic
  import opened Microcode
  import opened PipelineTheory
  import opened ReturnStack

  /** The address the next cycle executes; none while the slot is annulled. */
  function Executes(c: Cpu): Option<Word> { if c.pipe.inhibit then None else Some(c.pipe.p1pc) }

  /** The word the next cycle executes, OA modification included. */
  function Word0(c: Cpu): MicroWord
    requires IncNpc(c).Some?
  {
    Merged(IncNpc(c).value).pipe.p0
  }

  /** The next cycle executes a jump whose condition holds. */
  ghost predicate JumpTaken(c: Cpu, env: Env) {
    && Step(c, env).Some? && !c.pipe.inhibit && IncNpc(c).Some? && Latched(c, env).Some?
    && OpField(Word0(c)) == 1
    && !(PField(Word0(c)) && RField(Word0(c)))
    && CheckJumpCondition(Latched(c, env).value, env).Some?
    && CheckJumpCondition(Latched(c, env).value, env).value.0 != InvertField(Word0(c))
  }

  lemma LatchedFrame(c: Cpu, env: Env)
    requires Latched(c, env).Some?
    ensures var c2 := Latched(c, env).value;
            && IncNpc(c).Some?
            && c2.pipe == IncNpc(c).value.pipe.(p0 := Word0(c), popj := c2.pipe.popj)
            && c2.mem == c.mem
  {
    hide LatchOperands, MergeOa, TickMd;
    var c1 := IncNpc(c).value;
    MergedFrame(c1);
    LatchFrame(Merged(c1), env);
  }

  /** What a taken jump does, in terms of the state it is dispatched in. */
  lemma JumpStep(c: Cpu, env: Env)
    requires JumpTaken(c, env)
    ensures var w, c2, c' := Word0(c), Latched(c, env).value, Step(c, env).value;
            && c2.pipe.npc == Successor(c.pipe.npc)
            && c'.pipe.p1pc == c.pipe.npc && c'.pipe.inhibit == NField(w)
            && (!RField(w) ==> c'.pipe.npc == TargetField(w))
            && (PField(w) ==> RingOf(c') == Apply(RingOf(c2), Push(ReturnAddress(c2, NField(w)))))
            && (!PField(w) && !RField(w) ==> RingOf(c') == RingOf(c2))
            && (RField(w) ==>
                  && RingOf(c') == Apply(RingOf(c2), Pop)
                  && (Top(RingOf(c2)) / 0x4000 % 2 == 0 ==> c'.pipe.npc == Top(RingOf(c2)) % 0x4000))
  {
    var c1 := IncNpc(c).value;
    LatchedFrame(c, env);
    MergedFrame(c1);
    var c2 := Latched(c, env).value;
    assert TickMd(c1).pipe == c1.pipe;
    assert Dispatch(c2, env).Some? && Step(c, env).value == FinishPopj(Dispatch(c2, env).value, env);
    hide Step, Latched, Word0, LatchOperands, Merged, IncNpc;
    JmpTakenEffect(c2, env);
  }

  lemma JmpTakenEffect(c: Cpu, env: Env)
    requires OpField(c.pipe.p0) == 1 && !(PField(c.pipe.p0) && RField(c.pipe.p0)) && !c.pipe.inhibit
    requires CheckJumpCondition(c, env).Some? && CheckJumpCondition(c, env).value.0 != InvertField(c.pipe.p0)
    ensures Dispatch(c, env).Some?
    ensures var w, c' := c.pipe.p0, FinishPopj(Dispatch(c, env).value, env);
            && c'.pipe.p1pc == c.pipe.p1pc && c'.pipe.inhibit == NField(w)
            && (!RField(w) ==> c'.pipe.npc == TargetField(w))
            && (PField(w) ==> RingOf(c') == Apply(RingOf(c), Push(ReturnAddress(c, NField(w)))))
            && (!PField(w) && !RField(w) ==> RingOf(c') == RingOf(c))
            && (RField(w) ==>
                  && RingOf(c') == Apply(RingOf(c), Pop)
                  && (Top(RingOf(c)) / 0x4000 % 2 == 0 ==> c'.pipe.npc == Top(RingOf(c)) % 0x4000))
  {
    hide CheckJumpCondition, PField, RField, NField, TargetField, InvertField, MiscField, Transfer, Return, Apply;
    var w := c.pipe.p0;
    var c0 := if MiscField(w) == 1 then c.(halted := true) else c;
    HaltedIsIrrelevant(c, env);
    CheckFrame(c0, env);
    var c1 := CheckJumpCondition(c0, env).value.1;
    var t := Transfer(c1, env, NField(w), PField(w), RField(w), TargetField(w));
    assert Jmp(c, env) == Some(if NField(w) then t.(pipe := t.pipe.(inhibit := true)) else t);
    assert Dispatch(c, env) == Jmp(c, env);
    hide Jmp, Dispatch, OpField;
    TransferOneOp(c1, env, NField(w), PField(w), RField(w), TargetField(w));
    TransferFrame(c1, env, NField(w), PField(w), RField(w), TargetField(w));
    TransferTarget(c1, env, NField(w), PField(w), RField(w), TargetField(w));
  }

  lemma TransferTarget(c: Cpu, env: Env, n: bool, p: bool, r: bool, target: Word)
    requires !(p && r)
    ensures !r ==> Transfer(c, env, n, p, r, target).pipe.npc == target
    ensures r && Top(RingOf(c)) / 0x4000 % 2 == 0 ==>
              Transfer(c, env, n, p, r, target).pipe.npc == Top(RingOf(c)) % 0x4000
  {
    hide AdvanceLc;
  }

  lemma HaltedIsIrrelevant(c: Cpu, env: Env)
    ensures CheckJumpCondition(c.(halted := true), env).Some? == CheckJumpCondition(c, env).Some?
    ensures CheckJumpCondition(c, env).Some? ==>
              CheckJumpCondition(c.(halted := true), env).value.0 == CheckJumpCondition(c, env).value.0
  {
    hide Signed, Arithmetic.Rol32;
  }

  /** An annulled slot does nothing but tick the delayed load and move the pipeline on. */
  lemma AnnulledStep(c: Cpu, env: Env)
    requires c.pipe.inhibit && IncNpc(c).Some?
    ensures var c1 := TickMd(IncNpc(c).value);
            Step(c, env) == Some(c1.(pipe := c1.pipe.(inhibit := false)))
  {
  }

  /**
   A taken jump from a to t executes a, a + 1, t with n clear and a, t with n set; in the
   first case provided the delay slot does not itself transfer with annulment.
   */
  lemma JumpSequence(c: Cpu, env: Env, env': Env)
    requires JumpTaken(c, env) && !RField(Word0(c)) && Step(Step(c, env).value, env').Some?
    ensures var n, c1, c2 := NField(Word0(c)), Step(c, env).value, Step(Step(c, env).value, env').value;
            && Executes(c) == Some(c.pipe.p1pc)
            && Executes(c1) == (if n then None else Some(c.pipe.npc))
            && c2.pipe.p1pc == TargetField(Word0(c))
            && (n || !c2.pipe.inhibit ==> Executes(c2) == Some(TargetField(Word0(c))))
  {
    JumpStep(c, env);
    var c1 := Step(c, env).value;
    hide JumpTaken, Word0, RField, TargetField, NField, Execute;
    ExecuteFrame(IncNpc(c1).value, env');
    if c1.pipe.inhibit { AnnulledStep(c1, env'); }
  }

  // ----- dispatches -----

  /** The dispatch-memory word of a latched dispatch, and its three bits. */
  function DispatchWord(c: Cpu, env: Env): Word {
    c.mem.dmem[DispatchAddress(c.pipe.p0, env.mapL2, Rol32(c.path.mData, RotatePosition(c)))]
  }
  predicate NBit(word: Word) { word / 0x4000 % 2 == 1 }
  predicate PBit(word: Word) { word / 0x8000 % 2 == 1 }
  predicate RBit(word: Word) { word / 0x1_0000 % 2 == 1 }

  /** The next cycle executes a dispatch that transfers control. */
  ghost predicate DispatchTaken(c: Cpu, env: Env) {
    && Step(c, env).Some? && !c.pipe.inhibit && IncNpc(c).Some? && Latched(c, env).Some?
    && OpField(Word0(c)) == 2 && MiscField(Word0(c)) != 2
    && !(PBit(DispatchWord(Latched(c, env).value, env)) && RBit(DispatchWord(Latched(c, env).value, env)))
  }

  /** The address a dispatch pushes: as a jump would, but from the dispatch itself when it is to be done again. */
  function DispatchReturn(c: Cpu, n: bool): Word {
    if n then Wrap32((if PushOwnField(c.pipe.p0) then Wrap32(c.pipe.npc - 1) else c.pipe.npc) - 1) else c.pipe.npc
  }

  /** What a taken dispatch does, in terms of the state it is dispatched in. */
  lemma DispatchStep(c: Cpu, env: Env)
    requires DispatchTaken(c, env)
    ensures var c2, c' := Latched(c, env).value, Step(c, env).value;
            var word := DispatchWord(c2, env);
            && c2.pipe.npc == Successor(c.pipe.npc) && c2.pipe.p0 == Word0(c)
            && c'.pipe.p1pc == c.pipe.npc && c'.pipe.inhibit == NBit(word)
            && (!RBit(word) ==> c'.pipe.npc == word % 0x4000)
            && (PBit(word) ==> RingOf(c') == Apply(RingOf(c2), Push(DispatchReturn(c2, NBit(word)))))
            && (!PBit(word) && !RBit(word) ==> RingOf(c') == RingOf(c2))
            && (RBit(word) ==>
                  && RingOf(c') == Apply(RingOf(c2), Pop)
                  && (Top(RingOf(c2)) / 0x4000 % 2 == 0 ==> c'.pipe.npc == Top(RingOf(c2)) % 0x4000))
  {
    var c1 := IncNpc(c).value;
    LatchedFrame(c, env);
    MergedFrame(c1);
    var c2 := Latched(c, env).value;
    assert TickMd(c1).pipe == c1.pipe;
    assert Dispatch(c2, env).Some? && Step(c, env).value == FinishPopj(Dispatch(c2, env).value, env);
    hide Step, Latched, Word0, LatchOperands, Merged, IncNpc, DispatchWord, DispatchReturn;
    DispatchTakenEffect(c2, env);
  }

  lemma DispatchTakenEffect(c: Cpu, env: Env)
    requires OpField(c.pipe.p0) == 2 && MiscField(c.pipe.p0) != 2 && !c.pipe.inhibit
    requires !(PBit(DispatchWord(c, env)) && RBit(DispatchWord(c, env)))
    ensures Dispatch(c, env).Some?
    ensures var word, c' := DispatchWord(c, env), FinishPopj(Dispatch(c, env).value, env);
            && c'.pipe.p1pc == c.pipe.p1pc && c'.pipe.inhibit == NBit(word)
            && (!RBit(word) ==> c'.pipe.npc == word % 0x4000)
            && (PBit(word) ==> RingOf(c') == Apply(RingOf(c), Push(DispatchReturn(c, NBit(word)))))
            && (!PBit(word) && !RBit(word) ==> RingOf(c') == RingOf(c))
            && (RBit(word) ==>
                  && RingOf(c') == Apply(RingOf(c), Pop)
                  && (Top(RingOf(c)) / 0x4000 % 2 == 0 ==> c'.pipe.npc == Top(RingOf(c)) % 0x4000))
  {
    var word := DispatchWord(c, env);
    var c0 := c.(path := c.path.(mData := Rol32(c.path.mData, RotatePosition(c))), dispatchConstant := AField(c.pipe.p0));
    DispatchIs(c, env);
    hide Dispatch, DispatchWord, Transfer, DispatchPrefix, FinishPopj, Apply, Rol32, RotatePosition, AField, NBit, PBit, RBit, Top, PushOwnField;
    PrefixedTransfer(c0, env, NBit(word), PBit(word), RBit(word), word % 0x4000);
  }

  /** A dispatch's transfer after its prefix. */
  lemma PrefixedTransfer(c: Cpu, env: Env, n: bool, p: bool, r: bool, target: Word)
    requires !(p && r) && !c.pipe.inhibit
    ensures var t := Transfer(DispatchPrefix(c, env, n), env, n, p, r, target);
            && FinishPopj(t, env) == t && t.pipe.p1pc == c.pipe.p1pc && t.pipe.inhibit == n
            && (!r ==> t.pipe.npc == target)
            && (p ==> RingOf(t) == Apply(RingOf(c), Push(DispatchReturn(c, n))))
            && (!p && !r ==> RingOf(t) == RingOf(c))
            && (r ==> RingOf(t) == Apply(RingOf(c), Pop)
                      && (Top(RingOf(c)) / 0x4000 % 2 == 0 ==> t.pipe.npc == Top(RingOf(c)) % 0x4000))
  {
    hide Transfer, Return, Apply, Top, DispatchPrefix, PushOwnField;
    var c1 := DispatchPrefix(c, env, n);
    DispatchPrefixFrame(c, env, n);
    DispatchPrefixMoves(c, env, n);
    TransferOneOp(c1, env, n, p, r, target);
    TransferFrame(c1, env, n, p, r, target);
    TransferTarget(c1, env, n, p, r, target);
  }

  lemma DispatchIs(c: Cpu, env: Env)
    requires OpField(c.pipe.p0) == 2 && MiscField(c.pipe.p0) != 2
    requires !(PBit(DispatchWord(c, env)) && RBit(DispatchWord(c, env)))
    ensures var word := DispatchWord(c, env);
            var c0 := c.(path := c.path.(mData := Rol32(c.path.mData, RotatePosition(c))), dispatchConstant := AField(c.pipe.p0));
            Dispatch(c, env) == Some(Transfer(DispatchPrefix(c0, env, NBit(word)), env, NBit(word), PBit(word), RBit(word), word % 0x4000))
  {
    hide Transfer, DispatchPrefix, DispatchAddress, Rol32, RotatePosition, AField;
  }

  lemma DispatchPrefixMoves(c: Cpu, env: Env, n: bool)
    ensures var c' := DispatchPrefix(c, env, n);
            && c'.pipe.inhibit == (c.pipe.inhibit || n)
            && c'.pipe.npc == (if PushOwnField(c.pipe.p0) && n then Wrap32(c.pipe.npc - 1) else c.pipe.npc)
  {
    hide AdvanceLc, PushOwnField;
    AdvanceLcFrame(BackUp(c, n), env, 0);
  }

  // ----- calls and returns -----

  /**
   The next cycle executes a call that is to resume at ret: a jump after its delay slot or at its
   annulled slot, a dispatch likewise, or at the dispatch itself when it pushes its own address.
   */
  ghost predicate CallTaken(c: Cpu, env: Env, ret: Word) {
    IncNpc(c).Some? && c.pipe.npc < 0x3FFF &&
    ((JumpTaken(c, env) && PField(Word0(c)) && ret == (if NField(Word0(c)) then c.pipe.npc else c.pipe.npc + 1))
     || (DispatchTaken(c, env) && PBit(DispatchWord(Latched(c, env).value, env))
         && var n, own := NBit(DispatchWord(Latched(c, env).value, env)), PushOwnField(Word0(c));
            (n && own ==> c.pipe.npc > 0) && ret == if !n then c.pipe.npc + 1 else if own then c.pipe.npc - 1 else c.pipe.npc))
  }

  lemma CallIsStep(c: Cpu, env: Env, ret: Word)
    requires CallTaken(c, env, ret)
    ensures IncNpc(c).Some? && Step(c, env).Some? && Latched(c, env).Some?
  {
  }

  lemma CallPushes(c: Cpu, env: Env, ret: Word)
    requires CallTaken(c, env, ret)
    ensures Step(c, env).Some? && Latched(c, env).Some?
    ensures ret < 0x4000 && RingOf(Step(c, env).value) == Apply(RingOf(Latched(c, env).value), Push(ret))
  {
    hide Step, Latched, Word0, Apply, PField, RField, NField, JumpTaken, DispatchTaken, DispatchWord, PBit, NBit, RBit, PushOwnField;
    assert IncNpc(c).Some? && Step(c, env).Some? && Latched(c, env).Some? by { CallIsStep(c, env, ret); }
    if JumpTaken(c, env) && PField(Word0(c)) && ret == (if NField(Word0(c)) then c.pipe.npc else c.pipe.npc + 1) {
      JumpStep(c, env);
    } else {
      DispatchStep(c, env);
    }
  }

  /** The next cycle executes an instruction that leaves the ring alone and then returns by its POPJ bit. */
  ghost predicate PopjTaken(c: Cpu, env: Env) {
    && Step(c, env).Some? && !c.pipe.inhibit && Latched(c, env).Some?
    && Dispatch(Latched(c, env).value, env).Some?
    && Dispatch(Latched(c, env).value, env).value.pipe.popj
    && RingOf(Dispatch(Latched(c, env).value, env).value) == RingOf(Latched(c, env).value)
  }

  /** The next cycle returns, by jump, dispatch or POPJ, to the address on top of the ring as it stands. */
  ghost predicate ReturnTaken(c: Cpu, env: Env) {
    && Latched(c, env).Some? && IncNpc(c).Some? && RingOf(Latched(c, env).value) == RingOf(c)
    && ((JumpTaken(c, env) && RField(Word0(c)) && !PField(Word0(c)))
        || (DispatchTaken(c, env) && RBit(DispatchWord(Latched(c, env).value, env)))
        || PopjTaken(c, env))
  }

  lemma ReturnGoesToTop(c: Cpu, env: Env, ret: Word)
    requires ReturnTaken(c, env) && Top(RingOf(c)) == ret < 0x4000
    ensures Step(c, env).Some?
    ensures Step(c, env).value.pipe.npc == ret && RingOf(Step(c, env).value) == Apply(RingOf(c), Pop)
  {
    hide Step, Latched, Word0, Top, RField, PField, JumpTaken, DispatchTaken, PopjTaken, DispatchWord, RBit, Apply;
    if PopjTaken(c, env) {
      PopjGoesToTop(c, env, ret);
    } else if JumpTaken(c, env) && RField(Word0(c)) && !PField(Word0(c)) {
      JumpGoesToTop(c, env, ret);
    } else {
      DispatchGoesToTop(c, env, ret);
    }
  }

  lemma JumpGoesToTop(c: Cpu, env: Env, ret: Word)
    requires JumpTaken(c, env) && RField(Word0(c)) && !PField(Word0(c))
    requires Top(RingOf(Latched(c, env).value)) == ret < 0x4000
    ensures Step(c, env).Some?
    ensures Step(c, env).value.pipe.npc == ret && RingOf(Step(c, env).value) == Apply(RingOf(Latched(c, env).value), Pop)
  {
    hide Step, Latched, Word0, Top, RField, PField, NField, TargetField, Apply, JumpTaken;
    TakenIsStep(c, env);
    JumpStep(c, env);
  }

  lemma DispatchGoesToTop(c: Cpu, env: Env, ret: Word)
    requires DispatchTaken(c, env) && RBit(DispatchWord(Latched(c, env).value, env))
    requires Top(RingOf(Latched(c, env).value)) == ret < 0x4000
    ensures Step(c, env).Some?
    ensures Step(c, env).value.pipe.npc == ret && RingOf(Step(c, env).value) == Apply(RingOf(Latched(c, env).value), Pop)
  {
    hide Step, Latched, Word0, Top, DispatchWord, RBit, PBit, NBit, Apply, DispatchTaken;
    TakenIsStep(c, env);
    DispatchStep(c, env);
  }

  lemma TakenIsStep(c: Cpu, env: Env)
    requires JumpTaken(c, env) || DispatchTaken(c, env)
    ensures Step(c, env).Some? && IncNpc(c).Some? && Latched(c, env).Some?
  {
    hide Step, Latched, Word0;
  }

  lemma PopjGoesToTop(c: Cpu, env: Env, ret: Word)
    requires PopjTaken(c, env) && Top(RingOf(Latched(c, env).value)) == ret < 0x4000
    ensures Step(c, env).Some?
    ensures Step(c, env).value.pipe.npc == ret
    ensures RingOf(Step(c, env).value) == Apply(RingOf(Latched(c, env).value), Pop)
  {
    hide LatchOperands, Dispatch, MergeOa, TickMd, AdvanceLc;
    var c3 := Dispatch(Latched(c, env).value, env).value;
    MergedFrame(IncNpc(c).value);
    assert TickMd(IncNpc(c).value).pipe == IncNpc(c).value.pipe by { TickRing(IncNpc(c).value); }
    assert Step(c, env).value == FinishPopj(c3, env);
    ReturnPops(c3, env);
    assert Return(c3, env).0 == ret;
    hide Step, Return, Latched;
  }

  /** An ALU or byte instruction with POPJ that neither reads nor writes the ring is such a return. */
  lemma PopjInstructionReturns(c: Cpu, env: Env)
    requires Step(c, env).Some? && !c.pipe.inhibit && Latched(c, env).Some?
    requires var w := Word0(c);
             && (OpField(w) == 0 || OpField(w) == 3) && PopjField(w)
             && (MSourceField(w) == 1 ==> MField(w) != 12)
             && (DestField(w) / 0x800 % 2 == 1 || DestField(w) / 32 != 13)
    ensures ReturnTaken(c, env)
  {
    var c1 := IncNpc(c).value;
    MergedFrame(c1);
    LatchedFrame(c, env);
    var c2 := Latched(c, env).value;
    assert TickMd(c1).pipe == c1.pipe by { TickRing(c1); }
    LatchKeepsRing(Merged(c1), env);
    CyclesFrame(c2);
    hide Step, Latched, Merged, MergeOa, LatchOperands, AluCycle, BytCycle, OpField, PopjField, MSourceField, MField, DestField;
    if OpField(c2.pipe.p0) == 0 {
      WriteDestKeepsRing(AluCycle(c2), env, DestField(c2.pipe.p0));
      WriteDestFrame(AluCycle(c2), env, DestField(c2.pipe.p0));
    } else {
      WriteDestKeepsRing(BytCycle(c2), env, DestField(c2.pipe.p0));
      WriteDestFrame(BytCycle(c2), env, DestField(c2.pipe.p0));
    }
  }

  lemma LatchKeepsRing(c: Cpu, env: Env)
    requires LatchOperands(c, env).Some? && (MSourceField(c.pipe.p0) == 1 ==> MField(c.pipe.p0) != 12)
    ensures RingOf(LatchOperands(c, env).value) == RingOf(c) && LatchOperands(c, env).value.pipe.popj == PopjField(c.pipe.p0)
  {
    hide PopjField, MField;
  }

  lemma WriteDestKeepsRing(c: Cpu, env: Env, dest: nat)
    requires dest / 0x800 % 2 == 1 || dest / 32 != 13
    ensures RingOf(WriteDest(c, env, dest)) == RingOf(c)
  {
    hide LoadLc, StartRead, StartWrite;
    LoadLcKeepsRing(c, env);
  }

  lemma LoadLcKeepsRing(c: Cpu, env: Env)
    ensures forall d, c': Cpu :: RingOf(LoadLc(c', d)) == RingOf(c')
    ensures forall a, c': Cpu :: RingOf(StartRead(c', env, a)) == RingOf(c')
    ensures forall a, c': Cpu :: RingOf(StartWrite(c', env, a)) == RingOf(c')
  {
  }

  /**
   A call resumes: if the code between a taken call and a taken return pushes and pops in
   balance without nesting more than 31 deep, the return goes to where the call is to resume.
   */
  lemma CallResumes(c: Cpu, env: Env, ret: Word, envs: seq<Env>, ck: Cpu, env': Env)
    requires CallTaken(c, env, ret)
    requires Run(Step(c, env).value, envs) == Some(ck)
    requires Stack([], 31, RunOps(Step(c, env).value, envs)) == Some([])
    requires ReturnTaken(ck, env')
    ensures Step(ck, env').value.pipe.npc == ret
  {
    hide Step, Latched, CallTaken, ReturnTaken, Run, RunOps, Apply, Stack, ApplyAll, Top;
    CallPushes(c, env, ret);
    var c1 := Step(c, env).value;
    RunRing(c1, envs);
    BalancedKeepsTop(RingOf(Latched(c, env).value), ret, RunOps(c1, envs));
    ReturnGoesToTop(ck, env', ret);
  }
}

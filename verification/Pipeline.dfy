/**
 The prefetch pipeline. Step executes a word it fetched one cycle before; unless a cycle
 replaces the word it has just fetched, that refines a machine that fetches each instruction
 when it executes it, with one delay slot after every transfer and an annul bit.
 */
module PipelineTheory {
  import opened Words
  import opened Arithmetic
  import opened Microcode

  // ----- what the phases of a cycle leave alone -----

  /** The prefetched word is untouched by everything after the fetch. */
  predicate SamePrefetch(c: Cpu, c': Cpu) {
    c'.pipe.p1 == c.pipe.p1 && c'.pipe.p1pc == c.pipe.p1pc
  }

  /** The control store itself is untouched. */
  predicate SameStore(c: Cpu, c': Cpu) {
    c'.mem.prom == c.mem.prom && c'.mem.imem == c.mem.imem && c'.port.promDisabled == c.port.promDisabled
  }

  lemma AdvanceLcFrame(c: Cpu, env: Env, ppc: Word)
    ensures var c' := AdvanceLc(c, env, ppc).1;
            c' == c.(port := c.port.(lc := c'.port.lc, vma := c'.port.vma, newMd := c'.port.newMd,
                                     newMdDelay := c'.port.newMdDelay, vmaOk := c'.port.vmaOk))
  {
  }

  lemma ReturnFrame(c: Cpu, env: Env)
    ensures var c' := Return(c, env).1;
            c'.pipe == c.pipe && c'.path == c.path && c'.mem == c.mem && SameStore(c, c')
    ensures Return(c, env).1.spcPtr == (c.spcPtr - 1) % 32
  {
    hide AdvanceLc;
    AdvanceLcFrame(PopSpc(c).1, env, PopSpc(c).0);
  }

  lemma TransferFrame(c: Cpu, env: Env, n: bool, p: bool, r: bool, target: Word)
    ensures var c' := Transfer(c, env, n, p, r, target);
            c'.pipe == c.pipe.(npc := c'.pipe.npc, popj := false) && c'.path == c.path && SameStore(c, c')
  {
    hide Return;
    ReturnFrame(if p then PushSpc(c, ReturnAddress(c, n)) else c, env);
  }

  lemma MfWriteFrame(c: Cpu, env: Env, dest: nat, data: Word)
    ensures var c' := MfWrite(c, env, dest, data);
            && c'.pipe == c.pipe && c'.path == c.path
            && c'.mem == c.mem.(pdl := c'.mem.pdl, spc := c'.mem.spc)
            && c'.port.promDisabled == (if dest / 32 == 18 then PromAfter(c, env, data)
                                        else if dest / 32 == 26 then PromAfter(c, env, c.port.vma) else c.port.promDisabled)
  {
    hide PromAfter, MemoryDest;
    MemoryDestFrame(c, env, dest, data);
  }

  lemma MemoryDestFrame(c: Cpu, env: Env, dest: nat, data: Word)
    ensures var c' := MemoryDest(c, env, dest, data);
            && c' == c.(port := c'.port)
            && c'.port.promDisabled == (if dest / 32 == 18 then PromAfter(c, env, data)
                                        else if dest / 32 == 26 then PromAfter(c, env, c.port.vma) else c.port.promDisabled)
  {
    var c1, c2 := c.(port := c.port.(vma := data)), c.(port := c.port.(md := data));
    StartFrame(c1, env, data);
    StartFrame(c2, env, c.port.vma);
    hide StartRead, StartWrite;
  }

  lemma StartFrame(c: Cpu, env: Env, vaddr: Word)
    ensures var r := StartRead(c, env, vaddr); r == c.(port := r.port) && r.port.promDisabled == c.port.promDisabled
    ensures var r := StartWrite(c, env, vaddr); r == c.(port := r.port) && r.port.promDisabled == PromAfter(c, env, vaddr)
  {
  }

  /** The PROM switch after a write to this virtual address: an accepted write to a device may turn it. */
  function PromAfter(c: Cpu, env: Env, vaddr: Word): bool {
    var a := VirtualAddress(vaddr);
    if env.writeOk(a) && env.isDevice(a) then env.promAfterWrite(c.port.promDisabled) else c.port.promDisabled
  }

  lemma WriteDestFrame(c: Cpu, env: Env, dest: nat)
    ensures var c' := WriteDest(c, env, dest);
            && c'.pipe == c.pipe && c'.path == c.path
            && c'.mem.imem == c.mem.imem && c'.mem.prom == c.mem.prom
            && c'.port.promDisabled == (if dest / 0x800 % 2 == 1 then c.port.promDisabled
                                        else if dest / 32 == 18 then PromAfter(c, env, c.path.out)
                                        else if dest / 32 == 26 then PromAfter(c, env, c.port.vma) else c.port.promDisabled)
  {
    hide MfWrite, PromAfter;
    MfWriteFrame(c, env, dest, c.path.out);
  }

  lemma CheckFrame(c: Cpu, env: Env)
    ensures var r := CheckJumpCondition(c, env);
            r.Some? ==> r.value.1 == c.(path := c.path.(mData := r.value.1.path.mData))
  {
    hide Rol32, Signed;
  }

  lemma LatchFrame(c: Cpu, env: Env)
    ensures var r := LatchOperands(c, env);
            r.Some? ==>
              && r.value.pipe == c.pipe.(popj := r.value.pipe.popj)
              && r.value.mem == c.mem && r.value.port == c.port
  {
  }

  lemma JmpFrame(c: Cpu, env: Env)
    ensures var r := Jmp(c, env);
            r.Some? ==>
              && r.value.pipe == c.pipe.(npc := r.value.pipe.npc, popj := r.value.pipe.popj, inhibit := r.value.pipe.inhibit)
              && r.value.mem.prom == c.mem.prom && r.value.port.promDisabled == c.port.promDisabled
              && r.value.mem.imem == (if PField(c.pipe.p0) && RField(c.pipe.p0) then c.mem.imem[TargetField(c.pipe.p0) := c.path.iwr]
                                      else c.mem.imem)
  {
    hide CheckJumpCondition, Transfer, PField, RField, NField, InvertField, TargetField, MiscField;
    var c0 := if MiscField(c.pipe.p0) == 1 then c.(halted := true) else c;
    CheckFrame(c0, env);
    if CheckJumpCondition(c0, env).Some? {
      TransferFrame(CheckJumpCondition(c0, env).value.1, env, NField(c.pipe.p0), PField(c.pipe.p0), RField(c.pipe.p0),
                    TargetField(c.pipe.p0));
    }
  }

  lemma DispatchPrefixFrame(c: Cpu, env: Env, n: bool)
    ensures var c' := DispatchPrefix(c, env, n);
            && c'.pipe == c.pipe.(npc := c'.pipe.npc, inhibit := c'.pipe.inhibit)
            && c'.spcPtr == c.spcPtr && c'.mem == c.mem && SameStore(c, c')
  {
    hide AdvanceLc;
    var c1 := BackUp(c, n);
    AdvanceLcFrame(c1, env, 0);
  }

  lemma DispatchTransferFrame(c: Cpu, env: Env, word: Word)
    ensures var c' := DispatchTransfer(c, env, word);
            && c'.pipe == c.pipe.(npc := c'.pipe.npc, popj := c'.pipe.popj, inhibit := c'.pipe.inhibit)
            && SameStore(c, c')
  {
    hide DispatchPrefix, Transfer;
    var n, p, r := word / 0x4000 % 2 == 1, word / 0x8000 % 2 == 1, word / 0x1_0000 % 2 == 1;
    DispatchPrefixFrame(c, env, n);
    TransferFrame(DispatchPrefix(c, env, n), env, n, p, r, word % 0x4000);
  }

  /** A jump with both P and R stores into control memory. */
  predicate StoresCode(w: MicroWord) { OpField(w) == 1 && PField(w) && RField(w) }

  /** The virtual address that the dispatched instruction writes through the map, if it does. */
  function WriteAddress(c: Cpu): Option<Word> {
    var w := c.pipe.p0;
    if (OpField(w) != 0 && OpField(w) != 3) || DestField(w) / 0x800 % 2 == 1 then None
    else if DestField(w) / 32 == 18 then Some(if OpField(w) == 0 then AluCycle(c).path.out else BytCycle(c).path.out)
    else if DestField(w) / 32 == 26 then Some(c.port.vma)
    else None
  }

  /** The dispatched instruction turns the PROM switch: it writes to a device that turns it, and the write is accepted. */
  predicate TurnsProm(c: Cpu, env: Env) {
    WriteAddress(c).Some? && PromAfter(c, env, WriteAddress(c).value) != c.port.promDisabled
  }

  lemma CyclesFrame(c: Cpu)
    ensures AluCycle(c) == c.(path := AluCycle(c).path) && BytCycle(c) == c.(path := BytCycle(c).path)
  {
    hide AluResult, RotatePosition, ByteOut, QControl, OutControl, Rol32;
  }

  lemma DispatchFrame(c: Cpu, env: Env)
    ensures var r := Dispatch(c, env);
            r.Some? ==>
              && r.value.pipe == c.pipe.(npc := r.value.pipe.npc, popj := r.value.pipe.popj, inhibit := r.value.pipe.inhibit)
              && r.value.mem.prom == c.mem.prom
              && r.value.mem.imem == (if StoresCode(c.pipe.p0) then c.mem.imem[TargetField(c.pipe.p0) := c.path.iwr] else c.mem.imem)
              && r.value.port.promDisabled == (c.port.promDisabled != TurnsProm(c, env))
  {
    CyclesFrame(c);
    hide WriteDest, AluCycle, BytCycle, Jmp, DispatchTransfer, RotatePosition, Rol32, DispatchAddress;
    hide PField, RField, TargetField, DestField, OpField, MiscField, AField, PromAfter;
    match OpField(c.pipe.p0)
    case 0 => WriteDestFrame(AluCycle(c), env, DestField(c.pipe.p0)); PromIgnoresPath(c, AluCycle(c), env);
    case 1 => JmpFrame(c, env);
    case 2 =>
      if MiscField(c.pipe.p0) != 2 {
        var m := Rol32(c.path.mData, RotatePosition(c));
        DispatchTransferFrame(c.(path := c.path.(mData := m), dispatchConstant := AField(c.pipe.p0)), env,
                              c.mem.dmem[DispatchAddress(c.pipe.p0, env.mapL2, m)]);
      }
    case _ => WriteDestFrame(BytCycle(c), env, DestField(c.pipe.p0)); PromIgnoresPath(c, BytCycle(c), env);
  }

  lemma PromIgnoresPath(c: Cpu, c': Cpu, env: Env)
    requires c'.port == c.port
    ensures forall a :: PromAfter(c', env, a) == PromAfter(c, env, a)
  {
  }

  /** The state in which an instruction is dispatched: after the MD tick and the OA merge. */
  function Merged(c: Cpu): Cpu { MergeOa(TickMd(c)) }

  lemma MergedFrame(c: Cpu)
    ensures var c' := Merged(c);
            && c'.pipe == c.pipe.(p0 := c'.pipe.p0)
            && c'.mem == c.mem && c'.spcPtr == c.spcPtr && SameStore(c, c')
            && c'.port == TickMd(c).port
  {
    hide Or64;
  }

  /** What a cycle stores: into control memory, and into the PROM switch. */
  lemma ExecuteFrame(c: Cpu, env: Env)
    ensures var r := Execute(c, env);
            r.Some? ==>
              && SamePrefetch(c, r.value) && r.value.mem.prom == c.mem.prom
              && (c.pipe.inhibit ==> SameStore(c, r.value))
              && (!c.pipe.inhibit ==>
                    && LatchOperands(Merged(c), env).Some?
                    && var c2 := LatchOperands(Merged(c), env).value;
                       && r.value.mem.imem == (if StoresCode(c2.pipe.p0) then c.mem.imem[TargetField(c2.pipe.p0) := c2.path.iwr]
                                               else c.mem.imem)
                       && r.value.port.promDisabled == (c.port.promDisabled != TurnsProm(c2, env)))
  {
    hide MergeOa, LatchOperands, Dispatch, Return, StoresCode, TurnsProm, TargetField;
    if !c.pipe.inhibit {
      MergedFrame(c);
      var c1 := Merged(c);
      LatchFrame(c1, env);
      if LatchOperands(c1, env).Some? {
        var c2 := LatchOperands(c1, env).value;
        DispatchFrame(c2, env);
        if Dispatch(c2, env).Some? { ReturnFrame(Dispatch(c2, env).value, env); }
      }
    }
  }

  // ----- a machine without prefetch -----

  function WithP1(c: Cpu, w: MicroWord): Cpu { c.(pipe := c.pipe.(p1 := w)) }

  /** Forget the prefetched word. */
  function Forget(c: Cpu): Cpu { WithP1(c, 0) }

  /** The prefetched word is what the control store holds now. */
  predicate Coherent(c: Cpu) { Fetch(c, c.pipe.p1pc) == Some(c.pipe.p1) }

  /** Move the delayed-branch registers on by one: the next address becomes the current one. */
  function Shift(c: Cpu, w: MicroWord): Cpu {
    c.(pipe := c.pipe.(p0 := w, p0pc := c.pipe.p1pc, p1pc := c.pipe.npc, npc := Successor(c.pipe.npc), opc := c.pipe.p1pc))
  }

  /** The architectural machine: it fetches the instruction it executes, in the cycle that executes it. */
  function DelaySlotStep(c: Cpu, env: Env): Option<Cpu> {
    match Fetch(c, c.pipe.p1pc)
    case None => None
    case Some(w) => Execute(Shift(c, w), env)
  }

  lemma LcIgnoresP1(c: Cpu, env: Env, ppc: Word, w: MicroWord)
    ensures AdvanceLc(WithP1(c, w), env, ppc) == (AdvanceLc(c, env, ppc).0, WithP1(AdvanceLc(c, env, ppc).1, w))
  {
    hide StartRead, ForceBit1, WordBoundary;
    assert forall x: Cpu, a :: StartRead(WithP1(x, w), env, a) == WithP1(StartRead(x, env, a), w) by {
      forall x: Cpu, a ensures StartRead(WithP1(x, w), env, a) == WithP1(StartRead(x, env, a), w) {
        ReadIgnoresP1(x, env, a, w);
      }
    }
    BoundaryIgnoresP1(StepLc(c, env, ppc).1, w);
  }

  lemma ReadIgnoresP1(c: Cpu, env: Env, vaddr: Word, w: MicroWord)
    ensures StartRead(WithP1(c, w), env, vaddr) == WithP1(StartRead(c, env, vaddr), w)
    ensures StartWrite(WithP1(c, w), env, vaddr) == WithP1(StartWrite(c, env, vaddr), w)
  {
  }

  lemma BoundaryIgnoresP1(c: Cpu, w: MicroWord)
    ensures WordBoundary(WithP1(c, w)) == WordBoundary(c)
  {
  }

  lemma ReturnIgnoresP1(c: Cpu, env: Env, w: MicroWord)
    ensures Return(WithP1(c, w), env) == (Return(c, env).0, WithP1(Return(c, env).1, w))
  {
    hide AdvanceLc;
    LcIgnoresP1(PopSpc(c).1, env, PopSpc(c).0, w);
  }

  lemma TransferIgnoresP1(c: Cpu, env: Env, n: bool, p: bool, r: bool, target: Word, w: MicroWord)
    ensures Transfer(WithP1(c, w), env, n, p, r, target) == WithP1(Transfer(c, env, n, p, r, target), w)
  {
    hide Return;
    ReturnIgnoresP1(if p then PushSpc(c, ReturnAddress(c, n)) else c, env, w);
  }

  lemma MfReadIgnoresP1(c: Cpu, env: Env, addr: Index5, w: MicroWord)
    ensures MfRead(WithP1(c, w), env, addr).Some? == MfRead(c, env, addr).Some?
    ensures MfRead(c, env, addr).Some? ==>
              MfRead(WithP1(c, w), env, addr).value
              == (MfRead(c, env, addr).value.0, WithP1(MfRead(c, env, addr).value.1, w))
  {
  }

  lemma WriteDestIgnoresP1(c: Cpu, env: Env, dest: nat, w: MicroWord)
    ensures WriteDest(WithP1(c, w), env, dest) == WithP1(WriteDest(c, env, dest), w)
  {
    hide MfWrite;
    MfWriteIgnoresP1(c, env, dest, c.path.out, w);
  }

  lemma MfWriteIgnoresP1(c: Cpu, env: Env, dest: nat, data: Word, w: MicroWord)
    ensures MfWrite(WithP1(c, w), env, dest, data) == WithP1(MfWrite(c, env, dest, data), w)
  {
    hide MemoryDest, LoadLc, PushSpc;
    match dest / 32
    case 1 => LoadLcIgnoresP1(c, data, w);
    case 2 =>
    case 8 =>
    case 9 =>
    case 10 =>
    case 13 => PushIgnoresP1(c, data, w);
    case _ => if dest / 32 >= 16 { MemoryDestIgnoresP1(c, env, dest, data, w); }
  }

  lemma PushIgnoresP1(c: Cpu, v: Word, w: MicroWord)
    ensures PushSpc(WithP1(c, w), v) == WithP1(PushSpc(c, v), w)
  {
  }

  lemma MemoryDestIgnoresP1(c: Cpu, env: Env, dest: nat, data: Word, w: MicroWord)
    ensures MemoryDest(WithP1(c, w), env, dest, data) == WithP1(MemoryDest(c, env, dest, data), w)
  {
    hide StartRead, StartWrite;
    match dest / 32
    case 17 => ReadIgnoresP1(c.(port := c.port.(vma := data)), env, data, w);
    case 18 => ReadIgnoresP1(c.(port := c.port.(vma := data)), env, data, w);
    case 25 => ReadIgnoresP1(c.(port := c.port.(md := data)), env, c.port.vma, w);
    case 26 => ReadIgnoresP1(c.(port := c.port.(md := data)), env, c.port.vma, w);
    case _ =>
  }

  lemma LoadLcIgnoresP1(c: Cpu, data: Word, w: MicroWord)
    ensures LoadLc(WithP1(c, w), data) == WithP1(LoadLc(c, data), w)
  {
  }

  lemma JmpIgnoresP1(c: Cpu, env: Env, w: MicroWord)
    ensures Jmp(WithP1(c, w), env).Some? == Jmp(c, env).Some?
    ensures Jmp(c, env).Some? ==> Jmp(WithP1(c, w), env).value == WithP1(Jmp(c, env).value, w)
  {
    hide Transfer, CheckJumpCondition, PField, RField, NField, InvertField, TargetField, MiscField;
    var c0 := if MiscField(c.pipe.p0) == 1 then c.(halted := true) else c;
    CheckIgnoresP1(c0, env, w);
    if CheckJumpCondition(c0, env).Some? {
      TransferIgnoresP1(CheckJumpCondition(c0, env).value.1, env, NField(c.pipe.p0), PField(c.pipe.p0),
                        RField(c.pipe.p0), TargetField(c.pipe.p0), w);
    }
  }

  lemma CheckIgnoresP1(c: Cpu, env: Env, w: MicroWord)
    ensures CheckJumpCondition(WithP1(c, w), env).Some? == CheckJumpCondition(c, env).Some?
    ensures CheckJumpCondition(c, env).Some? ==>
              CheckJumpCondition(WithP1(c, w), env).value
              == (CheckJumpCondition(c, env).value.0, WithP1(CheckJumpCondition(c, env).value.1, w))
  {
    hide Rol32, Signed;
  }

  lemma DispatchPrefixIgnoresP1(c: Cpu, env: Env, n: bool, w: MicroWord)
    ensures DispatchPrefix(WithP1(c, w), env, n) == WithP1(DispatchPrefix(c, env, n), w)
  {
    hide AdvanceLc, BackUp, IFetchField;
    BackUpIgnoresP1(c, n, w);
    LcIgnoresP1(BackUp(c, n), env, 0, w);
  }

  lemma BackUpIgnoresP1(c: Cpu, n: bool, w: MicroWord)
    ensures BackUp(WithP1(c, w), n) == WithP1(BackUp(c, n), w)
  {
    hide PushOwnField;
  }

  lemma DispatchTransferIgnoresP1(c: Cpu, env: Env, word: Word, w: MicroWord)
    ensures DispatchTransfer(WithP1(c, w), env, word) == WithP1(DispatchTransfer(c, env, word), w)
  {
    hide DispatchPrefix, Transfer;
    var n, p, r := word / 0x4000 % 2 == 1, word / 0x8000 % 2 == 1, word / 0x1_0000 % 2 == 1;
    DispatchPrefixIgnoresP1(c, env, n, w);
    TransferIgnoresP1(DispatchPrefix(c, env, n), env, n, p, r, word % 0x4000, w);
  }

  lemma CyclesIgnoreP1(c: Cpu, w: MicroWord)
    ensures AluCycle(WithP1(c, w)) == WithP1(AluCycle(c), w)
    ensures BytCycle(WithP1(c, w)) == WithP1(BytCycle(c), w)
  {
    hide AluField, CarryField, QField, OutField, MiscField, PosField, Rol32, Msk, Merge, QControl, OutControl;
    hide LogiOps, ArithOps, DivOps;
  }

  lemma DispatchIgnoresP1(c: Cpu, env: Env, w: MicroWord)
    ensures Dispatch(WithP1(c, w), env).Some? == Dispatch(c, env).Some?
    ensures Dispatch(c, env).Some? ==> Dispatch(WithP1(c, w), env).value == WithP1(Dispatch(c, env).value, w)
  {
    hide WriteDest, Jmp, DispatchTransfer, Rol32, DispatchAddress, DestField, OpField, MiscField, PosField, AField;
    CyclesIgnoreP1(c, w);
    hide AluCycle, BytCycle;
    match OpField(c.pipe.p0)
    case 0 => WriteDestIgnoresP1(AluCycle(c), env, DestField(c.pipe.p0), w);
    case 1 => JmpIgnoresP1(c, env, w);
    case 2 =>
      if MiscField(c.pipe.p0) != 2 {
        var m := Rol32(c.path.mData, RotatePosition(c));
        DispatchTransferIgnoresP1(c.(path := c.path.(mData := m), dispatchConstant := AField(c.pipe.p0)), env,
                                  c.mem.dmem[DispatchAddress(c.pipe.p0, env.mapL2, m)], w);
      }
    case _ => WriteDestIgnoresP1(BytCycle(c), env, DestField(c.pipe.p0), w);
  }

  lemma LatchIgnoresP1(c: Cpu, env: Env, w: MicroWord)
    ensures LatchOperands(WithP1(c, w), env).Some? == LatchOperands(c, env).Some?
    ensures LatchOperands(c, env).Some? ==>
              LatchOperands(WithP1(c, w), env).value == WithP1(LatchOperands(c, env).value, w)
  {
    hide MfRead;
    MfReadIgnoresP1(c.(pipe := c.pipe.(popj := PopjField(c.pipe.p0))), env, MField(c.pipe.p0), w);
  }

  /** Nothing after the fetch looks at the prefetched word. */
  lemma ExecuteIgnoresP1(c: Cpu, env: Env, w: MicroWord)
    ensures Execute(WithP1(c, w), env).Some? == Execute(c, env).Some?
    ensures Execute(c, env).Some? ==> Execute(WithP1(c, w), env).value == WithP1(Execute(c, env).value, w)
  {
    hide LatchOperands, Dispatch, Return, Or64;
    if !c.pipe.inhibit {
      var c1 := Merged(c);
      assert Merged(WithP1(c, w)) == WithP1(c1, w);
      LatchIgnoresP1(c1, env, w);
      if LatchOperands(c1, env).Some? {
        var c2 := LatchOperands(c1, env).value;
        DispatchIgnoresP1(c2, env, w);
        if Dispatch(c2, env).Some? { ReturnIgnoresP1(Dispatch(c2, env).value, env, w); }
      }
    }
  }

  // ----- when the prefetched word stays right -----

  /** The state in which the next cycle's instruction is dispatched, operands latched. */
  function Latched(c: Cpu, env: Env): Option<Cpu> {
    match IncNpc(c)
    case None => None
    case Some(c1) => LatchOperands(Merged(c1), env)
  }

  /** The control store seen with the PROM switch turned. */
  function Turned(c: Cpu): Cpu { c.(port := c.port.(promDisabled := !c.port.promDisabled)) }

  /**
   The next cycle replaces the word it prefetches: it stores a different word there, into the
   control memory being executed, or turns the PROM switch where the two stores differ.
   */
  predicate ReplacesPrefetch(c: Cpu, env: Env) {
    && !c.pipe.inhibit && Latched(c, env).Some?
    && var c2, npc := Latched(c, env).value, c.pipe.npc;
       if StoresCode(c2.pipe.p0) then
         c.port.promDisabled && TargetField(c2.pipe.p0) == npc && c2.path.iwr != c.mem.imem[TargetField(c2.pipe.p0)]
       else TurnsProm(c2, env) && Fetch(Turned(c), npc) != Fetch(c, npc)
  }

  /** The word fetched in the cycle from c to c' is still in place when that cycle ends. */
  predicate KeepsPrefetch(c: Cpu, c': Cpu) { Fetch(c', c.pipe.npc) == Fetch(c, c.pipe.npc) }

  /** A cycle keeps the word it prefetches exactly when it does not replace it. */
  lemma StepKeepsPrefetchIff(c: Cpu, env: Env)
    requires Step(c, env).Some?
    ensures KeepsPrefetch(c, Step(c, env).value) <==> !ReplacesPrefetch(c, env)
  {
    hide Execute, LatchOperands, Merged, StoresCode, TurnsProm, TargetField;
    ExecuteFrame(IncNpc(c).value, env);
    if !c.pipe.inhibit { NotBoth(Latched(c, env).value, env); }
  }

  /** An instruction does not both store code and turn the PROM switch. */
  lemma NotBoth(c: Cpu, env: Env)
    ensures !(StoresCode(c.pipe.p0) && TurnsProm(c, env))
  {
    hide PromAfter;
  }

  /** In particular a write to main memory, or to a device that leaves the PROM switch alone, keeps it. */
  lemma MemoryWriteKeepsPrefetch(c: Cpu, env: Env)
    requires Step(c, env).Some? && (Latched(c, env).Some? ==> !StoresCode(Latched(c, env).value.pipe.p0))
    requires forall a, disabled :: env.isDevice(a) ==> env.promAfterWrite(disabled) == disabled
    ensures KeepsPrefetch(c, Step(c, env).value)
  {
    hide Step, Latched, StoresCode, WriteAddress, KeepsPrefetch;
    StepKeepsPrefetchIff(c, env);
  }

  /** One step of the pipeline is one step of the architectural machine, and leaves the right word prefetched unless it replaces it. */
  lemma StepRefines(c: Cpu, env: Env)
    requires Coherent(c) && Step(c, env).Some?
    ensures DelaySlotStep(Forget(c), env) == Some(Forget(Step(c, env).value))
    ensures Coherent(Step(c, env).value) <==> !ReplacesPrefetch(c, env)
  {
    StepKeepsPrefetchIff(c, env);
    hide Execute, ReplacesPrefetch;
    var w := Fetch(c, c.pipe.npc).value;
    var c1 := IncNpc(c).value;
    assert c1 == WithP1(Shift(c, c.pipe.p1), w);
    assert WithP1(c1, 0) == Shift(Forget(c), c.pipe.p1);
    ExecuteIgnoresP1(c1, env, 0);
    ExecuteFrame(c1, env);
  }

  /** When it does replace it, the two machines execute different words in the next cycle. */
  lemma StaleWordIsExecuted(c: Cpu, env: Env)
    requires Coherent(c) && Step(c, env).Some? && ReplacesPrefetch(c, env)
    ensures var c' := Step(c, env).value;
            c'.pipe.p1pc == c.pipe.npc && Fetch(Forget(c'), c'.pipe.p1pc) != Some(c'.pipe.p1)
  {
    StepRefines(c, env);
    hide Execute, ReplacesPrefetch;
    ExecuteFrame(IncNpc(c).value, env);
  }

  /** Store what M and A hold into control word 5: a jump with P and R, from M0 and A0. */
  const STORE_INTO_5: MicroWord := 0x800_0000_0000 + 0x5000 + 0x300

  /** The machine about to execute that word at 4, in control memory, having fetched nothing from 5 yet. */
  function BeforeStore(): Cpu {
    var imem: IMemBank := seq(16384, _ => 0);
    var mmem: Bank32 := seq(32, _ => 1);
    Cpu(Memories(seq(512, _ => 0), imem[4 := STORE_INTO_5], seq(1024, _ => 0), mmem, seq(2048, _ => 0), seq(1024, _ => 0), seq(32, _ => 0)),
        Pipeline(0, 3, STORE_INTO_5, 4, 5, 3, false, false), MemoryPort(0, 0, 0, 0, 0, true, true),
        DataPath(0, 0, 0, 0, Arithmetic.Result(0, false), 0, 0), 0, 0, 0, 0, 0, 0, 0, false, false, false)
  }

  /** It does happen: storing into the very next word executes the old one. */
  lemma StoreIntoNextWordIsStale(env: Env)
    ensures Coherent(BeforeStore()) && Step(BeforeStore(), env).Some? && ReplacesPrefetch(BeforeStore(), env)
  {
    var c := BeforeStore();
    StoreFields();
    var c1 := IncNpc(c).value;
    assert Merged(c1) == c1 && c1.pipe.p0 == STORE_INTO_5;
    hide MergeOa, TickMd, OpField, PField, RField, TargetField, MSourceField, MField, AField, MiscField, PopjField;
    var c2 := LatchOperands(c1, env).value;
    assert c2.path.iwr == 1;
    assert StoresCode(c2.pipe.p0);
    assert Latched(c, env) == Some(c2);
    assert Dispatch(c2, env).Some?;
  }

  lemma StoreFields()
    ensures var w := STORE_INTO_5;
            && OpField(w) == 1 && PField(w) && RField(w) && TargetField(w) == 5 && MSourceField(w) == 0 && MField(w) == 0
            && AField(w) == 0 && !PopjField(w)
  {
  }

  function Run(c: Cpu, envs: seq<Env>): Option<Cpu>
    decreases |envs|
  {
    if envs == [] then Some(c)
    else match Step(c, envs[0])
      case None => None
      case Some(c1) => Run(c1, envs[1..])
  }

  function DelaySlotRun(c: Cpu, envs: seq<Env>): Option<Cpu>
    decreases |envs|
  {
    if envs == [] then Some(c)
    else match DelaySlotStep(c, envs[0])
      case None => None
      case Some(c1) => DelaySlotRun(c1, envs[1..])
  }

  /** Some cycle of the run replaces the word it prefetches. */
  predicate RunReplacesPrefetch(c: Cpu, envs: seq<Env>)
    decreases |envs|
  {
    envs != [] && (ReplacesPrefetch(c, envs[0]) || (Step(c, envs[0]).Some? && RunReplacesPrefetch(Step(c, envs[0]).value, envs[1..])))
  }

  /** Every run of the pipeline in which no cycle replaces its prefetched word is a run of the architectural machine, state by state. */
  lemma {:induction false} RunRefines(c: Cpu, envs: seq<Env>)
    requires Coherent(c) && Run(c, envs).Some? && !RunReplacesPrefetch(c, envs)
    ensures DelaySlotRun(Forget(c), envs) == Some(Forget(Run(c, envs).value))
    ensures Coherent(Run(c, envs).value)
    decreases |envs|
  {
    hide Step, DelaySlotStep, ReplacesPrefetch;
    if envs != [] {
      StepRefines(c, envs[0]);
      RunRefines(Step(c, envs[0]).value, envs[1..]);
    }
  }
}

/**
 Timing of the memory port: a read started in one cycle reaches MD at the start of the
 second cycle after it, and the location counter fetches each instruction word once.
 */
module MemoryTiming {
  import opened Words
  import opened Arithmetic
  import opened Microcode
  import opened PipelineTheory

  // ----- the delayed load -----

  /** A read has been started in the cycle that ended in c. */
  predicate JustStarted(c: Cpu) { c.port.newMdDelay == 2 }

  /** The value and permission that the outside world gives for the address in VMA. */
  predicate AnsweredFor(c: Cpu, env: Env) {
    var a := VirtualAddress(c.port.vma);
    c.port.vmaOk == env.readOk(a) && c.port.newMd == if c.port.vmaOk then env.read(a) else 0
  }

  /** From c to c' either the pending load is untouched, or a read of the address in VMA was started. */
  predicate ReadStep(c: Cpu, c': Cpu, env: Env) {
    || (c'.port.newMdDelay == c.port.newMdDelay && c'.port.newMd == c.port.newMd
        && (JustStarted(c) ==> c'.port.vma == c.port.vma && c'.port.vmaOk == c.port.vmaOk))
    || (JustStarted(c') && AnsweredFor(c', env))
  }

  lemma AdvanceLcReadStep(c: Cpu, env: Env, ppc: Word)
    ensures ReadStep(c, AdvanceLc(c, env, ppc).1, env)
    ensures AdvanceLc(c, env, ppc).1.port.md == c.port.md
  {
    hide ForceBit1, WordBoundary;
    assert VirtualAddress(c.port.lc % 0x400_0000 / 4) == c.port.lc % 0x400_0000 / 4;
  }

  lemma ReturnReadStep(c: Cpu, env: Env)
    ensures ReadStep(c, Return(c, env).1, env) && Return(c, env).1.port.md == c.port.md
  {
    hide AdvanceLc;
    AdvanceLcReadStep(PopSpc(c).1, env, PopSpc(c).0);
  }

  lemma TransferReadStep(c: Cpu, env: Env, n: bool, p: bool, r: bool, target: Word)
    ensures ReadStep(c, Transfer(c, env, n, p, r, target), env)
  {
    hide Return;
    ReturnReadStep(if p then PushSpc(c, ReturnAddress(c, n)) else c, env);
  }

  lemma MfWriteReadStep(c: Cpu, env: Env, dest: nat, data: Word)
    requires !JustStarted(c)
    ensures ReadStep(c, MfWrite(c, env, dest, data), env)
  {
    hide LoadLc, MemoryDest;
    LoadLcFrame(c, data);
    MemoryDestReadStep(c, env, dest, data);
  }

  lemma MemoryDestReadStep(c: Cpu, env: Env, dest: nat, data: Word)
    requires !JustStarted(c)
    ensures ReadStep(c, MemoryDest(c, env, dest, data), env)
  {
    hide StartRead, StartWrite;
    var c1, c2 := c.(port := c.port.(vma := data)), c.(port := c.port.(md := data));
    StartStep(c1, env, data);
    StartStep(c2, env, c.port.vma);
  }

  lemma StartStep(c: Cpu, env: Env, vaddr: Word)
    requires !JustStarted(c)
    ensures ReadStep(c, StartWrite(c, env, vaddr), env)
    ensures vaddr == c.port.vma ==> JustStarted(StartRead(c, env, vaddr)) && AnsweredFor(StartRead(c, env, vaddr), env)
  {
  }

  lemma LoadLcFrame(c: Cpu, data: Word)
    ensures LoadLc(c, data) == c.(port := c.port.(lc := LoadLc(c, data).port.lc))
  {
  }

  lemma DispatchReadStep(c: Cpu, env: Env)
    requires !JustStarted(c) && Dispatch(c, env).Some?
    ensures ReadStep(c, Dispatch(c, env).value, env)
  {
    hide MfWrite, AluCycle, BytCycle, CheckJumpCondition, Transfer, DispatchPrefix, DestField, OpField, MiscField;
    hide PField, RField, NField, TargetField, InvertField, DispatchAddress, AField, DispatchField;
    var w := c.pipe.p0;
    match OpField(w)
    case 0 =>
      CyclePort(c);
      MfWriteReadStep(AluCycle(c), env, DestField(w), AluCycle(c).path.out);
    case 1 =>
      var c0 := if MiscField(w) == 1 then c.(halted := true) else c;
      CheckFrame(c0, env);
      if !(PField(w) && RField(w)) {
        TransferReadStep(CheckJumpCondition(c0, env).value.1, env, NField(w), PField(w), RField(w), TargetField(w));
      }
    case 2 =>
      if MiscField(w) != 2 {
        var m := Rol32(c.path.mData, RotatePosition(c));
        DispatchTransferReadStep(c.(path := c.path.(mData := m), dispatchConstant := AField(w)), env,
                                 c.mem.dmem[DispatchAddress(w, env.mapL2, m)]);
      }
    case _ =>
      CyclePort(c);
      MfWriteReadStep(BytCycle(c), env, DestField(w), BytCycle(c).path.out);
  }

  lemma CyclePort(c: Cpu)
    ensures AluCycle(c).port == BytCycle(c).port == c.port
  {
    hide AluResult, RotatePosition, Msk, Merge;
  }

  lemma DispatchTransferReadStep(c: Cpu, env: Env, word: Word)
    requires !JustStarted(c)
    ensures ReadStep(c, DispatchTransfer(c, env, word), env)
  {
    hide AdvanceLc, Transfer, PushOwnField, IFetchField;
    var n, p, r := word / 0x4000 % 2 == 1, word / 0x8000 % 2 == 1, word / 0x1_0000 % 2 == 1;
    AdvanceLcReadStep(BackUp(c, n), env, 0);
    assert ReadStep(c, DispatchPrefix(c, env, n), env);
    hide DispatchPrefix;
    TransferReadStep(DispatchPrefix(c, env, n), env, n, p, r, word % 0x4000);
  }

  /**
   Every cycle from a state whose delay is at most 2 either counts the delay down by one,
   keeping the pending word, or starts a read of the address it leaves in VMA.
   */
  lemma StepReads(c: Cpu, env: Env)
    requires c.port.newMdDelay <= 2 && Step(c, env).Some?
    ensures var c' := Step(c, env).value;
            || (JustStarted(c') && AnsweredFor(c', env))
            || (!JustStarted(c') && c'.port.newMd == c.port.newMd
                && c'.port.newMdDelay == if c.port.newMdDelay == 0 then 0 else c.port.newMdDelay - 1)
  {
    hide LatchOperands, Dispatch, Return, MergeOa;
    var c1 := IncNpc(c).value;
    MergedFrame(c1);
    if !c1.pipe.inhibit {
      LatchFrame(Merged(c1), env);
      var c2 := LatchOperands(Merged(c1), env).value;
      DispatchReadStep(c2, env);
      ReturnReadStep(Dispatch(c2, env).value, env);
    }
  }

  /** MD as the instruction of the next cycle sees it. */
  function MdAtExecute(c: Cpu): Word
    requires IncNpc(c).Some?
  {
    TickMd(IncNpc(c).value).port.md
  }

  /**
   A read started in one cycle is in MD when the instruction two cycles later executes, and
   not when the one between does, whether or not that one is annulled; if the cycle between
   starts a read itself, only the later read is pending.
   */
  lemma DelayedLoad(c: Cpu, env: Env, env': Env)
    requires c.port.newMdDelay <= 2 && Step(c, env).Some? && JustStarted(Step(c, env).value)
    requires Step(Step(c, env).value, env').Some? && IncNpc(Step(Step(c, env).value, env').value).Some?
    ensures var c1, c2 := Step(c, env).value, Step(Step(c, env).value, env').value;
            && AnsweredFor(c1, env)
            && MdAtExecute(c1) == c1.port.md
            && (if JustStarted(c2) then AnsweredFor(c2, env') && MdAtExecute(c2) == c2.port.md
                else MdAtExecute(c2) == c1.port.newMd)
  {
    StepReads(c, env);
    StepReads(Step(c, env).value, env');
    hide Execute;
  }

  /** The delay never exceeds two in a run from a state where it does not. */
  lemma {:induction false} DelayBounded(c: Cpu, envs: seq<Env>)
    requires c.port.newMdDelay <= 2 && Run(c, envs).Some?
    ensures Run(c, envs).value.port.newMdDelay <= 2
    decreases |envs|
  {
    hide Step;
    if envs != [] {
      StepReads(c, envs[0]);
      DelayBounded(Step(c, envs[0]).value, envs[1..]);
    }
  }

  // ----- the location counter -----

  /** LC holds the 26-bit address L, with the needs-fetch bit as given. */
  predicate LcIs(c: Cpu, address: nat, fetch: bool) {
    c.port.lc % 0x400_0000 == address && NeedFetch(c.port.lc) == fetch
  }

  function LcStride(c: Cpu): nat { if ByteMode(c) then 1 else 2 }

  /** Loading LC sets the address, rounded down to a halfword outside byte mode, and asks for a fetch. */
  lemma LoadLcSets(c: Cpu, env: Env, data: Word)
    ensures var c', address := MfWrite(c, env, 32, data), data % 0x400_0000;
            LcIs(c', if ByteMode(c) then address else address - address % 2, true) && ByteMode(c') == ByteMode(c)
  {
  }

  /** One advance: it fetches exactly when asked to, forces bit 1 exactly when it does not fetch. */
  lemma AdvanceLcStep(c: Cpu, env: Env, ppc: Word, address: nat, fetch: bool)
    requires LcIs(c, address, fetch) && address + LcStride(c) < 0x400_0000
    requires ByteMode(c) || address % 2 == 0
    ensures var (ppc', c') := AdvanceLc(c, env, ppc);
            && LcIs(c', address + LcStride(c), (address + LcStride(c)) % 4 == 0)
            && ByteMode(c') == ByteMode(c)
            && (fetch ==> ppc' == ppc && JustStarted(c') && c'.port.vma == address / 4 && AnsweredFor(c', env))
            && (!fetch ==> ppc' == ForceBit1(ppc) && c'.port.vma == c.port.vma
                           && c'.port.newMd == c.port.newMd && c'.port.newMdDelay == c.port.newMdDelay)
  {
    hide ForceBit1, WordBoundary, AnsweredFor, ByteMode, MarkBoundary;
    var s := LcStride(c);
    StepLcSets(c, env, ppc, address, fetch);
    BoundaryMarked(StepLc(c, env, ppc).1, env, address + s);
  }

  lemma StepLcSets(c: Cpu, env: Env, ppc: Word, address: nat, fetch: bool)
    requires LcIs(c, address, fetch) && address + LcStride(c) < 0x400_0000
    ensures var (ppc', c') := StepLc(c, env, ppc);
            && LcIs(c', address + LcStride(c), false) && ByteMode(c') == ByteMode(c)
            && (fetch ==> ppc' == ppc && JustStarted(c') && c'.port.vma == address / 4 && AnsweredFor(c', env))
            && (!fetch ==> ppc' == ForceBit1(ppc) && c'.port == c.port.(lc := c'.port.lc))
  {
    hide ForceBit1, Wrap32;
    LcPlus(c.port.lc, LcStride(c));
    assert VirtualAddress(address / 4) == address / 4;
    hide VirtualAddress;
  }

  /** Stepping LC stays within its 26 bits, below the needs-fetch bit. */
  lemma LcPlus(lc: Word, s: nat)
    requires lc % 0x400_0000 + s < 0x400_0000
    ensures Wrap32(lc + s) == lc + s && NeedFetch(lc + s) == NeedFetch(lc) && (lc + s) % 0x400_0000 == lc % 0x400_0000 + s
    ensures NeedFetch(lc) ==> (lc + s - 0x8000_0000) % 0x400_0000 == lc % 0x400_0000 + s
  {
    var high := lc / 0x400_0000;
    assert lc == high * 0x400_0000 + lc % 0x400_0000;
  }

  lemma BoundaryMarked(c: Cpu, env: Env, address: nat)
    requires LcIs(c, address, false) && (ByteMode(c) || address % 2 == 0)
    ensures ByteMode(MarkBoundary(c)) == ByteMode(c) && AnsweredFor(MarkBoundary(c), env) == AnsweredFor(c, env)
    ensures LcIs(MarkBoundary(c), address, address % 4 == 0)
    ensures MarkBoundary(c) == c.(port := c.port.(lc := MarkBoundary(c).port.lc))
  {
    assert c.port.lc % 4 == address % 4 && c.port.lc % 2 == address % 2 by { LowBitsOfLc(c.port.lc); }
    AtBoundary(c.port.lc);
    assert WordBoundary(c) <==> address % 4 == 0;
    hide WordBoundary;
    if address % 4 == 0 { FetchBit(c.port.lc); }
  }

  lemma LowBitsOfLc(lc: Word)
    ensures lc % 0x400_0000 % 4 == lc % 4 && lc % 0x400_0000 % 2 == lc % 2
  {
  }

  lemma AtBoundary(lc: Word)
    ensures lc % 4 == 0 <==> lc % 2 == 0 && lc / 2 % 2 == 0
  {
  }

  /** The needs-fetch bit lies above the address. */
  lemma FetchBit(lc: Word)
    requires lc < 0x8000_0000
    ensures (lc + 0x8000_0000) % 0x400_0000 == lc % 0x400_0000
  {
  }

  /** The word addresses that repeated advances fetch, in order. */
  function FetchLog(c: Cpu, envs: seq<Env>): seq<Word>
    decreases |envs|
  {
    if envs == [] then []
    else
      var c1 := AdvanceLc(c, envs[0], 0).1;
      (if NeedFetch(c.port.lc) then [c1.port.vma] else []) + FetchLog(c1, envs[1..])
  }

  function Consecutive(from: nat, to: nat): seq<nat> {
    seq(if from < to then to - from else 0, i requires 0 <= i => from + i)
  }

  /** The first word that advances from here will fetch: the current one if a fetch is pending. */
  function FirstFetch(address: nat, fetch: bool): nat { if fetch then address / 4 else address / 4 + 1 }

  lemma {:induction false} FetchesFrom(c: Cpu, address: nat, fetch: bool, envs: seq<Env>, last: nat)
    requires LcIs(c, address, fetch) && last == address + LcStride(c) * (|envs| - 1) && last + LcStride(c) < 0x400_0000
    requires ByteMode(c) || address % 2 == 0
    requires fetch || address % 4 != 0
    requires envs != []
    ensures FetchLog(c, envs) == Consecutive(FirstFetch(address, fetch), last / 4 + 1)
    decreases |envs|
  {
    hide AdvanceLc, LcIs, ByteMode, FirstFetch, Consecutive;
    var s, n := LcStride(c), |envs|;
    assert s * (n - 1) >= 0;
    AdvanceLcStep(c, envs[0], 0, address, fetch);
    var c1 := AdvanceLc(c, envs[0], 0).1;
    LcFetch(c, address, fetch);
    if n > 1 {
      OneStepLess(s, n);
      FetchesFrom(c1, address + s, (address + s) % 4 == 0, envs[1..], last);
      NextFetch(address, fetch, s, last);
    } else {
      assert FetchLog(c1, envs[1..]) == [];
      OnlyFetch(address, fetch);
    }
  }

  lemma OneStepLess(s: nat, n: nat)
    requires n > 1
    ensures s * (n - 1) == s + s * (n - 2) >= s
  {
    assert s * (n - 2) >= 0;
  }

  lemma NextFetch(address: nat, fetch: bool, s: nat, last: nat)
    requires s == 1 || (s == 2 && address % 2 == 0)
    requires fetch || address % 4 != 0
    requires address + s <= last
    ensures Consecutive(FirstFetch(address, fetch), last / 4 + 1) ==
            (if fetch then [address / 4] else [])
            + Consecutive(FirstFetch(address + s, (address + s) % 4 == 0), last / 4 + 1)
  {
    var q, r := address / 4, address % 4;
    NextWord(address, s);
    FirstFetchIs(address, fetch);
    hide FirstFetch, Consecutive;
    QuotientMonotone(address + s, last);
    QuotientMonotone(address, last);
    ConsecutiveCons(q, last / 4 + 1);
    assert [] + Consecutive(q + 1, last / 4 + 1) == Consecutive(q + 1, last / 4 + 1);
  }

  lemma NextWord(address: nat, s: nat)
    requires s == 1 || (s == 2 && address % 2 == 0)
    ensures FirstFetch(address + s, (address + s) % 4 == 0) == address / 4 + 1
  {
    var q, r := address / 4, address % 4;
    assert address % 2 == r % 2;
    DivUnique(address + s, 4, if r + s < 4 then q else q + 1, if r + s < 4 then r + s else r + s - 4);
  }

  lemma FirstFetchIs(address: nat, fetch: bool)
    ensures FirstFetch(address, fetch) == if fetch then address / 4 else address / 4 + 1
  {
  }

  lemma QuotientMonotone(x: nat, y: nat)
    requires x <= y
    ensures x / 4 <= y / 4
  {
  }

  lemma ConsecutiveCons(from: nat, to: nat)
    requires from < to
    ensures Consecutive(from, to) == [from] + Consecutive(from + 1, to)
  {
  }

  lemma OnlyFetch(address: nat, fetch: bool)
    ensures Consecutive(FirstFetch(address, fetch), address / 4 + 1) == if fetch then [address / 4] else []
  {
  }

  lemma LcFetch(c: Cpu, address: nat, fetch: bool)
    requires LcIs(c, address, fetch)
    ensures NeedFetch(c.port.lc) == fetch
  {
  }

  /**
   After LC is loaded, any number of advances fetches the consecutive words from the one it
   points into up to the one the last advance leaves, each once and in order.
   */
  lemma LcFetchesEachWordOnce(c: Cpu, env: Env, data: Word, envs: seq<Env>)
    requires envs != []
    requires data % 0x400_0000 + LcStride(c) * |envs| < 0x400_0000
    ensures var l := if ByteMode(c) then data % 0x400_0000 else data % 0x400_0000 - data % 2;
            FetchLog(MfWrite(c, env, 32, data), envs) ==
            Consecutive(l / 4, (l + LcStride(c) * (|envs| - 1)) / 4 + 1)
  {
    hide ByteMode, MfWrite, Consecutive, FetchLog;
    LoadLcSets(c, env, data);
    var l := if ByteMode(c) then data % 0x400_0000 else data % 0x400_0000 - data % 2;
    FetchesFrom(MfWrite(c, env, 32, data), l, true, envs, l + LcStride(c) * (|envs| - 1));
  }
}

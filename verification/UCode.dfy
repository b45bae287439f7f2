/**
 The microcode execution engine: the registers and memories of the processor as an
 object whose methods change them in place, each with the effect Microcode specifies.
 */
module UCodeMachine {
  import opened Words
  import opened Arithmetic
  import opened Microcode

  lemma CarryOfSum(a: Word, b: Word, ci: bool)
    ensures Add32(a, b, ci).carry == if ci then !(Signed(b) >= Signed(Not32(a))) else !(Signed(b) > Signed(Not32(a)))
  {
  }

  class UCode {
    const proms: array<MicroWord>
    const iMem: array<MicroWord>
    const aMem: array<Word>
    const mMem: array<Word>
    const dMem: array<Word>
    const pdl: array<Word>
    const spc: array<Word>
    var pipe: Pipeline
    var port: MemoryPort
    var path: DataPath
    var pdlPointer: Index10
    var pdlIndex: Index10
    var spcPtr: Index5
    var dispatchConstant: Word
    var interruptControl: Word
    var oaHigh: Word
    var oaLow: Word
    var oah: bool
    var oal: bool
    var halted: bool

    ghost predicate Valid() {
      && proms.Length == 512 && iMem.Length == 16384
      && aMem.Length == 1024 && mMem.Length == 32 && dMem.Length == 2048
      && pdl.Length == 1024 && spc.Length == 32
      && proms != iMem
      && aMem != mMem && aMem != dMem && aMem != pdl && aMem != spc
      && mMem != dMem && mMem != pdl && mMem != spc
      && dMem != pdl && dMem != spc && pdl != spc
    }

    ghost function Banks(): Memories
      requires Valid()
      reads proms, iMem, aMem, mMem, dMem, pdl, spc
    {
      Memories(proms[..], iMem[..], aMem[..], mMem[..], dMem[..], pdl[..], spc[..])
    }

    ghost function View(): Cpu
      requires Valid()
      reads this, proms, iMem, aMem, mMem, dMem, pdl, spc
    {
      Cpu(Banks(), pipe, port, path, pdlPointer, pdlIndex, spcPtr, dispatchConstant,
          interruptControl, oaHigh, oaLow, oah, oal, halted)
    }

    method IncNpc() returns (ok: bool)
      requires Valid()
      modifies this`pipe
      ensures ok <==> Microcode.IncNpc(old(View())).Some?
      ensures ok ==> View() == Microcode.IncNpc(old(View())).value
    {
      pipe := pipe.(p0 := pipe.p1, p0pc := pipe.p1pc);
      if port.promDisabled {
        if pipe.npc >= iMem.Length { return false; }
        pipe := pipe.(p1 := iMem[pipe.npc]);
      } else {
        if pipe.npc >= proms.Length { return false; }
        pipe := pipe.(p1 := proms[pipe.npc]);
      }
      pipe := pipe.(p1pc := pipe.npc);
      pipe := pipe.(npc := if pipe.npc == 0x3FFF then 0 else Wrap32(pipe.npc + 1));
      pipe := pipe.(opc := pipe.p0pc);
      ok := true;
    }

    method PushSpc(pc: Word)
      requires Valid()
      modifies this`spcPtr, spc
      ensures View() == Microcode.PushSpc(old(View()), pc)
    {
      spcPtr := (spcPtr + 1) % 32;
      spc[spcPtr] := pc;
    }

    method PopSpc() returns (v: Word)
      requires Valid()
      modifies this`spcPtr
      ensures (v, View()) == Microcode.PopSpc(old(View()))
    {
      v := spc[spcPtr];
      spcPtr := (spcPtr - 1) % 32;
    }

    method VmRead(env: Env, vaddr: Word) returns (v: Word)
      requires Valid()
      modifies this`port
      ensures port == old(port).(vmaOk := env.readOk(VirtualAddress(vaddr)))
      ensures v == if port.vmaOk then env.read(VirtualAddress(vaddr)) else 0
    {
      port := port.(vmaOk := env.readOk(VirtualAddress(vaddr)));
      v := if port.vmaOk then env.read(VirtualAddress(vaddr)) else 0;
    }

    /** Start a delayed read into MD. */
    method StartRead(env: Env, vaddr: Word)
      requires Valid()
      modifies this`port
      ensures View() == Microcode.StartRead(old(View()), env, vaddr)
    {
      var v := VmRead(env, vaddr);
      port := port.(newMd := v, newMdDelay := 2);
    }

    method VmWrite(env: Env, vaddr: Word)
      requires Valid()
      modifies this`port
      ensures View() == StartWrite(old(View()), env, vaddr)
    {
      port := port.(vmaOk := env.writeOk(VirtualAddress(vaddr)));
      if port.vmaOk && env.isDevice(VirtualAddress(vaddr)) {
        port := port.(promDisabled := env.promAfterWrite(port.promDisabled), md := env.mdAfterWrite(port.md));
      }
    }

    method AdvanceLc(env: Env, ppc: Word) returns (ppc': Word)
      requires Valid()
      modifies this`port
      ensures (ppc', View()) == Microcode.AdvanceLc(old(View()), env, ppc)
    {
      hide Microcode.StepLc, Banks;
      ppc' := StepLc(env, ppc);
      var lc0b := interruptControl / 0x2000_0000 % 2 == 1 && port.lc % 2 == 1;
      var lc1 := port.lc / 2 % 2 == 1;
      if !lc0b && !lc1 && port.lc < 0x8000_0000 { port := port.(lc := port.lc + 0x8000_0000); }
    }

    /** The counting and fetching half of AdvanceLc. */
    method StepLc(env: Env, ppc: Word) returns (ppc': Word)
      requires Valid()
      modifies this`port
      ensures (ppc', View()) == Microcode.StepLc(old(View()), env, ppc)
    {
      hide ForceBit1, Microcode.StartRead, Banks;
      ppc' := ppc;
      var oldLc := port.lc % 0x400_0000;
      port := port.(lc := Wrap32(port.lc + (if interruptControl / 0x2000_0000 % 2 == 1 then 1 else 2)));
      if NeedFetch(port.lc) {
        port := port.(lc := port.lc - 0x8000_0000);
        port := port.(vma := oldLc / 4);
        StartRead(env, oldLc / 4);
      } else {
        ppc' := ForceBit1(ppc);
      }
    }

    method MfRead(env: Env, addr: Index5) returns (ok: bool, v: Word)
      requires Valid()
      modifies this`spcPtr, this`pdlPointer
      ensures ok <==> Microcode.MfRead(old(View()), env, addr).Some?
      ensures ok ==> (v, View()) == Microcode.MfRead(old(View()), env, addr).value
    {
      ok, v := true, 0;
      match addr
      case 0 => v := dispatchConstant;
      case 1 => v := spcPtr * 0x100_0000 + spc[spcPtr] % 0x8_0000;
      case 2 => v := pdlPointer;
      case 3 => v := pdlIndex;
      case 5 => v := pdl[pdlIndex];
      case 6 => v := pipe.opc;
      case 7 => v := path.q;
      case 8 => v := port.vma;
      case 9 =>
        v := 0x8000_0000 * B2N(!env.mapWrite) + 0x4000_0000 * B2N(!env.mapAccess) + 0x2000_0000
             + env.mapL1 * 0x100_0000 + env.mapL2 % 0x100_0000;
      case 10 => v := port.md;
      case 11 => v := if interruptControl / 0x2000_0000 % 2 == 1 then port.lc else port.lc - port.lc % 2;
      case 12 =>
        v := spcPtr * 0x100_0000 + spc[spcPtr] % 0x8_0000;
        spcPtr := (spcPtr - 1) % 32;
      case 13 =>
      case 20 =>
        v := pdl[pdlPointer];
        pdlPointer := (pdlPointer - 1) % 1024;
      case 21 => v := pdl[pdlPointer];
      case 22 =>
      case _ => ok := false;
    }

    method LoadLc(data: Word)
      requires Valid()
      modifies this`port
      ensures View() == Microcode.LoadLc(old(View()), data)
    {
      port := port.(lc := port.lc - port.lc % 0x400_0000 + data % 0x400_0000);
      if interruptControl / 0x2000_0000 % 2 == 0 { port := port.(lc := port.lc - port.lc % 2); }
      if port.lc < 0x8000_0000 { port := port.(lc := port.lc + 0x8000_0000); }
    }

    method MfWrite(env: Env, dest: nat, data: Word)
      requires Valid()
      modifies this, pdl, spc
      ensures path == old(path)
      ensures View() == Microcode.MfWrite(old(View()), env, dest, data)
    {
      hide Microcode.LoadLc, MemoryDest;
      match dest / 32
      case 1 => LoadLc(data);
      case 2 =>
        interruptControl := data;
        port := port.(lc := port.lc / 0x4000_0000 * 0x4000_0000 + data / 0x400_0000 % 16 * 0x400_0000 + port.lc % 0x400_0000);
      case 8 => pdl[pdlPointer] := data;
      case 9 =>
        pdlPointer := (pdlPointer + 1) % 1024;
        pdl[pdlPointer] := data;
      case 10 => pdl[pdlIndex] := data;
      case 11 => pdlIndex := data % 1024;
      case 12 => pdlPointer := data % 1024;
      case 13 => PushSpc(data);
      case 14 => oaLow, oal := data % 0x400_0000, true;
      case 15 => oaHigh, oah := data % 0x80_0000, true;
      case _ => if dest / 32 >= 16 { MemoryWrite(env, dest, data); }
    }

    /** The functional destinations that concern VMA and MD. */
    method MemoryWrite(env: Env, dest: nat, data: Word)
      requires Valid()
      modifies this`port
      ensures View() == MemoryDest(old(View()), env, dest, data)
    {
      hide Microcode.StartRead, StartWrite, Banks;
      match dest / 32
      case 16 => port := port.(vma := data);
      case 17 =>
        port := port.(vma := data);
        StartRead(env, port.vma);
      case 18 =>
        port := port.(vma := data);
        VmWrite(env, port.vma);
      case 19 => port := port.(vma := data);
      case 24 => port := port.(md := data);
      case 25 =>
        port := port.(md := data);
        StartRead(env, port.vma);
      case 26 =>
        port := port.(md := data);
        VmWrite(env, port.vma);
      case 27 => port := port.(md := data);
      case _ =>
    }

    method WriteDest(env: Env, dest: nat)
      requires Valid()
      modifies this, aMem, mMem, pdl, spc
      ensures View() == Microcode.WriteDest(old(View()), env, dest)
    {
      hide Microcode.MfWrite;
      if dest / 0x800 % 2 == 1 {
        aMem[dest % 1024] := path.out;
      } else {
        MfWrite(env, dest, path.out);
        aMem[dest % 32] := path.out;
        mMem[dest % 32] := path.out;
      }
    }

    method DivOps(op: nat)
      requires Valid()
      requires op == 32 || op == 33 || op == 37 || op == 41
      modifies this`path
      ensures path == old(path.(alu := Arithmetic.DivOps(op, path.mData, path.aData, path.q,
                                                         Result(path.alu.out, false), CarryField(pipe.p0))))
    {
      hide Add32, Sub32, Abs32;
      var cin := CarryField(pipe.p0);
      var r := Result(path.alu.out, false);
      match op {
        case 32 =>
          if path.q % 2 == 1 {
            r := Add32(path.aData, path.mData, cin);
          } else {
            r := Result(path.mData, path.mData >= 0x8000_0000);
          }
        case 33 =>
          if path.q % 2 == 1 {
            r := Sub32(path.mData, Abs32(path.aData), !cin);
          } else {
            r := Add32(path.mData, Abs32(path.aData), cin);
          }
        case 37 =>
          if path.q % 2 == 0 {
            var bArg := Abs32(path.aData);
            var newOut := Wrap32(path.alu.out + bArg + B2N(cin));
            r := Result(newOut, if cin then !(Signed(bArg) >= Signed(Not32(newOut)))
                                       else !(Signed(bArg) > Signed(Not32(newOut))));
            assert r == CorrectRemainder(path.alu.out, bArg, cin) by { CarryOfSum(newOut, bArg, cin); }
          }
        case 41 => r := Sub32(path.mData, Abs32(path.aData), !cin);
      }
      path := path.(alu := r);
    }

    method Alu(env: Env)
      requires Valid()
      modifies this, aMem, mMem, pdl, spc
      ensures View() == Microcode.Alu(old(View()), env)
    {
      hide AluField, CarryField, LogiOps, ArithOps, Arithmetic.DivOps, Microcode.WriteDest, DestField, QField, OutField;
      hide PosField, Arithmetic.QControl, Arithmetic.OutControl;
      var aluop := AluField(pipe.p0);
      path := path.(alu := Result(path.alu.out, false));
      if aluop <= 15 {
        path := path.(alu := Result(LogiOps(aluop, path.mData, path.aData), false));
      } else if aluop <= 31 {
        var r := ArithOps(aluop, path.mData, path.aData, CarryField(pipe.p0));
        path := path.(alu := r);
      } else if aluop == 32 || aluop == 33 || aluop == 37 || aluop == 41 {
        DivOps(aluop);
      }
      QControl();
      OutControl();
      assert View() == AluCycle(old(View()));
      WriteDest(env, DestField(pipe.p0));
    }

    method QControl()
      requires Valid()
      modifies this`path
      ensures path == old(path.(oldQ := path.q, q := Arithmetic.QControl(QField(pipe.p0), path.q, path.alu.out)))
    {
      path := path.(oldQ := path.q);
      match QField(pipe.p0)
      case 0 =>
      case 1 =>
        path := path.(q := Wrap32(path.q * 2));
        if path.alu.out < 0x8000_0000 { path := path.(q := path.q + 1); }
      case 2 =>
        path := path.(q := path.q / 2);
        if path.alu.out % 2 == 1 { path := path.(q := path.q + 0x8000_0000); }
      case 3 => path := path.(q := path.alu.out);
    }

    method OutControl()
      requires Valid()
      modifies this`path
      ensures path == old(path.(out := Arithmetic.OutControl(OutField(pipe.p0), path.alu, path.mData, PosField(pipe.p0), path.oldQ)))
    {
      match OutField(pipe.p0)
      case 0 => path := path.(out := Rol32(path.mData, PosField(pipe.p0)));
      case 1 => path := path.(out := path.alu.out);
      case 2 => path := path.(out := path.alu.out / 2 + (if path.alu.carry then 0x8000_0000 else 0));
      case 3 => path := path.(out := Wrap32(path.alu.out * 2) + (if path.oldQ >= 0x8000_0000 then 1 else 0));
    }

    method CheckJumpCondition(env: Env) returns (ok: bool, cond: bool)
      requires Valid()
      modifies this`path
      ensures ok <==> Microcode.CheckJumpCondition(old(View()), env).Some?
      ensures ok ==> (cond, View()) == Microcode.CheckJumpCondition(old(View()), env).value
    {
      ok, cond := true, false;
      if pipe.p0 / 0x20 % 2 == 0 {
        path := path.(mData := Rol32(path.mData, PosField(pipe.p0)));
        cond := path.mData % 2 != 0;
        return;
      }
      var interrupt := interruptControl / 0x800_0000 % 2 == 1 && env.interruptPending;
      match pipe.p0 % 16
      case 1 => cond := Signed(path.mData) < Signed(path.aData);
      case 2 => cond := Signed(path.mData) <= Signed(path.aData);
      case 3 => cond := path.mData == path.aData;
      case 4 => cond := !port.vmaOk;
      case 5 => cond := !port.vmaOk || interrupt;
      case 6 => cond := !port.vmaOk || interrupt || interruptControl / 0x400_0000 % 2 == 1;
      case 7 => cond := true;
      case _ => ok := false;
    }

    /** Pop a return address, advancing LC when its bit 14 is set. */
    method Return(env: Env) returns (target: Word)
      requires Valid()
      modifies this`spcPtr, this`port
      ensures (target, View()) == Microcode.Return(old(View()), env)
    {
      target := PopSpc();
      if target / 0x4000 % 2 == 1 { target := AdvanceLc(env, target); }
      target := target % 0x4000;
    }

    method Jmp(env: Env) returns (ok: bool)
      requires Valid()
      modifies this`halted, this`path, this`pipe, this`spcPtr, this`port, iMem, spc
      ensures ok <==> Microcode.Jmp(old(View()), env).Some?
      ensures ok ==> View() == Microcode.Jmp(old(View()), env).value
    {
      hide TargetField, RField, PField, NField, InvertField, MiscField;
      hide Microcode.CheckJumpCondition, Microcode.TakeJump, Banks;
      var r, p, n, invertSense := RField(pipe.p0), PField(pipe.p0), NField(pipe.p0), InvertField(pipe.p0);
      if MiscField(pipe.p0) == 1 { halted := true; }
      if p && r {
        StoreCode(TargetField(pipe.p0));
        return true;
      }
      var cond;
      ok, cond := CheckJumpCondition(env);
      if !ok { return; }
      if invertSense { cond := !cond; }
      if cond { TakeJump(env, n, p, r, TargetField(pipe.p0)); }
    }

    method StoreCode(target: Index14)
      requires Valid()
      modifies iMem
      ensures View() == old(View().(mem := Banks().(imem := Banks().imem[target := path.iwr])))
    {
      iMem[target] := path.iwr;
    }

    /** A jump whose condition holds. */
    method TakeJump(env: Env, n: bool, p: bool, r: bool, target: Word)
      requires Valid()
      modifies this`pipe, this`spcPtr, this`port, spc
      ensures View() == Microcode.TakeJump(old(View()), env, n, p, r, target)
    {
      hide Microcode.Transfer, Banks;
      Transfer(env, n, p, r, target);
      if n { pipe := pipe.(inhibit := true); }
    }

    /** The part of a taken jump or dispatch that moves control. */
    method Transfer(env: Env, n: bool, p: bool, r: bool, target: Word)
      requires Valid()
      modifies this`pipe, this`spcPtr, this`port, spc
      ensures View() == Microcode.Transfer(old(View()), env, n, p, r, target)
    {
      hide Microcode.Return, Microcode.PushSpc, Banks;
      if p { PushSpc(if n then Wrap32(pipe.npc - 1) else pipe.npc); }
      var t := target;
      if r { t := Return(env); }
      pipe := pipe.(npc := t);
      pipe := pipe.(popj := false);
    }

    method Dsp(env: Env)
      requires Valid()
      modifies this, dMem, spc
      ensures View() == Microcode.Dsp(old(View()), env)
    {
      hide MiscField, PosField, DispatchField, DispatchAddress, AField, Rol32;
      hide Microcode.LcByteMode, Microcode.DispatchTransfer;
      if MiscField(pipe.p0) == 2 {
        dMem[DispatchField(pipe.p0)] := path.aData;
        return;
      }
      var pos := PosField(pipe.p0);
      if MiscField(pipe.p0) == 3 { pos := LcByteMode(); }
      path := path.(mData := Rol32(path.mData, pos));
      dispatchConstant := AField(pipe.p0);
      assert Banks() == old(Banks());
      DispatchTransfer(env, dMem[DispatchAddress(pipe.p0, env.mapL2, path.mData)]);
    }

    method DispatchTransfer(env: Env, dispWord: Word)
      requires Valid()
      modifies this`pipe, this`spcPtr, this`port, spc
      ensures View() == Microcode.DispatchTransfer(old(View()), env, dispWord)
    {
      hide Microcode.Transfer, Microcode.DispatchPrefix, Banks;
      var n, p, r := dispWord / 0x4000 % 2 == 1, dispWord / 0x8000 % 2 == 1, dispWord / 0x1_0000 % 2 == 1;
      DispatchPrefix(env, n);
      if p && r { return; }
      Transfer(env, n, p, r, dispWord % 0x4000);
    }

    method DispatchPrefix(env: Env, n: bool)
      requires Valid()
      modifies this`pipe, this`port
      ensures View() == Microcode.DispatchPrefix(old(View()), env, n)
    {
      hide PushOwnField, IFetchField, Microcode.AdvanceLc, Banks;
      if PushOwnField(pipe.p0) && n { pipe := pipe.(npc := Wrap32(pipe.npc - 1)); }
      if IFetchField(pipe.p0) { var _ := AdvanceLc(env, 0); }
      if n { pipe := pipe.(inhibit := true); }
    }

    method LcByteMode() returns (pos: Index5)
      requires Valid()
      ensures pos == Microcode.LcByteMode(View())
    {
      var ir4, ir3 := pipe.p0 / 16 % 2, pipe.p0 / 8 % 2;
      var lc1, lc0 := port.lc / 2 % 2, port.lc % 2;
      if interruptControl / 0x2000_0000 % 2 == 1 {
        pos := pipe.p0 % 8;
        if ir4 != B2N(lc1 != lc0) { pos := pos + 16; }
        if ir3 != lc0 { pos := pos + 8; }
      } else {
        pos := pipe.p0 % 16;
        if ir4 == lc1 { pos := pos + 16; }
      }
    }

    method Byt(env: Env)
      requires Valid()
      modifies this, aMem, mMem, pdl, spc
      ensures View() == Microcode.Byt(old(View()), env)
    {
      hide MiscField, PosField, Rol32, Msk, Merge, DestField, Microcode.LcByteMode, Microcode.WriteDest;
      var pos := PosField(pipe.p0);
      if MiscField(pipe.p0) == 3 { pos := LcByteMode(); }
      var mask := Msk(pipe.p0, if OutField(pipe.p0) / 2 % 2 == 1 then pos else 0);
      match OutField(pipe.p0) {
        case 0 => path := path.(out := 0);
        case 1 =>
          path := path.(mData := Rol32(path.mData, pos));
          path := path.(out := Merge(path.mData, path.aData, mask));
        case 2 => path := path.(out := Merge(path.mData, path.aData, mask));
        case 3 =>
          path := path.(mData := Rol32(path.mData, pos));
          path := path.(out := Merge(path.mData, path.aData, mask));
      }
      assert View() == BytCycle(old(View()));
      WriteDest(env, DestField(pipe.p0));
    }

    method Step(env: Env) returns (ok: bool)
      requires Valid()
      modifies this, iMem, aMem, mMem, dMem, pdl, spc
      ensures ok <==> Microcode.Step(old(View()), env).Some?
      ensures ok ==> View() == Microcode.Step(old(View()), env).value
    {
      hide Microcode.IncNpc, Microcode.Execute;
      ok := IncNpc();
      if ok { ok := Execute(env); }
    }

    /** The rest of a cycle once the next instruction has been fetched. */
    method Execute(env: Env) returns (ok: bool)
      requires Valid()
      modifies this, iMem, aMem, mMem, dMem, pdl, spc
      ensures ok <==> Microcode.Execute(old(View()), env).Some?
      ensures ok ==> View() == Microcode.Execute(old(View()), env).value
    {
      hide Microcode.TickMd, Microcode.MergeOa, Microcode.LatchOperands, Microcode.Dispatch, FinishPopj, Banks;
      TickMd();
      if pipe.inhibit {
        pipe := pipe.(inhibit := false);
        return true;
      }
      MergeOa();
      ok := LatchOperands(env);
      if !ok { return; }
      ok := Dispatch(env);
      if !ok { return; }
      Popj(env);
    }

    method TickMd()
      requires Valid()
      modifies this`port
      ensures View() == Microcode.TickMd(old(View()))
    {
      if port.newMdDelay != 0 {
        port := port.(newMdDelay := port.newMdDelay - 1);
        if port.newMdDelay == 0 { port := port.(md := port.newMd); }
      }
    }

    method MergeOa()
      requires Valid()
      modifies this`oal, this`oah, this`pipe
      ensures View() == Microcode.MergeOa(old(View()))
    {
      hide Or64;
      if oal { oal := false; pipe := pipe.(p0 := Or64(pipe.p0, oaLow % 0x400_0000)); }
      if oah { oah := false; pipe := pipe.(p0 := Or64(pipe.p0, oaHigh % 0x40_0000 * 0x400_0000)); }
    }

    method Dispatch(env: Env) returns (ok: bool)
      requires Valid()
      modifies this, iMem, aMem, mMem, dMem, pdl, spc
      ensures ok <==> Microcode.Dispatch(old(View()), env).Some?
      ensures ok ==> View() == Microcode.Dispatch(old(View()), env).value
    {
      hide Microcode.Alu, Microcode.Jmp, Microcode.Dsp, Microcode.Byt, OpField, Banks;
      ok := true;
      match OpField(pipe.p0)
      case 0 => Alu(env);
      case 1 => ok := Jmp(env);
      case 2 => Dsp(env);
      case _ => Byt(env);
    }

    method Popj(env: Env)
      requires Valid()
      modifies this`pipe, this`spcPtr, this`port
      ensures View() == FinishPopj(old(View()), env)
    {
      hide Microcode.Return, Banks;
      if pipe.popj {
        var target := Return(env);
        pipe := pipe.(npc := target);
      }
    }

    method LatchOperands(env: Env) returns (ok: bool)
      requires Valid()
      modifies this`pipe, this`path, this`spcPtr, this`pdlPointer
      ensures ok <==> Microcode.LatchOperands(old(View()), env).Some?
      ensures ok ==> View() == Microcode.LatchOperands(old(View()), env).value
    {
      hide PopjField, MSourceField, MField, AField, Microcode.MfRead;
      ok := true;
      pipe := pipe.(popj := PopjField(pipe.p0));
      var m: Word;
      if MSourceField(pipe.p0) == 0 {
        m := mMem[MField(pipe.p0)];
      } else {
        ok, m := MfRead(env, MField(pipe.p0));
        if !ok { return; }
      }
      path := path.(mData := m);
      path := path.(aData := aMem[AField(pipe.p0)]);
      path := path.(iwr := path.aData % 0x1_0000 * 0x1_0000_0000 + path.mData);
    }
  }
}

/**
 The microcode processor as a value: its registers and memories, and the effect of
 one microcycle on them. Class UCode is the machine itself; each of its methods is
 proved to have the effect that a function of this module gives.
 */
module Microcode {
  import opened Words
  import opened Arithmetic

  type MicroWord = x: int | 0 <= x < 0x1_0000_0000_0000_0000
  type Index2 = x: int | 0 <= x < 4
  type Index5 = x: int | 0 <= x < 32
  type Index10 = x: int | 0 <= x < 1024
  type Index11 = x: int | 0 <= x < 2048
  type Index14 = x: int | 0 <= x < 16384

  type PromBank = s: seq<MicroWord> | |s| == 512 witness seq(512, _ => 0)
  type IMemBank = s: seq<MicroWord> | |s| == 16384 witness seq(16384, _ => 0)
  type Bank32 = s: seq<Word> | |s| == 32 witness seq(32, _ => 0)
  type Bank1024 = s: seq<Word> | |s| == 1024 witness seq(1024, _ => 0)
  type Bank2048 = s: seq<Word> | |s| == 2048 witness seq(2048, _ => 0)

  /** What the world outside the processor answers during one cycle. */
  datatype Env = Env(
    read: Word -> Word,             // the word at a virtual address
    readOk: Word -> bool,           // access permission of a virtual address
    writeOk: Word -> bool,          // write permission of a virtual address
    isDevice: Word -> bool,         // a virtual address that leads to a device, not to main memory
    promAfterWrite: bool -> bool,   // a device write may switch the PROM off or on
    mdAfterWrite: Word -> Word,     // a device write may reach MD through the Unibus map
    mapL1: Index5,                  // both map levels for the address in MD
    mapL2: Word,
    mapAccess: bool,
    mapWrite: bool,
    interruptPending: bool)

  datatype Memories = Memories(
    prom: PromBank, imem: IMemBank, amem: Bank1024, mmem: Bank32, dmem: Bank2048, pdl: Bank1024, spc: Bank32)

  /** The prefetch pipeline: the word executing, the word prefetched, and the next fetch address. */
  datatype Pipeline = Pipeline(
    p0: MicroWord, p0pc: Word, p1: MicroWord, p1pc: Word, npc: Word, opc: Word, inhibit: bool, popj: bool)

  /** The registers of the memory interface, with the delayed load of MD. */
  datatype MemoryPort = MemoryPort(
    vma: Word, md: Word, newMd: Word, newMdDelay: nat, lc: Word, vmaOk: bool, promDisabled: bool)

  /** The latched operands, Q and the ALU. */
  datatype DataPath = DataPath(
    iwr: MicroWord, aData: Word, mData: Word, out: Word, alu: Result, q: Word, oldQ: Word)

  datatype Cpu = Cpu(
    mem: Memories, pipe: Pipeline, port: MemoryPort, path: DataPath,
    pdlPointer: Index10, pdlIndex: Index10, spcPtr: Index5, dispatchConstant: Word,
    interruptControl: Word, oaHigh: Word, oaLow: Word, oah: bool, oal: bool, halted: bool)

  // ----- instruction fields -----

  function OpField(w: MicroWord): Index2 { w / 0x800_0000_0000 % 4 }              // Ir(43, 2)
  predicate PopjField(w: MicroWord) { w / 0x400_0000_0000 % 2 == 1 }           // Ir(42, 1)
  function AField(w: MicroWord): Index10 { w / 0x1_0000_0000 % 1024 }          // Ir(32, 10)
  function MSourceField(w: MicroWord): nat { w / 0x8000_0000 % 2 }             // Ir(31, 1)
  function MField(w: MicroWord): Index5 { w / 0x400_0000 % 32 }                // Ir(26, 5)
  function DestField(w: MicroWord): nat { w / 0x4000 % 4096 }                  // Ir(14, 12)
  function AluField(w: MicroWord): nat { w / 8 % 64 }                          // Ir(3, 6)
  predicate CarryField(w: MicroWord) { w / 4 % 2 == 1 }                        // Ir(2, 1)
  function QField(w: MicroWord): Index2 { w % 4 }                                 // Ir(0, 2)
  function OutField(w: MicroWord): Index2 { w / 0x1000 % 4 }                      // Ir(12, 2)
  function PosField(w: MicroWord): Index5 { w % 32 }                              // Ir(0, 5)
  function MiscField(w: MicroWord): Index2 { w / 0x400 % 4 }                      // Ir(10, 2)
  function TargetField(w: MicroWord): Index14 { w / 0x1000 % 0x4000 }              // Ir(12, 14)
  predicate RField(w: MicroWord) { w / 0x200 % 2 == 1 }                        // Ir(9, 1)
  predicate PField(w: MicroWord) { w / 0x100 % 2 == 1 }                        // Ir(8, 1)
  predicate NField(w: MicroWord) { w / 0x80 % 2 == 1 }                         // Ir(7, 1)
  predicate InvertField(w: MicroWord) { w / 0x40 % 2 == 1 }                    // Ir(6, 1)
  predicate ConditionField(w: MicroWord) { w / 0x20 % 2 == 1 }                 // Ir(5, 1)
  function ConditionCode(w: MicroWord): nat { w % 16 }                         // Ir(0, 4)
  function DispatchField(w: MicroWord): Index11 { w / 0x1000 % 0x800 }             // Ir(12, 11)
  function LengthField(w: MicroWord): nat { w / 0x20 % 8 }                     // Ir(5, 3)
  function MapField(w: MicroWord): Index2 { w / 0x100 % 4 }                       // Ir(8, 2)
  predicate PushOwnField(w: MicroWord) { w / 0x200_0000 % 2 == 1 }             // Ir(25, 1)
  predicate IFetchField(w: MicroWord) { w / 0x100_0000 % 2 == 1 }              // Ir(24, 1)
  function WidthField(w: MicroWord): Index5 { w / 0x20 % 32 }                     // Ir(5, 5)

  predicate ByteMode(c: Cpu) { c.interruptControl / 0x2000_0000 % 2 == 1 }

  // ----- fetch -----

  /** A fetch outside the selected control store throws. */
  function Fetch(c: Cpu, pc: Word): Option<MicroWord> {
    if c.port.promDisabled then (if pc < 16384 then Some(c.mem.imem[pc]) else None)
    else (if pc < 512 then Some(c.mem.prom[pc]) else None)
  }

  function Successor(npc: Word): Word { if npc == 0x3FFF then 0 else Wrap32(npc + 1) }

  function IncNpc(c: Cpu): Option<Cpu> {
    match Fetch(c, c.pipe.npc)
    case None => None
    case Some(w) =>
      Some(c.(pipe := c.pipe.(p0 := c.pipe.p1, p0pc := c.pipe.p1pc, p1 := w, p1pc := c.pipe.npc,
                              npc := Successor(c.pipe.npc), opc := c.pipe.p1pc)))
  }

  /** The delayed memory load counts down at the start of every cycle. */
  function TickMd(c: Cpu): Cpu {
    if c.port.newMdDelay == 0 then c
    else c.(port := c.port.(newMdDelay := c.port.newMdDelay - 1, md := if c.port.newMdDelay == 1 then c.port.newMd else c.port.md))
  }

  function Or64(a: MicroWord, b: MicroWord): MicroWord {
    Pow2Values();
    Pow2Add(32, 32);
    OrBound(a, b, 64);
    Or(a, b)
  }

  function MergeOa(c: Cpu): Cpu {
    var c1 := if c.oal then c.(pipe := c.pipe.(p0 := Or64(c.pipe.p0, c.oaLow % 0x400_0000)), oal := false) else c;
    if c1.oah then c1.(pipe := c1.pipe.(p0 := Or64(c1.pipe.p0, c1.oaHigh % 0x40_0000 * 0x400_0000)), oah := false) else c1
  }

  // ----- memory, LC and the return stack -----

  function VirtualAddress(a: Word): Word { a % 0x100_0000 }

  /** A read through the map: it fixes VMA-OK now and lands in MD two cycles later. */
  function StartRead(c: Cpu, env: Env, vaddr: Word): Cpu {
    var a := VirtualAddress(vaddr);
    c.(port := c.port.(vmaOk := env.readOk(a), newMd := if env.readOk(a) then env.read(a) else 0, newMdDelay := 2))
  }

  /** A write through the map: main memory is outside this state, but a device can change the PROM switch and MD. */
  function StartWrite(c: Cpu, env: Env, vaddr: Word): Cpu {
    var a := VirtualAddress(vaddr);
    if env.writeOk(a) && env.isDevice(a) then
      c.(port := c.port.(vmaOk := true, promDisabled := env.promAfterWrite(c.port.promDisabled), md := env.mdAfterWrite(c.port.md)))
    else c.(port := c.port.(vmaOk := env.writeOk(a)))
  }

  predicate NeedFetch(lc: Word) { lc >= 0x8000_0000 }

  function ForceBit1(ppc: Word): Word { Or32(ppc, 2) }

  /** Step LC to the next halfword or byte; a pending fetch happens now, otherwise bit 1 of ppc is forced. */
  function StepLc(c: Cpu, env: Env, ppc: Word): (Word, Cpu) {
    var address := c.port.lc % 0x400_0000;
    var lc := Wrap32(c.port.lc + (if ByteMode(c) then 1 else 2));
    if NeedFetch(lc) then
      (ppc, StartRead(c.(port := c.port.(lc := lc - 0x8000_0000, vma := address / 4)), env, address / 4))
    else
      (ForceBit1(ppc), c.(port := c.port.(lc := lc)))
  }

  predicate WordBoundary(c: Cpu) { !(ByteMode(c) && c.port.lc % 2 == 1) && c.port.lc / 2 % 2 == 0 }

  /** Ask for a fetch when LC has just reached the first byte of a word. */
  function MarkBoundary(c: Cpu): Cpu {
    if WordBoundary(c) && !NeedFetch(c.port.lc) then c.(port := c.port.(lc := c.port.lc + 0x8000_0000)) else c
  }

  /** Advance the macro location counter. */
  function AdvanceLc(c: Cpu, env: Env, ppc: Word): (Word, Cpu) {
    var (ppc', c') := StepLc(c, env, ppc);
    (ppc', MarkBoundary(c'))
  }

  function PushSpc(c: Cpu, pc: Word): Cpu {
    var p := (c.spcPtr + 1) % 32;
    c.(spcPtr := p, mem := c.mem.(spc := c.mem.spc[p := pc]))
  }

  function PopSpc(c: Cpu): (Word, Cpu) {
    (c.mem.spc[c.spcPtr], c.(spcPtr := (c.spcPtr - 1) % 32))
  }

  /** A return: pop, and advance LC if bit 14 of the popped word says so. */
  function Return(c: Cpu, env: Env): (Word, Cpu) {
    var (target, c1) := PopSpc(c);
    var (target', c2) := if target / 0x4000 % 2 == 1 then AdvanceLc(c1, env, target) else (target, c1);
    (target' % 0x4000, c2)
  }

  // ----- functional sources and destinations -----

  function SpcWord(c: Cpu): Word { c.spcPtr * 0x100_0000 + c.mem.spc[c.spcPtr] % 0x8_0000 }

  /** Reading an unknown functional source throws. */
  function MfRead(c: Cpu, env: Env, addr: Index5): Option<(Word, Cpu)> {
    match addr
    case 0 => Some((c.dispatchConstant, c))
    case 1 => Some((SpcWord(c), c))
    case 2 => Some((c.pdlPointer, c))
    case 3 => Some((c.pdlIndex, c))
    case 5 => Some((c.mem.pdl[c.pdlIndex], c))
    case 6 => Some((c.pipe.opc, c))
    case 7 => Some((c.path.q, c))
    case 8 => Some((c.port.vma, c))
    case 9 =>
      Some((0x8000_0000 * B2N(!env.mapWrite) + 0x4000_0000 * B2N(!env.mapAccess) + 0x2000_0000
            + env.mapL1 * 0x100_0000 + env.mapL2 % 0x100_0000, c))
    case 10 => Some((c.port.md, c))
    case 11 => Some((if ByteMode(c) then c.port.lc else c.port.lc - c.port.lc % 2, c))
    case 12 => Some((SpcWord(c), c.(spcPtr := (c.spcPtr - 1) % 32)))
    case 13 => Some((0, c))
    case 20 => Some((c.mem.pdl[c.pdlPointer], c.(pdlPointer := (c.pdlPointer - 1) % 1024)))
    case 21 => Some((c.mem.pdl[c.pdlPointer], c))
    case 22 => Some((0, c))
    case _ => None
  }

  /** Loading LC sets its 26-bit address, drops bit 0 outside byte mode, and asks for a fetch. */
  function LoadLc(c: Cpu, data: Word): Cpu {
    var lc := c.port.lc - c.port.lc % 0x400_0000 + data % 0x400_0000;
    var lc' := if ByteMode(c) then lc else lc - lc % 2;
    c.(port := c.port.(lc := if lc' >= 0x8000_0000 then lc' else lc' + 0x8000_0000))
  }

  function MfWrite(c: Cpu, env: Env, dest: nat, data: Word): Cpu {
    match dest / 32
    case 1 => LoadLc(c, data)
    case 2 =>
      c.(port := c.port.(lc := c.port.lc / 0x4000_0000 * 0x4000_0000 + data / 0x400_0000 % 16 * 0x400_0000
                               + c.port.lc % 0x400_0000),
         interruptControl := data)
    case 8 => c.(mem := c.mem.(pdl := c.mem.pdl[c.pdlPointer := data]))
    case 9 =>
      var p := (c.pdlPointer + 1) % 1024;
      c.(pdlPointer := p, mem := c.mem.(pdl := c.mem.pdl[p := data]))
    case 10 => c.(mem := c.mem.(pdl := c.mem.pdl[c.pdlIndex := data]))
    case 11 => c.(pdlIndex := data % 1024)
    case 12 => c.(pdlPointer := data % 1024)
    case 13 => PushSpc(c, data)
    case 14 => c.(oaLow := data % 0x400_0000, oal := true)
    case 15 => c.(oaHigh := data % 0x80_0000, oah := true)
    case _ => if dest / 32 >= 16 then MemoryDest(c, env, dest, data) else c
  }

  /** The functional destinations that concern VMA and MD. */
  function MemoryDest(c: Cpu, env: Env, dest: nat, data: Word): Cpu {
    match dest / 32
    case 16 => c.(port := c.port.(vma := data))
    case 17 => StartRead(c.(port := c.port.(vma := data)), env, data)
    case 18 => StartWrite(c.(port := c.port.(vma := data)), env, data)
    case 19 => c.(port := c.port.(vma := data))
    case 24 => c.(port := c.port.(md := data))
    case 25 => StartRead(c.(port := c.port.(md := data)), env, c.port.vma)
    case 26 => StartWrite(c.(port := c.port.(md := data)), env, c.port.vma)
    case 27 => c.(port := c.port.(md := data))
    case _ => c
  }

  function WriteDest(c: Cpu, env: Env, dest: nat): Cpu {
    if dest / 0x800 % 2 == 1 then
      c.(mem := c.mem.(amem := c.mem.amem[dest % 1024 := c.path.out]))
    else
      var c' := MfWrite(c, env, dest, c.path.out);
      c'.(mem := c'.mem.(mmem := c'.mem.mmem[dest % 32 := c.path.out], amem := c'.mem.amem[dest % 32 := c.path.out]))
  }

  // ----- the four instruction classes -----

  function AluResult(c: Cpu): Result {
    var op, cin := AluField(c.pipe.p0), CarryField(c.pipe.p0);
    if op < 16 then Result(LogiOps(op, c.path.mData, c.path.aData), false)
    else if op < 32 then ArithOps(op, c.path.mData, c.path.aData, cin)
    else if op == 32 || op == 33 || op == 37 || op == 41 then
      DivOps(op, c.path.mData, c.path.aData, c.path.q, Result(c.path.alu.out, false), cin)
    else Result(c.path.alu.out, false)
  }

  function AluCycle(c: Cpu): Cpu {
    var r := AluResult(c);
    c.(path := c.path.(alu := r, oldQ := c.path.q, q := QControl(QField(c.pipe.p0), c.path.q, r.out),
                       out := OutControl(OutField(c.pipe.p0), r, c.path.mData, PosField(c.pipe.p0), c.path.q)))
  }

  function Alu(c: Cpu, env: Env): Cpu { WriteDest(AluCycle(c), env, DestField(c.pipe.p0)) }

  /** The jump condition, with the operand rotation that the bit test performs; unknown codes throw. */
  function CheckJumpCondition(c: Cpu, env: Env): Option<(bool, Cpu)> {
    if !ConditionField(c.pipe.p0) then
      var m := Rol32(c.path.mData, PosField(c.pipe.p0));
      Some((m % 2 == 1, c.(path := c.path.(mData := m))))
    else
      var interrupt := c.interruptControl / 0x800_0000 % 2 == 1 && env.interruptPending;
      var sequence := c.interruptControl / 0x400_0000 % 2 == 1;
      match ConditionCode(c.pipe.p0)
      case 1 => Some((Signed(c.path.mData) < Signed(c.path.aData), c))
      case 2 => Some((Signed(c.path.mData) <= Signed(c.path.aData), c))
      case 3 => Some((c.path.mData == c.path.aData, c))
      case 4 => Some((!c.port.vmaOk, c))
      case 5 => Some((!c.port.vmaOk || interrupt, c))
      case 6 => Some((!c.port.vmaOk || interrupt || sequence, c))
      case 7 => Some((true, c))
      case _ => None
  }

  /** The return address of a call: after the delay slot, or the slot itself when it is annulled. */
  function ReturnAddress(c: Cpu, n: bool): Word { if n then Wrap32(c.pipe.npc - 1) else c.pipe.npc }

  /** A taken jump or dispatch: P pushes a return address, R pops the target. */
  function Transfer(c: Cpu, env: Env, n: bool, p: bool, r: bool, target: Word): Cpu {
    var c1 := if p then PushSpc(c, ReturnAddress(c, n)) else c;
    var (t, c2) := if r then Return(c1, env) else (target, c1);
    c2.(pipe := c2.pipe.(npc := t, popj := false))
  }

  /** A jump whose condition holds: N annuls the slot after it. */
  function TakeJump(c: Cpu, env: Env, n: bool, p: bool, r: bool, target: Word): Cpu {
    var c' := Transfer(c, env, n, p, r, target);
    if n then c'.(pipe := c'.pipe.(inhibit := true)) else c'
  }

  function Jmp(c: Cpu, env: Env): Option<Cpu> {
    var w := c.pipe.p0;
    var c0 := if MiscField(w) == 1 then c.(halted := true) else c;
    if PField(w) && RField(w) then
      Some(c0.(mem := c0.mem.(imem := c0.mem.imem[TargetField(w) := c0.path.iwr])))
    else
      match CheckJumpCondition(c0, env)
      case None => None
      case Some((sense, c1)) =>
        if sense == InvertField(w) then Some(c1)
        else
          Some(TakeJump(c1, env, NField(w), PField(w), RField(w), TargetField(w)))
  }

  /** Bits of an M or A rotation selected by the low bits of LC. */
  function LcByteMode(c: Cpu): Index5 {
    var ir4, ir3 := c.pipe.p0 / 16 % 2, c.pipe.p0 / 8 % 2;
    var lc1, lc0 := c.port.lc / 2 % 2, c.port.lc % 2;
    if ByteMode(c) then
      c.pipe.p0 % 8 + 16 * ((ir4 + lc1 + lc0) % 2) + 8 * ((ir3 + lc0) % 2)
    else
      c.pipe.p0 % 16 + 16 * B2N(ir4 == lc1)
  }

  function RotatePosition(c: Cpu): Index5 {
    if MiscField(c.pipe.p0) == 3 then LcByteMode(c) else PosField(c.pipe.p0)
  }

  function DispatchMask(len: nat): nat { if len == 0 then 0 else Pow2(len) - 1 }

  /** The dispatch-memory address: the base with the low bits of the rotated M operand and a map bit. */
  function DispatchAddress(w: MicroWord, mapL2: Word, m: Word): Index11 {
    var a := Or(DispatchField(w), And(m, DispatchMask(LengthField(w))));
    Or(a, MapBit(w, mapL2)) % 0x800
  }

  /** The bit of the second map level that a dispatch can fold into its address. */
  function MapBit(w: MicroWord, mapL2: Word): nat {
    var bit18, bit19 := mapL2 / 0x4_0000 % 2, mapL2 / 0x8_0000 % 2;
    match MapField(w)
    case 0 => 0
    case 1 => bit18
    case 2 => bit19
    case _ => Or(bit18, bit19)
  }

  function Dsp(c: Cpu, env: Env): Cpu {
    var w := c.pipe.p0;
    if MiscField(w) == 2 then
      c.(mem := c.mem.(dmem := c.mem.dmem[DispatchField(w) := c.path.aData]))
    else
      var m := Rol32(c.path.mData, RotatePosition(c));
      var word := c.mem.dmem[DispatchAddress(w, env.mapL2, m)];
      DispatchTransfer(c.(path := c.path.(mData := m), dispatchConstant := AField(w)), env, word)
  }

  /** Before a dispatch transfers: back up over the dispatch, fetch the next macroinstruction, annul the slot. */
  function DispatchPrefix(c: Cpu, env: Env, n: bool): Cpu {
    var c1 := BackUp(c, n);
    var c2 := if IFetchField(c.pipe.p0) then AdvanceLc(c1, env, 0).1 else c1;
    if n then c2.(pipe := c2.pipe.(inhibit := true)) else c2
  }

  /** A dispatch that pushes its own address goes back over itself. */
  function BackUp(c: Cpu, n: bool): Cpu {
    if PushOwnField(c.pipe.p0) && n then c.(pipe := c.pipe.(npc := Wrap32(c.pipe.npc - 1))) else c
  }

  /** The transfer of control that a dispatch-memory word asks for. */
  function DispatchTransfer(c: Cpu, env: Env, word: Word): Cpu {
    var n, p, r := word / 0x4000 % 2 == 1, word / 0x8000 % 2 == 1, word / 0x1_0000 % 2 == 1;
    var c1 := DispatchPrefix(c, env, n);
    if p && r then c1 else Transfer(c1, env, n, p, r, word % 0x4000)
  }

  /** Ones from bit `pos` up to bit pos + width - 1, cyclically only at the upper end. */
  function Msk(w: MicroWord, pos: nat): Word
    requires pos < 32
  {
    Pow2Values();
    var left := (pos + WidthField(w)) % 32;
    Pow2Monotone(left + 1, 32);
    Pow2Monotone(pos, 32);
    And32(Pow2(left + 1) - 1, Wrap32(0x1_0000_0000 - Pow2(pos)))
  }

  /** Take the bits under the mask from m and the others from a. */
  function Merge(m: Word, a: Word, mask: Word): Word { Or32(And32(m, mask), And32(a, Not32(mask))) }

  /** The result of a byte instruction that rotates by pos. */
  function ByteOut(w: MicroWord, pos: Index5, m: Word, a: Word): Word {
    var mask := Msk(w, if OutField(w) >= 2 then pos else 0);
    match OutField(w)
    case 0 => 0
    case 2 => Merge(m, a, mask)
    case _ => Merge(Rol32(m, pos), a, mask)
  }

  function BytCycle(c: Cpu): Cpu {
    var w, pos, m := c.pipe.p0, RotatePosition(c), c.path.mData;
    c.(path := c.path.(mData := if OutField(w) % 2 == 1 then Rol32(m, pos) else m, out := ByteOut(w, pos, m, c.path.aData)))
  }

  function Byt(c: Cpu, env: Env): Cpu { WriteDest(BytCycle(c), env, DestField(c.pipe.p0)) }

  // ----- one microcycle -----

  /** Latch the operands of the instruction in P0. */
  function LatchOperands(c: Cpu, env: Env): Option<Cpu> {
    var w := c.pipe.p0;
    var c0 := c.(pipe := c.pipe.(popj := PopjField(w)));
    var source: Option<(Word, Cpu)> :=
      if MSourceField(w) == 0 then Some((c0.mem.mmem[MField(w)], c0)) else MfRead(c0, env, MField(w));
    match source
    case None => None
    case Some((m, c1)) =>
      var a := c1.mem.amem[AField(w)];
      Some(c1.(path := c1.path.(mData := m, aData := a, iwr := a % 0x1_0000 * 0x1_0000_0000 + m)))
  }

  function Dispatch(c: Cpu, env: Env): Option<Cpu> {
    match OpField(c.pipe.p0)
    case 0 => Some(Alu(c, env))
    case 1 => Jmp(c, env)
    case 2 => Some(Dsp(c, env))
    case _ => Some(Byt(c, env))
  }

  function FinishPopj(c: Cpu, env: Env): Cpu {
    if c.pipe.popj then
      var (target, c1) := Return(c, env);
      c1.(pipe := c1.pipe.(npc := target))
    else c
  }

  /** Everything a cycle does after its fetch, with the instruction already in P0. */
  function Execute(c: Cpu, env: Env): Option<Cpu> {
    var c1 := TickMd(c);
    if c1.pipe.inhibit then Some(c1.(pipe := c1.pipe.(inhibit := false)))
    else
      match LatchOperands(MergeOa(c1), env)
      case None => None
      case Some(c2) =>
        match Dispatch(c2, env)
        case None => None
        case Some(c3) => Some(FinishPopj(c3, env))
  }

  /** One call of Step; None stands for an exception. */
  function Step(c: Cpu, env: Env): Option<Cpu> {
    match IncNpc(c)
    case None => None
    case Some(c1) => Execute(c1, env)
  }
}

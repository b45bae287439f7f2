/**
 The disk controller: its registers, the commands it starts, and the objects that carry them out.
 */
module DiskControl {
  import opened Words
  import opened PhysicalMemory
  import opened DiskModel
  import opened DiskTransfer

  datatype Registers = Registers(
    cmd: Word, clp: Word, da: Word, resetCondition: bool, doneEnable: bool, attentionEnable: bool)

  /** The controller, memory and the selected drive. */
  datatype System = System(rig: Rig, regs: Registers)

  function AssertInterrupt(s: Status): Status { s.(interruptRequest := true, xbusInterrupt := true) }

  function NotActive(s: Status, doneEnable: bool): Status {
    if doneEnable then AssertInterrupt(s.(notActive := true)) else s.(notActive := true)
  }

  function WithStatus(x: System, s: Status): System { x.(rig := x.rig.(status := s)) }
  function Active(x: System): System { WithStatus(x, x.rig.status.(notActive := false)) }
  function Finish(x: System): System { WithStatus(x, NotActive(x.rig.status, x.regs.doneEnable)) }

  function PerformXfer(r: Rig, npages: nat, mode: Mode, clp: Word): Rig
    requires r.drive.Valid() && r.drive.online
  {
    Transfer(r.(status := r.status.(compareDifference := false, ccwCycle := false, nxm := false)), npages, mode, clp, 0).1
  }

  /** Where a transfer starts. */
  function Positioned(x: System): Rig {
    var da := x.regs.da;
    x.rig.(drive := Seek(x.rig.drive, CylinderOf(da), HeadOf(da), SectorOf(da)).1,
           status := x.rig.status.(notActive := false, compareDifference := false, ccwCycle := false, nxm := false))
  }

  function SubmitXfer(x: System, npages: nat, mode: Mode): System
    requires x.rig.drive.Valid() && x.rig.drive.online
  {
    var x1, da := Active(x), x.regs.da;
    SeekKeepsValid(x.rig.drive, CylinderOf(da), HeadOf(da), SectorOf(da));
    var (ok, d) := Seek(x.rig.drive, CylinderOf(da), HeadOf(da), SectorOf(da));
    var x2 := x1.(rig := x1.rig.(drive := d));
    if !ok then Finish(x2)
    else
      var r := PerformXfer(x2.rig, npages, mode, x.regs.clp);
      var r0 := x2.rig.(status := x2.rig.status.(compareDifference := false, ccwCycle := false, nxm := false));
      TransferEnds(r0, npages, mode, x.regs.clp, 0);
      DaRoundTrip(r.drive);
      Finish(System(r, x.regs.(da := Da(r.drive))))
  }

  function OnAttention(s: Status, attentionEnable: bool): Status {
    if s.notActive && attentionEnable then AssertInterrupt(s) else s
  }

  function Attend(x: System, d: Drive): System {
    var x1 := x.(rig := x.rig.(drive := d.(attention := true)));
    WithStatus(x1, OnAttention(x1.rig.status, x1.regs.attentionEnable))
  }

  function StartSeek(x: System): System {
    var da := x.regs.da;
    Finish(Attend(Active(x), Seek(x.rig.drive, CylinderOf(da), HeadOf(da), SectorOf(da)).1))
  }

  function Recalibrate(x: System): System {
    Finish(Attend(Active(x), Seek(x.rig.drive, 0, 0, 0).1.(fault := false, seekError := false)))
  }

  function FaultClear(x: System): System { Finish(Active(x.(rig := x.rig.(drive := x.rig.drive.(fault := false))))) }
  function AtEase(x: System): System { Finish(Active(x.(rig := x.rig.(drive := x.rig.drive.(attention := false))))) }

  function StartWrite(x: System, npages: nat): System
    requires x.rig.drive.Valid() && x.rig.drive.online
  {
    if x.rig.drive.readOnly then x.(rig := Fault(x.rig)) else SubmitXfer(x, npages, Write)
  }

  /** Starting the command in the command register; None where the emulator stops. */
  function Start(x: System, npages: nat): Option<System>
    requires x.rig.drive.Valid()
  {
    var cmd := x.regs.cmd;
    if !x.rig.drive.online then Some(x)
    else if cmd % 16 == 0 then Some(SubmitXfer(x, npages, Read))
    else if cmd % 16 == 8 then Some(SubmitXfer(x, npages, ReadCompare))
    else if cmd % 16 == 9 then Some(StartWrite(x, npages))
    else if cmd % 16 == 4 then Some(StartSeek(x))
    else if cmd % 16 == 5 then
      var x1 := AtEase(x);
      var x2 := if cmd / 0x200 % 2 == 1 then Recalibrate(x1) else x1;
      Some(if cmd / 0x100 % 2 == 1 then FaultClear(x2) else x2)
    else if cmd % 16 == 6 then Some(Finish(Active(x)))
    else None
  }

  // ----- registers -----

  function Reset(x: System): System {
    System(x.rig.(status := Status(false, false, false, false, true, x.rig.status.xbusInterrupt)),
           Registers(0, 0, 0, true, false, false))
  }

  /** A store into the command register; 0xE puts the controller into reset, and 0 takes it out. */
  function StoreCommand(x: System, v: Word): System {
    if v == 0 then x.(regs := x.regs.(cmd := 0, resetCondition := false))
    else if v == 0xE then Reset(x)
    else if x.regs.resetCondition then x
    else
      var done, attention := v / 0x800 % 2 == 1, v / 0x400 % 2 == 1;
      var x1 := x.(regs := x.regs.(cmd := v, doneEnable := done, attentionEnable := attention));
      if done || attention then x1 else WithStatus(x1, x1.rig.status.(xbusInterrupt := false))
  }

  /** A store into any register; None where the emulator stops. */
  function Store(x: System, npages: nat, offset: nat, v: Word): Option<System>
    requires x.rig.drive.Valid()
  {
    if offset == 0 then Some(StoreCommand(x, v))
    else if offset > 3 then None
    else if x.regs.resetCondition then Some(x)
    else if offset == 1 then Some(x.(regs := x.regs.(clp := v)))
    else if offset == 2 then Some(x.(regs := x.regs.(da := v)))
    else Start(x, npages)
  }

  /** While reset is in effect only the two special commands have any effect. */
  lemma ResetHolds(x: System, npages: nat, offset: nat, v: Word)
    requires x.rig.drive.Valid() && x.regs.resetCondition && offset <= 3
    ensures Store(x, npages, offset, v).value != x ==> offset == 0 && (v == 0 || v == 0xE)
    ensures Store(x, npages, offset, v).value.regs.resetCondition <==> !(offset == 0 && v == 0)
  {
  }

  // ----- what commands can and cannot do -----

  lemma SubmitEffect(x: System, npages: nat, mode: Mode)
    requires x.rig.drive.Valid() && x.rig.drive.online
    ensures var d, d' := x.rig.drive, SubmitXfer(x, npages, mode).rig.drive;
            && d'.Valid() && d'.online && d'.fault == d.fault
            && (!mode.Write? ==> d'.blocks == d.blocks)
            && (!mode.Read? ==> SubmitXfer(x, npages, mode).rig.memory == x.rig.memory)
  {
    var da := x.regs.da;
    SeekKeepsValid(x.rig.drive, CylinderOf(da), HeadOf(da), SectorOf(da));
    var d := Seek(x.rig.drive, CylinderOf(da), HeadOf(da), SectorOf(da)).1;
    var r0 := Active(x).rig.(drive := d);
    var r := r0.(status := r0.status.(compareDifference := false, ccwCycle := false, nxm := false));
    hide Transfer, Seek, CylinderOf, HeadOf, SectorOf, Lba, TotalBlocks, StoreBlocks, LoadPages, Matches, BlocksFrom, Pages;
    TransferEnds(r, npages, mode, x.regs.clp, 0);
    WriteMovesTrace(r, npages, x.regs.clp, 0);
    ReadMovesTrace(r, npages, x.regs.clp, 0);
    CompareFindsDifference(r, npages, x.regs.clp, 0);
  }

  lemma AtEaseKeepsPack(x: System, npages: nat)
    requires x.rig.drive.Valid() && x.rig.drive.online && x.regs.cmd % 16 == 5
    ensures var d, x' := x.rig.drive, Start(x, npages).value;
            x'.rig.drive.Valid() && x'.rig.drive.blocks == d.blocks && x'.rig.memory == x.rig.memory && (x'.rig.drive.fault ==> d.fault)
  {
    hide Transfer, Seek, CylinderOf, HeadOf, SectorOf, Lba, TotalBlocks, SubmitXfer, Recalibrate;
    RecalibrateKeepsPack(AtEase(x));
  }

  lemma RecalibrateKeepsPack(x: System)
    requires x.rig.drive.Valid() && x.rig.drive.online
    ensures var d, x' := x.rig.drive, Recalibrate(x);
            x'.rig.drive.Valid() && x'.rig.drive.blocks == d.blocks && x'.rig.memory == x.rig.memory && !x'.rig.drive.fault
  {
    SeekKeepsValid(x.rig.drive, 0, 0, 0);
    hide Seek, Lba, TotalBlocks;
  }

  /**
   No command takes a drive off its track. Only a write to a drive that can be written changes
   blocks, only a read changes memory, and the only fault is a write to a drive that cannot be.
   */
  lemma CommandSafety(x: System, npages: nat)
    requires x.rig.drive.Valid() && Start(x, npages).Some?
    ensures var d, x', fun := x.rig.drive, Start(x, npages).value, x.regs.cmd % 16;
            && x'.rig.drive.Valid()
            && (x'.rig.drive.blocks != d.blocks ==> fun == 9 && !d.readOnly)
            && (x'.rig.memory != x.rig.memory ==> fun == 0)
            && (x'.rig.drive.fault && !d.fault ==> fun == 9 && d.readOnly)
  {
    var d, da, fun := x.rig.drive, x.regs.da, x.regs.cmd % 16;
    if d.online {
      hide Transfer, Seek, CylinderOf, HeadOf, SectorOf, Lba, TotalBlocks, SubmitXfer;
      if fun == 0 {
        SubmitEffect(x, npages, Read);
      } else if fun == 8 {
        SubmitEffect(x, npages, ReadCompare);
      } else if fun == 9 {
        SubmitEffect(x, npages, Write);
      } else if fun == 4 {
        SeekKeepsValid(d, CylinderOf(da), HeadOf(da), SectorOf(da));
      } else if fun == 5 {
        AtEaseKeepsPack(x, npages);
      }
    }
  }

  /**
   A seek raises attention, but the attention interrupt it asks for never comes: the controller is
   still active when it looks. The interrupt is the one for a finished command, or none.
   */
  lemma AttentionNeverInterrupts(x: System)
    ensures StartSeek(x).rig.drive.attention && Recalibrate(x).rig.drive.attention
    ensures StartSeek(x).rig.status.interruptRequest == (x.rig.status.interruptRequest || x.regs.doneEnable)
    ensures Recalibrate(x).rig.status.interruptRequest == (x.rig.status.interruptRequest || x.regs.doneEnable)
  {
    hide Seek;
  }

  /** The block that a disk address names on a drive, if the drive has it. */
  predicate Addresses(d: DiskModel.Drive, da: Word) {
    CylinderOf(da) < CYLINDERS && HeadOf(da) < Heads(d.geo) && SectorOf(da) < BLOCKS_PER_TRACK
  }
  function BlockOf(d: DiskModel.Drive, da: Word): nat { Lba(d.geo, CylinderOf(da), HeadOf(da), SectorOf(da)) }

  /** The status of a controller that has finished: not active, and asking for an interrupt if that is enabled. */
  function Done(s: Status, doneEnable: bool): Status {
    s.(notActive := true, interruptRequest := s.interruptRequest || doneEnable, xbusInterrupt := s.xbusInterrupt || doneEnable)
  }

  /** A transfer starts at the block that the disk address names; a bad address is a seek error and nothing moves. */
  lemma SubmitStartsAt(x: System, npages: nat, mode: Mode)
    requires x.rig.drive.Valid() && x.rig.drive.online
    ensures Addresses(x.rig.drive, x.regs.da) ==>
              var r, y := Positioned(x), SubmitXfer(x, npages, mode);
              && r.drive.Valid() && r.drive.lba == BlockOf(x.rig.drive, x.regs.da) < |r.drive.blocks| && !r.status.nxm
              && r == x.rig.(drive := r.drive, status := r.status) && r.drive.blocks == x.rig.drive.blocks
              && r.drive.geo == x.rig.drive.geo && r.drive.unit == x.rig.drive.unit && r.drive.online
              && var e := Transfer(r, npages, mode, x.regs.clp, 0).1;
                 e.drive.OnTrack() && y.rig == e.(status := Done(e.status, x.regs.doneEnable)) && y.regs == x.regs.(da := Da(e.drive))
    ensures Addresses(x.rig.drive, x.regs.da) ==>
              Positioned(x).status == x.rig.status.(notActive := false, compareDifference := false, ccwCycle := false, nxm := false)
    ensures !Addresses(x.rig.drive, x.regs.da) ==>
              SubmitXfer(x, npages, mode) ==
              x.(rig := x.rig.(drive := x.rig.drive.(seekError := true), status := Done(x.rig.status, x.regs.doneEnable)))
  {
    hide Positioned, SubmitXfer, Transfer, Addresses, BlockOf, DiskModel.Drive.Valid, DiskModel.Drive.OnTrack;
    if Addresses(x.rig.drive, x.regs.da) { GoodAddress(x, npages, mode); } else { BadAddress(x, npages, mode); }
  }

  lemma BadAddress(x: System, npages: nat, mode: Mode)
    requires x.rig.drive.Valid() && x.rig.drive.online && !Addresses(x.rig.drive, x.regs.da)
    ensures SubmitXfer(x, npages, mode) ==
            x.(rig := x.rig.(drive := x.rig.drive.(seekError := true), status := Done(x.rig.status, x.regs.doneEnable)))
  {
    var d, da := x.rig.drive, x.regs.da;
    SeekKeepsValid(d, CylinderOf(da), HeadOf(da), SectorOf(da));
    hide CylinderOf, HeadOf, SectorOf, Seek, PerformXfer, Lba, TotalBlocks;
  }

  lemma GoodAddress(x: System, npages: nat, mode: Mode)
    requires x.rig.drive.Valid() && x.rig.drive.online && Addresses(x.rig.drive, x.regs.da)
    ensures var r, y := Positioned(x), SubmitXfer(x, npages, mode);
            && r.drive.Valid() && r.drive.lba == BlockOf(x.rig.drive, x.regs.da) < |r.drive.blocks| && !r.status.nxm
            && r == x.rig.(drive := r.drive, status := r.status) && r.drive.blocks == x.rig.drive.blocks
            && r.drive.geo == x.rig.drive.geo && r.drive.unit == x.rig.drive.unit && r.drive.online
            && r.status == x.rig.status.(notActive := false, compareDifference := false, ccwCycle := false, nxm := false)
            && var e := Transfer(r, npages, mode, x.regs.clp, 0).1;
               e.drive.OnTrack() && y.rig == e.(status := Done(e.status, x.regs.doneEnable)) && y.regs == x.regs.(da := Da(e.drive))
  {
    var d, da := x.rig.drive, x.regs.da;
    SeekKeepsValid(d, CylinderOf(da), HeadOf(da), SectorOf(da));
    hide CylinderOf, HeadOf, SectorOf, Seek, Transfer, Lba, TotalBlocks, Da;
    LbaInRange(Positioned(x).drive);
    TransferEnds(Positioned(x), npages, mode, x.regs.clp, 0);
  }

  predicate IsCommand(x: System, fun: nat) { x.regs.cmd % 16 == fun && x.rig.drive.online }

  /**
   The disk round trip. A write command with a chain of pages, and later a read command at the
   same disk address with a chain of as many distinct pages clear of its own list: the blocks from
   the addressed one on receive the pages, memory receives them again, nothing else changes, and
   the disk address is left at the last block.
   */
  lemma WriteThenReadRestores(x: System, npages: nat, pns: seq<PageIndex>, x2: System, pns2: seq<PageIndex>)
    requires x.rig.drive.Valid() && IsCommand(x, 9) && !x.rig.drive.readOnly && Addresses(x.rig.drive, x.regs.da)
    requires BlockOf(x.rig.drive, x.regs.da) + |pns| <= |x.rig.drive.blocks|
    requires Chain(x.rig.memory, npages, x.regs.clp, 0, pns)
    requires x2.rig.drive.Valid() && IsCommand(x2, 0) && x2.regs.da == x.regs.da && x2.rig.drive.geo == x.rig.drive.geo
    requires x2.rig.drive.blocks == Start(x, npages).value.rig.drive.blocks
    requires Chain(x2.rig.memory, npages, x2.regs.clp, 0, pns2) && |pns2| == |pns| && Distinct(pns2)
    requires forall p :: p in pns2 ==> ListAvoids(x2.regs.clp, 0, |pns2|, p)
    ensures var at, w, r := BlockOf(x.rig.drive, x.regs.da), Start(x, npages).value, Start(x2, npages).value;
            && w.rig.drive.blocks == StoreBlocks(x.rig.drive.blocks, at, Pages(x.rig.memory, pns))
            && w.rig.memory == x.rig.memory
            && Pages(r.rig.memory, pns2) == Pages(x.rig.memory, pns)
            && (forall pn: PageIndex :: pn !in pns2 ==> PageAt(r.rig.memory, pn) == PageAt(x2.rig.memory, pn))
            && r.rig.drive.blocks == w.rig.drive.blocks
            && Addresses(x.rig.drive, w.regs.da) && BlockOf(x.rig.drive, w.regs.da) == at + |pns| - 1
            && UnitOf(w.regs.da) == x.rig.drive.unit
            && !w.rig.status.nxm && !r.rig.status.nxm
  {
    WriteChainCommand(x, npages, pns);
    ReadChainCommand(x2, npages, pns2);
    hide Start, Chain, ListAvoids, Distinct, Pages, StoreBlocks, BlocksFrom, LoadPages, PageAt, Lba, TotalBlocks;
    var at, data := BlockOf(x.rig.drive, x.regs.da), Pages(x.rig.memory, pns);
    StoredBlocks(x.rig.drive.blocks, at, data);
    LoadedPages(x2.rig.memory, pns2, data);
    forall pn: PageIndex | pn !in pns2 ensures PageAt(LoadPages(x2.rig.memory, pns2, data), pn) == PageAt(x2.rig.memory, pn) {
      LoadedElsewhere(x2.rig.memory, pns2, data, pn);
    }
  }

  /** A write command stores the pages of its chain from the addressed block on. */
  lemma WriteChainCommand(x: System, npages: nat, pns: seq<PageIndex>)
    requires x.rig.drive.Valid() && IsCommand(x, 9) && !x.rig.drive.readOnly && Addresses(x.rig.drive, x.regs.da)
    requires BlockOf(x.rig.drive, x.regs.da) + |pns| <= |x.rig.drive.blocks|
    requires Chain(x.rig.memory, npages, x.regs.clp, 0, pns)
    ensures var at, w := BlockOf(x.rig.drive, x.regs.da), Start(x, npages).value;
            && w.rig.drive.blocks == StoreBlocks(x.rig.drive.blocks, at, Pages(x.rig.memory, pns))
            && w.rig.memory == x.rig.memory && !w.rig.status.nxm
            && Addresses(x.rig.drive, w.regs.da) && BlockOf(x.rig.drive, w.regs.da) == at + |pns| - 1
            && UnitOf(w.regs.da) == x.rig.drive.unit
  {
    SubmitStartsAt(x, npages, Write);
    var r := Positioned(x);
    hide SubmitXfer, Positioned, Transfer, Trace, Chain, ListAvoids, Pages, StoreBlocks, PageAt, Lba, TotalBlocks, Da;
    TraceOfChain(r, npages, Write, x.regs.clp, 0, pns);
    TransferEnds(r, npages, Write, x.regs.clp, 0);
    WriteMovesTrace(r, npages, x.regs.clp, 0);
    DaRoundTrip(Transfer(r, npages, Write, x.regs.clp, 0).1.drive);
  }

  /** A read command loads the pages of its chain from the addressed block on. */
  lemma ReadChainCommand(x: System, npages: nat, pns: seq<PageIndex>)
    requires x.rig.drive.Valid() && IsCommand(x, 0) && Addresses(x.rig.drive, x.regs.da)
    requires BlockOf(x.rig.drive, x.regs.da) + |pns| <= |x.rig.drive.blocks|
    requires Chain(x.rig.memory, npages, x.regs.clp, 0, pns) && forall p :: p in pns ==> ListAvoids(x.regs.clp, 0, |pns|, p)
    ensures var at, r := BlockOf(x.rig.drive, x.regs.da), Start(x, npages).value;
            && r.rig.drive.blocks == x.rig.drive.blocks && !r.rig.status.nxm
            && r.rig.memory == LoadPages(x.rig.memory, pns, BlocksFrom(x.rig.drive.blocks, at, |pns|))
  {
    SubmitStartsAt(x, npages, Read);
    var r := Positioned(x);
    hide SubmitXfer, Positioned, Transfer, Trace, Chain, ListAvoids, LoadPages, BlocksFrom, PageAt, Lba, TotalBlocks, Da;
    TraceOfChain(r, npages, Read, x.regs.clp, 0, pns);
    TransferEnds(r, npages, Read, x.regs.clp, 0);
    ReadMovesTrace(r, npages, x.regs.clp, 0);
  }
}

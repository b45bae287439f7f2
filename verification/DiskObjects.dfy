/**
 The disk units and the controller as objects, each method with the effect that modules
 DiskModel, DiskTransfer and DiskControl specify.
 */
module Disks {
  import opened Words
  import opened PhysicalMemory
  import opened DiskModel
  import opened DiskTransfer
  import opened DiskControl

  datatype Place = Place(cylinder: nat, head: nat, sector: nat, lba: nat)

  class DiskUnit {
    const geo: Geometry
    const unit: Unit8
    const online: bool
    /** The disk pack: one page of words for each block. */
    const file: array<Page>
    var readOnly: bool
    var place: Place
    var seekError: bool
    var fault: bool
    var attention: bool
    var lastAddress: Word

    ghost function View(): Drive
      reads this, file
    {
      Drive(geo, unit, online, readOnly, file[..], place.cylinder, place.head, place.sector, place.lba,
            seekError, fault, attention, lastAddress)
    }

    /** Mounting a pack: the size must be exact. */
    constructor (unit: Unit8, geo: Geometry, pack: array<Page>)
      requires pack.Length == TotalBlocks(geo)
      ensures View() == Drive(geo, unit, true, false, pack[..], 0, 0, 0, 0, false, false, false, 0) && View().Valid()
      ensures file == pack
    {
      this.geo, this.unit, this.file := geo, unit, pack;
      online, readOnly := true, false;
      place := Place(0, 0, 0, 0);
      seekError, fault, attention, lastAddress := false, false, false, 0;
    }

    function Da(): (da: nat)
      reads this`place
    {
      DaAt(unit, place.cylinder, place.head, place.sector)
    }

    method Seek(cylinder: nat, head: nat, sector: nat) returns (ok: bool)
      modifies this`place, this`seekError
      ensures (ok, View()) == DiskModel.Seek(old(View()), cylinder, head, sector)
    {
      if cylinder == place.cylinder && head == place.head && sector == place.sector { return true; }
      if cylinder >= CYLINDERS {
        seekError := true;
        return false;
      }
      if head >= Heads(geo) {
        seekError := true;
        return false;
      }
      if sector >= BLOCKS_PER_TRACK {
        seekError := true;
        return false;
      }
      place := Place(cylinder, head, sector, Lba(geo, cylinder, head, sector));
      ok := true;
    }

    method SeekNextLba() returns (ok: bool)
      modifies this`place, this`seekError
      ensures (ok, View()) == SeekNext(old(View()))
    {
      var cylinder, head, sector := place.cylinder, place.head, place.sector + 1;
      if sector == BLOCKS_PER_TRACK {
        sector := 0;
        head := head + 1;
        if head == Heads(geo) {
          head := 0;
          cylinder := cylinder + 1;
        }
      }
      ok := Seek(cylinder, head, sector);
    }

    method Read(buffer: array<Word>) returns (ok: bool)
      requires buffer.Length == 256
      modifies buffer
      ensures ok <==> ReadBlock(View()).Some?
      ensures buffer[..] == if ok then ReadBlock(View()).value else old(buffer[..])
    {
      ok := place.lba < file.Length;
      if ok {
        var block := file[place.lba];
        forall i | 0 <= i < 256 { buffer[i] := block[i]; }
      }
    }

    method Write(buffer: array<Word>) returns (ok: bool)
      requires buffer.Length == 256
      modifies file
      ensures ok <==> WriteBlock(old(View()), buffer[..]).Some?
      ensures View() == if ok then WriteBlock(old(View()), buffer[..]).value else old(View())
    {
      ok := place.lba < file.Length;
      if ok { file[place.lba] := buffer[..]; }
    }
  }

  function ModeOf(read: bool, compare: bool): Mode {
    if !read then Write else if compare then ReadCompare else Read
  }

  class DiskController {
    const memory: MainMemory
    const units: seq<DiskUnit>
    var regs: Registers
    var status: Status

    ghost predicate Valid()
      reads units, set u | u in units :: u.file
    {
      && memory.Valid() && |units| == 8
      && (forall i :: 0 <= i < 8 ==> units[i].unit == i && units[i].View().Valid())
      && (forall i, j :: 0 <= i < j < 8 ==> units[i] != units[j] && units[i].file != units[j].file)
    }

    ghost function RigOf(p: DiskUnit): Rig
      requires memory.Valid()
      reads this`status, p, p.file, memory.words
    {
      Rig(memory.words[..], p.View(), status)
    }

    ghost function SystemOf(p: DiskUnit): System
      requires memory.Valid()
      reads this, p, p.file, memory.words
    {
      System(RigOf(p), regs)
    }

    constructor (memory: MainMemory, units: seq<DiskUnit>)
      requires memory.Valid() && |units| == 8
      requires forall i :: 0 <= i < 8 ==> units[i].unit == i && units[i].View().Valid()
      requires forall i, j :: 0 <= i < j < 8 ==> units[i] != units[j] && units[i].file != units[j].file
      ensures Valid() && this.memory == memory && this.units == units
      ensures regs == Registers(0, 0, 0, false, false, false) && status == Status(false, false, false, false, true, false)
    {
      this.memory, this.units := memory, units;
      regs := Registers(0, 0, 0, false, false, false);
      status := Status(false, false, false, false, true, false);
    }

    /** Transfers block after block until the chain, the memory or the disk ends. */
    method PerformXfer(p: DiskUnit, read: bool, compare: bool, clp: Word) returns (ok: bool)
      requires memory.Valid() && p.View().Valid() && p.online
      modifies this`status, p, p.file, memory.words
      ensures RigOf(p) == DiskControl.PerformXfer(old(RigOf(p)), memory.npages, ModeOf(read, compare), clp)
    {
      hide TransferRound;
      status := status.(compareDifference := false, ccwCycle := false, nxm := false);
      ghost var mode := ModeOf(read, compare);
      ghost var result := Transfer(RigOf(p), memory.npages, mode, clp, 0);
      var buffer := new Word[256](_ => 0);
      var bufferCompare := new Word[256](_ => 0);
      var clpOffset: Half := 0;
      while true
        invariant memory.Valid() && p.View().Valid() && buffer.Length == 256 == bufferCompare.Length
        invariant Transfer(RigOf(p), memory.npages, mode, clp, clpOffset) == result
        decreases p.file.Length - p.place.lba
      {
        var progress := XferRound(p, read, compare, clp, clpOffset, buffer, bufferCompare);
        if !progress.Onward? { return progress.Finished?; }
        clpOffset := NextOffset(clpOffset);
      }
    }

    /** The command cycle: fetch a command word, or fail where there is none. */
    method FetchCcw(p: DiskUnit, clp: Word, clpOffset: Half) returns (got: bool, ccw: Word)
      requires memory.Valid()
      modifies this`status, p`lastAddress
      ensures got <==> Populated(memory.npages, CcwAddress(clp, clpOffset))
      ensures got ==> ccw == CcwAt(memory.words[..], clp, clpOffset)
      ensures RigOf(p) == Addressed(old(RigOf(p)), CcwAddress(clp, clpOffset))
                          .(status := old(status).(ccwCycle := !got, nxm := old(status).nxm || !got))
    {
      var address := CcwAddress(clp, clpOffset);
      p.lastAddress := address;
      got, ccw := memory.TryReadWord(address);
      status := status.(ccwCycle := !got, nxm := status.nxm || !got);
    }

    /** One command word of the list. */
    method XferRound(p: DiskUnit, read: bool, compare: bool, clp: Word, clpOffset: Half, buffer: array<Word>, bufferCompare: array<Word>)
      returns (progress: Progress)
      requires memory.Valid() && p.View().Valid() && p.online
      requires buffer.Length == 256 == bufferCompare.Length && buffer != bufferCompare
      requires buffer != memory.words && bufferCompare != memory.words
      modifies this`status, p, p.file, memory.words, buffer, bufferCompare
      ensures p.View().Valid() && (progress.Onward? ==> old(p.place.lba) < p.place.lba < p.file.Length)
      ensures (RigOf(p), progress) == TransferRound(old(RigOf(p)), memory.npages, ModeOf(read, compare), clp, clpOffset)
    {
      hide ObeyCcw, CcwAddress, CcwAt, Populated, DiskModel.Drive.Valid, DiskModel.Drive.OnTrack;
      ghost var r := RigOf(p);
      var got, ccw := FetchCcw(p, clp, clpOffset);
      KeptPlace(r.drive, p.View());
      if !got { return Failed; }
      progress := Obey(p, read, compare, ccw, buffer, bufferCompare);
    }

    /** Obeying a command word. */
    method Obey(p: DiskUnit, read: bool, compare: bool, ccw: Word, buffer: array<Word>, bufferCompare: array<Word>)
      returns (progress: Progress)
      requires memory.Valid() && p.View().Valid() && p.online
      requires buffer.Length == 256 == bufferCompare.Length && buffer != bufferCompare
      requires buffer != memory.words && bufferCompare != memory.words
      modifies this`status, p, p.file, memory.words, buffer, bufferCompare
      ensures (RigOf(p), progress) == ObeyCcw(old(RigOf(p)), memory.npages, ModeOf(read, compare), ccw)
    {
      hide PageAddress, MoveBlock, SeekNext, DiskModel.Drive.Valid, DiskModel.Drive.OnTrack;
      MoveKeepsPlace(RigOf(p), memory.npages, ModeOf(read, compare), PageAddress(ccw));
      var moved := MoveOne(p, read, compare, PageAddress(ccw), buffer, bufferCompare);
      if !moved { return Failed; }
      if !More(ccw) { return Finished; }
      SeekNextIsSuccessor(p.View());
      var sought := p.SeekNextLba();
      progress := if sought then Onward else Failed;
    }

    /** One block. */
    method MoveOne(p: DiskUnit, read: bool, compare: bool, paddr: Word, buffer: array<Word>, bufferCompare: array<Word>)
      returns (ok: bool)
      requires memory.Valid() && paddr + 255 < 0x1_0000_0000
      requires buffer.Length == 256 == bufferCompare.Length && buffer != bufferCompare
      requires buffer != memory.words && bufferCompare != memory.words
      modifies this`status, p`lastAddress, p`fault, p.file, memory.words, buffer, bufferCompare
      ensures (ok, RigOf(p)) == MoveBlock(old(RigOf(p)), memory.npages, ModeOf(read, compare), paddr)
    {
      hide PageAt, WithPage, PageNumber;
      if read {
        var got := p.Read(buffer);
        if !got {
          p.fault := true;
          return false;
        }
        p.lastAddress := paddr;
        if compare {
          ok := memory.ReadPageInto(paddr, bufferCompare);
          if !ok {
            status := status.(nxm := true);
            return;
          }
          var equal := BuffersEqual(buffer, bufferCompare);
          if !equal { status := status.(compareDifference := true); }
        } else {
          ok := memory.WritePageFrom(paddr, buffer);
          if !ok {
            status := status.(nxm := true);
            return;
          }
        }
        p.lastAddress := paddr + 255;
      } else {
        p.lastAddress := paddr;
        ok := memory.ReadPageInto(paddr, buffer);
        if !ok {
          status := status.(nxm := true);
          return;
        }
        p.lastAddress := paddr + 255;
        ok := p.Write(buffer);
        if !ok { p.fault := true; }
      }
    }

    method BuffersEqual(a: array<Word>, b: array<Word>) returns (equal: bool)
      requires a.Length == b.Length
      ensures equal <==> a[..] == b[..]
    {
      for i := 0 to a.Length
        invariant a[..i] == b[..i]
      {
        if a[i] != b[i] {
          assert a[..][i] != b[..][i];
          return false;
        }
        assert a[..i + 1] == a[..i] + [a[i]] && b[..i + 1] == b[..i] + [b[i]];
      }
      assert a[..] == a[..a.Length] && b[..] == b[..b.Length];
      equal := true;
    }

    // ----- commands -----

    method AssertInterrupt()
      modifies this`status
      ensures status == DiskControl.AssertInterrupt(old(status))
    {
      status := status.(interruptRequest := true, xbusInterrupt := true);
    }

    method SetStatusNotActive()
      modifies this`status
      ensures status == NotActive(old(status), regs.doneEnable)
    {
      status := status.(notActive := true);
      if regs.doneEnable { AssertInterrupt(); }
    }

    method OnDiskUnitAttention()
      modifies this`status
      ensures status == OnAttention(old(status), regs.attentionEnable)
    {
      if status.notActive && regs.attentionEnable { AssertInterrupt(); }
    }

    method SubmitXfer(p: DiskUnit, read: bool, compare: bool)
      requires memory.Valid() && p.View().Valid() && p.online
      modifies this, p, p.file, memory.words
      ensures SystemOf(p) == DiskControl.SubmitXfer(old(SystemOf(p)), memory.npages, ModeOf(read, compare))
    {
      hide Lba, TotalBlocks, Transfer, DiskModel.Seek, PageNumber;
      ghost var x := SystemOf(p);
      SubmitStartsAt(x, memory.npages, ModeOf(read, compare));
      SeekKeepsValid(p.View(), CylinderOf(regs.da), HeadOf(regs.da), SectorOf(regs.da));
      hide CylinderOf, HeadOf, SectorOf;
      status := status.(notActive := false);
      var da := regs.da;
      var ok := p.Seek(CylinderOf(da), HeadOf(da), SectorOf(da));
      if ok {
        var _ := PerformXfer(p, read, compare, regs.clp);
        regs := regs.(da := p.Da());
      }
      SetStatusNotActive();
    }

    method StartWrite(p: DiskUnit)
      requires memory.Valid() && p.View().Valid() && p.online
      modifies this, p, p.file, memory.words
      ensures SystemOf(p) == DiskControl.StartWrite(old(SystemOf(p)), memory.npages)
    {
      hide DiskControl.SubmitXfer;
      if p.readOnly { p.fault := true; } else { SubmitXfer(p, false, false); }
    }

    method StartSeek(p: DiskUnit)
      requires memory.Valid()
      modifies this`status, p
      ensures SystemOf(p) == DiskControl.StartSeek(old(SystemOf(p)))
    {
      hide DiskModel.Seek;
      status := status.(notActive := false);
      var da := regs.da;
      var _ := p.Seek(CylinderOf(da), HeadOf(da), SectorOf(da));
      p.attention := true;
      OnDiskUnitAttention();
      SetStatusNotActive();
    }

    method StartRecalibrate(p: DiskUnit)
      requires memory.Valid()
      modifies this`status, p
      ensures SystemOf(p) == Recalibrate(old(SystemOf(p)))
    {
      hide DiskModel.Seek;
      status := status.(notActive := false);
      var _ := p.Seek(0, 0, 0);
      p.fault := false;
      p.seekError := false;
      p.attention := true;
      OnDiskUnitAttention();
      SetStatusNotActive();
    }

    method StartFaultClear(p: DiskUnit)
      requires memory.Valid()
      modifies this`status, p`fault
      ensures SystemOf(p) == FaultClear(old(SystemOf(p)))
    {
      status := status.(notActive := false);
      p.fault := false;
      SetStatusNotActive();
    }

    method StartAtEase(p: DiskUnit)
      requires memory.Valid()
      modifies this`status, p`attention
      ensures SystemOf(p) == AtEase(old(SystemOf(p)))
    {
      status := status.(notActive := false);
      p.attention := false;
      SetStatusNotActive();
    }

    /** Starts the command in the command register; not ok where the emulator stops. */
    method Start(p: DiskUnit) returns (ok: bool)
      requires memory.Valid() && p.View().Valid()
      modifies this, p, p.file, memory.words
      ensures ok <==> DiskControl.Start(old(SystemOf(p)), memory.npages).Some?
      ensures SystemOf(p) == if ok then DiskControl.Start(old(SystemOf(p)), memory.npages).value else old(SystemOf(p))
      ensures p.View().Valid()
    {
      ghost var x := SystemOf(p);
      if DiskControl.Start(x, memory.npages).Some? { CommandSafety(x, memory.npages); }
      hide DiskControl.SubmitXfer, DiskControl.StartWrite, DiskControl.StartSeek, Recalibrate, FaultClear, AtEase;
      ok := true;
      if !p.online { return; }
      var fun := regs.cmd % 16;
      if fun == 0x0 {
        SubmitXfer(p, true, false);
      } else if fun == 0x8 {
        SubmitXfer(p, true, true);
      } else if fun == 0x9 {
        StartWrite(p);
      } else if fun == 0x4 {
        StartSeek(p);
      } else if fun == 0x5 {
        StartAtEase(p);
        if regs.cmd / 0x200 % 2 == 1 { StartRecalibrate(p); }
        if regs.cmd / 0x100 % 2 == 1 { StartFaultClear(p); }
      } else if fun == 0x6 {
        status := status.(notActive := false);
        SetStatusNotActive();
      } else {
        ok := false;
      }
    }

    method ResetController()
      modifies this
      ensures regs == Registers(0, 0, 0, true, false, false)
      ensures status == Status(false, false, false, false, true, old(status).xbusInterrupt)
    {
      regs := regs.(doneEnable := false, attentionEnable := false);
      status := Status(false, false, false, false, status.notActive, status.xbusInterrupt);
      SetStatusNotActive();
      regs := Registers(0, 0, 0, true, false, false);
    }

    /** A store into a register, seen from the drive selected before it. */
    method Write(offset: nat, v: Word) returns (ok: bool)
      requires Valid()
      modifies this, units[UnitOf(regs.da)], units[UnitOf(regs.da)].file, memory.words
      ensures Valid()
      ensures var p := units[UnitOf(old(regs.da))];
              var y := Store(old(SystemOf(p)), memory.npages, offset, v);
              ok == y.Some? && SystemOf(p) == if ok then y.value else old(SystemOf(p))
      ensures forall i :: 0 <= i < 8 && i != UnitOf(old(regs.da)) ==> units[i].View() == old(units[i].View())
    {
      hide DiskControl.Start, UnitOf, Lba, TotalBlocks;
      var p := units[UnitOf(regs.da)];
      ok := true;
      if offset == 0 {
        if v == 0 {
          regs := regs.(cmd := 0, resetCondition := false);
        } else if v == 0xE {
          ResetController();
        } else if !regs.resetCondition {
          var done, attention := v / 0x800 % 2 == 1, v / 0x400 % 2 == 1;
          regs := regs.(cmd := v, doneEnable := done, attentionEnable := attention);
          if !done && !attention { status := status.(xbusInterrupt := false); }
        }
      } else if offset > 3 {
        ok := false;
      } else if !regs.resetCondition {
        if offset == 1 {
          regs := regs.(clp := v);
        } else if offset == 2 {
          regs := regs.(da := v);
        } else {
          ok := Start(p);
        }
      }
    }
  }
}

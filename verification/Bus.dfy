/**
 The bus objects: error status, and the adaptor that routes accesses, each method with the
 effect that module Dma specifies.
 */
module Bus {
  import opened Words
  import opened PhysicalMemory
  import opened Dma

  class BusInterface {
    var errors: BusErrors

    constructor ()
      ensures errors == BusErrors(false, false, false, false)
    {
      errors := BusErrors(false, false, false, false);
    }

    method SetXbusNxm()
      modifies this
      ensures errors == old(errors).SetXbusNxm()
    {
      if errors.inhibited { return; }
      errors := errors.(xbusNxm := true);
    }

    method SetUnibusNxm()
      modifies this
      ensures errors == old(errors).SetUnibusNxm()
    {
      if errors.inhibited { return; }
      errors := errors.(unibusNxm := true);
    }

    method SetUnibusMapError()
      modifies this
      ensures errors == old(errors).SetMapError()
    {
      errors := errors.(mapError := true);
    }

    method ResetBusErrorStatus()
      modifies this
      ensures errors == old(errors).Reset()
    {
      errors := BusErrors(false, false, false, errors.inhibited);
    }
  }

  /** The sixteen mapping registers and their halfword buffers. */
  class UnibusMapping {
    const registers: array<Half>
    const buffers: array<Half>
    const busInterface: BusInterface

    ghost predicate Valid() { registers.Length == 16 && buffers.Length == 16 && registers != buffers }

    constructor (busInterface: BusInterface)
      ensures Valid() && fresh(registers) && fresh(buffers) && this.busInterface == busInterface
      ensures forall i :: 0 <= i < 16 ==> registers[i] == 0 && buffers[i] == 0
    {
      this.busInterface := busInterface;
      registers := new Half[16](_ => 0);
      buffers := new Half[16](_ => 0);
    }

    method Read(uaddr: Word) returns (v: Word)
      requires Valid() && IsMappingRegister(uaddr)
      modifies busInterface
      ensures v == if uaddr % 2 == 0 then registers[(uaddr - 0x3EC60) / 2] else 0
      ensures busInterface.errors ==
              if uaddr % 2 == 0 then old(busInterface.errors) else old(busInterface.errors).SetUnibusNxm()
    {
      if uaddr % 2 == 0 {
        v := registers[(uaddr - 0x3EC60) / 2];
      } else {
        busInterface.SetUnibusNxm();
        v := 0;
      }
    }

    method Write(uaddr: Word, v: Word)
      requires Valid() && IsMappingRegister(uaddr)
      modifies busInterface, registers
      ensures registers[..] ==
              if uaddr % 2 == 0 then old(registers[..])[(uaddr - 0x3EC60) / 2 := v % 0x1_0000] else old(registers[..])
      ensures busInterface.errors ==
              if uaddr % 2 == 0 then old(busInterface.errors) else old(busInterface.errors).SetUnibusNxm()
    {
      if uaddr % 2 == 0 {
        registers[(uaddr - 0x3EC60) / 2] := v % 0x1_0000;
      } else {
        busInterface.SetUnibusNxm();
      }
    }
  }

  class BusAdaptor {
    const busInterface: BusInterface
    const mainMemory: MainMemory
    const mapping: UnibusMapping
    var mdReg: Word

    constructor (busInterface: BusInterface, mainMemory: MainMemory)
      requires mainMemory.Valid()
      ensures Valid() && fresh(mapping) && fresh(mapping.registers) && fresh(mapping.buffers)
      ensures this.busInterface == busInterface && this.mainMemory == mainMemory
    {
      this.busInterface := busInterface;
      this.mainMemory := mainMemory;
      mapping := new UnibusMapping(busInterface);
      mdReg := 0;
    }

    ghost predicate Valid() {
      mapping.Valid() && mapping.busInterface == busInterface && mainMemory.Valid()
    }

    ghost function View(): BusState
      requires Valid()
      reads this, busInterface, mainMemory.words, mapping.registers, mapping.buffers
    {
      BusState(mainMemory.npages, mainMemory.words[..], mapping.registers[..], mapping.buffers[..], mdReg, busInterface.errors)
    }

    method XbusRead(addr: Word, dev: Devices) returns (v: Word)
      requires Valid()
      modifies busInterface
      ensures (v, View()) == Dma.XbusRead(old(View()), addr, dev)
    {
      var pn := addr / 256 % 0x4000;
      if pn <= 0x3BFB {
        v := mainMemory.Read(addr);
      } else if pn >= 0x3C00 && pn <= 0x3DFF {
        v := dev.xbusRead(addr);
        busInterface.errors := dev.errorsAfter(addr, busInterface.errors);
      } else {
        busInterface.SetXbusNxm();
        v := 0;
      }
    }

    method XbusWrite(addr: Word, v: Word, dev: Devices)
      requires Valid()
      modifies busInterface, mainMemory.words
      ensures View() == Dma.XbusWrite(old(View()), addr, v, dev)
    {
      var pn := addr / 256 % 0x4000;
      if pn <= 0x3BFB {
        mainMemory.Write(addr, v);
      } else if pn >= 0x3C00 && pn <= 0x3DFF {
        busInterface.errors := dev.errorsAfter(addr, busInterface.errors);
      } else {
        busInterface.SetXbusNxm();
      }
    }

    method UnibusMapDmaRead(uaddr: Word, dev: Devices) returns (v: Word)
      requires Valid() && InMap(uaddr)
      modifies busInterface, mapping.buffers
      ensures (v, View()) == MapRead(old(View()), uaddr, dev)
    {
      var pageNo := (uaddr - 0xC000) / 0x400;
      var mappingRegister := mapping.registers[pageNo];
      var xbusPageNumber := XbusPage(mappingRegister);
      var paddr := xbusPageNumber * 256 + uaddr / 4 % 256;
      if !MapValid(mappingRegister) {
        busInterface.SetUnibusMapError();
        return 0;
      }
      var hiword := uaddr / 2 % 2 != 0;
      if xbusPageNumber >= 0x3E00 {
        return if hiword then mdReg / 0x1_0000 else mdReg % 0x1_0000;
      }
      if hiword { return mapping.buffers[pageNo]; }
      var v32 := XbusRead(paddr, dev);
      mapping.buffers[pageNo] := v32 / 0x1_0000;
      v := v32 % 0x1_0000;
    }

    method UnibusMapDmaWrite(uaddr: Word, v: Word, dev: Devices)
      requires Valid() && InMap(uaddr)
      modifies this, busInterface, mainMemory.words, mapping.buffers
      ensures View() == MapWrite(old(View()), uaddr, v, dev)
    {
      var pageNo := (uaddr - 0xC000) / 0x400;
      var mappingRegister := mapping.registers[pageNo];
      var xbusPageNumber := XbusPage(mappingRegister);
      var paddr := xbusPageNumber * 256 + uaddr / 4 % 256;
      if !MapValid(mappingRegister) {
        busInterface.SetUnibusMapError();
        return;
      }
      if !WritePermitted(mappingRegister) {
        busInterface.SetUnibusMapError();
        return;
      }
      var hiword := uaddr / 2 % 2 != 0;
      if xbusPageNumber >= 0x3E00 {
        if hiword {
          mdReg := mdReg % 0x1_0000 + v % 0x1_0000 * 0x1_0000;
        } else {
          mdReg := mdReg / 0x1_0000 * 0x1_0000 + v % 0x1_0000;
        }
        return;
      }
      if hiword {
        var cachedLo := mapping.buffers[pageNo];
        XbusWrite(paddr, v % 0x1_0000 * 0x1_0000 + cachedLo, dev);
      } else {
        mapping.buffers[pageNo] := v % 0x1_0000;
      }
    }

    method ReadUnibus(uaddr: Word, dev: Devices) returns (v: Word)
      requires Valid()
      modifies busInterface, mapping.buffers
      ensures (v, View()) == Dma.ReadUnibus(old(View()), uaddr, dev)
    {
      if IsUnibusDevice(uaddr) {
        v := dev.unibusRead(uaddr);
        busInterface.errors := dev.errorsAfter(uaddr, busInterface.errors);
      } else if 0x3EC60 <= uaddr <= 0x3EC7E {
        v := mapping.Read(uaddr);
      } else if InMap(uaddr) {
        v := UnibusMapDmaRead(uaddr, dev);
      } else {
        busInterface.SetUnibusNxm();
        v := 0;
      }
    }

    method WriteUnibus(uaddr: Word, v: Word, dev: Devices, promDisabled: bool) returns (promDisabled': bool)
      requires Valid()
      modifies this, busInterface, mainMemory.words, mapping.registers, mapping.buffers
      ensures View() == Dma.WriteUnibus(old(View()), uaddr, v, dev)
      ensures promDisabled' == PromAfter(uaddr, v, promDisabled, dev)
    {
      promDisabled' := promDisabled;
      if IsUnibusDevice(uaddr) {
        busInterface.errors := dev.errorsAfter(uaddr, busInterface.errors);
        if IsDiagnostic(uaddr) { promDisabled' := dev.promAfter(uaddr, v, promDisabled); }
      } else if 0x3EC60 <= uaddr <= 0x3EC7E {
        mapping.Write(uaddr, v);
      } else if InMap(uaddr) {
        UnibusMapDmaWrite(uaddr, v, dev);
      } else {
        busInterface.SetUnibusNxm();
      }
    }
  }
}

/**
 The Unibus map: halfword transfers by a Unibus device into 32-bit words on the Xbus,
 through sixteen mapping registers with one halfword buffer each.
 */
module Dma {
  import opened Words
  import opened PhysicalMemory

  type Halves16 = s: seq<Half> | |s| == 16 witness seq(16, _ => 0)
  type Index4 = x: int | 0 <= x < 16

  /** The bus error status bits, and the inhibition of the two non-existent-memory ones. */
  datatype BusErrors = BusErrors(xbusNxm: bool, unibusNxm: bool, mapError: bool, inhibited: bool) {
    function SetXbusNxm(): BusErrors { if inhibited then this else this.(xbusNxm := true) }
    function SetUnibusNxm(): BusErrors { if inhibited then this else this.(unibusNxm := true) }
    function SetMapError(): BusErrors { this.(mapError := true) }
    function Reset(): BusErrors { this.(xbusNxm := false, unibusNxm := false, mapError := false) }
    predicate StopsTape() { mapError || unibusNxm }
  }

  /** How the devices other than memory and the mapping registers answer during one access. */
  datatype Devices = Devices(
    unibusRead: Word -> Word,
    xbusRead: Word -> Word,
    errorsAfter: (Word, BusErrors) -> BusErrors,
    promAfter: (Word, Word, bool) -> bool)

  /** The state that a transfer over the bus can reach: memory, mapping registers and buffers, MD, error bits. */
  datatype BusState = BusState(npages: nat, words: Bank, registers: Halves16, buffers: Halves16, md: Word, errors: BusErrors)

  // ----- Xbus -----

  predicate IsMemoryPage(pn: nat) { pn <= 0x3BFB }
  predicate IsDevicePage(pn: nat) { 0x3C00 <= pn <= 0x3DFF }

  function XbusRead(m: BusState, addr: Word, dev: Devices): (Word, BusState) {
    if IsMemoryPage(PageNumber(addr)) then (ReadPhysical(m.words, m.npages, addr), m)
    else if IsDevicePage(PageNumber(addr)) then (dev.xbusRead(addr), m.(errors := dev.errorsAfter(addr, m.errors)))
    else (0, m.(errors := m.errors.SetXbusNxm()))
  }

  function XbusWrite(m: BusState, addr: Word, v: Word, dev: Devices): BusState {
    if IsMemoryPage(PageNumber(addr)) then m.(words := WritePhysical(m.words, m.npages, addr, v))
    else if IsDevicePage(PageNumber(addr)) then m.(errors := dev.errorsAfter(addr, m.errors))
    else m.(errors := m.errors.SetXbusNxm())
  }

  // ----- the Unibus map -----

  predicate InMap(uaddr: Word) { 0xC000 <= uaddr <= 0xFFFF }

  function MapPage(uaddr: Word): Index4
    requires InMap(uaddr)
  {
    (uaddr - 0xC000) / 0x400
  }

  predicate MapValid(r: Half) { r / 0x8000 % 2 == 1 }
  predicate WritePermitted(r: Half) { r / 0x4000 % 2 == 1 }
  function XbusPage(r: Half): (p: nat)
    ensures p < 0x4000
  {
    r % 0x4000
  }

  /** The Xbus word that a Unibus address in the map reaches through a mapping register. */
  function MappedAddress(r: Half, uaddr: Word): Word { XbusPage(r) * 256 + uaddr / 4 % 256 }

  predicate HighHalf(uaddr: Word) { uaddr / 2 % 2 == 1 }

  function MapRead(m: BusState, uaddr: Word, dev: Devices): (Word, BusState)
    requires InMap(uaddr)
  {
    var page := MapPage(uaddr);
    var r := m.registers[page];
    if !MapValid(r) then (0, m.(errors := m.errors.SetMapError()))
    else if XbusPage(r) >= 0x3E00 then (if HighHalf(uaddr) then m.md / 0x1_0000 else m.md % 0x1_0000, m)
    else if HighHalf(uaddr) then (m.buffers[page], m)
    else
      var (v, m') := XbusRead(m, MappedAddress(r, uaddr), dev);
      (v % 0x1_0000, m'.(buffers := m'.buffers[page := v / 0x1_0000]))
  }

  function MapWrite(m: BusState, uaddr: Word, v: Word, dev: Devices): BusState
    requires InMap(uaddr)
  {
    var page := MapPage(uaddr);
    var r := m.registers[page];
    if !MapValid(r) || !WritePermitted(r) then m.(errors := m.errors.SetMapError())
    else if XbusPage(r) >= 0x3E00 then
      m.(md := if HighHalf(uaddr) then m.md % 0x1_0000 + v % 0x1_0000 * 0x1_0000
               else m.md / 0x1_0000 * 0x1_0000 + v % 0x1_0000)
    else if HighHalf(uaddr) then
      XbusWrite(m, MappedAddress(r, uaddr), v % 0x1_0000 * 0x1_0000 + m.buffers[page], dev)
    else
      m.(buffers := m.buffers[page := v % 0x1_0000])
  }

  // ----- routing -----

  predicate IsMappingRegister(uaddr: Word) { 0x3EC60 <= uaddr <= 0x3EC7E }

  predicate IsDiagnostic(uaddr: Word) { 0x3EC00 <= uaddr <= 0x3EC1E }

  /** The PROM switch after a Unibus write: only the diagnostic registers can turn it. */
  function PromAfter(uaddr: Word, v: Word, promDisabled: bool, dev: Devices): bool {
    if IsDiagnostic(uaddr) then dev.promAfter(uaddr, v, promDisabled) else promDisabled
  }

  /** The ranges of the diagnostic, bus-interface, I/O board and tape-controller registers. */
  predicate IsUnibusDevice(uaddr: Word) {
    IsDiagnostic(uaddr) || 0x3EC20 <= uaddr <= 0x3EC5E || 0x3E800 <= uaddr <= 0x3E87E || 0x3F550 <= uaddr <= 0x3F55A
  }

  function ReadUnibus(m: BusState, uaddr: Word, dev: Devices): (Word, BusState) {
    if IsUnibusDevice(uaddr) then (dev.unibusRead(uaddr), m.(errors := dev.errorsAfter(uaddr, m.errors)))
    else if IsMappingRegister(uaddr) && uaddr % 2 == 0 then (m.registers[(uaddr - 0x3EC60) / 2], m)
    else if InMap(uaddr) then MapRead(m, uaddr, dev)
    else (0, m.(errors := m.errors.SetUnibusNxm()))
  }

  function WriteUnibus(m: BusState, uaddr: Word, v: Word, dev: Devices): BusState {
    if IsUnibusDevice(uaddr) then m.(errors := dev.errorsAfter(uaddr, m.errors))
    else if IsMappingRegister(uaddr) && uaddr % 2 == 0 then
      m.(registers := m.registers[(uaddr - 0x3EC60) / 2 := v % 0x1_0000])
    else if InMap(uaddr) then MapWrite(m, uaddr, v, dev)
    else m.(errors := m.errors.SetUnibusNxm())
  }

  // ----- integrity of word transfers -----

  /** One access to the map window. */
  datatype Access = ReadAt(uaddr: Word) | WriteAt(uaddr: Word, v: Word)

  function Perform(m: BusState, a: Access, dev: Devices): BusState {
    match a
    case ReadAt(u) => ReadUnibus(m, u, dev).1
    case WriteAt(u, v) => WriteUnibus(m, u, v, dev)
  }

  function PerformAll(m: BusState, run: seq<Access>, devs: nat -> Devices, j: nat): BusState
    decreases |run|
  {
    if run == [] then m else PerformAll(Perform(m, run[0], devs(j)), run[1..], devs, j + 1)
  }

  /** Every access of the run is to the map window. */
  ghost predicate InWindow(run: seq<Access>) { forall a :: a in run ==> InMap(a.uaddr) }

  /** Every map page leads to main memory, if anywhere. */
  ghost predicate MapsMemory(m: BusState) {
    forall i: nat :: i < 16 ==> MapValid(m.registers[i]) ==> IsMemoryPage(XbusPage(m.registers[i]))
  }

  lemma MappedWord(r: Half, uaddr: Word)
    ensures PageNumber(MappedAddress(r, uaddr)) == XbusPage(r) && MappedAddress(r, uaddr) < 0x40_0000
  {
  }

  /** An access that may store: a write to the high half through a valid map register with write permission. */
  predicate Stores(m: BusState, a: Access)
    requires InMap(a.uaddr)
  {
    var r := m.registers[MapPage(a.uaddr)];
    a.WriteAt? && HighHalf(a.uaddr) && MapValid(r) && WritePermitted(r)
  }

  /** An access to the low half of a word in map page p. */
  predicate TouchesBuffer(a: Access, p: Index4) { InMap(a.uaddr) && MapPage(a.uaddr) == p && !HighHalf(a.uaddr) }

  /**
   One access changes memory only if it stores, and then exactly one whole word: its own high
   half over the low half buffered for its map page. It changes only the buffer of its own map
   page, only on a low-half access, and no mapping register.
   */
  lemma AccessIntegrity(m: BusState, a: Access, dev: Devices)
    requires InMap(a.uaddr) && MapsMemory(m)
    ensures var m', p := Perform(m, a, dev), MapPage(a.uaddr);
            && m'.registers == m.registers && m'.npages == m.npages
            && m'.words == (if Stores(m, a) then
                              WritePhysical(m.words, m.npages, MappedAddress(m.registers[p], a.uaddr),
                                            a.v % 0x1_0000 * 0x1_0000 + m.buffers[p])
                            else m.words)
            && (forall i: nat :: i < 16 && (i != p || HighHalf(a.uaddr)) ==> m'.buffers[i] == m.buffers[i])
  {
    MappedWord(m.registers[MapPage(a.uaddr)], a.uaddr);
    assert !IsMappingRegister(a.uaddr) && !IsUnibusDevice(a.uaddr);
  }

  /** The mapping survives any run of accesses to the window. */
  lemma {:induction false} RunKeepsMap(m: BusState, run: seq<Access>, devs: nat -> Devices, j: nat)
    requires InWindow(run) && MapsMemory(m)
    ensures var m' := PerformAll(m, run, devs, j);
            m'.registers == m.registers && m'.npages == m.npages && MapsMemory(m')
    decreases |run|
  {
    hide Perform;
    if run != [] {
      AccessIntegrity(m, run[0], devs(j));
      assert forall a :: a in run[1..] ==> a in run;
      RunKeepsMap(Perform(m, run[0], devs(j)), run[1..], devs, j + 1);
    }
  }

  /** The accesses of a run that store into the word at addr. */
  ghost predicate StoresTo(m: BusState, a: Access, addr: Word)
    requires InMap(a.uaddr)
  {
    Stores(m, a) && MappedAddress(m.registers[MapPage(a.uaddr)], a.uaddr) == addr
  }

  /** A word that no access of a run stores to is unchanged by it. */
  lemma {:induction false} RunLeavesOtherWords(m: BusState, run: seq<Access>, devs: nat -> Devices, j: nat, addr: Word)
    requires InWindow(run) && MapsMemory(m) && addr < 0x40_0000
    requires forall a :: a in run ==> !StoresTo(m, a, addr)
    ensures PerformAll(m, run, devs, j).words[addr] == m.words[addr]
    decreases |run|
  {
    hide Perform;
    if run != [] {
      AccessIntegrity(m, run[0], devs(j));
      var m1 := Perform(m, run[0], devs(j));
      assert forall a :: a in run[1..] ==> a in run;
      assert forall a :: a in run[1..] ==> StoresTo(m1, a, addr) == StoresTo(m, a, addr);
      assert !StoresTo(m, run[0], addr);
      RunLeavesOtherWords(m1, run[1..], devs, j + 1, addr);
    }
  }

  /** The buffer of a map page is unchanged by a run with no low-half access to that page. */
  lemma {:induction false} RunLeavesBuffer(m: BusState, run: seq<Access>, devs: nat -> Devices, j: nat, p: Index4)
    requires InWindow(run) && MapsMemory(m)
    requires forall a :: a in run ==> !TouchesBuffer(a, p)
    ensures PerformAll(m, run, devs, j).buffers[p] == m.buffers[p]
    decreases |run|
  {
    hide Perform, MapsMemory;
    if run != [] {
      AccessIntegrity(m, run[0], devs(j));
      assert !TouchesBuffer(run[0], p);
      assert forall a :: a in run[1..] ==> a in run;
      RunKeepsMap(m, [run[0]], devs, j);
      assert PerformAll(m, [run[0]], devs, j) == Perform(m, run[0], devs(j)) by { OneAccess(m, run[0], devs, j); }
      RunLeavesBuffer(Perform(m, run[0], devs(j)), run[1..], devs, j + 1, p);
    }
  }

  lemma OneAccess(m: BusState, a: Access, devs: nat -> Devices, j: nat)
    ensures PerformAll(m, [a], devs, j) == Perform(m, a, devs(j))
  {
    assert PerformAll(Perform(m, a, devs(j)), [a][1..], devs, j + 1) == Perform(m, a, devs(j));
  }

  /** The two halves of one word of the window. */
  lemma HalvesOfWord(lo: Word)
    requires InMap(lo) && lo % 4 == 0
    ensures InMap(lo + 2) && MapPage(lo + 2) == MapPage(lo) && HighHalf(lo + 2) && !HighHalf(lo)
    ensures forall r :: MappedAddress(r, lo + 2) == MappedAddress(r, lo)
  {
  }

  /** Reading through a valid register that leads to memory: the low half fills the buffer, the high half is it. */
  lemma MemoryRead(m: BusState, uaddr: Word, dev: Devices)
    requires InMap(uaddr) && MapValid(m.registers[MapPage(uaddr)]) && IsMemoryPage(XbusPage(m.registers[MapPage(uaddr)]))
    ensures var p := MapPage(uaddr);
            var word := ReadPhysical(m.words, m.npages, MappedAddress(m.registers[p], uaddr));
            ReadUnibus(m, uaddr, dev) ==
            if HighHalf(uaddr) then (m.buffers[p], m)
            else (word % 0x1_0000, m.(buffers := m.buffers[p := word / 0x1_0000]))
  {
    MappedWord(m.registers[MapPage(uaddr)], uaddr);
  }

  /** Writing through a valid register with write permission that leads to memory. */
  lemma MemoryWrite(m: BusState, uaddr: Word, v: Half, dev: Devices)
    requires InMap(uaddr) && MapValid(m.registers[MapPage(uaddr)]) && IsMemoryPage(XbusPage(m.registers[MapPage(uaddr)]))
    requires WritePermitted(m.registers[MapPage(uaddr)])
    ensures var p := MapPage(uaddr);
            WriteUnibus(m, uaddr, v, dev) ==
            if HighHalf(uaddr) then
              m.(words := WritePhysical(m.words, m.npages, MappedAddress(m.registers[p], uaddr), v * 0x1_0000 + m.buffers[p]))
            else m.(buffers := m.buffers[p := v])
  {
    MappedWord(m.registers[MapPage(uaddr)], uaddr);
  }

  /**
   A low-half read followed, with no other low-half access to that map page in between, by the
   high-half read of the same word returns both halves of the word as it was at the low read,
   whatever the run between stored.
   */
  lemma ReadPairIsASnapshot(m: BusState, lo: Word, run: seq<Access>, devs: nat -> Devices, last: Devices)
    requires InMap(lo) && lo % 4 == 0 && MapsMemory(m) && MapValid(m.registers[MapPage(lo)])
    requires InWindow(run) && forall a :: a in run ==> !TouchesBuffer(a, MapPage(lo))
    ensures var (low, m1) := ReadUnibus(m, lo, devs(0));
            var (high, m3) := ReadUnibus(PerformAll(m1, run, devs, 1), lo + 2, last);
            high * 0x1_0000 + low == ReadPhysical(m.words, m.npages, MappedAddress(m.registers[MapPage(lo)], lo))
  {
    HalvesOfWord(lo);
    hide ReadUnibus, MapPage, MappedAddress, HighHalf, InMap, PerformAll, MapValid, XbusPage, ReadPhysical;
    MemoryRead(m, lo, devs(0));
    var m1 := ReadUnibus(m, lo, devs(0)).1;
    RunKeepsMap(m1, run, devs, 1);
    RunLeavesBuffer(m1, run, devs, 1, MapPage(lo));
    MemoryRead(PerformAll(m1, run, devs, 1), lo + 2, last);
  }

  /** A low-half write followed in the same way by the high-half write stores exactly that word. */
  lemma WritePairStoresTheWord(m: BusState, lo: Word, low: Half, high: Half, run: seq<Access>, devs: nat -> Devices,
                               last: Devices)
    requires InMap(lo) && lo % 4 == 0 && MapsMemory(m)
    requires MapValid(m.registers[MapPage(lo)]) && WritePermitted(m.registers[MapPage(lo)])
    requires InWindow(run) && forall a :: a in run ==> !TouchesBuffer(a, MapPage(lo))
    ensures var m2 := PerformAll(WriteUnibus(m, lo, low, devs(0)), run, devs, 1);
            WriteUnibus(m2, lo + 2, high, last).words ==
            WritePhysical(m2.words, m.npages, MappedAddress(m.registers[MapPage(lo)], lo), high * 0x1_0000 + low)
  {
    HalvesOfWord(lo);
    hide WriteUnibus, MapPage, MappedAddress, HighHalf, InMap, PerformAll, MapValid, XbusPage, WritePhysical, WritePermitted;
    MemoryWrite(m, lo, low, devs(0));
    var m1 := WriteUnibus(m, lo, low, devs(0));
    RunKeepsMap(m1, run, devs, 1);
    RunLeavesBuffer(m1, run, devs, 1, MapPage(lo));
    MemoryWrite(PerformAll(m1, run, devs, 1), lo + 2, high, last);
  }
}

/**
 The Unibus map by numbers: which word of memory each address of the window names, what the bits
 of a mapping register allow, and which addresses do not answer.
 */
module MapWindow {
  import opened Words
  import opened PhysicalMemory
  import opened Dma

  /** The address of half h of word w in page p of the window; the lowest bit of an address is not looked at. */
  function WindowAddress(p: nat, w: nat, h: nat, b: nat): Word
    requires p < 16 && w < 256 && h < 2 && b < 2
  {
    0xC000 + 0x400 * p + 4 * w + 2 * h + b
  }

  lemma WindowParts(p: nat, w: nat, h: nat, b: nat, r: Half)
    requires p < 16 && w < 256 && h < 2 && b < 2
    ensures var u := WindowAddress(p, w, h, b);
            && InMap(u) && MapPage(u) == p && HighHalf(u) == (h == 1)
            && MappedAddress(r, u) == r % 0x4000 * 256 + w
            && !IsUnibusDevice(u) && !IsMappingRegister(u)
  {
    Quotients(WindowAddress(p, w, h, b), p, w, h, b);
  }

  lemma Quotients(u: nat, p: nat, w: nat, h: nat, b: nat)
    requires p < 16 && w < 256 && h < 2 && b < 2 && u == 0xC000 + 0x400 * p + 4 * w + 2 * h + b
    ensures (u - 0xC000) / 0x400 == p && u / 4 % 256 == w && u / 2 % 2 == h
  {
    DivUnique(u - 0xC000, 0x400, p, 4 * w + 2 * h + b);
    var q, t := 0x3000 + 0x100 * p + w, 0x6000 + 0x200 * p + 2 * w + h;
    DivUnique(u, 4, q, 2 * h + b);
    DivUnique(q, 256, 0x30 + p, w);
    DivUnique(u, 2, t, b);
    DivUnique(t, 2, q, h);
  }

  /** The window is exactly these addresses. */
  lemma WindowIsCovered(u: Word)
    ensures 0xC000 <= u < 0x1_0000 <==> InMap(u)
    ensures InMap(u) ==>
              var v := u - 0xC000;
              && v / 0x400 < 16 && v / 4 % 256 < 256
              && u == WindowAddress(v / 0x400, v / 4 % 256, v / 2 % 2, v % 2)
  {
    if InMap(u) { WindowDigits(u - 0xC000); }
  }

  lemma WindowDigits(v: nat)
    requires v < 0x4000
    ensures v / 0x400 < 16 && v == 0x400 * (v / 0x400) + 4 * (v / 4 % 256) + 2 * (v / 2 % 2) + v % 2
  {
    var q := v / 4;
    assert v / 0x400 == q / 256;
    assert v / 2 == 2 * q + v % 4 / 2;
  }

  lemma RegisterBits(r: Half)
    ensures MapValid(r) <==> r >= 0x8000
    ensures MapValid(r) && WritePermitted(r) <==> r >= 0xC000
  {
  }

  lemma MemoryIs(m: Bank, npages: nat, r: nat, w: nat, v: Word)
    requires r < 0x4000 && w < 256
    ensures r * 256 + w < 0x40_0000
    ensures ReadPhysical(m, npages, r * 256 + w) == if r < npages then m[r * 256 + w] else 0xFFFF_FFFF
    ensures WritePhysical(m, npages, r * 256 + w, v) == if r < npages then m[r * 256 + w := v] else m
  {
    DivUnique(r * 256 + w, 256, r, w);
  }

  /**
   Reading the window. Bit 15 of the mapping register makes it valid, and its low fourteen bits are
   a page of the Xbus. The low half of a word of memory fills the buffer of its map page with the
   high half, which a read of the high half returns; pages from 3E00 on are MD.
   */
  lemma ReadsOfTheWindow(m: BusState, p: nat, w: nat, h: nat, b: nat, dev: Devices)
    requires p < 16 && w < 256 && h < 2 && b < 2
    ensures var r, result := m.registers[p], ReadUnibus(m, WindowAddress(p, w, h, b), dev);
            var page := r % 0x4000;
            if r < 0x8000 then result == (0, m.(errors := m.errors.(mapError := true)))
            else if page >= 0x3E00 then result == (if h == 1 then m.md / 0x1_0000 else m.md % 0x1_0000, m)
            else if h == 1 then result == (m.buffers[p], m)
            else
              page <= 0x3BFB ==>
                var word := if page < m.npages then m.words[page * 256 + w] else 0xFFFF_FFFF;
                result == (word % 0x1_0000, m.(buffers := m.buffers[p := word / 0x1_0000]))
  {
    var r := m.registers[p];
    hide WindowAddress, InMap, MapPage, HighHalf, MappedAddress, IsUnibusDevice, IsMappingRegister, MapValid, WritePermitted, ReadPhysical;
    WindowParts(p, w, h, b, r);
    RegisterBits(r);
    MemoryIs(m.words, m.npages, r % 0x4000, w, 0);
    PageOfWord(r % 0x4000, w);
    hide PageNumber;
  }

  lemma PageOfWord(page: nat, w: nat)
    requires page < 0x4000 && w < 256
    ensures PageNumber(page * 256 + w) == page
  {
    DivUnique(page * 256 + w, 256, page, w);
  }

  /**
   Writing the window needs bits 15 and 14 of the mapping register. The low half is buffered; the
   high half stores the whole word; pages from 3E00 on are the halves of MD.
   */
  lemma WritesOfTheWindow(m: BusState, p: nat, w: nat, h: nat, b: nat, v: Half, dev: Devices)
    requires p < 16 && w < 256 && h < 2 && b < 2
    ensures var r, m' := m.registers[p], WriteUnibus(m, WindowAddress(p, w, h, b), v, dev);
            var page := r % 0x4000;
            if r < 0xC000 then m' == m.(errors := m.errors.(mapError := true))
            else if page >= 0x3E00 then
              m' == m.(md := if h == 1 then v * 0x1_0000 + m.md % 0x1_0000 else m.md / 0x1_0000 * 0x1_0000 + v)
            else if h == 0 then m' == m.(buffers := m.buffers[p := v])
            else
              page <= 0x3BFB ==>
                m' == m.(words := if page < m.npages then m.words[page * 256 + w := v * 0x1_0000 + m.buffers[p]] else m.words)
  {
    var r := m.registers[p];
    hide WindowAddress, InMap, MapPage, HighHalf, MappedAddress, IsUnibusDevice, IsMappingRegister, MapValid, WritePermitted, XbusWrite;
    WindowParts(p, w, h, b, r);
    RegisterBits(r);
    var u := WindowAddress(p, w, h, b);
    WriteGoesToMap(m, u, v, dev);
    hide WriteUnibus, MapWrite;
    if r >= 0xC000 && r % 0x4000 <= 0x3BFB && h == 1 {
      XbusGaps(m, r % 0x4000, w, v * 0x1_0000 + m.buffers[p], dev);
    }
  }

  /** A write to the window, by the bits of its address and of the mapping register. */
  lemma WriteGoesToMap(m: BusState, u: Word, v: Half, dev: Devices)
    requires InMap(u) && !IsUnibusDevice(u) && !IsMappingRegister(u)
    ensures var p, m' := MapPage(u), WriteUnibus(m, u, v, dev);
            var r := m.registers[p];
            if !(MapValid(r) && WritePermitted(r)) then m' == m.(errors := m.errors.(mapError := true))
            else if r % 0x4000 >= 0x3E00 then
              m' == m.(md := if HighHalf(u) then v * 0x1_0000 + m.md % 0x1_0000 else m.md / 0x1_0000 * 0x1_0000 + v)
            else if HighHalf(u) then m' == XbusWrite(m, MappedAddress(r, u), v * 0x1_0000 + m.buffers[p], dev)
            else m' == m.(buffers := m.buffers[p := v])
  {
    hide InMap, MapPage, HighHalf, MappedAddress, IsUnibusDevice, IsMappingRegister, MapValid, WritePermitted, XbusWrite;
    HalfIsLow(v);
  }

  lemma HalfIsLow(v: Half)
    ensures v % 0x1_0000 == v
  {
  }

  /** The errors after a reference that nothing answers: the bit, unless such bits are inhibited. */
  function XbusMissing(e: BusErrors): BusErrors { e.(xbusNxm := e.xbusNxm || !e.inhibited) }
  function UnibusMissing(e: BusErrors): BusErrors { e.(unibusNxm := e.unibusNxm || !e.inhibited) }

  /** Between memory and the devices, and above them, the Xbus does not answer. */
  lemma XbusGaps(m: BusState, page: nat, w: nat, v: Word, dev: Devices)
    requires page < 0x4000 && w < 256
    ensures var a := page * 256 + w;
            if page < 0x3BFC then
              && XbusRead(m, a, dev) == (if page < m.npages then m.words[a] else 0xFFFF_FFFF, m)
              && XbusWrite(m, a, v, dev) == m.(words := if page < m.npages then m.words[a := v] else m.words)
            else if 0x3C00 <= page < 0x3E00 then
              && XbusRead(m, a, dev) == (dev.xbusRead(a), m.(errors := dev.errorsAfter(a, m.errors)))
              && XbusWrite(m, a, v, dev) == m.(errors := dev.errorsAfter(a, m.errors))
            else
              && XbusRead(m, a, dev) == (0, m.(errors := XbusMissing(m.errors)))
              && XbusWrite(m, a, v, dev) == m.(errors := XbusMissing(m.errors))
  {
    MemoryIs(m.words, m.npages, page, w, v);
    PageOfWord(page, w);
    hide ReadPhysical, WritePhysical, PageNumber;
  }

  /** The sixteen mapping registers are halfwords at even addresses from 3EC60 on, and read back what was stored. */
  lemma RegistersReadBack(m: BusState, i: nat, v: Word, dev: Devices, dev': Devices)
    requires i < 16
    ensures var m' := WriteUnibus(m, 0x3EC60 + 2 * i, v, dev);
            && m' == m.(registers := m.registers[i := v % 0x1_0000])
            && ReadUnibus(m', 0x3EC60 + 2 * i, dev') == (v % 0x1_0000, m')
            && (forall k: nat :: k < 16 && k != i ==> m'.registers[k] == m.registers[k])
  {
    hide MapRead, MapWrite;
  }

  /** The addresses of the Unibus that answer. */
  predicate Answers(u: Word) {
    || 0xC000 <= u < 0x1_0000 || 0x3E800 <= u < 0x3E87F || 0x3EC00 <= u < 0x3EC1F || 0x3EC20 <= u < 0x3EC5F
    || (0x3EC60 <= u < 0x3EC7F && u % 2 == 0) || 0x3F550 <= u < 0x3F55B
  }

  /** Every other address is a reference to nothing: it reads as zero and changes an error bit only. */
  lemma OthersDoNotAnswer(m: BusState, u: Word, v: Word, dev: Devices)
    requires !Answers(u)
    ensures ReadUnibus(m, u, dev) == (0, m.(errors := UnibusMissing(m.errors)))
    ensures WriteUnibus(m, u, v, dev) == m.(errors := UnibusMissing(m.errors))
  {
  }

  /** An address outside the window that answers is that of a device or of a mapping register. */
  lemma DevicesAnswer(m: BusState, u: Word, dev: Devices)
    requires Answers(u) && !InMap(u)
    ensures var d := 0x3E800 <= u < 0x3E87F || 0x3EC00 <= u < 0x3EC5F || 0x3F550 <= u < 0x3F55B;
            if d then ReadUnibus(m, u, dev) == (dev.unibusRead(u), m.(errors := dev.errorsAfter(u, m.errors)))
            else ReadUnibus(m, u, dev) == (m.registers[(u - 0x3EC60) / 2], m)
  {
  }

  /** The three status bits are cleared together, without the inhibition; a map error is never inhibited. */
  lemma ErrorBits(e: BusErrors)
    ensures e.Reset() == BusErrors(false, false, false, e.inhibited)
    ensures e.SetMapError() == BusErrors(e.xbusNxm, e.unibusNxm, true, e.inhibited)
    ensures e.SetXbusNxm() == XbusMissing(e) && e.SetUnibusNxm() == UnibusMissing(e)
    ensures e.StopsTape() <==> e.mapError || e.unibusNxm
  {
  }
}

/**
 Tape transfers through the Unibus map: writing a record from memory and reading it back
 restores every word, whatever pages the two transfers go through.
 */
module TapeTransfer {
  import opened Words
  import opened PhysicalMemory
  import opened Dma
  import opened TapeModel
  import opened TapeCommands
  import opened TapeTheory

  // ----- the memory side -----

  /** The map page of this address leads to a populated page of main memory, writable if asked. */
  predicate Mapped(m: BusState, uaddr: Word, writable: bool) {
    InMap(uaddr) &&
    var r := m.registers[MapPage(uaddr)];
    MapValid(r) && IsMemoryPage(XbusPage(r)) && XbusPage(r) < m.npages && (writable ==> WritePermitted(r))
  }

  /** n words from uaddr on lie in mapped pages; uaddr is the address of a low half. */
  ghost predicate MappedRange(m: BusState, uaddr: Word, n: nat, writable: bool) {
    uaddr % 4 == 0 && uaddr + 4 * n <= 0x1_0000 && forall i: nat :: i < n ==> Mapped(m, uaddr + 4 * i, writable)
  }

  /** The memory word behind an address of the map window. */
  function Target(m: BusState, uaddr: Word): (a: Word)
    requires InMap(uaddr)
    ensures a < 0x40_0000
  {
    MappedWord(m.registers[MapPage(uaddr)], uaddr);
    MappedAddress(m.registers[MapPage(uaddr)], uaddr)
  }

  /** The n words of memory behind the addresses from uaddr on. */
  ghost function WordsFrom(m: BusState, uaddr: Word, n: nat): (ws: seq<Word>)
    requires MappedRange(m, uaddr, n, false)
    ensures |ws| == n
  {
    seq(n, i requires 0 <= i < n => assert Mapped(m, uaddr + 4 * i, false); m.words[Target(m, uaddr + 4 * i)])
  }

  /** The map pages of the n words from uaddr on lead to distinct memory pages. */
  ghost predicate DistinctPages(m: BusState, uaddr: Word, n: nat) {
    n > 0 && uaddr + 4 * n <= 0x1_0000 && InMap(uaddr) && InMap(uaddr + 4 * (n - 1)) ==>
      forall p: nat, q: nat :: MapPage(uaddr) <= p < q <= MapPage(uaddr + 4 * (n - 1)) ==>
        XbusPage(m.registers[p]) != XbusPage(m.registers[q])
  }

  /** Then the words of the range are distinct words of memory. */
  lemma TargetsDistinct(m: BusState, uaddr: Word, n: nat, k: nat)
    requires DistinctPages(m, uaddr, n) && 0 < k < n && uaddr % 4 == 0 && uaddr + 4 * n <= 0x1_0000 && InMap(uaddr)
    ensures InMap(uaddr + 4 * k) && Target(m, uaddr) != Target(m, uaddr + 4 * k)
  {
    hide Target, InMap, MapPage, XbusPage;
    InRange(uaddr, n, k);
    var u, v: Word := uaddr, uaddr + 4 * k;
    TargetParts(m, u);
    TargetParts(m, v);
    if MapPage(u) == MapPage(v) {
      OffsetsDiffer(u, v);
    } else {
      assert XbusPage(m.registers[MapPage(u)]) != XbusPage(m.registers[MapPage(v)]);
    }
  }

  lemma InRange(uaddr: Word, n: nat, k: nat)
    requires 0 < k < n && uaddr + 4 * n <= 0x1_0000 && InMap(uaddr)
    ensures InMap(uaddr + 4 * k) && InMap(uaddr + 4 * (n - 1))
    ensures MapPage(uaddr) <= MapPage(uaddr + 4 * k) <= MapPage(uaddr + 4 * (n - 1))
  {
    MapPageMonotone(uaddr, uaddr + 4 * k);
    MapPageMonotone(uaddr + 4 * k, uaddr + 4 * (n - 1));
    hide MapPage;
  }

  lemma MapPageMonotone(u: Word, v: Word)
    requires InMap(u) && InMap(v) && u <= v
    ensures MapPage(u) <= MapPage(v)
  {
  }

  /** The memory page and the offset of a target. */
  lemma TargetParts(m: BusState, u: Word)
    requires InMap(u)
    ensures Target(m, u) / 256 == XbusPage(m.registers[MapPage(u)]) && Target(m, u) % 256 == u / 4 % 256
  {
    hide MapPage, XbusPage;
  }

  lemma OffsetsDiffer(u: Word, v: Word)
    requires InMap(u) && InMap(v) && u % 4 == 0 && v % 4 == 0 && u < v && MapPage(u) == MapPage(v)
    ensures u / 4 % 256 != v / 4 % 256
  {
  }

  lemma DistinctTail(m: BusState, uaddr: Word, n: nat)
    requires DistinctPages(m, uaddr, n) && n > 1 && uaddr + 4 * n <= 0x1_0000 && InMap(uaddr)
    ensures DistinctPages(m, uaddr + 4, n - 1)
  {
    hide XbusPage;
    assert uaddr + 4 + 4 * (n - 1 - 1) == uaddr + 4 * (n - 1);
    assert InMap(uaddr + 4 * (n - 1)) && MapPage(uaddr) <= MapPage(uaddr + 4);
  }

  // ----- writing -----

  /** The bytes of a string of words. */
  function WordBytes(ws: seq<Word>): (s: seq<Byte>)
    ensures |s| == 4 * |ws|
  {
    if ws == [] then [] else Bytes4(ws[0]) + WordBytes(ws[1..])
  }

  /** A record on tape: the words framed by their length in bytes. */
  function Frame(ws: seq<Word>): (s: seq<Byte>)
    requires 4 * |ws| < 0x1_0000_0000
    ensures |s| == 4 * |ws| + 8
  {
    Bytes4(4 * |ws|) + WordBytes(ws) + Bytes4(4 * |ws|)
  }

  /** The drive after writing these bytes under the head. */
  function Put(d: Drive, data: seq<Byte>): Drive
    requires d.pos + |data| <= |d.bytes|
  {
    if data == [] then d else SeekRelative(d.(bytes := Overwrite(d.bytes, d.pos, data)), |data|)
  }

  lemma PutTwice(d: Drive, a: seq<Byte>, b: seq<Byte>)
    requires d.pos + |a| + |b| <= |d.bytes|
    ensures Put(d, a).pos == d.pos + |a| && |Put(d, a).bytes| == |d.bytes|
    ensures Put(Put(d, a), b) == Put(d, a + b)
  {
    if a == [] {
      assert a + b == b;
      hide Overwrite;
    } else if b == [] {
      assert a + b == a;
      hide Overwrite;
    } else {
      PutBoth(d, a, b);
    }
  }

  lemma PutBoth(d: Drive, a: seq<Byte>, b: seq<Byte>)
    requires d.pos + |a| + |b| <= |d.bytes| && a != [] && b != []
    ensures Put(d, a).pos == d.pos + |a| && |Put(d, a).bytes| == |d.bytes|
    ensures Put(Put(d, a), b) == Put(d, a + b)
  {
    OverwriteTwice(d.bytes, d.pos, a, b);
    hide Overwrite;
    assert |a + b| == |a| + |b|;
  }

  /** The controller's registers after k bytes have moved. */
  function Advance(c: Control, k: nat): (c': Control)
    requires k <= BytesToGo(c) && c.mtcma + k <= 0x1_0000
    ensures BytesToGo(c') == BytesToGo(c) - k && c' == c.(mtcma := c.mtcma + k, mtbrc := c'.mtbrc)
    ensures c'.mtbrc == c.mtbrc + k
  {
    c.(mtcma := c.mtcma + k, mtbrc := c.mtbrc + k)
  }

  lemma AdvanceTwice(c: Control, a: nat, b: nat)
    requires a + b <= BytesToGo(c) && c.mtcma + a + b <= 0x1_0000
    ensures Advance(Advance(c, a), b) == Advance(c, a + b)
  {
  }

  /** The bus after the low half of the word behind u has been read. */
  function Fetched(m: BusState, u: Word): (m': BusState)
    requires InMap(u)
    ensures m' == m.(buffers := m'.buffers)
  {
    m.(buffers := m.buffers[MapPage(u) := m.words[Target(m, u)] / 0x1_0000])
  }

  predicate Writable(d: Drive, n: nat) { d.online && !d.readOnly && d.pos + n <= |d.bytes| }

  lemma PutByteIsPut(d: Drive, v: Byte)
    requires Writable(d, 1)
    ensures PutByte(d, v) == Put(d, [v])
  {
    assert d.bytes[d.pos := v] == Overwrite(d.bytes, d.pos, [v]);
  }

  lemma WriteUInt32IsPut(d: Drive, v: Word)
    requires Writable(d, 4)
    ensures WriteUInt32(d, v).1 == Put(d, Bytes4(v))
  {
    assert Bytes4(v)[..4] == Bytes4(v);
  }

  /** Two rounds of the write loop: one word goes from memory to tape. */
  lemma WriteOneWord(r: Rig, devs: nat -> Devices, j: nat)
    requires BytesToGo(r.ctl) >= 4 && !r.bus.errors.StopsTape() && Mapped(r.bus, r.ctl.mtcma, false) && r.ctl.mtcma % 4 == 0
    requires Writable(r.drive, 4)
    ensures r.ctl.mtcma + 4 <= 0x1_0000
    ensures WriteLoop(r, devs, j) ==
            WriteLoop(Rig(Fetched(r.bus, r.ctl.mtcma), Put(r.drive, Bytes4(r.bus.words[Target(r.bus, r.ctl.mtcma)])),
                          Advance(r.ctl, 4)), devs, j + 2)
  {
    hide ReadUnibus, WriteLoop, Bytes4, PutHalf, InMap, MapPage, Put, Mapped, Fetched, Advance, Target, BusErrors.StopsTape;
    MappedInMap(r.bus, r.ctl.mtcma, false);
    var u, w := r.ctl.mtcma, r.bus.words[Target(r.bus, r.ctl.mtcma)];
    LastQuad(u);
    var bus := Fetched(r.bus, u);
    FetchHalves(r.bus, u, devs(j), devs(j + 1));
    WriteFourBytes(r.drive, w);
    WriteRound(r, devs, j, w % 0x1_0000, bus);
    WriteRound(Rig(bus, PutHalf(r.drive, w % 0x1_0000), Advance(r.ctl, 2)), devs, j + 1, w / 0x1_0000, bus);
    AdvanceTwice(r.ctl, 2, 2);
  }

  lemma LastQuad(u: Word)
    requires u % 4 == 0 && u < 0x1_0000
    ensures u + 4 <= 0x1_0000
  {
  }

  lemma FetchHalves(m: BusState, u: Word, dev: Devices, dev': Devices)
    requires Mapped(m, u, false) && u % 4 == 0
    ensures var w := m.words[Target(m, u)];
            && ReadUnibus(m, u, dev) == (w % 0x1_0000, Fetched(m, u))
            && ReadUnibus(Fetched(m, u), u + 2, dev') == (w / 0x1_0000, Fetched(m, u))
  {
    HalvesOfWord(u);
    MappedWord(m.registers[MapPage(u)], u);
    hide ReadUnibus, MapPage, HighHalf, MappedAddress, InMap, MapValid, XbusPage;
    MemoryRead(m, u, dev);
    MemoryRead(Fetched(m, u), u + 2, dev');
  }

  /** A halfword put on tape, low byte first. */
  function PutHalf(d: Drive, data: Word): Drive { PutByte(PutByte(d, data % 0x100), data / 0x100 % 0x100) }

  /** One round of the write loop, given what the bus returns. */
  lemma WriteRound(r: Rig, devs: nat -> Devices, j: nat, data: Word, bus: BusState)
    requires BytesToGo(r.ctl) >= 2 && r.ctl.mtcma + 2 <= 0x1_0000
    requires ReadUnibus(r.bus, r.ctl.mtcma, devs(j)) == (data, bus) && !bus.errors.StopsTape()
    ensures WriteLoop(r, devs, j) ==
            WriteLoop(Rig(bus, PutHalf(r.drive, data), Advance(r.ctl, 2)), devs, j + 1)
  {
    hide ReadUnibus, PutByte;
  }

  lemma WriteFourBytes(d: Drive, w: Word)
    requires Writable(d, 4)
    ensures var lo, hi := w % 0x1_0000, w / 0x1_0000;
            PutHalf(PutHalf(d, lo), hi) == Put(d, Bytes4(w))
  {
    BytesOfHalves(w);
    hide Put, PutByte;
    PutFour(d, w % 0x1_0000 % 0x100, w % 0x1_0000 / 0x100 % 0x100, w / 0x1_0000 % 0x100, w / 0x1_0000 / 0x100 % 0x100);
  }

  lemma BytesOfHalves(w: Word)
    ensures var lo, hi := w % 0x1_0000, w / 0x1_0000;
            Bytes4(w) == [lo % 0x100, lo / 0x100 % 0x100, hi % 0x100, hi / 0x100 % 0x100]
  {
    LowHalf(w);
    HighHalfOf(w);
  }

  lemma LowHalf(w: nat)
    ensures w % 0x1_0000 % 0x100 == w % 0x100 && w % 0x1_0000 / 0x100 % 0x100 == w / 0x100 % 0x100
  {
  }

  lemma HighHalfOf(w: Word)
    ensures w / 0x1_0000 / 0x100 % 0x100 == w / 0x100_0000
  {
  }

  lemma PutFour(d: Drive, b0: Byte, b1: Byte, b2: Byte, b3: Byte)
    requires Writable(d, 4)
    ensures PutByte(PutByte(PutByte(PutByte(d, b0), b1), b2), b3) == Put(d, [b0, b1, b2, b3])
  {
    hide Put, PutByte;
    PutByteIsPut(d, b0);
    PutOneMore(d, [b0], b1);
    assert [b0] + [b1] == [b0, b1];
    PutOneMore(d, [b0, b1], b2);
    assert [b0, b1] + [b2] == [b0, b1, b2];
    PutOneMore(d, [b0, b1, b2], b3);
    assert [b0, b1, b2] + [b3] == [b0, b1, b2, b3];
  }

  lemma PutOneMore(d: Drive, data: seq<Byte>, b: Byte)
    requires Writable(d, |data| + 1)
    ensures PutByte(Put(d, data), b) == Put(d, data + [b])
  {
    hide Put, PutByte;
    PutKeeps(d, data);
    PutByteIsPut(Put(d, data), b);
    PutTwice(d, data, [b]);
  }

  /** The next word of a mapped range, and the range after it under a change of buffers only. */
  lemma RangeStep(m: BusState, m': BusState, uaddr: Word, n: nat, writable: bool)
    requires MappedRange(m, uaddr, n, writable) && n > 0
    requires m'.registers == m.registers && m'.npages == m.npages
    ensures Mapped(m, uaddr, writable) && uaddr % 4 == 0
    ensures n > 1 ==> MappedRange(m', uaddr + 4, n - 1, writable) && InMap(uaddr + 4)
  {
    hide InMap, MapPage, MapValid, XbusPage, WritePermitted, IsMemoryPage;
    assert Mapped(m, uaddr + 4 * 0, writable);
    if n > 1 {
      forall i: nat | i < n - 1 ensures Mapped(m', uaddr + 4 + 4 * i, writable) {
        assert Mapped(m, uaddr + 4 * (i + 1), writable);
      }
      assert Mapped(m', uaddr + 4 + 4 * 0, writable);
    }
  }

  lemma WordsFromStep(m: BusState, m': BusState, uaddr: Word, n: nat)
    requires MappedRange(m, uaddr, n, false) && n > 1 && MappedRange(m', uaddr + 4, n - 1, false)
    requires m'.registers == m.registers && m'.words == m.words
    ensures InMap(uaddr)
    ensures WordsFrom(m, uaddr, n) == [m.words[Target(m, uaddr)]] + WordsFrom(m', uaddr + 4, n - 1)
  {
    hide Target, MapPage;
    assert Mapped(m, uaddr + 4 * 0, false);
    var a, b := WordsFrom(m, uaddr, n), WordsFrom(m', uaddr + 4, n - 1);
    forall i: nat | 1 <= i < n ensures a[i] == b[i - 1] {
      assert Mapped(m, uaddr + 4 * i, false) && Mapped(m', uaddr + 4 + 4 * (i - 1), false);
      SameTarget(m, m', uaddr + 4 * i);
    }
  }

  lemma SameTarget(m: BusState, m': BusState, uaddr: Word)
    requires InMap(uaddr) && m'.registers == m.registers
    ensures Target(m', uaddr) == Target(m, uaddr)
  {
  }

  /** The first n words of a transfer go from memory to tape; of the bus only map buffers change. */
  lemma {:induction false} WriteWords(r: Rig, n: nat, devs: nat -> Devices, j: nat) returns (buffers: Halves16)
    requires BytesToGo(r.ctl) >= 4 * n && !r.bus.errors.StopsTape() && MappedRange(r.bus, r.ctl.mtcma, n, false)
    requires Writable(r.drive, 4 * n)
    ensures r.ctl.mtcma + 4 * n <= 0x1_0000
    ensures WriteLoop(r, devs, j) ==
            WriteLoop(Rig(r.bus.(buffers := buffers), Put(r.drive, WordBytes(WordsFrom(r.bus, r.ctl.mtcma, n))), Advance(r.ctl, 4 * n)),
                      devs, j + 2 * n)
    decreases n
  {
    hide Put, Bytes4, MappedRange, Mapped, Target, MapPage, WriteLoop, InMap;
    buffers := r.bus.buffers;
    AlignedRange(r.bus, r.ctl.mtcma, n);
    if n == 0 {
      assert WordsFrom(r.bus, r.ctl.mtcma, 0) == [];
      PutNothing(r.drive);
    } else {
      hide Advance, WordBytes;
      var u := r.ctl.mtcma;
      RangeStep(r.bus, r.bus, u, n, false);
      MappedInMap(r.bus, u, false);
      WriteOneWord(r, devs, j);
      var w, bus := r.bus.words[Target(r.bus, u)], Fetched(r.bus, u);
      WordsHead(r.bus, u, n);
      PutKeeps(r.drive, Bytes4(w));
      var r1 := Rig(bus, Put(r.drive, Bytes4(w)), Advance(r.ctl, 4));
      if n > 1 {
        RangeStep(r.bus, bus, u, n, false);
        WordsFromStep(r.bus, bus, u, n);
        var rest := WordsFrom(bus, u + 4, n - 1);
        hide WordsFrom, Fetched;
        buffers := WriteWords(r1, n - 1, devs, j + 2);
        PutTwice(r.drive, Bytes4(w), WordBytes(rest));
        AdvanceTwice(r.ctl, 4, 4 * (n - 1));
        WordBytesStep(w, rest);
      } else {
        buffers := bus.buffers;
        WordBytesStep(w, []);
      }
    }
  }

  lemma WordBytesStep(w: Word, rest: seq<Word>)
    ensures WordBytes([w] + rest) == Bytes4(w) + WordBytes(rest) && (rest == [] ==> WordBytes([w]) == Bytes4(w))
  {
    hide Bytes4;
    assert ([w] + rest)[1..] == rest && [w][1..] == [];
  }

  lemma AlignedRange(m: BusState, uaddr: Word, n: nat)
    requires MappedRange(m, uaddr, n, false)
    ensures uaddr % 4 == 0 && uaddr + 4 * n <= 0x1_0000
  {
  }

  lemma MappedInMap(m: BusState, uaddr: Word, writable: bool)
    requires Mapped(m, uaddr, writable)
    ensures InMap(uaddr) && uaddr < 0x1_0000
  {
  }

  lemma WordsHead(m: BusState, uaddr: Word, n: nat)
    requires MappedRange(m, uaddr, n, false) && n > 0
    ensures InMap(uaddr) && WordsFrom(m, uaddr, n)[0] == m.words[Target(m, uaddr)]
  {
    hide Target, MapPage;
    assert Mapped(m, uaddr + 4 * 0, false);
  }

  lemma PutNothing(d: Drive)
    requires d.pos <= |d.bytes|
    ensures Put(d, []) == d
  {
  }

  lemma PutKeeps(d: Drive, data: seq<Byte>)
    requires d.pos + |data| <= |d.bytes|
    ensures var d' := Put(d, data);
            && d'.pos == d.pos + |data| && |d'.bytes| == |d.bytes| && d'.online == d.online
            && d'.readOnly == d.readOnly && d'.eotPos == d.eotPos
  {
  }

  lemma WriteStops(r: Rig, devs: nat -> Devices, j: nat)
    requires r.ctl.mtbrc >= 0
    ensures WriteLoop(r, devs, j) == r
  {
  }

  /**
   Writing a record of n words puts their frame on the tape under the head and nothing else,
   leaves the tape just after it, and changes no word of memory.
   */
  lemma WriteRecordWritesFrame(r: Rig, n: nat, devs: nat -> Devices)
    requires BytesToGo(r.ctl) == 4 * n && n > 0 && !r.ctl.nxm && MappedRange(r.bus, r.ctl.mtcma, n, false)
    requires Writable(r.drive, 4 * n + 8)
    ensures var r', ws := WriteRecord(r, devs), WordsFrom(r.bus, r.ctl.mtcma, n);
            && r'.drive == Put(r.drive, Frame(ws)) && r'.bus.words == r.bus.words
            && r'.bus.registers == r.bus.registers && r'.bus.npages == r.bus.npages
            && !r'.ctl.nxm && r'.ctl.ilc == r.ctl.ilc && r'.ctl.mtbrc == 0 && r'.ctl.mtcma == r.ctl.mtcma + 4 * n
  {
    hide Put, Bytes4, WriteLoop, WriteUInt32, Advance, WordBytes;
    var length := 4 * n;
    var bus := r.bus.(errors := r.bus.errors.Reset());
    var ws := WordsFrom(r.bus, r.ctl.mtcma, n);
    SameRange(r.bus, bus, r.ctl.mtcma, n, false);
    hide MappedRange, Mapped, WordsFrom;
    WriteUInt32IsPut(r.drive, length);
    PutKeeps(r.drive, Bytes4(length));
    var r0 := r.(bus := bus, drive := Put(r.drive, Bytes4(length)));
    var buffers := WriteWords(r0, n, devs, 0);
    PutKeeps(r0.drive, WordBytes(ws));
    var d1 := Put(r0.drive, WordBytes(ws));
    WriteStops(Rig(bus.(buffers := buffers), d1, Advance(r.ctl, 4 * n)), devs, 2 * n);
    WriteUInt32IsPut(d1, length);
    PutTwice(r.drive, Bytes4(length), WordBytes(ws));
    PutTwice(r.drive, Bytes4(length) + WordBytes(ws), Bytes4(length));
  }

  lemma SameRange(m: BusState, m': BusState, uaddr: Word, n: nat, writable: bool)
    requires MappedRange(m, uaddr, n, writable)
    requires m'.registers == m.registers && m'.npages == m.npages && m'.words == m.words
    ensures MappedRange(m', uaddr, n, writable) && MappedRange(m, uaddr, n, false) && MappedRange(m', uaddr, n, false)
    ensures WordsFrom(m', uaddr, n) == WordsFrom(m, uaddr, n)
  {
    hide InMap, MapPage, MapValid, XbusPage, WritePermitted, IsMemoryPage;
    forall i: nat | i < n
      ensures Mapped(m', uaddr + 4 * i, writable) && Mapped(m', uaddr + 4 * i, false) && Mapped(m, uaddr + 4 * i, false)
    {
      assert Mapped(m, uaddr + 4 * i, writable);
    }
  }

  // ----- reading -----

  lemma SkipTwice(d: Drive, a: nat, b: nat)
    requires d.pos + a + b <= |d.bytes|
    ensures Skip(Skip(d, a), b) == Skip(d, a + b) && Skip(d, a).pos == d.pos + a
    ensures Skip(d, a).bytes == d.bytes && Skip(d, a).online == d.online
  {
  }

  /** The halfword that two bytes on tape make, low byte first. */
  function HalfAt(bytes: seq<Byte>, p: nat): Half
    requires p + 2 <= |bytes|
  {
    var lo: int, hi: int := bytes[p], bytes[p + 1];
    hi * 0x100 + lo
  }

  /** One round of the read loop, given what the bus makes of the halfword. */
  lemma ReadRound(r: Rig, length: Word, devs: nat -> Devices, j: nat, bus: BusState)
    requires BytesToGo(r.ctl) >= 2 && r.ctl.mtcma + 2 <= 0x1_0000 && length >= 2
    requires r.drive.online && r.drive.pos + 2 <= |r.drive.bytes|
    requires WriteUnibus(r.bus, r.ctl.mtcma, HalfAt(r.drive.bytes, r.drive.pos), devs(j)) == bus && !bus.errors.StopsTape()
    ensures ReadLoop(r, length, devs, j) ==
            ReadLoop(Rig(bus, Skip(r.drive, 2), Advance(r.ctl, 2)), length - 2, devs, j + 1)
  {
    hide WriteUnibus, Overwrite;
    var d := r.drive;
    assert ReadByte(d) == (true, d.bytes[d.pos], SeekRelative(d, 1));
    assert ReadByte(SeekRelative(d, 1)) == (true, d.bytes[d.pos + 1], Skip(d, 2));
    hide ReadByte, SeekRelative, Skip;
  }

  /** Two rounds of the read loop: one word goes from tape to memory. */
  lemma ReadOneWord(r: Rig, length: Word, devs: nat -> Devices, j: nat, w: Word)
    requires BytesToGo(r.ctl) >= 4 && length >= 4 && !r.bus.errors.StopsTape()
    requires Mapped(r.bus, r.ctl.mtcma, true) && r.ctl.mtcma % 4 == 0
    requires r.drive.online && WordAt(r.drive.bytes, r.drive.pos, w)
    ensures r.ctl.mtcma + 4 <= 0x1_0000
    ensures ReadLoop(r, length, devs, j) ==
            ReadLoop(Rig(Stored1(r.bus, r.ctl.mtcma, w), Skip(r.drive, 4), Advance(r.ctl, 4)), length - 4, devs, j + 2)
  {
    hide WriteUnibus, ReadLoop, Bytes4, Mapped, InMap, MapPage, Skip, WordAt, HalfAt, Advance, Stored1, Buffered, BusErrors.StopsTape;
    MappedInMap(r.bus, r.ctl.mtcma, true);
    var u, d := r.ctl.mtcma, r.drive;
    LastQuad(u);
    var bus1 := Buffered(r.bus, u, w);
    FourBytes(d.bytes, d.pos, w);
    SkipTwice(d, 2, 2);
    StoreHalves(r.bus, u, w, devs(j), devs(j + 1));
    ReadRound(r, length, devs, j, bus1);
    ReadRound(Rig(bus1, Skip(d, 2), Advance(r.ctl, 2)), length - 2, devs, j + 1, Stored1(r.bus, u, w));
    AdvanceTwice(r.ctl, 2, 2);
  }

  /** The bus after the low half of a word has been sent to u, and after the whole word. */
  function Buffered(m: BusState, u: Word, w: Word): (m': BusState)
    requires InMap(u)
    ensures m' == m.(buffers := m'.buffers)
  {
    m.(buffers := m.buffers[MapPage(u) := w % 0x1_0000])
  }

  function Stored1(m: BusState, u: Word, w: Word): (m': BusState)
    requires InMap(u)
    ensures m' == m.(buffers := m'.buffers, words := m.words[Target(m, u) := w])
  {
    Buffered(m, u, w).(words := m.words[Target(m, u) := w])
  }

  /** A word sent to a mapped page, low half first. */
  lemma StoreHalves(m: BusState, u: Word, w: Word, dev: Devices, dev': Devices)
    requires Mapped(m, u, true) && u % 4 == 0
    ensures WriteUnibus(m, u, w % 0x1_0000, dev) == Buffered(m, u, w)
    ensures WriteUnibus(Buffered(m, u, w), u + 2, w / 0x1_0000, dev') == Stored1(m, u, w)
  {
    HalvesOfWord(u);
    MappedWord(m.registers[MapPage(u)], u);
    hide WriteUnibus, MapPage, HighHalf, MappedAddress, InMap, MapValid, XbusPage;
    MemoryWrite(m, u, w % 0x1_0000, dev);
    MemoryWrite(Buffered(m, u, w), u + 2, w / 0x1_0000, dev');
  }

  lemma FourBytes(bytes: seq<Byte>, p: nat, w: Word)
    requires WordAt(bytes, p, w)
    ensures p + 4 <= |bytes| && HalfAt(bytes, p) == w % 0x1_0000 && HalfAt(bytes, p + 2) == w / 0x1_0000
  {
    var b := bytes[p..p + 4];
    assert b[0] == bytes[p] && b[1] == bytes[p + 1] && b[2] == bytes[p + 2] && b[3] == bytes[p + 3];
  }

  /** Memory after the words ws have been stored through the map from uaddr on. */
  ghost function Stored(m: BusState, words: Bank, uaddr: Word, ws: seq<Word>): Bank
    requires MappedRange(m, uaddr, |ws|, false)
    decreases |ws|
  {
    if ws == [] then words
    else
      RangeStep(m, m, uaddr, |ws|, false);
      var words' := words[Target(m, uaddr) := ws[0]];
      if |ws| == 1 then words' else Stored(m, words', uaddr + 4, ws[1..])
  }

  /** A word of memory that is the target of none of these addresses. */
  ghost predicate NotTarget(m: BusState, uaddr: Word, n: nat, a: Word) {
    forall i: nat :: i < n && uaddr + 4 * i < 0x1_0000 && InMap(uaddr + 4 * i) ==> Target(m, uaddr + 4 * i) != a
  }

  lemma {:induction false} StoredElsewhere(m: BusState, words: Bank, uaddr: Word, ws: seq<Word>, a: Word)
    requires MappedRange(m, uaddr, |ws|, false) && a < 0x40_0000 && NotTarget(m, uaddr, |ws|, a)
    ensures Stored(m, words, uaddr, ws)[a] == words[a]
    decreases |ws|
  {
    hide Target, InMap;
    if ws != [] {
      RangeStep(m, m, uaddr, |ws|, false);
      MappedInMap(m, uaddr, false);
      assert Target(m, uaddr + 4 * 0) != a;
      if |ws| > 1 {
        forall i: nat | i < |ws| - 1 && uaddr + 4 + 4 * i < 0x1_0000 && InMap(uaddr + 4 + 4 * i) ensures Target(m, uaddr + 4 + 4 * i) != a {
          assert InMap(uaddr + 4 * (i + 1));
          assert Target(m, uaddr + 4 * (i + 1)) != a;
        }
        StoredElsewhere(m, words[Target(m, uaddr) := ws[0]], uaddr + 4, ws[1..], a);
      }
    }
  }

  lemma LaterTargetsDiffer(m: BusState, uaddr: Word, n: nat)
    requires DistinctPages(m, uaddr, n + 1) && InMap(uaddr) && uaddr % 4 == 0 && uaddr + 4 * (n + 1) <= 0x1_0000
    ensures n > 0 ==> NotTarget(m, uaddr + 4, n, Target(m, uaddr))
  {
    hide Target, InMap, DistinctPages;
    if n > 0 {
      forall k: nat | k < n && uaddr + 4 + 4 * k < 0x1_0000 && InMap(uaddr + 4 + 4 * k)
        ensures Target(m, uaddr + 4 + 4 * k) != Target(m, uaddr)
      {
        TargetsDistinct(m, uaddr, n + 1, k + 1);
        assert uaddr + 4 * (k + 1) == uaddr + 4 + 4 * k;
      }
    }
  }

  /** Through distinct pages every stored word is found where it was put. */
  lemma {:induction false} StoredAt(m: BusState, words: Bank, uaddr: Word, ws: seq<Word>, i: nat)
    requires MappedRange(m, uaddr, |ws|, false) && DistinctPages(m, uaddr, |ws|) && i < |ws| && InMap(uaddr + 4 * i)
    ensures Stored(m, words, uaddr, ws)[Target(m, uaddr + 4 * i)] == ws[i]
    decreases |ws|
  {
    hide Target, InMap, MappedRange, Mapped, DistinctPages, NotTarget;
    AlignedRange(m, uaddr, |ws|);
    RangeStep(m, m, uaddr, |ws|, false);
    MappedInMap(m, uaddr, false);
    var words' := words[Target(m, uaddr) := ws[0]];
    if |ws| > 1 {
      if i > 0 {
        DistinctTail(m, uaddr, |ws|);
        StoredAt(m, words', uaddr + 4, ws[1..], i - 1);
        assert uaddr + 4 * i == uaddr + 4 + 4 * (i - 1);
      } else {
        LaterTargetsDiffer(m, uaddr, |ws| - 1);
        StoredElsewhere(m, words', uaddr + 4, ws[1..], Target(m, uaddr));
      }
    }
  }

  /** The first words of a transfer go from tape to memory, with `rest` bytes of the record behind them. */
  lemma {:induction false} ReadWords(r: Rig, ws: seq<Word>, rest: nat, devs: nat -> Devices, j: nat) returns (buffers: Halves16)
    requires BytesToGo(r.ctl) >= 4 * |ws| && !r.bus.errors.StopsTape() && 4 * |ws| + rest < 0x1_0000_0000
    requires MappedRange(r.bus, r.ctl.mtcma, |ws|, true) && MappedRange(r.bus, r.ctl.mtcma, |ws|, false)
    requires r.drive.online && Holds(r.drive.bytes, r.drive.pos, WordBytes(ws))
    ensures r.ctl.mtcma + 4 * |ws| <= 0x1_0000
    ensures ReadLoop(r, 4 * |ws| + rest, devs, j) ==
            ReadLoop(Rig(r.bus.(words := Stored(r.bus, r.bus.words, r.ctl.mtcma, ws), buffers := buffers),
                         Skip(r.drive, 4 * |ws|), Advance(r.ctl, 4 * |ws|)), rest, devs, j + 2 * |ws|)
    decreases |ws|
  {
    hide Bytes4, MappedRange, Mapped, Target, MapPage, Holds, ReadLoop, WordAt, WordBytes, InMap;
    buffers := r.bus.buffers;
    AlignedRange(r.bus, r.ctl.mtcma, |ws|);
    if ws != [] {
      TapeHolds(r.drive, ws);
      hide Skip, Advance;
      var d, u, n := r.drive, r.ctl.mtcma, |ws|;
      RangeStep(r.bus, r.bus, u, n, true);
      MappedInMap(r.bus, u, true);
      FirstWordOnTape(d.bytes, d.pos, ws);
      ReadOneWord(r, 4 * n + rest, devs, j, ws[0]);
      var bus := Stored1(r.bus, u, ws[0]);
      var r1 := Rig(bus, Skip(d, 4), Advance(r.ctl, 4));
      SkipTwice(d, 4, 4 * (n - 1));
      AdvanceTwice(r.ctl, 4, 4 * (n - 1));
      if n > 1 {
        RangeStep(r.bus, bus, u, n, true);
        RangeStep(r.bus, bus, u, n, false);
        RangeStep(r.bus, r.bus, u, n, false);
        StoredIgnoresWords(r.bus, bus, bus.words, u + 4, ws[1..]);
        hide Stored1;
        buffers := ReadWords(r1, ws[1..], rest, devs, j + 2);
      } else {
        buffers := bus.buffers;
        assert Stored(r.bus, r.bus.words, u, ws) == bus.words;
      }
    }
  }

  lemma TapeHolds(d: Drive, ws: seq<Word>)
    requires Holds(d.bytes, d.pos, WordBytes(ws))
    ensures d.pos + 4 * |ws| <= |d.bytes|
  {
  }

  lemma ReadStops(r: Rig, length: Word, devs: nat -> Devices, j: nat)
    requires length == 0 || r.ctl.mtbrc >= 0
    ensures ReadLoop(r, length, devs, j) == (r, length)
  {
  }

  lemma FirstWordOnTape(bytes: seq<Byte>, p: nat, ws: seq<Word>)
    requires ws != [] && Holds(bytes, p, WordBytes(ws))
    ensures WordAt(bytes, p, ws[0]) && Holds(bytes, p + 4, WordBytes(ws[1..]))
  {
    var first, rest := Bytes4(ws[0]), WordBytes(ws[1..]);
    assert WordBytes(ws) == first + rest;
    hide Bytes4, WordBytes, Holds;
    HoldsBoth(bytes, p, first, rest);
  }

  lemma {:induction false} StoredIgnoresWords(m: BusState, m': BusState, words: Bank, uaddr: Word, ws: seq<Word>)
    requires MappedRange(m, uaddr, |ws|, false) && MappedRange(m', uaddr, |ws|, false)
    requires m'.registers == m.registers && m'.npages == m.npages
    ensures Stored(m', words, uaddr, ws) == Stored(m, words, uaddr, ws)
    decreases |ws|
  {
    hide Target, MappedRange, Mapped;
    if ws != [] {
      RangeStep(m, m', uaddr, |ws|, false);
      RangeStep(m, m, uaddr, |ws|, false);
      RangeStep(m', m', uaddr, |ws|, false);
      MappedInMap(m, uaddr, false);
      SameTarget(m, m', uaddr);
      if |ws| > 1 { StoredIgnoresWords(m, m', words[Target(m, uaddr) := ws[0]], uaddr + 4, ws[1..]); }
    }
  }

  /** The first words of a record stand under the head. */
  predicate RecordBegins(d: Drive, length: nat, ws: seq<Word>) {
    4 * |ws| <= length < 0xFFFF_FFFF && d.online && WordAt(d.bytes, d.pos, length) && Holds(d.bytes, d.pos + 4, WordBytes(ws))
  }

  /** The transfer loop of a read, when the first words of the record have been stored. */
  lemma ReadPrefix(r: Rig, length: Word, ws: seq<Word>, devs: nat -> Devices) returns (r1: Rig)
    requires BytesToGo(r.ctl) >= 4 * |ws| && RecordBegins(r.drive, length, ws)
    requires MappedRange(r.bus, r.ctl.mtcma, |ws|, true)
    ensures MappedRange(r.bus, r.ctl.mtcma, |ws|, false) && r.ctl.mtcma + 4 * |ws| <= 0x1_0000
    ensures ReadUInt32(r.drive).1 == length
    ensures ReadLoop(r.(bus := r.bus.(errors := r.bus.errors.Reset()), drive := ReadUInt32(r.drive).2), length, devs, 0) ==
            ReadLoop(r1, length - 4 * |ws|, devs, 2 * |ws|)
    ensures r1.ctl == r.ctl.(mtcma := r.ctl.mtcma + 4 * |ws|, mtbrc := r1.ctl.mtbrc) && r1.ctl.mtbrc == r.ctl.mtbrc + 4 * |ws|
    ensures r1.drive == Skip(r.drive, 4 + 4 * |ws|) && r1.drive.bytes == r.drive.bytes && r1.drive.pos == r.drive.pos + 4 + 4 * |ws|
    ensures r1.bus.registers == r.bus.registers && r1.bus.words == Stored(r.bus, r.bus.words, r.ctl.mtcma, ws)
  {
    hide Bytes4, ReadLoop, ReadUInt32, WordBytes, Stored, InMap, Holds, Advance;
    var d, n := r.drive, |ws|;
    var bus := r.bus.(errors := r.bus.errors.Reset());
    SameRange(r.bus, bus, r.ctl.mtcma, n, true);
    hide MappedRange, Mapped;
    ReadWordAt(d, length);
    hide WordAt;
    assert SeekRelative(d, 4) == Skip(d, 4);
    TapeHoldsAt(d.bytes, d.pos + 4, ws);
    SkipTwice(d, 4, 4 * n);
    hide Skip, SeekRelative;
    var buffers := ReadWords(Rig(bus, Skip(d, 4), r.ctl), ws, length - 4 * n, devs, 0);
    StoredIgnoresWords(r.bus, bus, r.bus.words, r.ctl.mtcma, ws);
    r1 := Rig(bus.(words := Stored(bus, bus.words, r.ctl.mtcma, ws), buffers := buffers), Skip(Skip(d, 4), 4 * n), Advance(r.ctl, 4 * n));
  }

  lemma TapeHoldsAt(bytes: seq<Byte>, p: nat, ws: seq<Word>)
    requires Holds(bytes, p, WordBytes(ws))
    ensures p + 4 * |ws| <= |bytes|
  {
  }

  /**
   Reading a record of n words with a count of n words or more stores them through the map, leaves
   the tape unchanged, and ends just after the record, or after the file mark that follows it,
   unless the image ends too soon for the controller to look.
   */
  lemma ReadRecordReadsFrame(r: Rig, ws: seq<Word>, devs: nat -> Devices)
    requires BytesToGo(r.ctl) >= 4 * |ws| && ws != [] && !r.ctl.nxm && !r.ctl.eof
    requires MappedRange(r.bus, r.ctl.mtcma, |ws|, true)
    requires r.drive.online && Holds(r.drive.bytes, r.drive.pos, Frame(ws))
    ensures MappedRange(r.bus, r.ctl.mtcma, |ws|, false)
    ensures var r', end := ReadRecord(r, devs), r.drive.pos + 4 * |ws| + 8;
            && r'.bus.words == Stored(r.bus, r.bus.words, r.ctl.mtcma, ws)
            && end <= |r.drive.bytes| && r'.drive == AfterRecord(r.drive, end) && r'.ctl.eof == MarkAt(r.drive.bytes, end)
            && !r'.ctl.nxm && r'.ctl.rle == r.ctl.rle && r'.ctl.mtbrc == r.ctl.mtbrc + 4 * |ws| && r'.ctl.mtcma == r.ctl.mtcma + 4 * |ws|
  {
    hide Bytes4, ReadLoop, ReadUInt32, WordBytes, WordAt, Frame, AfterRecord, MarkAt, PastRecord, Stored, Holds, ReadRecord, Skip, MappedRange;
    var d, n := r.drive, |ws|;
    FramePieces(d.bytes, d.pos, ws);
    FrameFits(d.bytes, d.pos, ws);
    var r1 := ReadPrefix(r, 4 * n, ws, devs);
    ReadStops(r1, 0, devs, 2 * n);
    SkipKeeps(d, 4 + 4 * n);
    PastFrame(r1.drive, 4 * n);
    SameAfterRecord(d, 4 + 4 * n, d.pos + 4 * n + 8);
    ReadEnds(r, devs, r1);
  }

  lemma SkipKeeps(d: Drive, k: nat)
    ensures Skip(d, k).online == d.online
  {
  }

  /** The end of a read that has come to the end of its record. */
  lemma ReadEnds(r: Rig, devs: nat -> Devices, r1: Rig)
    requires ReadUInt32(r.drive).1 != FILE_MARK && !r1.ctl.nxm
    requires ReadLoop(r.(bus := r.bus.(errors := r.bus.errors.Reset()), drive := ReadUInt32(r.drive).2), ReadUInt32(r.drive).1, devs, 0) == (r1, 0)
    ensures var r', (d, mark) := ReadRecord(r, devs), PastRecord(r1.drive);
            r' == Rig(r1.bus, d, r1.ctl.(eof := r1.ctl.eof || mark, eot := d.eot))
  {
    hide ReadLoop, ReadUInt32, PastRecord;
  }

  /** The tape after a record that ends here has been read; too near the end of the image it rolls back too far. */
  function AfterRecord(d: Drive, end: nat): Drive {
    if end + 4 <= |d.bytes| then AfterRun(d, end) else Seek(d, |d.bytes| - 4)
  }

  /** Past the closing length of a record, and a file mark after it. */
  lemma PastFrame(d: Drive, n: Word)
    requires d.online && WordAt(d.bytes, d.pos, n)
    ensures PastRecord(d) == (AfterRecord(d, d.pos + 4), MarkAt(d.bytes, d.pos + 4))
  {
    hide Bytes4, ReadUInt32;
    assert d.pos + 4 <= |d.bytes|;
    var d1 := SeekRelative(d, 4);
    assert d.pos + 8 > |d.bytes| ==> !MarkAt(d.bytes, d.pos + 4);
    hide WordAt, MarkAt;
    ReadWordAt(d, n);
    if d.pos + 8 <= |d.bytes| {
      MarkIsRead(d1);
      ReadIsWordAt(d1);
    } else {
      ReadKeepsTape(d1);
      ShortReadIsNoMark(d1);
    }
  }

  /**
   A read ends after its record, or the file mark behind it, exactly when four more bytes of tape
   follow the record. Nearer the end of the image the look ahead is cut short, but the roll back
   is not; after a record that fills the image the tape stands four bytes before its end.
   */
  lemma ReadEndsAfterRecordIff(r: Rig, ws: seq<Word>, devs: nat -> Devices)
    requires BytesToGo(r.ctl) == 4 * |ws| && ws != [] && !r.ctl.nxm && !r.ctl.eof
    requires MappedRange(r.bus, r.ctl.mtcma, |ws|, true)
    requires r.drive.online && Holds(r.drive.bytes, r.drive.pos, Frame(ws))
    ensures var d', end := ReadRecord(r, devs).drive, r.drive.pos + 4 * |ws| + 8;
            && (d' == AfterRun(r.drive, end) <==> end + 4 <= |r.drive.bytes|)
            && (end == |r.drive.bytes| ==> d'.pos == end - 4)
  {
    hide ReadRecord, Holds, Frame, MarkAt, Stored, MappedRange;
    ReadRecordReadsFrame(r, ws, devs);
  }

  lemma SameAfterRecord(d: Drive, k: nat, end: nat)
    ensures AfterRecord(Skip(d, k), end) == AfterRecord(d, end) && Skip(d, k).bytes == d.bytes
    ensures AfterRecord(d, end).bytes == d.bytes
  {
  }

  lemma FrameFits(bytes: seq<Byte>, p: nat, ws: seq<Word>)
    requires 4 * |ws| < 0x1_0000_0000 && Holds(bytes, p, Frame(ws))
    ensures p + 4 * |ws| + 8 <= |bytes|
  {
    hide Frame;
  }

  /** The three parts of a frame on tape. */
  lemma FramePieces(bytes: seq<Byte>, p: nat, ws: seq<Word>)
    requires 4 * |ws| < 0x1_0000_0000 && Holds(bytes, p, Frame(ws))
    ensures WordAt(bytes, p, 4 * |ws|) && WordAt(bytes, p + 4 + 4 * |ws|, 4 * |ws|)
    ensures Holds(bytes, p + 4, WordBytes(ws))
  {
    hide Bytes4, WordBytes, Holds, WordAt, Frame;
    FrameParts(ws);
    HoldsThree(bytes, p, Bytes4(4 * |ws|), WordBytes(ws), Bytes4(4 * |ws|));
    WordAtIsHolds(bytes, p, 4 * |ws|);
    WordAtIsHolds(bytes, p + 4 + 4 * |ws|, 4 * |ws|);
  }

  lemma FrameParts(ws: seq<Word>)
    requires 4 * |ws| < 0x1_0000_0000
    ensures Frame(ws) == Bytes4(4 * |ws|) + WordBytes(ws) + Bytes4(4 * |ws|)
  {
    hide Bytes4, WordBytes;
  }

  lemma WordAtIsHolds(bytes: seq<Byte>, p: nat, v: Word)
    ensures WordAt(bytes, p, v) <==> Holds(bytes, p, Bytes4(v))
  {
    hide Bytes4, Holds;
  }

  lemma HoldsThree(bytes: seq<Byte>, p: nat, a: seq<Byte>, b: seq<Byte>, c: seq<Byte>)
    requires Holds(bytes, p, a + b + c)
    ensures Holds(bytes, p, a) && Holds(bytes, p + |a|, b) && Holds(bytes, p + |a| + |b|, c)
  {
    hide Holds;
    HoldsBoth(bytes, p, a + b, c);
    HoldsBoth(bytes, p, a, b);
  }

  /** Memory m' is m with these words stored through the map of m from uaddr on. */
  ghost predicate Receives(m: BusState, m': BusState, uaddr: Word, ws: seq<Word>) {
    && (forall i: nat :: i < |ws| && uaddr + 4 * i < 0x1_0000 && InMap(uaddr + 4 * i) ==> m'.words[Target(m, uaddr + 4 * i)] == ws[i])
    && (forall a: nat :: a < 0x40_0000 && NotTarget(m, uaddr, |ws|, a) ==> m'.words[a] == m.words[a])
  }

  lemma StoredReceives(m: BusState, m': BusState, uaddr: Word, ws: seq<Word>)
    requires MappedRange(m, uaddr, |ws|, false) && DistinctPages(m, uaddr, |ws|) && m'.words == Stored(m, m.words, uaddr, ws)
    ensures Receives(m, m', uaddr, ws)
  {
    hide Stored, Target, InMap, MappedRange, DistinctPages, NotTarget;
    forall i: nat | i < |ws| && uaddr + 4 * i < 0x1_0000 && InMap(uaddr + 4 * i)
      ensures m'.words[Target(m, uaddr + 4 * i)] == ws[i]
    {
      StoredAt(m, m.words, uaddr, ws, i);
    }
    forall a: nat | a < 0x40_0000 && NotTarget(m, uaddr, |ws|, a) ensures m'.words[a] == m.words[a] {
      StoredElsewhere(m, m.words, uaddr, ws, a);
    }
  }

  /**
   The tape round trip. A record of n words is written from one range of the map; later, with
   the tape back at its start, it is read with the same count through another range, whose pages
   are writable and distinct. Every word arrives; no other word of memory and no byte of the tape
   outside the record changes; the tape ends after the record, or after a file mark following it,
   if the image reaches four bytes further.
   */
  lemma RoundTrip(r: Rig, n: nat, devs: nat -> Devices, r2: Rig, devs2: nat -> Devices)
    requires n > 0 && BytesToGo(r.ctl) == 4 * n == BytesToGo(r2.ctl)
    requires !r.ctl.nxm && MappedRange(r.bus, r.ctl.mtcma, n, false) && Writable(r.drive, 4 * n + 8)
    requires !r2.ctl.nxm && !r2.ctl.eof && MappedRange(r2.bus, r2.ctl.mtcma, n, true) && DistinctPages(r2.bus, r2.ctl.mtcma, n)
    requires r2.drive.online && r2.drive.bytes == WriteRecord(r, devs).drive.bytes && r2.drive.pos == r.drive.pos
    ensures var ws, w, x, end := WordsFrom(r.bus, r.ctl.mtcma, n), WriteRecord(r, devs), ReadRecord(r2, devs2), r.drive.pos + 4 * n + 8;
            // the transfer out
            && w.bus.words == r.bus.words
            && w.drive.pos == end && w.drive.bytes == Overwrite(r.drive.bytes, r.drive.pos, Frame(ws))
            // the transfer in
            && Receives(r2.bus, x.bus, r2.ctl.mtcma, ws)
            && x.drive.bytes == r2.drive.bytes
            && x.ctl.eof == MarkAt(r2.drive.bytes, end)
            && (end + 4 <= |r2.drive.bytes| ==> x.drive.pos == end + (if x.ctl.eof then 4 else 0))
            && !x.ctl.nxm && x.ctl.rle == r2.ctl.rle
  {
    hide WriteRecord, ReadRecord, Frame, MarkAt, Stored, WordsFrom, DistinctPages, Holds, Receives;
    var ws := WordsFrom(r.bus, r.ctl.mtcma, n);
    WriteRecordWritesFrame(r, n, devs);
    PutIsOverwrite(r.drive, Frame(ws));
    ReadRecordReadsFrame(r2, ws, devs2);
    SameAfterRecord(r2.drive, 0, r.drive.pos + 4 * n + 8);
    var x := ReadRecord(r2, devs2);
    StoredReceives(r2.bus, x.bus, r2.ctl.mtcma, ws);
  }

  lemma PutIsOverwrite(d: Drive, data: seq<Byte>)
    requires data != [] && d.pos + |data| <= |d.bytes|
    ensures Put(d, data).bytes == Overwrite(d.bytes, d.pos, data) && Put(d, data).pos == d.pos + |data|
    ensures Holds(Put(d, data).bytes, d.pos, data) && |Put(d, data).bytes| == |d.bytes|
  {
  }

  // ----- transfers that end early -----

  /** The map has no valid page for this address; or none that may be written. */
  predicate Unmapped(m: BusState, u: nat, limit: nat) {
    0xC000 <= u < 0x1_0000 && var r: nat := m.registers[(u - 0xC000) / 0x400]; r < limit
  }

  lemma UnmappedStops(m: BusState, u: Word, v: Word, dev: Devices)
    ensures Unmapped(m, u, 0x8000) ==> ReadUnibus(m, u, dev).1 == m.(errors := m.errors.SetMapError())
    ensures Unmapped(m, u, 0xC000) ==> WriteUnibus(m, u, v, dev) == m.(errors := m.errors.SetMapError())
  {
  }

  lemma WriteLoopStops(r: Rig, devs: nat -> Devices, j: nat)
    requires Unmapped(r.bus, r.ctl.mtcma, 0x8000) && r.ctl.mtbrc < 0
    ensures WriteLoop(r, devs, j) == r.(bus := r.bus.(errors := r.bus.errors.SetMapError()), ctl := r.ctl.(nxm := true))
  {
    UnmappedStops(r.bus, r.ctl.mtcma, 0, devs(j));
    hide ReadUnibus, Unmapped;
  }

  /**
   A write that comes to an invalid map register stops there: the words before it are on the
   tape, NXM is set, and the address register holds the address that failed.
   */
  lemma WriteStopsAtInvalidPage(r: Rig, n: nat, devs: nat -> Devices)
    requires BytesToGo(r.ctl) > 4 * n && BytesToGo(r.ctl) % 4 == 0 && MappedRange(r.bus, r.ctl.mtcma, n, false)
    requires Unmapped(r.bus, r.ctl.mtcma + 4 * n, 0x8000) && !r.ctl.nxm && Writable(r.drive, 4 * n + 4)
    ensures var r' := WriteRecord(r, devs);
            && r'.ctl.nxm && r'.ctl.mtcma == r.ctl.mtcma + 4 * n && r'.ctl.mtbrc == r.ctl.mtbrc + 4 * n
            && r'.drive == Put(r.drive, Bytes4(BytesToGo(r.ctl)) + WordBytes(WordsFrom(r.bus, r.ctl.mtcma, n)))
            && r'.bus.words == r.bus.words
  {
    hide Put, Bytes4, WriteLoop, WriteUInt32, Advance, WordBytes;
    var length := BytesToGo(r.ctl);
    var bus := r.bus.(errors := r.bus.errors.Reset());
    var ws := WordsFrom(r.bus, r.ctl.mtcma, n);
    SameRange(r.bus, bus, r.ctl.mtcma, n, false);
    hide MappedRange, Mapped, WordsFrom;
    WriteUInt32IsPut(r.drive, length);
    PutKeeps(r.drive, Bytes4(length));
    var r0 := r.(bus := bus, drive := Put(r.drive, Bytes4(length)));
    var buffers := WriteWords(r0, n, devs, 0);
    PutTwice(r.drive, Bytes4(length), WordBytes(ws));
    WriteLoopStops(Rig(bus.(buffers := buffers), Put(r0.drive, WordBytes(ws)), Advance(r.ctl, 4 * n)), devs, 2 * n);
  }

  lemma ReadLoopStops(r: Rig, length: Word, devs: nat -> Devices, j: nat)
    requires Unmapped(r.bus, r.ctl.mtcma, 0xC000) && r.ctl.mtbrc < 0 && length > 0
    ensures var r' := ReadLoop(r, length, devs, j).0;
            && r'.ctl.nxm && r'.ctl.mtcma == r.ctl.mtcma && r'.bus.words == r.bus.words && r'.drive.bytes == r.drive.bytes
  {
    var data: Half := HalfRead(r.drive);
    UnmappedStops(r.bus, r.ctl.mtcma, data, devs(j));
    assert ReadByte(r.drive).2.bytes == r.drive.bytes;
    assert ReadByte(ReadByte(r.drive).2).2.bytes == r.drive.bytes;
    hide WriteUnibus, Unmapped, ReadByte;
  }

  /** The halfword that the next two bytes make. */
  function HalfRead(d: Drive): Half {
    var lo: nat, hi: nat := ReadByte(d).1, ReadByte(ReadByte(d).2).1;
    hi * 0x100 + lo
  }

  /** A read that comes to a page it may not write stops there in the same way. */
  lemma ReadStopsAtUnwritablePage(r: Rig, length: Word, ws: seq<Word>, devs: nat -> Devices)
    requires BytesToGo(r.ctl) > 4 * |ws| && RecordBegins(r.drive, length, ws) && length > 4 * |ws| && !r.ctl.nxm
    requires MappedRange(r.bus, r.ctl.mtcma, |ws|, true) && Unmapped(r.bus, r.ctl.mtcma + 4 * |ws|, 0xC000)
    requires DistinctPages(r.bus, r.ctl.mtcma, |ws|)
    ensures var r' := ReadRecord(r, devs);
            && r'.ctl.nxm && r'.ctl.mtcma == r.ctl.mtcma + 4 * |ws| && r'.drive.bytes == r.drive.bytes
            && Receives(r.bus, r'.bus, r.ctl.mtcma, ws)
  {
    hide ReadLoop, ReadUInt32, Stored, MappedRange, RecordBegins, DistinctPages, Receives, PastRecord;
    var r1 := ReadPrefix(r, length, ws, devs);
    LengthIsNoMark(r.drive, length, ws);
    ReadLoopStops(r1, length - 4 * |ws|, devs, 2 * |ws|);
    StoredReceives(r.bus, ReadRecord(r, devs).bus, r.ctl.mtcma, ws);
  }

  lemma LengthIsNoMark(d: Drive, length: nat, ws: seq<Word>)
    requires RecordBegins(d, length, ws)
    ensures 4 * |ws| <= length < 0xFFFF_FFFF
  {
    hide WordAt, Holds;
  }

  /** A count shorter than the record: so many words are stored, RLE is set, and the tape stays inside the record. */
  lemma ShortReadIsFlagged(r: Rig, length: Word, ws: seq<Word>, devs: nat -> Devices)
    requires BytesToGo(r.ctl) == 4 * |ws| && RecordBegins(r.drive, length, ws) && length > 4 * |ws| && !r.ctl.nxm
    requires MappedRange(r.bus, r.ctl.mtcma, |ws|, true) && DistinctPages(r.bus, r.ctl.mtcma, |ws|)
    ensures var r' := ReadRecord(r, devs);
            && r'.ctl.rle && !r'.ctl.nxm && r'.ctl.mtcma == r.ctl.mtcma + 4 * |ws| && (ws != [] ==> r'.ctl.mtbrc == 0)
            && Receives(r.bus, r'.bus, r.ctl.mtcma, ws)
            && r'.drive.pos == r.drive.pos + 4 + 4 * |ws| && r'.drive.bytes == r.drive.bytes
  {
    hide ReadLoop, ReadUInt32, Stored, MappedRange, RecordBegins, DistinctPages, Receives, PastRecord;
    var r1 := ReadPrefix(r, length, ws, devs);
    LengthIsNoMark(r.drive, length, ws);
    ReadStops(r1, length - 4 * |ws|, devs, 2 * |ws|);
    StoredReceives(r.bus, ReadRecord(r, devs).bus, r.ctl.mtcma, ws);
  }

  /** The conditions of the round trip can be met over the whole window, and over one page with every other register at zero. */
  lemma MapsExist()
    ensures exists m: BusState :: MappedRange(m, 0xC000, 0x1000, true) && DistinctPages(m, 0xC000, 0x1000)
    ensures exists m: BusState :: m.registers == [0xC005] + seq(15, _ => 0)
                              && MappedRange(m, 0xC000, 0x100, true) && DistinctPages(m, 0xC000, 0x100)
  {
    var registers: Halves16 := seq(16, i requires 0 <= i < 16 => 0xC000 + i);
    var m := BusState(16, seq(0x40_0000, _ => 0), registers, seq(16, _ => 0), 0, BusErrors(false, false, false, false));
    forall i: nat | i < 0x1000 ensures Mapped(m, 0xC000 + 4 * i, true) {
      assert MapPage(0xC000 + 4 * i) == i / 0x100;
      assert m.registers[i / 0x100] == 0xC000 + i / 0x100;
    }
    assert MappedRange(m, 0xC000, 0x1000, true);
    forall i: nat, j: nat | i < j < 16 ensures XbusPage(m.registers[i]) != XbusPage(m.registers[j]) {
      assert XbusPage(m.registers[i]) == i && XbusPage(m.registers[j]) == j;
    }
    assert DistinctPages(m, 0xC000, 0x1000);
    OnePageMapExists(m);
  }

  lemma OnePageMapExists(m: BusState)
    requires m.npages == 16
    ensures exists m': BusState :: m'.registers == [0xC005] + seq(15, _ => 0)
                              && MappedRange(m', 0xC000, 0x100, true) && DistinctPages(m', 0xC000, 0x100)
  {
    var registers: Halves16 := [0xC005] + seq(15, _ => 0);
    var m' := m.(registers := registers);
    forall i: nat | i < 0x100 ensures Mapped(m', 0xC000 + 4 * i, true) {
      assert MapPage(0xC000 + 4 * i) == 0;
      assert m'.registers[0] == 0xC005;
    }
    assert MappedRange(m', 0xC000, 0x100, true);
    assert MapPage(0xC000) == 0 == MapPage(0xC000 + 4 * (0x100 - 1));
    assert DistinctPages(m', 0xC000, 0x100);
  }
}

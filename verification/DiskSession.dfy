/**
 A session at the disk controller, from the registers: the program loads the list pointer, the
 disk address and a command, and starts it. The addresses, the commands and the words moved are
 given as numbers.
 */
module DiskSession {
  import opened Words
  import opened PhysicalMemory
  import opened DiskModel
  import opened DiskTransfer
  import opened DiskControl

  /** Stores into the registers: 1 the list pointer, 2 the disk address, 0 the command, 3 to start it. */
  function Issue(x: System, npages: nat, clp: Word, da: Word, command: Word): Option<System>
    requires x.rig.drive.Valid()
  {
    var x1 := Store(x, npages, 1, clp);
    if x1.None? || !x1.value.rig.drive.Valid() then None
    else
      var x2 := Store(x1.value, npages, 2, da);
      if x2.None? || !x2.value.rig.drive.Valid() then None
      else
        var x3 := Store(x2.value, npages, 0, command);
        if x3.None? || !x3.value.rig.drive.Valid() then None else Store(x3.value, npages, 3, 0)
  }

  /** The number of heads of a drive, and the block at a position. */
  function HeadCount(g: Geometry): nat { if g.T80? then 5 else 19 }
  function BlockAt(g: Geometry, c: nat, h: nat, s: nat): nat { (c * HeadCount(g) + h) * 17 + s }

  /** A position that the drive has. */
  predicate Exists(g: Geometry, c: nat, h: nat, s: nat) { c < 815 && h < HeadCount(g) && s < 17 }

  /** The disk address of a position: unit, cylinder, head and block in its own bits each. */
  function Address(unit: Unit8, c: nat, h: nat, s: nat): nat {
    var u: nat := unit;
    u * 0x1000_0000 + c * 0x1_0000 + h * 0x100 + s
  }

  lemma AddressIsDecoded(unit: Unit8, g: Geometry, c: nat, h: nat, s: nat)
    requires Exists(g, c, h, s)
    ensures Address(unit, c, h, s) < 0x1_0000_0000
    ensures var da := Address(unit, c, h, s);
            UnitOf(da) == unit && CylinderOf(da) == c && HeadOf(da) == h && SectorOf(da) == s
    ensures Lba(g, c, h, s) == BlockAt(g, c, h, s)
  {
    var u: nat := unit;
    DaDigits(u, c, h, s);
    LbaInBounds(g, c, h, s);
  }

  /** The state in which a command issued through the registers is started. */
  function Loaded(x: System, clp: Word, da: Word, command: Word): System {
    StoreCommand(x.(regs := x.regs.(clp := clp, da := da)), command)
  }

  lemma IssueStarts(x: System, npages: nat, clp: Word, da: Word, command: Word)
    requires x.rig.drive.Valid() && !x.regs.resetCondition && command != 0xE
    ensures Issue(x, npages, clp, da, command) == Start(Loaded(x, clp, da, command), npages)
    ensures var y := Loaded(x, clp, da, command);
            && y.regs.cmd == command && y.regs.clp == clp && y.regs.da == da && !y.regs.resetCondition
            && y.rig == x.rig.(status := y.rig.status)
  {
    hide Start, DiskModel.Drive.Valid, DiskModel.Drive.OnTrack;
  }

  /** The command register: what is stored, and the two interrupts it enables. */
  lemma CommandEnables(x: System, v: Word)
    requires !x.regs.resetCondition && v != 0 && v != 0xE
    ensures var y := StoreCommand(x, v);
            && y.regs == x.regs.(cmd := v, doneEnable := Bit(v, 11), attentionEnable := Bit(v, 10))
            && y.rig.status.xbusInterrupt == (x.rig.status.xbusInterrupt && (Bit(v, 11) || Bit(v, 10)))
  {
    assert Pow2(8) == 0x100 && Pow2(10) == 0x400 && Pow2(11) == 0x800;
    BitIsDigit(v, 11);
    BitIsDigit(v, 10);
    hide Bit, Pow2;
  }

  /** Command 5 puts the drive at ease; bit 9 also recalibrates it, and bit 8 clears its fault. */
  lemma AtEaseDoes(x: System, npages: nat, v: Word)
    requires x.rig.drive.Valid() && x.rig.drive.online && x.regs.cmd == v && v % 16 == 5
    ensures Start(x, npages).Some?
    ensures var d, d' := x.rig.drive, Start(x, npages).value.rig.drive;
            && d'.attention == Bit(v, 9) && d'.fault == (d.fault && !Bit(v, 9) && !Bit(v, 8))
            && d'.seekError == (d.seekError && !Bit(v, 9))
            && (d'.cylinder, d'.head, d'.sector) == (if Bit(v, 9) then (0, 0, 0) else (d.cylinder, d.head, d.sector))
  {
    assert Pow2(8) == 0x100 && Pow2(9) == 0x200;
    BitIsDigit(v, 9);
    BitIsDigit(v, 8);
    hide Bit, Pow2;
    GoesHome(x.rig.drive.(attention := false));
    hide Seek;
  }

  lemma GoesHome(d: Drive)
    ensures var d' := Seek(d, 0, 0, 0).1;
            && d'.cylinder == 0 && d'.head == 0 && d'.sector == 0
            && d' == d.(cylinder := 0, head := 0, sector := 0, lba := d'.lba)
  {
    hide Lba;
  }

  /** A seek command goes to the position in the disk address and raises attention; a bad address is a seek error. */
  lemma SeekGoes(x: System, npages: nat)
    requires x.rig.drive.Valid() && x.rig.drive.online && x.regs.cmd % 16 == 4
    ensures Start(x, npages).Some?
    ensures var d, d', da := x.rig.drive, Start(x, npages).value.rig.drive, x.regs.da;
            var c, h, s := da / 0x1_0000 % 0x1000, da / 0x100 % 0x100, da % 0x100;
            && d'.attention
            && (if Exists(d.geo, c, h, s) then (d'.cylinder, d'.head, d'.sector, d'.seekError) == (c, h, s, d.seekError)
                else d'.seekError && (d'.cylinder, d'.head, d'.sector) == (d.cylinder, d.head, d.sector))
  {
    hide Lba, TotalBlocks;
  }

  /** A command that runs finishes: the controller is not active, and asks for an interrupt exactly if the done interrupt is enabled. */
  lemma CommandFinishes(x: System, npages: nat)
    requires x.rig.drive.Valid() && x.rig.drive.online
    requires x.regs.cmd % 16 in {0, 4, 5, 6, 8} || (x.regs.cmd % 16 == 9 && !x.rig.drive.readOnly)
    ensures Start(x, npages).Some?
    ensures var s, s' := x.rig.status, Start(x, npages).value.rig.status;
            && s'.notActive && s'.interruptRequest == (s.interruptRequest || x.regs.doneEnable)
            && s'.xbusInterrupt == (s.xbusInterrupt || x.regs.doneEnable)
            && (x.regs.cmd % 16 in {4, 5, 6} ==>
                  s'.compareDifference == s.compareDifference && s'.ccwCycle == s.ccwCycle && s'.nxm == s.nxm)
            && (x.regs.cmd % 16 in {0, 9} ==> s'.compareDifference ==> s.compareDifference)
  {
    hide Start, SubmitXfer, DiskModel.Drive.Valid, DiskModel.Drive.OnTrack;
    var fun := x.regs.cmd % 16;
    if fun == 0 || fun == 8 || fun == 9 {
      TransferStarts(x, npages);
      SubmitFinishes(x, npages, if fun == 0 then Read else if fun == 8 then ReadCompare else Write);
    } else {
      ShortCommandFinishes(x, npages);
    }
  }

  lemma TransferStarts(x: System, npages: nat)
    requires x.rig.drive.Valid() && x.rig.drive.online
    requires x.regs.cmd % 16 == 0 || x.regs.cmd % 16 == 8 || (x.regs.cmd % 16 == 9 && !x.rig.drive.readOnly)
    ensures var fun := x.regs.cmd % 16;
            Start(x, npages) == Some(SubmitXfer(x, npages, if fun == 0 then Read else if fun == 8 then ReadCompare else Write))
  {
    hide SubmitXfer, DiskModel.Drive.Valid, DiskModel.Drive.OnTrack;
  }

  lemma ShortCommandFinishes(x: System, npages: nat)
    requires x.rig.drive.Valid() && x.rig.drive.online && 4 <= x.regs.cmd % 16 <= 6
    ensures Start(x, npages).Some? && Start(x, npages).value.rig.status == Done(x.rig.status, x.regs.doneEnable)
  {
    hide SubmitXfer, StartSeek, AtEase, Recalibrate, FaultClear, DiskModel.Drive.Valid, DiskModel.Drive.OnTrack;
    ShortCommandsFinish(x);
    ShortCommandsFinish(AtEase(x));
    ShortCommandsFinish(Recalibrate(AtEase(x)));
    assert Done(Done(x.rig.status, x.regs.doneEnable), x.regs.doneEnable) == Done(x.rig.status, x.regs.doneEnable);
    hide Done, Finish, Active;
  }

  /** The commands that do not transfer, each by itself. */
  lemma ShortCommandsFinish(x: System)
    ensures var s := Done(x.rig.status, x.regs.doneEnable);
            && StartSeek(x).rig.status == AtEase(x).rig.status == Recalibrate(x).rig.status == s
            && FaultClear(x).rig.status == Finish(Active(x)).rig.status == s
            && AtEase(x).regs == Recalibrate(x).regs == x.regs
  {
    hide Seek, CylinderOf, HeadOf, SectorOf;
  }

  lemma SubmitFinishes(x: System, npages: nat, mode: Mode)
    requires x.rig.drive.Valid() && x.rig.drive.online
    ensures var s, s' := x.rig.status, SubmitXfer(x, npages, mode).rig.status;
            && s'.notActive && s'.interruptRequest == (s.interruptRequest || x.regs.doneEnable)
            && s'.xbusInterrupt == (s.xbusInterrupt || x.regs.doneEnable)
            && (!mode.ReadCompare? ==> s'.compareDifference ==> s.compareDifference)
  {
    hide Transfer, SubmitXfer, Positioned, Addresses, BlockOf, DiskModel.Drive.Valid, DiskModel.Drive.OnTrack;
    SubmitStartsAt(x, npages, mode);
    if Addresses(x.rig.drive, x.regs.da) { TransferStatus(Positioned(x), npages, mode, x.regs.clp, 0); }
  }

  /** A write to a protected drive is a fault and nothing else; so is a command to a drive that is off line nothing at all. */
  lemma CommandsRefused(x: System, npages: nat)
    requires x.rig.drive.Valid()
    ensures !x.rig.drive.online ==> Start(x, npages) == Some(x)
    ensures x.rig.drive.online && x.regs.cmd % 16 == 9 && x.rig.drive.readOnly ==>
              Start(x, npages) == Some(x.(rig := x.rig.(drive := x.rig.drive.(fault := true))))
    ensures Start(x, npages).None? <==> x.rig.drive.online && x.regs.cmd % 16 in {1, 2, 3, 7, 10, 11, 12, 13, 14, 15}
  {
    hide SubmitXfer, Seek;
  }

  /** The reset command clears the registers and the error and request bits, and stays in effect until zero is stored. */
  lemma ResetClears(x: System)
    ensures var s, y := x.rig.status, StoreCommand(x, 0xE);
            && y.rig == x.rig.(status := Status(false, false, false, false, true, s.xbusInterrupt))
            && y.regs == Registers(0, 0, 0, true, false, false)
            && StoreCommand(y, 0) == y.(regs := y.regs.(resetCondition := false))
  {
  }

  /** Only the registers 0 to 3 exist. */
  lemma RegistersExist(x: System, npages: nat, offset: nat, v: Word)
    requires x.rig.drive.Valid()
    ensures offset > 3 ==> Store(x, npages, offset, v).None?
    ensures offset < 3 ==> Store(x, npages, offset, v).Some?
  {
  }

  /** Word j of page pn of memory, and of the block i after block `at`. */
  function Cell(m: Bank, pn: PageIndex, j: nat): Word
    requires j < 256
  {
    m[pn * 256 + j]
  }

  function BlockCell(blocks: seq<Page>, at: nat, i: nat, j: nat): Word
    requires at + i < |blocks| && j < 256
  {
    blocks[at + i][j]
  }

  lemma PageWord(m: Bank, pn: PageIndex, j: nat)
    requires j < 256
    ensures PageAt(m, pn)[j] == Cell(m, pn, j)
  {
  }

  /** The blocks from `at` on hold the words of these pages, and every other block is as it was. */
  ghost predicate BlocksHold(blocks: seq<Page>, before: seq<Page>, at: nat, m: Bank, pns: seq<PageIndex>) {
    && |blocks| == |before| && at + |pns| <= |blocks|
    && (forall i: nat, j: nat :: i < |pns| && j < 256 ==> BlockCell(blocks, at, i, j) == Cell(m, pns[i], j))
    && (forall b: nat :: b < |blocks| && !(at <= b < at + |pns|) ==> blocks[b] == before[b])
  }

  /** These pages of m hold the words of those pages of source, and every other word of m is as it was. */
  ghost predicate PagesHold(m: Bank, before: Bank, pns: seq<PageIndex>, source: Bank, from: seq<PageIndex>) {
    && |from| == |pns|
    && (forall i: nat, j: nat :: i < |pns| && j < 256 ==> Cell(m, pns[i], j) == Cell(source, from[i], j))
    && (forall a: nat :: a < 0x40_0000 && a / 256 !in pns ==> m[a] == before[a])
  }

  lemma StoredHold(before: seq<Page>, at: nat, m: Bank, pns: seq<PageIndex>)
    requires at + |pns| <= |before|
    ensures BlocksHold(StoreBlocks(before, at, Pages(m, pns)), before, at, m, pns)
  {
    hide PageAt, Cell;
    var blocks := StoreBlocks(before, at, Pages(m, pns));
    forall i: nat, j: nat | i < |pns| && j < 256 ensures BlockCell(blocks, at, i, j) == Cell(m, pns[i], j) {
      assert blocks[at + i] == PageAt(m, pns[i]);
      PageWord(m, pns[i], j);
    }
  }

  lemma LoadedHold(m: Bank, before: Bank, pns: seq<PageIndex>, source: Bank, from: seq<PageIndex>)
    requires |from| == |pns| && Pages(m, pns) == Pages(source, from)
    requires forall pn: PageIndex :: pn !in pns ==> PageAt(m, pn) == PageAt(before, pn)
    ensures PagesHold(m, before, pns, source, from)
  {
    hide PageAt;
    forall i: nat, j: nat | i < |pns| && j < 256 ensures Cell(m, pns[i], j) == Cell(source, from[i], j) {
      assert Pages(m, pns)[i] == PageAt(m, pns[i]) && Pages(source, from)[i] == PageAt(source, from[i]);
      PageWord(m, pns[i], j);
      PageWord(source, from[i], j);
    }
    forall a: nat | a < 0x40_0000 && a / 256 !in pns ensures m[a] == before[a] {
      assert PageAt(m, a / 256) == PageAt(before, a / 256);
      PageWord(m, a / 256, a % 256);
      PageWord(before, a / 256, a % 256);
      assert a / 256 * 256 + a % 256 == a;
    }
  }

  /**
   The disk round trip, from the registers. The program starts a write (command 9) with a list of
   pages at a position of the drive, and later a read (command 0) at the same position with a list
   of as many distinct pages outside that list. The blocks from the position on then hold the words
   of the first pages, memory holds them again in the second, no other block and no other word of
   memory changes, and the disk address is left at the last block.
   */
  lemma SessionRestores(x: System, npages: nat, clp: Word, pns: seq<PageIndex>, c: nat, h: nat, s: nat,
                        x2: System, clp2: Word, pns2: seq<PageIndex>)
    requires x.rig.drive.Valid() && x.rig.drive.online && !x.rig.drive.readOnly && !x.regs.resetCondition
    requires x2.rig.drive.Valid() && x2.rig.drive.online && !x2.regs.resetCondition && x2.rig.drive.geo == x.rig.drive.geo
    requires Exists(x.rig.drive.geo, c, h, s) && BlockAt(x.rig.drive.geo, c, h, s) + |pns| <= |x.rig.drive.blocks|
    requires Address(x.rig.drive.unit, c, h, s) < 0x1_0000_0000
    requires Listed(x.rig.memory, npages, clp, pns) && Listed(x2.rig.memory, npages, clp2, pns2) && |pns2| == |pns|
    requires Distinct(pns2) && forall p :: p in pns2 ==> ListOutside(clp2, |pns2|, p)
    requires var w := Issue(x, npages, clp, Address(x.rig.drive.unit, c, h, s), 9);
             w.Some? ==> x2.rig.drive.blocks == w.value.rig.drive.blocks
    ensures var at, da := BlockAt(x.rig.drive.geo, c, h, s), Address(x.rig.drive.unit, c, h, s);
            var w, r := Issue(x, npages, clp, da, 9), Issue(x2, npages, clp2, da, 0);
            && w.Some? && r.Some? && w.value.rig.memory == x.rig.memory
            && BlocksHold(w.value.rig.drive.blocks, x.rig.drive.blocks, at, x.rig.memory, pns)
            && PagesHold(r.value.rig.memory, x2.rig.memory, pns2, x.rig.memory, pns)
            && r.value.rig.drive.blocks == w.value.rig.drive.blocks && !w.value.rig.status.nxm && !r.value.rig.status.nxm
            && LeftAt(w.value.regs.da, x.rig.drive.unit, x.rig.drive.geo, at + |pns| - 1)
  {
    hide Issue, Loaded, Start, Listed, ListOutside, Distinct, BlockAt, Address, Exists, BlocksHold, PagesHold, LeftAt;
    hide DiskModel.Drive.Valid, DiskModel.Drive.OnTrack;
    var da := Address(x.rig.drive.unit, c, h, s);
    IssueStarts(x, npages, clp, da, 9);
    IssueStarts(x2, npages, clp2, da, 0);
    var y, y2 := Loaded(x, clp, da, 9), Loaded(x2, clp2, da, 0);
    StaysValid(x.rig, y.rig);
    StaysValid(x2.rig, y2.rig);
    StartRestores(y, npages, pns, c, h, s, y2, pns2);
  }

  lemma StaysValid(r: Rig, r': Rig)
    requires r.drive.Valid() && r'.drive == r.drive
    ensures r'.drive.Valid()
  {
  }

  /** The same from the loaded registers on. */
  lemma StartRestores(y: System, npages: nat, pns: seq<PageIndex>, c: nat, h: nat, s: nat, y2: System, pns2: seq<PageIndex>)
    requires y.rig.drive.Valid() && IsCommand(y, 9) && !y.rig.drive.readOnly && y2.rig.drive.Valid() && IsCommand(y2, 0)
    requires Exists(y.rig.drive.geo, c, h, s) && BlockAt(y.rig.drive.geo, c, h, s) + |pns| <= |y.rig.drive.blocks|
    requires y.regs.da == y2.regs.da == Address(y.rig.drive.unit, c, h, s) && y2.rig.drive.geo == y.rig.drive.geo
    requires Listed(y.rig.memory, npages, y.regs.clp, pns) && Listed(y2.rig.memory, npages, y2.regs.clp, pns2) && |pns2| == |pns|
    requires Distinct(pns2) && forall p :: p in pns2 ==> ListOutside(y2.regs.clp, |pns2|, p)
    requires Start(y, npages).Some? ==> y2.rig.drive.blocks == Start(y, npages).value.rig.drive.blocks
    ensures Start(y, npages).Some? && Start(y2, npages).Some?
    ensures var at, w, r := BlockAt(y.rig.drive.geo, c, h, s), Start(y, npages).value, Start(y2, npages).value;
            && w.rig.memory == y.rig.memory
            && BlocksHold(w.rig.drive.blocks, y.rig.drive.blocks, at, y.rig.memory, pns)
            && PagesHold(r.rig.memory, y2.rig.memory, pns2, y.rig.memory, pns)
            && r.rig.drive.blocks == w.rig.drive.blocks && !w.rig.status.nxm && !r.rig.status.nxm
            && LeftAt(w.regs.da, y.rig.drive.unit, y.rig.drive.geo, at + |pns| - 1)
  {
    hide Lba, TotalBlocks, BlockAt, Address, Exists, Listed, Chain, ListAvoids, ListOutside, Distinct, Pages, PageAt, StoreBlocks;
    hide BlocksHold, PagesHold, LeftAt, UnitOf, CylinderOf, HeadOf, SectorOf, Addresses, BlockOf, SubmitXfer, Transfer;
    hide DiskModel.Drive.Valid, DiskModel.Drive.OnTrack;
    AddressNames(y.rig.drive, c, h, s);
    StartsWriting(y, npages);
    StartsReading(y2, npages);
    hide Start;
    ListsAreChains(y, npages, pns);
    ListsAreChains(y2, npages, pns2);
    forall p | p in pns2 ensures ListAvoids(y2.regs.clp, 0, |pns2|, p) { OutsideAvoids(y2.regs.clp, |pns2|, p); }
    WriteThenReadRestores(y, npages, pns, y2, pns2);
    StoredHold(y.rig.drive.blocks, BlockAt(y.rig.drive.geo, c, h, s), y.rig.memory, pns);
    LoadedHold(Start(y2, npages).value.rig.memory, y2.rig.memory, pns2, y.rig.memory, pns);
    LeftAtIs(Start(y, npages).value.regs.da, y.rig.drive, BlockAt(y.rig.drive.geo, c, h, s) + |pns| - 1);
  }

  lemma AddressNames(d: Drive, c: nat, h: nat, s: nat)
    requires Exists(d.geo, c, h, s)
    ensures Address(d.unit, c, h, s) < 0x1_0000_0000
    ensures Addresses(d, Address(d.unit, c, h, s)) && BlockOf(d, Address(d.unit, c, h, s)) == BlockAt(d.geo, c, h, s)
  {
    AddressIsDecoded(d.unit, d.geo, c, h, s);
    hide Address, CylinderOf, HeadOf, SectorOf, Lba, BlockAt;
  }

  lemma ListsAreChains(y: System, npages: nat, pns: seq<PageIndex>)
    requires Listed(y.rig.memory, npages, y.regs.clp, pns)
    ensures 0 < |pns| <= 0x1_0000 && Chain(y.rig.memory, npages, y.regs.clp, 0, pns)
  {
    hide Chain, ListWord;
    ChainIff(y.rig.memory, npages, y.regs.clp, pns);
  }

  lemma OutsideAvoids(clp: Word, n: nat, p: PageIndex)
    requires ListOutside(clp, n, p) && n <= 0x1_0000
    ensures ListAvoids(clp, 0, n, p)
  {
    hide WordOutside;
    AvoidsFrom(clp, 0, n, p);
  }

  lemma StartsReading(y: System, npages: nat)
    requires y.rig.drive.Valid() && IsCommand(y, 0)
    ensures Start(y, npages).Some?
  {
    hide SubmitXfer;
  }

  lemma StartsWriting(y: System, npages: nat)
    requires y.rig.drive.Valid() && IsCommand(y, 9)
    ensures Start(y, npages).Some?
  {
    hide SubmitXfer;
  }

  /** A disk address that names this block of this unit. */
  predicate LeftAt(da: Word, unit: Unit8, g: Geometry, block: nat) {
    && da / 0x1000_0000 % 8 == unit && Exists(g, da / 0x1_0000 % 0x1000, da / 0x100 % 0x100, da % 0x100)
    && BlockAt(g, da / 0x1_0000 % 0x1000, da / 0x100 % 0x100, da % 0x100) == block
  }

  lemma LeftAtIs(da: Word, d: Drive, block: nat)
    requires Addresses(d, da) && BlockOf(d, da) == block && UnitOf(da) == d.unit
    ensures LeftAt(da, d.unit, d.geo, block)
  {
    LbaInBounds(d.geo, CylinderOf(da), HeadOf(da), SectorOf(da));
  }

  /** Some word of these pages differs from the word of the blocks from `at` on. */
  ghost predicate SomeWordDiffers(m: Bank, pns: seq<PageIndex>, blocks: seq<Page>, at: nat) {
    at + |pns| <= |blocks| && exists i: nat, j: nat :: i < |pns| && j < 256 && Cell(m, pns[i], j) != BlockCell(blocks, at, i, j)
  }

  lemma MatchesByWords(m: Bank, pns: seq<PageIndex>, blocks: seq<Page>, at: nat)
    requires at + |pns| <= |blocks|
    ensures Matches(m, pns, blocks, at) <==> !SomeWordDiffers(m, pns, blocks, at)
  {
    hide PageAt, Cell;
    var pages, bs := Pages(m, pns), BlocksFrom(blocks, at, |pns|);
    if !SomeWordDiffers(m, pns, blocks, at) {
      forall i: nat | i < |pns| ensures pages[i] == bs[i] {
        forall j: nat | j < 256 ensures pages[i][j] == bs[i][j] {
          PageWord(m, pns[i], j);
          assert Cell(m, pns[i], j) == BlockCell(blocks, at, i, j);
        }
      }
    } else {
      var i: nat, j: nat :| i < |pns| && j < 256 && Cell(m, pns[i], j) != BlockCell(blocks, at, i, j);
      PageWord(m, pns[i], j);
      assert pages[i] != bs[i];
    }
  }

  /**
   A read-compare command over a list given word by word reports a difference exactly when some
   word of its pages differs from the block it is compared with, and changes nothing else.
   */
  lemma CompareReports(x: System, npages: nat, pns: seq<PageIndex>, c: nat, h: nat, s: nat)
    requires x.rig.drive.Valid() && IsCommand(x, 8) && x.regs.da == Address(x.rig.drive.unit, c, h, s)
    requires Exists(x.rig.drive.geo, c, h, s) && BlockAt(x.rig.drive.geo, c, h, s) + |pns| <= |x.rig.drive.blocks|
    requires Listed(x.rig.memory, npages, x.regs.clp, pns)
    ensures Start(x, npages).Some?
    ensures var y := Start(x, npages).value;
            && y.rig.drive.blocks == x.rig.drive.blocks && y.rig.memory == x.rig.memory
            && !y.rig.status.nxm && !y.rig.status.ccwCycle
            && (y.rig.status.compareDifference <==>
                SomeWordDiffers(x.rig.memory, pns, x.rig.drive.blocks, BlockAt(x.rig.drive.geo, c, h, s)))
  {
    hide Transfer, Trace, SubmitXfer, Positioned, Addresses, BlockOf, Listed, Chain, SomeWordDiffers, Matches, Address, Exists, BlockAt;
    hide DiskModel.Drive.Valid, DiskModel.Drive.OnTrack;
    AddressNames(x.rig.drive, c, h, s);
    assert Start(x, npages) == Some(SubmitXfer(x, npages, ReadCompare));
    hide Start;
    SubmitStartsAt(x, npages, ReadCompare);
    ListsAreChains(x, npages, pns);
    var r := Positioned(x);
    TraceOfChain(r, npages, ReadCompare, x.regs.clp, 0, pns);
    TransferEnds(r, npages, ReadCompare, x.regs.clp, 0);
    TransferStatus(r, npages, ReadCompare, x.regs.clp, 0);
    CompareFindsDifference(r, npages, x.regs.clp, 0);
    MatchesByWords(x.rig.memory, pns, x.rig.drive.blocks, BlockAt(x.rig.drive.geo, c, h, s));
  }
}

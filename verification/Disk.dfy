/**
 A Trident drive as a value: its blocks, a position in cylinder, head and sector that a
 mixed-radix counter advances, and the transfer that a chain of command words in memory drives.
 */
module DiskModel {
  import opened Words
  import opened PhysicalMemory

  datatype Geometry = T80 | T300

  const CYLINDERS := 815
  const BLOCKS_PER_TRACK := 17

  function Heads(g: Geometry): nat { if g.T80? then 5 else 19 }

  /** The block number of a position; a cylinder holds Heads * BLOCKS_PER_TRACK blocks. */
  function Lba(g: Geometry, cylinder: nat, head: nat, sector: nat): nat {
    (if g.T80? then cylinder * (5 * 17) else cylinder * (19 * 17)) + head * 17 + sector
  }

  function TotalBlocks(g: Geometry): nat { if g.T80? then 815 * 5 * 17 else 815 * 19 * 17 }

  type Unit8 = x: int | 0 <= x < 8

  datatype Drive = Drive(
    geo: Geometry, unit: Unit8, online: bool, readOnly: bool, blocks: seq<Page>,
    cylinder: nat, head: nat, sector: nat, lba: nat,
    seekError: bool, fault: bool, attention: bool, lastAddress: Word)
  {
    predicate OnTrack() {
      cylinder < CYLINDERS && head < Heads(geo) && sector < BLOCKS_PER_TRACK && lba == Lba(geo, cylinder, head, sector)
    }

    /** What Configure establishes for a mounted pack and every operation keeps. */
    predicate Valid() { online ==> |blocks| == TotalBlocks(geo) && OnTrack() }
  }

  // ----- positioning -----

  function Seek(d: Drive, cylinder: nat, head: nat, sector: nat): (bool, Drive) {
    if cylinder == d.cylinder && head == d.head && sector == d.sector then (true, d)
    else if cylinder >= CYLINDERS || head >= Heads(d.geo) || sector >= BLOCKS_PER_TRACK then (false, d.(seekError := true))
    else (true, d.(cylinder := cylinder, head := head, sector := sector, lba := Lba(d.geo, cylinder, head, sector)))
  }

  function SeekNext(d: Drive): (bool, Drive) {
    if d.sector + 1 != BLOCKS_PER_TRACK then Seek(d, d.cylinder, d.head, d.sector + 1)
    else if d.head + 1 != Heads(d.geo) then Seek(d, d.cylinder, d.head + 1, 0)
    else Seek(d, d.cylinder + 1, 0, 0)
  }

  /** Positions and block numbers correspond one to one. */
  lemma LbaIsOneToOne(g: Geometry, c: nat, h: nat, s: nat, c': nat, h': nat, s': nat)
    requires c < CYLINDERS && h < Heads(g) && s < BLOCKS_PER_TRACK
    requires c' < CYLINDERS && h' < Heads(g) && s' < BLOCKS_PER_TRACK
    ensures Lba(g, c, h, s) < TotalBlocks(g)
    ensures Lba(g, c, h, s) == Lba(g, c', h', s') <==> c == c' && h == h' && s == s'
  {
    LbaInBounds(g, c, h, s);
    TracksAreApart(c * Heads(g) + h, s, c' * Heads(g) + h', s');
    if g.T80? { CylindersApart80(c, h, c', h'); } else { CylindersApart300(c, h, c', h'); }
  }

  lemma LbaInBounds(g: Geometry, c: nat, h: nat, s: nat)
    requires c < CYLINDERS && h < Heads(g) && s < BLOCKS_PER_TRACK
    ensures Lba(g, c, h, s) < TotalBlocks(g) && Lba(g, c, h, s) == (c * Heads(g) + h) * 17 + s
  {
  }

  lemma TracksAreApart(t: nat, s: nat, t': nat, s': nat)
    requires s < 17 && s' < 17
    ensures t * 17 + s == t' * 17 + s' <==> t == t' && s == s'
  {
  }

  lemma CylindersApart80(c: nat, h: nat, c': nat, h': nat)
    requires h < 5 && h' < 5
    ensures c * 5 + h == c' * 5 + h' <==> c == c' && h == h'
  {
  }

  lemma CylindersApart300(c: nat, h: nat, c': nat, h': nat)
    requires h < 19 && h' < 19
    ensures c * 19 + h == c' * 19 + h' <==> c == c' && h == h'
  {
  }

  lemma LbaInRange(d: Drive)
    requires d.Valid() && d.online
    ensures d.lba < |d.blocks|
  {
    LbaInBounds(d.geo, d.cylinder, d.head, d.sector);
    hide Lba, TotalBlocks;
  }

  /**
   The counter is exact: the next position is the block after this one, unless this is the last
   block, and then the drive reports a seek error and stays.
   */
  lemma SeekNextIsSuccessor(d: Drive)
    requires d.online && d.Valid()
    ensures var (ok, d') := SeekNext(d);
            && d'.Valid() && (ok <==> d.lba + 1 < |d.blocks|)
            && (ok ==> d' == d.(cylinder := d'.cylinder, head := d'.head, sector := d'.sector, lba := d.lba + 1))
            && (!ok ==> d' == d.(seekError := true))
  {
    var g, c, h, s := d.geo, d.cylinder, d.head, d.sector;
    LbaSteps(g, c, h, s);
    hide Lba, TotalBlocks;
  }

  /** The three ways the counter steps, and where the last block is. */
  lemma LbaSteps(g: Geometry, c: nat, h: nat, s: nat)
    requires c < CYLINDERS && h < Heads(g) && s < BLOCKS_PER_TRACK
    ensures Lba(g, c, h, s + 1) == Lba(g, c, h, s) + 1
    ensures s + 1 == BLOCKS_PER_TRACK ==> Lba(g, c, h + 1, 0) == Lba(g, c, h, s) + 1
    ensures s + 1 == BLOCKS_PER_TRACK && h + 1 == Heads(g) ==> Lba(g, c + 1, 0, 0) == Lba(g, c, h, s) + 1
    ensures Lba(g, c, h, s) + 1 <= TotalBlocks(g)
    ensures Lba(g, c, h, s) + 1 == TotalBlocks(g) <==> c + 1 == CYLINDERS && h + 1 == Heads(g) && s + 1 == BLOCKS_PER_TRACK
  {
  }

  lemma SeekKeepsValid(d: Drive, cylinder: nat, head: nat, sector: nat)
    requires d.Valid()
    ensures var (ok, d') := Seek(d, cylinder, head, sector);
            && d'.Valid()
            && (d.online ==> (ok <==> cylinder < CYLINDERS && head < Heads(d.geo) && sector < BLOCKS_PER_TRACK))
            && (d.online && ok ==> d'.lba == Lba(d.geo, cylinder, head, sector))
            && d' == d.(cylinder := d'.cylinder, head := d'.head, sector := d'.sector, lba := d'.lba, seekError := d'.seekError)
  {
  }

  // ----- disk addresses -----

  /** The disk address of a position on a unit. */
  function DaAt(unit: Unit8, cylinder: nat, head: nat, sector: nat): nat {
    var u: nat := unit;
    u * 0x1000_0000 + cylinder * 0x1_0000 + head * 0x100 + sector
  }

  function Da(d: Drive): nat { DaAt(d.unit, d.cylinder, d.head, d.sector) }

  function UnitOf(da: Word): Unit8 { da / 0x1000_0000 % 8 }
  function CylinderOf(da: Word): nat { da / 0x1_0000 % 0x1000 }
  function HeadOf(da: Word): nat { da / 0x100 % 0x100 }
  function SectorOf(da: Word): nat { da % 0x100 }

  /** The disk address that a drive reports decodes to its unit and position. */
  lemma DaRoundTrip(d: Drive)
    requires d.OnTrack()
    ensures Da(d) < 0x1_0000_0000
    ensures UnitOf(Da(d)) == d.unit && CylinderOf(Da(d)) == d.cylinder && HeadOf(Da(d)) == d.head && SectorOf(Da(d)) == d.sector
  {
    var u: nat := d.unit;
    DaDigits(u, d.cylinder, d.head, d.sector);
  }

  lemma DaDigits(u: nat, c: nat, h: nat, s: nat)
    requires u < 8 && c < 0x1000 && h < 0x100 && s < 0x100
    ensures var da := u * 0x1000_0000 + c * 0x1_0000 + h * 0x100 + s;
            da / 0x1000_0000 % 8 == u && da / 0x1_0000 % 0x1000 == c && da / 0x100 % 0x100 == h && da % 0x100 == s
  {
  }

  // ----- blocks -----

  function ReadBlock(d: Drive): Option<Page> { if d.lba < |d.blocks| then Some(d.blocks[d.lba]) else None }

  function WriteBlock(d: Drive, p: Page): Option<Drive> {
    if d.lba < |d.blocks| then Some(d.(blocks := d.blocks[d.lba := p])) else None
  }
}

/**
 The transfers of the disk controller, driven by a chain of command words that lie in the
 memory being transferred to.
 */
module DiskTransfer {
  import opened Words
  import opened PhysicalMemory
  import opened DiskModel

  type PageIndex = x: int | 0 <= x < 0x4000

  datatype Mode = Read | ReadCompare | Write

  datatype Status = Status(
    compareDifference: bool, ccwCycle: bool, nxm: bool, interruptRequest: bool, notActive: bool, xbusInterrupt: bool)

  /** What a transfer works on. */
  datatype Rig = Rig(memory: Bank, drive: Drive, status: Status)

  function CcwAddress(clp: Word, offset: Half): Word {
    var a: int, b: int := clp, offset;
    Wrap32(a + b)
  }

  /** The command word at this offset of the list. */
  function CcwAt(m: Bank, clp: Word, offset: Half): Word {
    if CcwAddress(clp, offset) < 0x40_0000 then m[CcwAddress(clp, offset)] else 0
  }

  /** The page address in a command word. */
  function PageAddress(ccw: Word): (a: Word)
    ensures a + 255 < 0x1_0000_0000
  {
    ccw % 0x100_0000 / 0x100 * 0x100
  }
  function CcwPage(ccw: Word): (pn: nat)
    ensures pn < 0x4000
  {
    PageNumber(PageAddress(ccw))
  }
  predicate More(ccw: Word) { ccw % 2 == 1 }
  function NextOffset(offset: Half): Half {
    var o: int := offset;
    (o + 1) % 0x1_0000
  }

  function NonexistentMemory(r: Rig): Rig { r.(status := r.status.(nxm := true)) }
  function Fault(r: Rig): Rig { r.(drive := r.drive.(fault := true)) }
  function Addressed(r: Rig, a: Word): Rig { r.(drive := r.drive.(lastAddress := a)) }

  /** One block between the drive and the page at paddr. */
  function MoveBlock(r: Rig, npages: nat, mode: Mode, paddr: Word): (bool, Rig)
    requires paddr + 255 < 0x1_0000_0000
  {
    match mode
    case Read =>
      if ReadBlock(r.drive).None? then (false, Fault(r))
      else if WritePage(r.memory, npages, paddr, ReadBlock(r.drive).value).None? then (false, NonexistentMemory(Addressed(r, paddr)))
      else (true, Addressed(r, paddr + 255).(memory := WritePage(r.memory, npages, paddr, ReadBlock(r.drive).value).value))
    case ReadCompare =>
      if ReadBlock(r.drive).None? then (false, Fault(r))
      else if ReadPage(r.memory, npages, paddr).None? then (false, NonexistentMemory(Addressed(r, paddr)))
      else
        var differ := ReadBlock(r.drive) != ReadPage(r.memory, npages, paddr);
        (true, Addressed(r, paddr + 255).(status := r.status.(compareDifference := r.status.compareDifference || differ)))
    case Write =>
      if ReadPage(r.memory, npages, paddr).None? then (false, NonexistentMemory(Addressed(r, paddr)))
      else
        var r' := Addressed(r, paddr + 255);
        var written := WriteBlock(r'.drive, ReadPage(r.memory, npages, paddr).value);
        if written.None? then (false, Fault(r')) else (true, r'.(drive := written.value))
  }

  lemma MoveKeepsPlace(r: Rig, npages: nat, mode: Mode, paddr: Word)
    requires r.drive.Valid() && r.drive.online && paddr + 255 < 0x1_0000_0000
    ensures var (ok, r') := MoveBlock(r, npages, mode, paddr);
            && (ok <==> PageNumber(paddr) < npages)
            && r'.drive == r.drive.(blocks := r'.drive.blocks, lastAddress := r'.drive.lastAddress)
            && |r'.drive.blocks| == |r.drive.blocks| && r'.drive.Valid()
            && r'.status == r.status.(nxm := r'.status.nxm, compareDifference := r'.status.compareDifference)
            && r'.status.nxm == (r.status.nxm || !ok)
  {
    hide PageAt, WithPage, PageNumber, Lba, TotalBlocks, DiskModel.Drive.Valid, DiskModel.Drive.OnTrack;
    LbaInRange(r.drive);
    MoveOutcome(r, npages, mode, paddr);
    hide MoveBlock;
    KeptPlace(r.drive, MoveBlock(r, npages, mode, paddr).1.drive);
  }

  /** What a move of one block keeps. */
  predicate Moved(r: Rig, r': Rig, ok: bool) {
    && r'.drive == r.drive.(blocks := r'.drive.blocks, lastAddress := r'.drive.lastAddress)
    && |r'.drive.blocks| == |r.drive.blocks|
    && r'.status == r.status.(nxm := r'.status.nxm, compareDifference := r'.status.compareDifference)
    && r'.status.nxm == (r.status.nxm || !ok)
  }

  lemma MoveOutcome(r: Rig, npages: nat, mode: Mode, paddr: Word)
    requires r.drive.online && paddr + 255 < 0x1_0000_0000 && r.drive.lba < |r.drive.blocks|
    ensures var (ok, r') := MoveBlock(r, npages, mode, paddr); (ok <==> PageNumber(paddr) < npages) && Moved(r, r', ok)
  {
    hide PageAt, WithPage, PageNumber, Moved;
    match mode {
      case Read => ReadOutcome(r, npages, paddr);
      case ReadCompare => CompareOutcome(r, npages, paddr);
      case Write => WriteOutcome(r, npages, paddr);
    }
    hide MoveBlock;
  }

  lemma ReadOutcome(r: Rig, npages: nat, paddr: Word)
    requires r.drive.online && paddr + 255 < 0x1_0000_0000 && r.drive.lba < |r.drive.blocks|
    ensures var (ok, r') := MoveBlock(r, npages, Read, paddr); (ok <==> PageNumber(paddr) < npages) && Moved(r, r', ok)
  {
    hide PageAt, WithPage, PageNumber;
  }

  lemma CompareOutcome(r: Rig, npages: nat, paddr: Word)
    requires r.drive.online && paddr + 255 < 0x1_0000_0000 && r.drive.lba < |r.drive.blocks|
    ensures var (ok, r') := MoveBlock(r, npages, ReadCompare, paddr); (ok <==> PageNumber(paddr) < npages) && Moved(r, r', ok)
  {
    hide PageAt, WithPage, PageNumber;
  }

  lemma WriteOutcome(r: Rig, npages: nat, paddr: Word)
    requires r.drive.online && paddr + 255 < 0x1_0000_0000 && r.drive.lba < |r.drive.blocks|
    ensures var (ok, r') := MoveBlock(r, npages, Write, paddr); (ok <==> PageNumber(paddr) < npages) && Moved(r, r', ok)
  {
    hide PageAt, WithPage, PageNumber;
  }

  lemma KeptPlace(d: DiskModel.Drive, d': DiskModel.Drive)
    requires d.Valid()
    ensures d' == d.(blocks := d'.blocks, lastAddress := d'.lastAddress) && |d'.blocks| == |d.blocks| ==> d'.Valid()
  {
    hide Lba, TotalBlocks;
  }

  /** How a round of a transfer leaves it. */
  datatype Progress = Finished | Failed | Onward

  /** Obey a command word: move its block, and step to the next block if there are more words. */
  function ObeyCcw(r: Rig, npages: nat, mode: Mode, ccw: Word): (result: (Rig, Progress))
    requires r.drive.Valid() && r.drive.online
    ensures result.0.drive.Valid() && result.0.drive.online && |result.0.drive.blocks| == |r.drive.blocks|
    ensures result.1.Onward? ==> result.0.drive.lba == r.drive.lba + 1 < |r.drive.blocks|
  {
    MoveKeepsPlace(r, npages, mode, PageAddress(ccw));
    var (ok, r') := MoveBlock(r, npages, mode, PageAddress(ccw));
    if !ok then (r', Failed)
    else if !More(ccw) then (r', Finished)
    else
      SeekNextIsSuccessor(r'.drive);
      var (sought, d) := SeekNext(r'.drive);
      (r'.(drive := d), if sought then Onward else Failed)
  }

  /** The command cycle: fetch the command word at this offset, and obey it. */
  function TransferRound(r: Rig, npages: nat, mode: Mode, clp: Word, offset: Half): (result: (Rig, Progress))
    requires r.drive.Valid() && r.drive.online
    ensures result.0.drive.Valid() && result.0.drive.online && |result.0.drive.blocks| == |r.drive.blocks|
    ensures result.1.Onward? ==> result.0.drive.lba == r.drive.lba + 1 < |r.drive.blocks|
  {
    var r0 := Addressed(r, CcwAddress(clp, offset));
    if !Populated(npages, CcwAddress(clp, offset)) then (r0.(status := r0.status.(ccwCycle := true, nxm := true)), Failed)
    else ObeyCcw(r0.(status := r0.status.(ccwCycle := false)), npages, mode, CcwAt(r.memory, clp, offset))
  }

  /** The transfer from the command word at this offset on; it ends because the drive runs out of blocks. */
  function Transfer(r: Rig, npages: nat, mode: Mode, clp: Word, offset: Half): (bool, Rig)
    requires r.drive.Valid() && r.drive.online
    decreases |r.drive.blocks| - r.drive.lba
  {
    var (r', progress) := TransferRound(r, npages, mode, clp, offset);
    if progress.Onward? then Transfer(r', npages, mode, clp, NextOffset(offset)) else (progress.Finished?, r')
  }

  /** Of the controller's status a transfer changes only the bits of its own errors, and a comparison only in a read-compare. */
  lemma {:induction false} TransferStatus(r: Rig, npages: nat, mode: Mode, clp: Word, offset: Half)
    requires r.drive.Valid() && r.drive.online
    ensures var (ok, e) := Transfer(r, npages, mode, clp, offset);
            && e.status == r.status.(nxm := e.status.nxm, ccwCycle := e.status.ccwCycle, compareDifference := e.status.compareDifference)
            && (!mode.ReadCompare? ==> e.status.compareDifference == r.status.compareDifference)
            && (ok ==> !e.status.ccwCycle) && (e.status.ccwCycle ==> e.status.nxm)
    decreases |r.drive.blocks| - r.drive.lba
  {
    LbaInRange(r.drive);
    hide Transfer, Trace, AfterOne, PageAt, WithPage, Lba, TotalBlocks, CcwPage, CcwAt, Populated;
    if !Obeyed(r, npages, clp, offset) {
      TransferFails(r, npages, mode, clp, offset);
    } else {
      TransferStep(r, npages, mode, clp, offset);
      if More(CcwAt(r.memory, clp, offset)) && r.drive.lba + 1 < |r.drive.blocks| {
        TransferStatus(AfterOne(r, npages, mode, clp, offset), npages, mode, clp, NextOffset(offset));
      }
    }
  }

  // ----- what a transfer has moved -----

  /** The command word at this offset exists, and so does its page. */
  predicate Obeyed(r: Rig, npages: nat, clp: Word, offset: Half) {
    Populated(npages, CcwAddress(clp, offset)) && CcwPage(CcwAt(r.memory, clp, offset)) < npages
  }

  /** The pages of the command words that a transfer has obeyed, in order. */
  function Trace(r: Rig, npages: nat, mode: Mode, clp: Word, offset: Half): seq<PageIndex>
    requires r.drive.Valid() && r.drive.online
    decreases |r.drive.blocks| - r.drive.lba
  {
    if !Obeyed(r, npages, clp, offset) then []
    else
      var (r', progress) := TransferRound(r, npages, mode, clp, offset);
      [CcwPage(CcwAt(r.memory, clp, offset))]
      + (if progress.Onward? then Trace(r', npages, mode, clp, NextOffset(offset)) else [])
  }

  function Pages(m: Bank, pns: seq<PageIndex>): (ps: seq<Page>)
    ensures |ps| == |pns|
  {
    seq(|pns|, i requires 0 <= i < |pns| => PageAt(m, pns[i]))
  }

  /** The blocks with `data` stored from `at` on. */
  function StoreBlocks(blocks: seq<Page>, at: nat, data: seq<Page>): (bs: seq<Page>)
    requires at + |data| <= |blocks|
    ensures |bs| == |blocks|
  {
    blocks[..at] + data + blocks[at + |data|..]
  }

  /** Memory after `data` has been stored into these pages, one after another. */
  function LoadPages(m: Bank, pns: seq<PageIndex>, data: seq<Page>): Bank
    requires |data| == |pns|
    decreases |pns|
  {
    if pns == [] then m else LoadPages(WithPage(m, pns[0], data[0]), pns[1..], data[1..])
  }

  /** What one successful move does. */
  lemma MoveEffect(r: Rig, npages: nat, mode: Mode, paddr: Word)
    requires r.drive.Valid() && r.drive.online && paddr + 255 < 0x1_0000_0000 && PageNumber(paddr) < npages
    ensures r.drive.lba < |r.drive.blocks|
    ensures var r', p := MoveBlock(r, npages, mode, paddr).1, PageAt(r.memory, PageNumber(paddr));
            && (mode.Write? ==> r'.memory == r.memory && r'.drive.blocks == r.drive.blocks[r.drive.lba := p])
            && (!mode.Write? ==> r'.drive.blocks == r.drive.blocks)
            && (mode.Read? ==> r'.memory == WithPage(r.memory, PageNumber(paddr), r.drive.blocks[r.drive.lba]))
            && (mode.ReadCompare? ==> r'.memory == r.memory)
            && r'.status.compareDifference
               == (r.status.compareDifference || (mode.ReadCompare? && r.drive.blocks[r.drive.lba] != p))
  {
    LbaInRange(r.drive);
    hide PageAt, WithPage, PageNumber, Lba, TotalBlocks;
  }

  /** The rig after a block has moved and the drive has stepped on. */
  function AfterMove(r: Rig, npages: nat, mode: Mode, ccw: Word): Rig {
    var r' := MoveBlock(r, npages, mode, PageAddress(ccw)).1;
    r'.(drive := SeekNext(r'.drive).1)
  }

  /** The rig after the command word at this offset has been obeyed and the drive has stepped on. */
  function AfterOne(r: Rig, npages: nat, mode: Mode, clp: Word, offset: Half): Rig {
    AfterMove(Addressed(r, CcwAddress(clp, offset)).(status := r.status.(ccwCycle := false)), npages, mode, CcwAt(r.memory, clp, offset))
  }

  /** How obeying a word goes on, when its page exists. */
  lemma ObeyLinks(r: Rig, npages: nat, mode: Mode, ccw: Word)
    requires r.drive.Valid() && r.drive.online && CcwPage(ccw) < npages
    ensures var r', (e, progress) := AfterMove(r, npages, mode, ccw), ObeyCcw(r, npages, mode, ccw);
            && r'.drive.Valid() && r'.drive.online && |r'.drive.blocks| == |r.drive.blocks|
            && (r.drive.lba + 1 < |r.drive.blocks| ==> r'.drive.lba == r.drive.lba + 1)
            && (More(ccw) ==> e == r' && progress == if r.drive.lba + 1 < |r.drive.blocks| then Onward else Failed)
            && (!More(ccw) ==> progress == Finished && e.memory == r'.memory && e.status == r'.status && e.drive.blocks == r'.drive.blocks
                               && e.drive == r.drive.(blocks := e.drive.blocks, lastAddress := e.drive.lastAddress))
  {
    hide PageAt, WithPage, PageNumber, MoveBlock, SeekNext, Lba, TotalBlocks, DiskModel.Drive.Valid, DiskModel.Drive.OnTrack;
    MoveKeepsPlace(r, npages, mode, PageAddress(ccw));
    SeekNextIsSuccessor(MoveBlock(r, npages, mode, PageAddress(ccw)).1.drive);
  }

  /** What one obeyed word of the chain does. */
  lemma WordEffect(r: Rig, npages: nat, mode: Mode, clp: Word, offset: Half)
    requires r.drive.Valid() && r.drive.online && Populated(npages, CcwAddress(clp, offset))
    requires CcwPage(CcwAt(r.memory, clp, offset)) < npages
    ensures var ccw, lba, d := CcwAt(r.memory, clp, offset), r.drive.lba, r.drive;
            var r', p := AfterOne(r, npages, mode, clp, offset), PageAt(r.memory, CcwPage(ccw));
            && lba < |d.blocks| && |r'.drive.blocks| == |d.blocks| && r'.drive.Valid()
            && (mode.Write? ==> r'.memory == r.memory && r'.drive.blocks == d.blocks[lba := p])
            && (!mode.Write? ==> r'.drive.blocks == d.blocks)
            && (mode.Read? ==> r'.memory == WithPage(r.memory, CcwPage(ccw), d.blocks[lba]))
            && (mode.ReadCompare? ==> r'.memory == r.memory)
            && r'.status == r.status.(ccwCycle := false,
                                      compareDifference := r.status.compareDifference || (mode.ReadCompare? && d.blocks[lba] != p))
            && r'.drive == d.(blocks := r'.drive.blocks, lastAddress := r'.drive.lastAddress,
                              cylinder := r'.drive.cylinder, head := r'.drive.head, sector := r'.drive.sector,
                              lba := r'.drive.lba, seekError := r'.drive.seekError)
            && (lba + 1 < |d.blocks| ==> r'.drive.lba == lba + 1)
            && (lba + 1 == |d.blocks| ==> r'.drive.lba == lba && r'.drive.seekError)
  {
    hide PageAt, WithPage, PageNumber, MoveBlock, SeekNext, Lba, TotalBlocks, DiskModel.Drive.Valid, DiskModel.Drive.OnTrack;
    var current := CcwAddress(clp, offset);
    var r1 := Addressed(r, current).(status := r.status.(ccwCycle := false));
    KeptPlace(r.drive, r1.drive);
    var paddr := PageAddress(r.memory[current]);
    MoveKeepsPlace(r1, npages, mode, paddr);
    MoveEffect(r1, npages, mode, paddr);
    var r2 := MoveBlock(r1, npages, mode, paddr).1;
    SeekNextIsSuccessor(r2.drive);
  }

  /** Its outcome, and the transfer from the next word on. */
  lemma WordLinks(r: Rig, npages: nat, mode: Mode, clp: Word, offset: Half)
    requires r.drive.Valid() && r.drive.online && Populated(npages, CcwAddress(clp, offset))
    requires CcwPage(CcwAt(r.memory, clp, offset)) < npages
    ensures AfterOne(r, npages, mode, clp, offset).drive.Valid() && AfterOne(r, npages, mode, clp, offset).drive.online
    ensures |AfterOne(r, npages, mode, clp, offset).drive.blocks| == |r.drive.blocks|
    ensures r.drive.lba + 1 < |r.drive.blocks| ==> AfterOne(r, npages, mode, clp, offset).drive.lba == r.drive.lba + 1
    ensures var ccw, r' := CcwAt(r.memory, clp, offset), AfterOne(r, npages, mode, clp, offset);
            if More(ccw) && r.drive.lba + 1 < |r.drive.blocks| then
              && Transfer(r, npages, mode, clp, offset) == Transfer(r', npages, mode, clp, NextOffset(offset))
              && Trace(r, npages, mode, clp, offset) == [CcwPage(ccw)] + Trace(r', npages, mode, clp, NextOffset(offset))
            else
              && Trace(r, npages, mode, clp, offset) == [CcwPage(ccw)]
              && Transfer(r, npages, mode, clp, offset).0 == !More(ccw)
              && (More(ccw) ==> Transfer(r, npages, mode, clp, offset).1 == r')
              && (!More(ccw) ==> var (_, e) := Transfer(r, npages, mode, clp, offset);
                    e.memory == r'.memory && e.status == r'.status && e.drive.blocks == r'.drive.blocks
                    && e.drive.Valid() && e.drive == r.drive.(blocks := e.drive.blocks, lastAddress := e.drive.lastAddress))
  {
    hide AfterMove, ObeyCcw, CcwAt, CcwPage, Populated, More, DiskModel.Drive.Valid, DiskModel.Drive.OnTrack;
    var r1 := Addressed(r, CcwAddress(clp, offset)).(status := r.status.(ccwCycle := false));
    KeptPlace(r.drive, r1.drive);
    ObeyLinks(r1, npages, mode, CcwAt(r.memory, clp, offset));
  }

  /** One word of the chain: its outcome, and the transfer from the next word on. */
  lemma TransferStep(r: Rig, npages: nat, mode: Mode, clp: Word, offset: Half)
    requires r.drive.Valid() && r.drive.online && Populated(npages, CcwAddress(clp, offset))
    requires CcwPage(CcwAt(r.memory, clp, offset)) < npages
    ensures var ccw, lba, d := CcwAt(r.memory, clp, offset), r.drive.lba, r.drive;
            var r', p := AfterOne(r, npages, mode, clp, offset), PageAt(r.memory, CcwPage(ccw));
            && lba < |d.blocks| && |r'.drive.blocks| == |d.blocks| && r'.drive.Valid()
            && (mode.Write? ==> r'.memory == r.memory && r'.drive.blocks == d.blocks[lba := p])
            && (!mode.Write? ==> r'.drive.blocks == d.blocks)
            && (mode.Read? ==> r'.memory == WithPage(r.memory, CcwPage(ccw), d.blocks[lba]))
            && (mode.ReadCompare? ==> r'.memory == r.memory)
            && r'.status == r.status.(ccwCycle := false,
                                      compareDifference := r.status.compareDifference || (mode.ReadCompare? && d.blocks[lba] != p))
            && r'.drive == d.(blocks := r'.drive.blocks, lastAddress := r'.drive.lastAddress,
                              cylinder := r'.drive.cylinder, head := r'.drive.head, sector := r'.drive.sector,
                              lba := r'.drive.lba, seekError := r'.drive.seekError)
            && (lba + 1 < |d.blocks| ==> r'.drive.lba == lba + 1)
            && (lba + 1 == |d.blocks| ==> r'.drive.lba == lba && r'.drive.seekError)
    ensures var ccw, r' := CcwAt(r.memory, clp, offset), AfterOne(r, npages, mode, clp, offset);
            if More(ccw) && r.drive.lba + 1 < |r.drive.blocks| then
              && Transfer(r, npages, mode, clp, offset) == Transfer(r', npages, mode, clp, NextOffset(offset))
              && Trace(r, npages, mode, clp, offset) == [CcwPage(ccw)] + Trace(r', npages, mode, clp, NextOffset(offset))
            else
              && Trace(r, npages, mode, clp, offset) == [CcwPage(ccw)]
              && Transfer(r, npages, mode, clp, offset).0 == !More(ccw)
              && (More(ccw) ==> Transfer(r, npages, mode, clp, offset).1 == r')
              && (!More(ccw) ==> var (_, e) := Transfer(r, npages, mode, clp, offset);
                    e.memory == r'.memory && e.status == r'.status && e.drive.blocks == r'.drive.blocks
                    && e.drive.Valid() && e.drive == r.drive.(blocks := e.drive.blocks, lastAddress := e.drive.lastAddress))
  {
    hide Transfer, Trace, AfterOne, PageAt, WithPage, Lba, TotalBlocks, CcwPage, CcwAt, Populated, More;
    hide DiskModel.Drive.Valid, DiskModel.Drive.OnTrack;
    WordEffect(r, npages, mode, clp, offset);
    WordLinks(r, npages, mode, clp, offset);
  }

  /** A command word or a page that does not exist ends the transfer at once. */
  lemma TransferFails(r: Rig, npages: nat, mode: Mode, clp: Word, offset: Half)
    requires r.drive.Valid() && r.drive.online && !Obeyed(r, npages, clp, offset)
    ensures Trace(r, npages, mode, clp, offset) == []
    ensures var (ok, e) := Transfer(r, npages, mode, clp, offset);
            && !ok && e.memory == r.memory && e.drive == r.drive.(lastAddress := e.drive.lastAddress)
            && e.status == r.status.(nxm := true, ccwCycle := !Populated(npages, CcwAddress(clp, offset)))
  {
    hide PageAt, WithPage, PageNumber, Lba, TotalBlocks, SeekNext;
    LbaInRange(r.drive);
  }

  /**
   How any transfer ends, whatever memory holds: the drive is on track, at most the rest of the
   disk has moved, and the position tells how much. There is no fault, and failure has two causes.
   */
  lemma {:induction false} TransferEnds(r: Rig, npages: nat, mode: Mode, clp: Word, offset: Half)
    requires r.drive.Valid() && r.drive.online && !r.status.nxm
    ensures var ((ok, e), t) := (Transfer(r, npages, mode, clp, offset), Trace(r, npages, mode, clp, offset));
            && e.drive.Valid() && |t| <= |r.drive.blocks| - r.drive.lba && (forall p :: p in t ==> p < npages)
            && e.drive == r.drive.(blocks := e.drive.blocks, lastAddress := e.drive.lastAddress, cylinder := e.drive.cylinder,
                                   head := e.drive.head, sector := e.drive.sector, lba := e.drive.lba, seekError := e.drive.seekError)
            && (ok ==> |t| > 0 && e.drive.lba == r.drive.lba + |t| - 1 && !e.status.nxm)
            && (!ok && e.status.nxm ==> e.drive.lba == r.drive.lba + |t|)
            && (!ok && !e.status.nxm ==> r.drive.lba + |t| == |r.drive.blocks| && e.drive.lba + 1 == |r.drive.blocks| && e.drive.seekError)
    decreases |r.drive.blocks| - r.drive.lba
  {
    hide Transfer, Trace, AfterOne, PageAt, WithPage, Lba, TotalBlocks, CcwPage, CcwAt, Populated;
    if !Obeyed(r, npages, clp, offset) {
      LbaInRange(r.drive);
      TransferFails(r, npages, mode, clp, offset);
    } else {
      TransferStep(r, npages, mode, clp, offset);
      if More(CcwAt(r.memory, clp, offset)) && r.drive.lba + 1 < |r.drive.blocks| {
        TransferEnds(AfterOne(r, npages, mode, clp, offset), npages, mode, clp, NextOffset(offset));
      }
    }
  }

  /** A write moves exactly the pages of its trace to consecutive blocks, and changes no memory. */
  lemma {:induction false} WriteMovesTrace(r: Rig, npages: nat, clp: Word, offset: Half)
    requires r.drive.Valid() && r.drive.online
    ensures var ((ok, e), t) := (Transfer(r, npages, Write, clp, offset), Trace(r, npages, Write, clp, offset));
            && r.drive.lba + |t| <= |r.drive.blocks| && e.memory == r.memory
            && e.drive.blocks == StoreBlocks(r.drive.blocks, r.drive.lba, Pages(r.memory, t))
    decreases |r.drive.blocks| - r.drive.lba
  {
    LbaInRange(r.drive);
    hide Transfer, Trace, AfterOne, PageAt, WithPage, Lba, TotalBlocks, CcwPage, CcwAt, Populated;
    hide Pages, StoreBlocks;
    var d, m := r.drive, r.memory;
    if !Obeyed(r, npages, clp, offset) {
      TransferFails(r, npages, Write, clp, offset);
      PagesCons(m, 0, []);
      StoreNothing(d.blocks, d.lba);
    } else {
      TransferStep(r, npages, Write, clp, offset);
      var pn := CcwPage(CcwAt(m, clp, offset));
      var r' := AfterOne(r, npages, Write, clp, offset);
      if More(CcwAt(m, clp, offset)) && d.lba + 1 < |d.blocks| {
        WriteMovesTrace(r', npages, clp, NextOffset(offset));
        var rest := Trace(r', npages, Write, clp, NextOffset(offset));
        StoreOne(d.blocks, d.lba, PageAt(m, pn), Pages(m, rest));
        if rest == [] { PagesCons(m, 0, []); StoreNothing(r'.drive.blocks, d.lba + 1); }
        PagesCons(m, pn, rest);
      } else {
        StoreOne(d.blocks, d.lba, PageAt(m, pn), []);
        PagesCons(m, pn, []);
        assert [PageAt(m, pn)] + [] == [PageAt(m, pn)];
      }
    }
  }

  lemma StoreNothing(blocks: seq<Page>, at: nat)
    requires at <= |blocks|
    ensures StoreBlocks(blocks, at, []) == blocks
  {
  }

  lemma StoreOne(blocks: seq<Page>, at: nat, p: Page, rest: seq<Page>)
    requires at + 1 + |rest| <= |blocks|
    ensures StoreBlocks(blocks, at, [p] + rest) ==
            if rest == [] then blocks[at := p] else StoreBlocks(blocks[at := p], at + 1, rest)
  {
  }

  /** One word of a reading chain. */
  lemma ReadStep(r: Rig, npages: nat, clp: Word, offset: Half)
    requires r.drive.Valid() && r.drive.online && Obeyed(r, npages, clp, offset)
    ensures var pn, d := CcwPage(CcwAt(r.memory, clp, offset)), r.drive;
            var r', (ok, e) := AfterOne(r, npages, Read, clp, offset), Transfer(r, npages, Read, clp, offset);
            && d.lba < |d.blocks| && r'.drive.Valid() && r'.drive.online && r'.drive.blocks == d.blocks
            && r'.memory == WithPage(r.memory, pn, d.blocks[d.lba])
            && (if More(CcwAt(r.memory, clp, offset)) && d.lba + 1 < |d.blocks| then
                  && r'.drive.lba == d.lba + 1 && (ok, e) == Transfer(r', npages, Read, clp, NextOffset(offset))
                  && Trace(r, npages, Read, clp, offset) == [pn] + Trace(r', npages, Read, clp, NextOffset(offset))
                else Trace(r, npages, Read, clp, offset) == [pn] && e.memory == r'.memory && e.drive.blocks == d.blocks)
  {
    hide Transfer, Trace, AfterOne, PageAt, WithPage, Lba, TotalBlocks, CcwPage, CcwAt, Populated;
    TransferStep(r, npages, Read, clp, offset);
  }

  /** From r to e, consecutive blocks have been loaded into these pages, and no block has changed. */
  predicate Loaded(r: Rig, pns: seq<PageIndex>, e: Rig) {
    && r.drive.lba + |pns| <= |r.drive.blocks| && e.drive.blocks == r.drive.blocks
    && e.memory == LoadPages(r.memory, pns, BlocksFrom(r.drive.blocks, r.drive.lba, |pns|))
  }

  lemma LoadedNone(r: Rig, e: Rig)
    requires r.drive.lba <= |r.drive.blocks| && e.drive.blocks == r.drive.blocks && e.memory == r.memory
    ensures Loaded(r, [], e)
  {
    hide LoadPages;
    LoadNothing(r.memory, BlocksFrom(r.drive.blocks, r.drive.lba, 0));
  }

  lemma LoadedOne(r: Rig, pn: PageIndex, e: Rig)
    requires r.drive.lba < |r.drive.blocks| && e.drive.blocks == r.drive.blocks
    requires e.memory == WithPage(r.memory, pn, r.drive.blocks[r.drive.lba])
    ensures Loaded(r, [pn], e)
  {
    hide LoadPages, WithPage, BlocksFrom;
    BlocksCons(r.drive.blocks, r.drive.lba, 0);
    LoadCons(r.memory, pn, r.drive.blocks[r.drive.lba], [], []);
  }

  lemma LoadedCons(r: Rig, r': Rig, pn: PageIndex, rest: seq<PageIndex>, e: Rig)
    requires r.drive.lba < |r.drive.blocks| && r'.drive.blocks == r.drive.blocks && r'.drive.lba == r.drive.lba + 1
    requires r'.memory == WithPage(r.memory, pn, r.drive.blocks[r.drive.lba]) && Loaded(r', rest, e)
    ensures Loaded(r, [pn] + rest, e)
  {
    hide LoadPages, WithPage, BlocksFrom;
    BlocksCons(r.drive.blocks, r.drive.lba, |rest|);
    LoadCons(r.memory, pn, r.drive.blocks[r.drive.lba], rest, BlocksFrom(r.drive.blocks, r.drive.lba + 1, |rest|));
  }

  /** A read moves exactly consecutive blocks to the pages of its trace, and changes no block. */
  lemma {:induction false} ReadMovesTrace(r: Rig, npages: nat, clp: Word, offset: Half)
    requires r.drive.Valid() && r.drive.online
    ensures Loaded(r, Trace(r, npages, Read, clp, offset), Transfer(r, npages, Read, clp, offset).1)
    decreases |r.drive.blocks| - r.drive.lba
  {
    LbaInRange(r.drive);
    hide Transfer, Trace, AfterOne, WithPage, Lba, TotalBlocks, CcwPage, CcwAt, Loaded, Obeyed, More;
    var ccw, e := CcwAt(r.memory, clp, offset), Transfer(r, npages, Read, clp, offset).1;
    if !Obeyed(r, npages, clp, offset) {
      TransferFails(r, npages, Read, clp, offset);
      LoadedNone(r, e);
    } else {
      ReadStep(r, npages, clp, offset);
      if More(ccw) && r.drive.lba + 1 < |r.drive.blocks| {
        var r' := AfterOne(r, npages, Read, clp, offset);
        ReadMovesTrace(r', npages, clp, NextOffset(offset));
        LoadedCons(r, r', CcwPage(ccw), Trace(r', npages, Read, clp, NextOffset(offset)), e);
      } else {
        LoadedOne(r, CcwPage(ccw), e);
      }
    }
  }

  lemma LoadNothing(m: Bank, data: seq<Page>)
    requires data == []
    ensures LoadPages(m, [], data) == m
  {
  }

  lemma LoadCons(m: Bank, pn: PageIndex, p: Page, pns: seq<PageIndex>, data: seq<Page>)
    requires |data| == |pns|
    ensures LoadPages(m, [pn] + pns, [p] + data) == LoadPages(WithPage(m, pn, p), pns, data)
    ensures pns == [] ==> LoadPages(m, [pn], [p]) == WithPage(m, pn, p)
  {
    hide WithPage;
    assert ([pn] + pns)[1..] == pns && ([p] + data)[1..] == data;
  }

  /** The n blocks from this one on. */
  function BlocksFrom(blocks: seq<Page>, at: nat, n: nat): (bs: seq<Page>)
    requires at + n <= |blocks|
    ensures |bs| == n
  {
    blocks[at..at + n]
  }

  lemma NoBlocks(blocks: seq<Page>, at: nat)
    requires at <= |blocks|
    ensures BlocksFrom(blocks, at, 0) == []
  {
  }

  lemma BlocksCons(blocks: seq<Page>, at: nat, n: nat)
    requires at + 1 + n <= |blocks|
    ensures BlocksFrom(blocks, at, n + 1) == [blocks[at]] + BlocksFrom(blocks, at + 1, n)
    ensures BlocksFrom(blocks, at, 1) == [blocks[at]]
  {
  }

  /** These pages of memory hold what the blocks from `at` on hold. */
  predicate Matches(m: Bank, pns: seq<PageIndex>, blocks: seq<Page>, at: nat) {
    at + |pns| <= |blocks| && Pages(m, pns) == BlocksFrom(blocks, at, |pns|)
  }

  lemma MatchesCons(m: Bank, pn: PageIndex, rest: seq<PageIndex>, blocks: seq<Page>, at: nat)
    requires at + 1 + |rest| <= |blocks|
    ensures Matches(m, [pn] + rest, blocks, at) <==> PageAt(m, pn) == blocks[at] && Matches(m, rest, blocks, at + 1)
    ensures Matches(m, [pn], blocks, at) <==> PageAt(m, pn) == blocks[at]
    ensures Matches(m, [], blocks, at)
  {
    hide PageAt;
    NoBlocks(blocks, at);
    PagesCons(m, pn, rest);
    BlocksCons(blocks, at, |rest|);
    ConsEqual(PageAt(m, pn), Pages(m, rest), blocks[at], BlocksFrom(blocks, at + 1, |rest|));
    hide Pages, BlocksFrom;
  }

  /** A read-compare moves nothing, and reports a difference exactly when a page of its trace differs from its block. */
  lemma {:induction false} CompareFindsDifference(r: Rig, npages: nat, clp: Word, offset: Half)
    requires r.drive.Valid() && r.drive.online
    ensures var ((ok, e), t) := (Transfer(r, npages, ReadCompare, clp, offset), Trace(r, npages, ReadCompare, clp, offset));
            && r.drive.lba + |t| <= |r.drive.blocks| && e.drive.blocks == r.drive.blocks && e.memory == r.memory
            && e.status.compareDifference == (r.status.compareDifference || !Matches(r.memory, t, r.drive.blocks, r.drive.lba))
    decreases |r.drive.blocks| - r.drive.lba
  {
    LbaInRange(r.drive);
    hide Transfer, Trace, AfterOne, PageAt, WithPage, Lba, TotalBlocks, CcwPage, CcwAt, Populated, Matches;
    var d, m, t := r.drive, r.memory, Trace(r, npages, ReadCompare, clp, offset);
    var pn := CcwPage(CcwAt(m, clp, offset));
    if !Obeyed(r, npages, clp, offset) {
      TransferFails(r, npages, ReadCompare, clp, offset);
      MatchesCons(m, pn, [], d.blocks, d.lba);
    } else {
      TransferStep(r, npages, ReadCompare, clp, offset);
      if More(CcwAt(m, clp, offset)) && d.lba + 1 < |d.blocks| {
        var r' := AfterOne(r, npages, ReadCompare, clp, offset);
        CompareFindsDifference(r', npages, clp, NextOffset(offset));
        MatchesCons(m, pn, Trace(r', npages, ReadCompare, clp, NextOffset(offset)), d.blocks, d.lba);
      } else {
        MatchesCons(m, pn, [], d.blocks, d.lba);
      }
    }
  }

  lemma PagesCons(m: Bank, pn: PageIndex, rest: seq<PageIndex>)
    ensures Pages(m, [pn] + rest) == [PageAt(m, pn)] + Pages(m, rest)
    ensures Pages(m, [pn]) == [PageAt(m, pn)] && Pages(m, []) == []
  {
  }

  lemma ConsEqual(a: Page, s: seq<Page>, b: Page, t: seq<Page>)
    ensures [a] + s == [b] + t <==> a == b && s == t
    ensures [a] == [b] <==> a == b
  {
    assert [a][0] == a && [b][0] == b;
    if [a] + s == [b] + t {
      assert ([a] + s)[0] == a && ([b] + t)[0] == b;
      assert ([a] + s)[1..] == s && ([b] + t)[1..] == t;
    }
  }

  // ----- chains -----

  /** From this offset on, memory holds a list of existing command words that names exactly these existing pages. */
  predicate Chain(m: Bank, npages: nat, clp: Word, offset: Half, pns: seq<PageIndex>)
    decreases |pns|
  {
    && pns != [] && Populated(npages, CcwAddress(clp, offset)) && CcwPage(CcwAt(m, clp, offset)) == pns[0] < npages
    && (More(CcwAt(m, clp, offset)) <==> |pns| > 1)
    && (|pns| > 1 ==> Chain(m, npages, clp, NextOffset(offset), pns[1..]))
  }

  /** None of the n command words from this offset on lies in this page. */
  predicate ListAvoids(clp: Word, offset: Half, n: nat, pn: PageIndex)
    decreases n
  {
    n > 0 ==> PageNumber(CcwAddress(clp, offset)) != pn && ListAvoids(clp, NextOffset(offset), n - 1, pn)
  }

  lemma {:induction false} ChainSurvives(m: Bank, npages: nat, clp: Word, offset: Half, pns: seq<PageIndex>, pn: PageIndex, p: Page)
    requires Chain(m, npages, clp, offset, pns) && ListAvoids(clp, offset, |pns|, pn)
    ensures Chain(WithPage(m, pn, p), npages, clp, offset, pns)
    decreases |pns|
  {
    WordAfterPageWrite(m, p, pn, CcwAddress(clp, offset));
    hide WithPage, PageNumber, CcwPage, CcwAddress;
    if |pns| > 1 { ChainSurvives(m, npages, clp, NextOffset(offset), pns[1..], pn, p); }
  }

  /**
   A transfer obeys a chain to its end if the disk has room for it and, when it is a read, none
   of its pages overwrites the list.
   */
  lemma {:induction false} TraceOfChain(r: Rig, npages: nat, mode: Mode, clp: Word, offset: Half, pns: seq<PageIndex>)
    requires r.drive.Valid() && r.drive.online && Chain(r.memory, npages, clp, offset, pns)
    requires r.drive.lba + |pns| <= |r.drive.blocks|
    requires mode.Read? ==> forall p :: p in pns ==> ListAvoids(clp, offset, |pns|, p)
    ensures Trace(r, npages, mode, clp, offset) == pns && Transfer(r, npages, mode, clp, offset).0
    decreases |pns|
  {
    hide Transfer, Trace, AfterOne, PageAt, WithPage, Lba, TotalBlocks, CcwPage, CcwAt, Populated, CcwAddress;
    TransferStep(r, npages, mode, clp, offset);
    assert pns[0] in pns;
    if |pns| > 1 {
      var r' := AfterOne(r, npages, mode, clp, offset);
      if mode.Read? {
        ChainSurvives(r.memory, npages, clp, NextOffset(offset), pns[1..], pns[0], r.drive.blocks[r.drive.lba]);
        forall p | p in pns[1..] ensures ListAvoids(clp, NextOffset(offset), |pns| - 1, p) {
          assert p in pns;
        }
      }
      TraceOfChain(r', npages, mode, clp, NextOffset(offset), pns[1..]);
      assert pns == [pns[0]] + pns[1..];
    } else {
      assert pns == [pns[0]];
    }
  }

  predicate Distinct(pns: seq<PageIndex>) { forall i, j :: 0 <= i < j < |pns| ==> pns[i] != pns[j] }

  lemma {:induction false} LoadedElsewhere(m: Bank, pns: seq<PageIndex>, data: seq<Page>, pn: PageIndex)
    requires |data| == |pns| && pn !in pns
    ensures PageAt(LoadPages(m, pns, data), pn) == PageAt(m, pn)
    decreases |pns|
  {
    hide PageAt, WithPage;
    if pns != [] {
      PageAfterWrite(m, data[0], pns[0], pn);
      LoadedElsewhere(WithPage(m, pns[0], data[0]), pns[1..], data[1..], pn);
    }
  }

  /** Data loaded into distinct pages is found there, in order. */
  lemma {:induction false} LoadedPages(m: Bank, pns: seq<PageIndex>, data: seq<Page>)
    requires |data| == |pns| && Distinct(pns)
    ensures Pages(LoadPages(m, pns, data), pns) == data
    decreases |pns|
  {
    hide PageAt, WithPage;
    if pns != [] {
      var m1 := WithPage(m, pns[0], data[0]);
      PageAfterWrite(m, data[0], pns[0], pns[0]);
      LoadedPages(m1, pns[1..], data[1..]);
      LoadedElsewhere(m1, pns[1..], data[1..], pns[0]);
      PagesCons(LoadPages(m, pns, data), pns[0], pns[1..]);
      assert pns == [pns[0]] + pns[1..] && data == [data[0]] + data[1..];
    }
  }

  lemma StoredBlocks(blocks: seq<Page>, at: nat, data: seq<Page>)
    requires at + |data| <= |blocks|
    ensures BlocksFrom(StoreBlocks(blocks, at, data), at, |data|) == data
  {
  }

  /**
   Writing a chain of pages to disk and reading it back from the same block through another chain,
   of distinct pages that do not overlap its list, restores the pages: nothing else changes.
   */
  lemma ChainRoundTrip(r: Rig, npages: nat, clp: Word, pns: seq<PageIndex>, r2: Rig, clp2: Word, pns2: seq<PageIndex>)
    requires r.drive.Valid() && r.drive.online && Chain(r.memory, npages, clp, 0, pns)
    requires r.drive.lba + |pns| <= |r.drive.blocks| && |pns2| == |pns|
    requires r2.drive.Valid() && r2.drive.online && Chain(r2.memory, npages, clp2, 0, pns2) && Distinct(pns2)
    requires forall p :: p in pns2 ==> ListAvoids(clp2, 0, |pns2|, p)
    requires r2.drive.blocks == Transfer(r, npages, Write, clp, 0).1.drive.blocks && r2.drive.lba == r.drive.lba
    ensures var (written, w), (done, x) := Transfer(r, npages, Write, clp, 0), Transfer(r2, npages, Read, clp2, 0);
            && written && done && w.memory == r.memory
            && w.drive.blocks == StoreBlocks(r.drive.blocks, r.drive.lba, Pages(r.memory, pns))
            && x.drive.blocks == w.drive.blocks && Pages(x.memory, pns2) == Pages(r.memory, pns)
            && (forall pn: PageIndex :: pn !in pns2 ==> PageAt(x.memory, pn) == PageAt(r2.memory, pn))
  {
    hide Transfer, Trace, Pages, StoreBlocks, BlocksFrom, LoadPages, Chain, ListAvoids, Distinct, PageAt, Lba, TotalBlocks;
    TraceOfChain(r, npages, Write, clp, 0, pns);
    WriteMovesTrace(r, npages, clp, 0);
    var data := Pages(r.memory, pns);
    StoredBlocks(r.drive.blocks, r.drive.lba, data);
    TraceOfChain(r2, npages, Read, clp2, 0, pns2);
    ReadMovesTrace(r2, npages, clp2, 0);
    LoadedPages(r2.memory, pns2, data);
    forall pn: PageIndex | pn !in pns2 ensures PageAt(LoadPages(r2.memory, pns2, data), pn) == PageAt(r2.memory, pn) {
      LoadedElsewhere(r2.memory, pns2, data, pn);
    }
  }

  /** The conditions of the round trip can be met: a list of one word at address 0 that names page 1. */
  lemma ChainsExist()
    ensures exists m: Bank :: Chain(m, 2, 0, 0, [1]) && Distinct([1]) && forall p :: p in [1] ==> ListAvoids(0, 0, 1, p)
  {
    var zeros: Bank := seq(0x40_0000, _ => 0);
    var m := zeros[0 := 0x100];
    assert CcwAt(m, 0, 0) == 0x100 && CcwPage(0x100) == 1 && Populated(2, CcwAddress(0, 0));
    assert Chain(m, 2, 0, 0, [1]);
    assert ListAvoids(0, NextOffset(0), 0, 1);
  }

  // ----- the list of command words, seen from memory -----

  /** The i-th word of the list at clp exists, names this existing page, and says whether more words follow. */
  predicate ListWord(m: Bank, npages: nat, clp: Word, i: nat, pn: PageIndex, more: bool) {
    var a := (clp + i) % 0x1_0000_0000;
    && a < 0x40_0000 && a / 0x100 < npages && m[a] / 0x100 % 0x4000 == pn < npages && (m[a] % 2 == 1 <==> more)
  }

  /** The list at clp: one word for each of these pages, at consecutive addresses, all but the last saying that more follow. */
  ghost predicate Listed(m: Bank, npages: nat, clp: Word, pns: seq<PageIndex>) {
    0 < |pns| <= 0x1_0000 && forall i: nat :: i < |pns| ==> ListWord(m, npages, clp, i, pns[i], i + 1 < |pns|)
  }

  lemma WordIsListed(m: Bank, npages: nat, clp: Word, offset: Half, pn: PageIndex, more: bool)
    ensures ListWord(m, npages, clp, offset, pn, more) <==>
            && Populated(npages, CcwAddress(clp, offset)) && CcwPage(CcwAt(m, clp, offset)) == pn < npages
            && (More(CcwAt(m, clp, offset)) <==> more)
  {
    AddressIs(clp, offset);
    PageOfWord(CcwAt(m, clp, offset));
    PageOfAddress(CcwAddress(clp, offset));
    hide CcwAddress, CcwPage, PageNumber;
  }

  lemma AddressIs(clp: Word, offset: Half)
    ensures CcwAddress(clp, offset) == (clp + offset) % 0x1_0000_0000
  {
  }

  lemma PageOfWord(ccw: Word)
    ensures CcwPage(ccw) == ccw / 0x100 % 0x4000
  {
    var q: nat := ccw / 0x100;
    assert ccw % 0x100_0000 / 0x100 == q % 0x1_0000;
    assert (q % 0x1_0000 * 0x100) / 0x100 == q % 0x1_0000;
    assert q % 0x1_0000 % 0x4000 == q % 0x4000;
  }

  lemma PageOfAddress(a: Word)
    ensures a < 0x40_0000 ==> PageNumber(a) == a / 0x100
  {
  }

  /** The chain that a transfer follows is the list in memory, word after word. */
  lemma {:induction false} ChainFrom(m: Bank, npages: nat, clp: Word, offset: Half, pns: seq<PageIndex>)
    requires pns != [] && offset + |pns| <= 0x1_0000
    ensures Chain(m, npages, clp, offset, pns) <==>
            forall i: nat :: i < |pns| ==> ListWord(m, npages, clp, offset + i, pns[i], i + 1 < |pns|)
    decreases |pns|
  {
    hide ListWord, Populated, CcwAddress, CcwPage, CcwAt, More;
    WordIsListed(m, npages, clp, offset, pns[0], |pns| > 1);
    if |pns| > 1 {
      var rest := pns[1..];
      NextIsNext(offset);
      ChainFrom(m, npages, clp, NextOffset(offset), rest);
      hide NextOffset;
      if Chain(m, npages, clp, offset, pns) {
        forall i: nat | i < |pns| ensures ListWord(m, npages, clp, offset + i, pns[i], i + 1 < |pns|) {
          if i > 0 { assert ListWord(m, npages, clp, offset + 1 + (i - 1), rest[i - 1], i - 1 + 1 < |rest|); }
        }
      }
      if forall i: nat :: i < |pns| ==> ListWord(m, npages, clp, offset + i, pns[i], i + 1 < |pns|) {
        assert ListWord(m, npages, clp, offset + 0, pns[0], 0 + 1 < |pns|);
        forall i: nat | i < |rest| ensures ListWord(m, npages, clp, offset + 1 + i, rest[i], i + 1 < |rest|) {
          assert ListWord(m, npages, clp, offset + (i + 1), pns[i + 1], i + 1 + 1 < |pns|);
        }
      }
    } else {
      if forall i: nat :: i < |pns| ==> ListWord(m, npages, clp, offset + i, pns[i], i + 1 < |pns|) {
        assert ListWord(m, npages, clp, offset + 0, pns[0], 0 + 1 < |pns|);
      }
    }
  }

  lemma NextIsNext(offset: Half)
    requires offset + 1 < 0x1_0000
    ensures NextOffset(offset) == offset + 1
  {
  }

  /** From its beginning: a list of at most 65536 words. */
  lemma ChainIff(m: Bank, npages: nat, clp: Word, pns: seq<PageIndex>)
    requires 0 < |pns| <= 0x1_0000
    ensures Chain(m, npages, clp, 0, pns) <==> Listed(m, npages, clp, pns)
  {
    hide ListWord, Chain;
    ChainFrom(m, npages, clp, 0, pns);
    if Chain(m, npages, clp, 0, pns) {
      forall i: nat | i < |pns| ensures ListWord(m, npages, clp, i, pns[i], i + 1 < |pns|) {
        assert ListWord(m, npages, clp, 0 + i, pns[i], i + 1 < |pns|);
      }
    }
    if Listed(m, npages, clp, pns) {
      forall i: nat | i < |pns| ensures ListWord(m, npages, clp, 0 + i, pns[i], i + 1 < |pns|) {
        assert ListWord(m, npages, clp, i, pns[i], i + 1 < |pns|);
      }
    }
  }

  /** The i-th word from the given offset of the list at clp lies outside this page. */
  predicate WordOutside(clp: Word, offset: nat, i: nat, pn: PageIndex) {
    (clp + offset + i) % 0x1_0000_0000 / 0x100 % 0x4000 != pn
  }

  /** The list of n words at clp lies outside this page. */
  ghost predicate ListOutside(clp: Word, n: nat, pn: PageIndex) { forall i: nat :: i < n ==> WordOutside(clp, 0, i, pn) }

  lemma {:induction false} AvoidsFrom(clp: Word, offset: Half, n: nat, pn: PageIndex)
    requires offset + n <= 0x1_0000 && forall i: nat :: i < n ==> WordOutside(clp, offset, i, pn)
    ensures ListAvoids(clp, offset, n, pn)
    decreases n
  {
    if n > 0 {
      assert WordOutside(clp, offset, 0, pn);
      AddressIs(clp, offset);
      assert PageNumber(CcwAddress(clp, offset)) != pn;
      hide CcwAddress, PageNumber;
      if n > 1 {
        NextIsNext(offset);
        forall i: nat | i < n - 1 ensures WordOutside(clp, NextOffset(offset), i, pn) {
          assert WordOutside(clp, offset, i + 1, pn);
        }
        AvoidsFrom(clp, NextOffset(offset), n - 1, pn);
      }
    }
  }

  /** A transfer that has obeyed a chain leaves the last word of its last page as the last address used. */
  lemma {:induction false} ChainLeavesAddress(r: Rig, npages: nat, mode: Mode, clp: Word, offset: Half, pns: seq<PageIndex>)
    requires r.drive.Valid() && r.drive.online && Chain(r.memory, npages, clp, offset, pns)
    requires r.drive.lba + |pns| <= |r.drive.blocks|
    requires mode.Read? ==> forall p :: p in pns ==> ListAvoids(clp, offset, |pns|, p)
    ensures var a := Transfer(r, npages, mode, clp, offset).1.drive.lastAddress;
            a % 0x100 == 0xFF && a / 0x100 % 0x4000 == pns[|pns| - 1]
    decreases |pns|
  {
    hide Trace, AfterOne, PageAt, WithPage, Lba, TotalBlocks, CcwPage, CcwAt, Populated, CcwAddress, ObeyCcw, More;
    hide DiskModel.Drive.Valid, DiskModel.Drive.OnTrack;
    TransferStep(r, npages, mode, clp, offset);
    assert pns[0] in pns;
    if |pns| > 1 {
      var r' := AfterOne(r, npages, mode, clp, offset);
      if mode.Read? {
        ChainSurvives(r.memory, npages, clp, NextOffset(offset), pns[1..], pns[0], r.drive.blocks[r.drive.lba]);
        forall p | p in pns[1..] ensures ListAvoids(clp, NextOffset(offset), |pns| - 1, p) {
          assert p in pns;
        }
      }
      ChainLeavesAddress(r', npages, mode, clp, NextOffset(offset), pns[1..]);
    } else {
      var r1 := Addressed(r, CcwAddress(clp, offset)).(status := r.status.(ccwCycle := false));
      KeptPlace(r.drive, r1.drive);
      LastWordObeyed(r1, npages, mode, CcwAt(r.memory, clp, offset));
    }
  }

  lemma LastWordObeyed(r: Rig, npages: nat, mode: Mode, ccw: Word)
    requires r.drive.Valid() && r.drive.online && CcwPage(ccw) < npages && !More(ccw)
    ensures var (e, progress) := ObeyCcw(r, npages, mode, ccw);
            progress == Finished && e.drive.lastAddress % 0x100 == 0xFF && e.drive.lastAddress / 0x100 % 0x4000 == CcwPage(ccw)
  {
    LbaInRange(r.drive);
    assert MoveBlock(r, npages, mode, PageAddress(ccw)).1.drive.lastAddress == PageAddress(ccw) + 255 by {
      hide PageAt, WithPage, Lba, TotalBlocks, PageAddress;
    }
    assert PageAddress(ccw) % 0x100 == 0;
    assert (PageAddress(ccw) + 255) / 0x100 == PageAddress(ccw) / 0x100;
    ObeyLinks(r, npages, mode, ccw);
    hide MoveBlock, Lba, TotalBlocks, PageAddress, DiskModel.Drive.Valid, DiskModel.Drive.OnTrack;
  }
}

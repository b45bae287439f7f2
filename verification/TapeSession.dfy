/**
 A whole session at the tape controller: write a record, space back over it, read it in again.
 */
module TapeSession {
  import opened Words
  import opened PhysicalMemory
  import opened Dma
  import opened TapeModel
  import opened TapeCommands
  import opened TapeTheory
  import opened TapeTransfer
  import opened TapeControl

  /** The registers loaded for the next command. */
  function Loaded(r: Rig, count: Short, address: Word): Rig { r.(ctl := r.ctl.(mtbrc := count, mtcma := address)) }

  ghost predicate Usable(d: Drive) { Configured(d) && d.online }

  /** A write command that runs to its end. */
  lemma WriteCommandWrites(r: Rig, n: nat, u: Word, cmd: Command, devs: nat -> Devices)
    requires Usable(r.drive) && !r.drive.readOnly && 0 < 4 * n <= 0x8000 && (cmd.fun == 2 || cmd.fun == 6)
    requires MappedRange(r.bus, u, n, false) && r.drive.pos + 4 * n + 8 <= |r.drive.bytes|
    ensures var r' := GoOn(Loaded(r, -4 * n, u), cmd, devs);
            && r'.bus.words == r.bus.words && r'.bus.registers == r.bus.registers && r'.bus.npages == r.bus.npages
            && r'.drive == Put(Ready(r.drive, cmd.den8), Frame(WordsFrom(r.bus, u, n))) && Usable(r'.drive)
  {
    var r0 := Loaded(r, -4 * n, u).(drive := Ready(r.drive, cmd.den8), ctl := ClearErrors(Loaded(r, -4 * n, u).ctl));
    WriteRecordWritesFrame(r0, n, devs);
    PutKeeps(r0.drive, Frame(WordsFrom(r.bus, u, n)));
    CommandSafety(Loaded(r, -4 * n, u), cmd, devs);
    hide WriteRecord, Put, Frame, WordsFrom, MappedRange;
  }

  /** Spacing back over the record that ends at the head. */
  lemma SpaceBackReturns(r: Rig, start: nat, length: nat, cmd: Command, devs: nat -> Devices)
    requires Usable(r.drive) && cmd.fun == 5 && RecordAt(r.drive.bytes, start, length) && r.drive.pos == start + length + 8
    ensures var r' := GoOn(r.(ctl := r.ctl.(mtbrc := -1)), cmd, devs);
            r'.bus == r.bus && r'.drive == Seek(Ready(r.drive, cmd.den8), start) && Usable(r'.drive)
  {
    var d := Ready(r.drive, cmd.den8);
    hide RecordAt, ReverseOne;
    ReverseOverRecord(d, start, length, false);
    CommandSafety(r.(ctl := r.ctl.(mtbrc := -1)), cmd, devs);
  }

  /** A read command is the reading of a record. */
  lemma ReadCommandReads(r: Rig, cmd: Command, devs: nat -> Devices)
    requires Usable(r.drive) && cmd.fun == 1
    ensures GoOn(r, cmd, devs) == ReadRecord(r.(drive := Ready(r.drive, cmd.den8), ctl := ClearErrors(r.ctl)), devs)
  {
    hide ReadRecord;
  }

  /** A command as the program issues it: the count and address registers, then GO. */
  ghost function Issue(r: Rig, count: Short, address: Word, cmd: Command, devs: nat -> Devices): (r': Rig)
    requires Configured(r.drive)
    ensures Configured(r'.drive)
  {
    CommandSafety(Loaded(r, count, address), cmd, devs);
    GoOn(Loaded(r, count, address), cmd, devs)
  }

  /**
   Writing n words from one range of the map, spacing back over the record, and reading it with
   the same count into another range copies every word, and changes no other word of memory.
   */
  lemma SessionCopiesMemory(r: Rig, n: nat, from: Word, to: Word, write: Command, space: Command, read: Command,
                            devs: nat -> Devices, devs2: nat -> Devices, devs3: nat -> Devices)
    requires Usable(r.drive) && !r.drive.readOnly && 0 < 4 * n <= 0x8000
    requires (write.fun == 2 || write.fun == 6) && space.fun == 5 && read.fun == 1
    requires MappedRange(r.bus, from, n, false) && MappedRange(r.bus, to, n, true) && DistinctPages(r.bus, to, n)
    requires r.drive.pos + 4 * n + 8 <= |r.drive.bytes|
    ensures var written := Issue(r, -4 * n, from, write, devs);
            var back := Issue(written, -1, 0, space, devs2);
            var done := Issue(back, -4 * n, to, read, devs3);
            && back.drive.pos == r.drive.pos && done.drive.bytes == written.drive.bytes
            && Receives(r.bus, done.bus, to, WordsFrom(r.bus, from, n))
            && !done.ctl.nxm && !done.ctl.rle
  {
    hide GoOn, MappedRange, WordsFrom, Receives, Frame, Put, RecordAt, DistinctPages, Ready, Seek, Holds;
    var ws := WordsFrom(r.bus, from, n);
    WriteCommandWrites(r, n, from, write, devs);
    var written := Issue(r, -4 * n, from, write, devs);
    ReadyKeeps(r.drive, write.den8);
    FrameIsRecord(Ready(r.drive, write.den8), ws);
    SpaceBackReturns(Loaded(written, 0, 0), r.drive.pos, 4 * n, space, devs2);
    var back := Issue(written, -1, 0, space, devs2);
    ReadyKeeps(written.drive, space.den8);
    SeekTo(Ready(written.drive, space.den8), r.drive.pos);
    ReadBack(r.bus, back, to, ws, read, devs3);
  }

  lemma ReadyKeeps(d: Drive, den8: bool)
    ensures var d' := Ready(d, den8); d'.pos == d.pos && d'.bytes == d.bytes
  {
  }

  lemma SeekTo(d: Drive, p: nat)
    requires p <= |d.bytes|
    ensures Seek(d, p).pos == p && Seek(d, p).bytes == d.bytes && Seek(d, p).online == d.online && Seek(d, p).lengthFt == d.lengthFt
  {
  }

  /** A frame just written is a record. */
  lemma FrameIsRecord(d: Drive, ws: seq<Word>)
    requires 4 * |ws| <= 0x8000 && d.pos + 4 * |ws| + 8 <= |d.bytes|
    ensures var d' := Put(d, Frame(ws));
            && d'.pos == d.pos + 4 * |ws| + 8 && |d'.bytes| == |d.bytes|
            && RecordAt(d'.bytes, d.pos, 4 * |ws|) && Holds(d'.bytes, d.pos, Frame(ws))
  {
    PutIsOverwrite(d, Frame(ws));
    FramePieces(Put(d, Frame(ws)).bytes, d.pos, ws);
    hide Put, Frame, Holds, WordAt;
  }

  lemma ReadBack(m: BusState, r: Rig, to: Word, ws: seq<Word>, read: Command, devs: nat -> Devices)
    requires Usable(r.drive) && 0 < 4 * |ws| <= 0x8000 && read.fun == 1
    requires r.bus.words == m.words && r.bus.registers == m.registers && r.bus.npages == m.npages
    requires MappedRange(m, to, |ws|, true) && DistinctPages(m, to, |ws|)
    requires Holds(r.drive.bytes, r.drive.pos, Frame(ws))
    ensures var r' := Issue(r, -4 * |ws|, to, read, devs);
            r'.drive.bytes == r.drive.bytes && Receives(m, r'.bus, to, ws) && !r'.ctl.nxm && !r'.ctl.rle
  {
    var r0 := Loaded(r, -4 * |ws|, to);
    ReadCommandReads(r0, read, devs);
    var r1 := r0.(drive := Ready(r.drive, read.den8), ctl := ClearErrors(r0.ctl));
    hide GoOn, ReadRecord, Holds, Frame, Stored, DistinctPages, Receives, MarkAt, Ready;
    ReadyKeeps(r.drive, read.den8);
    SameRange(m, r.bus, to, |ws|, true);
    ReadRecordReadsFrame(r1, ws, devs);
    SameAfterRecord(r1.drive, 0, r.drive.pos + 4 * |ws| + 8);
    StoredIgnoresWords(m, r.bus, m.words, to, ws);
    hide MappedRange;
    StoredReceives(m, Issue(r, -4 * |ws|, to, read, devs).bus, to, ws);
  }
}

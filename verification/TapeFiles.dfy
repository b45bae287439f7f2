/**
 Tape commands as the program issues them, by the words that it stores in the count, address and
 command registers: what each leaves on the tape and in the status, and files written and found.
 */
module TapeFiles {
  import opened Words
  import opened PhysicalMemory
  import opened Dma
  import opened TapeModel
  import opened TapeCommands
  import opened TapeTheory
  import opened TapeTransfer
  import opened TapeControl
  import opened TapeSession

  /** A command word that starts this command: GO, no power clear, and the command in bits 1-3. */
  predicate Starts(v: Half, fun: nat) { v % 2 == 1 && v / 0x1000 % 2 == 0 && v / 2 % 8 == fun }

  /** Where the end-of-tape mark is at the density that a command word selects. */
  function MarkPoint(d: Drive, v: Half): int { (d.lengthFt - 4) * 12 * (if v / 0x4000 % 2 == 1 then 800 else 1600) }

  /** The count, the address and a command stored in the registers. */
  ghost function Issued(r: Rig, count: Short, address: Half, v: Half, devs: nat -> Devices): (r': Rig)
    requires Configured(r.drive)
    ensures Configured(r'.drive)
  {
    hide GoOn, Configured;
    StaysConfigured(Loaded(r, count, address), v, devs);
    MtcRig(Loaded(r, count, address), true, v, devs)
  }

  lemma StaysConfigured(r: Rig, v: Half, devs: nat -> Devices)
    requires Configured(r.drive)
    ensures Configured(MtcRig(r, true, v, devs).drive)
  {
    hide GoOn, Configured, DecodeCommand;
    CommandSafety(r.(ctl := r.ctl.(mtcma := WithExtension(r.ctl.mtcma, v))), DecodeCommand(v), devs);
  }

  /** The registers as a command finds them: two more address bits come from the command word. */
  function Latched(r: Rig, count: Short, address: Half, v: Half): Rig {
    Loaded(r, count, address + v / 0x10 % 4 * 0x1_0000)
  }

  lemma CommandGoes(r: Rig, count: Short, address: Half, v: Half, fun: nat, devs: nat -> Devices)
    requires Configured(r.drive) && Starts(v, fun)
    ensures DecodeCommand(v).fun == fun && DecodeCommand(v).den8 == (v / 0x4000 % 2 == 1)
    ensures Issued(r, count, address, v, devs) == GoOn(Latched(r, count, address, v), DecodeCommand(v), devs)
    ensures var d := Ready(r.drive, DecodeCommand(v).den8); d == r.drive.(eotPos := MarkPoint(r.drive, v))
  {
    hide GoOn, Configured;
  }

  // ----- single commands -----

  /** Any command to a drive that is off line is illegal and does nothing else. */
  lemma OfflineIsIllegal(r: Rig, count: Short, address: Half, v: Half, fun: nat, devs: nat -> Devices)
    requires Configured(r.drive) && !r.drive.online && Starts(v, fun)
    ensures Issued(r, count, address, v, devs) ==
            r.(ctl := Control(true, false, false, false, false, count, address + v / 0x10 % 4 * 0x1_0000))
  {
    CommandGoes(r, count, address, v, fun, devs);
  }

  /** Four bytes of a tape are the number v, low byte first. */
  predicate FourAt(bytes: seq<Byte>, p: nat, v: nat) {
    p + 4 <= |bytes| &&
    var b0: nat, b1: nat, b2: nat, b3: nat := bytes[p], bytes[p + 1], bytes[p + 2], bytes[p + 3];
    b0 + 0x100 * b1 + 0x1_0000 * b2 + 0x100_0000 * b3 == v
  }

  /** Two tapes agree outside the n bytes from p on. */
  ghost predicate SameOutside(bytes: seq<Byte>, bytes': seq<Byte>, p: nat, n: nat) {
    |bytes'| == |bytes| && forall i: nat :: i < |bytes| && !(p <= i < p + n) ==> bytes'[i] == bytes[i]
  }

  lemma PutChangesOnly(d: Drive, data: seq<Byte>)
    requires d.pos + |data| <= |d.bytes|
    ensures SameOutside(d.bytes, Put(d, data).bytes, d.pos, |data|)
  {
  }

  lemma WordIsFour(bytes: seq<Byte>, p: nat, v: Word)
    requires WordAt(bytes, p, v)
    ensures FourAt(bytes, p, v)
  {
    LittleBytes4(v);
    LittleOfFour(Bytes4(v));
    hide Little, Bytes4;
    var s := bytes[p..p + 4];
    assert s[0] == bytes[p] && s[1] == bytes[p + 1] && s[2] == bytes[p + 2] && s[3] == bytes[p + 3];
  }

  /**
   WRITE EOF puts the four bytes FF FF FF FF under the head of a drive that can be written,
   moves past them, and sets EOF; nothing else on the tape or the bus changes.
   */
  lemma EofIsWritten(r: Rig, count: Short, address: Half, v: Half, devs: nat -> Devices)
    requires Usable(r.drive) && !r.drive.readOnly && r.drive.pos + 4 <= |r.drive.bytes| && Starts(v, 3)
    ensures var r', p := Issued(r, count, address, v, devs), r.drive.pos;
            && r'.bus == r.bus && r'.drive.pos == p + 4 && |r'.drive.bytes| == |r.drive.bytes|
            && SameOutside(r.drive.bytes, r'.drive.bytes, p, 4)
            && r'.drive.bytes[p] == 0xFF && r'.drive.bytes[p + 1] == 0xFF && r'.drive.bytes[p + 2] == 0xFF && r'.drive.bytes[p + 3] == 0xFF
            && r'.ctl == Control(false, true, p + 4 >= MarkPoint(r.drive, v), false, false, count, address + v / 0x10 % 4 * 0x1_0000)
            && r'.drive == r.drive.(eotPos := MarkPoint(r.drive, v), bytes := r'.drive.bytes, pos := p + 4, bot := false, eot := r'.ctl.eot)
  {
    CommandGoes(r, count, address, v, 3, devs);
    var d := Ready(r.drive, DecodeCommand(v).den8);
    hide Configured;
    EofPut(d);
    hide DecodeCommand, TapeModel.WriteUInt32, SameOutside, Latched, Issued, Ready;
  }

  lemma EofPut(d: Drive)
    requires d.online && !d.readOnly && d.pos + 4 <= |d.bytes|
    ensures var d', p := TapeModel.WriteUInt32(d, FILE_MARK).1, d.pos;
            && d' == d.(bytes := d'.bytes, pos := p + 4, bot := false, eot := p + 4 >= d.eotPos) && |d'.bytes| == |d.bytes|
            && SameOutside(d.bytes, d'.bytes, p, 4)
            && d'.bytes[p] == 0xFF && d'.bytes[p + 1] == 0xFF && d'.bytes[p + 2] == 0xFF && d'.bytes[p + 3] == 0xFF
  {
    WriteUInt32IsPut(d, FILE_MARK);
    PutChangesOnly(d, Bytes4(FILE_MARK));
  }

  /** A write command to a protected tape is illegal and changes neither tape nor bus. */
  lemma ProtectedIsIllegal(r: Rig, count: Short, address: Half, v: Half, fun: nat, devs: nat -> Devices)
    requires Usable(r.drive) && r.drive.readOnly && Starts(v, fun) && fun in {2, 3, 6}
    ensures var r' := Issued(r, count, address, v, devs);
            && r'.drive == r.drive.(eotPos := MarkPoint(r.drive, v)) && r'.bus == r.bus
            && r'.ctl == Control(true, false, false, false, false, count, address + v / 0x10 % 4 * 0x1_0000)
  {
    CommandGoes(r, count, address, v, fun, devs);
    hide Issued, DecodeCommand, Ready, WriteLoop, TapeModel.WriteUInt32, Configured;
  }

  /** REWIND goes to the beginning; OFF-LINE does so too, and takes the drive off line. Neither leaves EOT set. */
  lemma RewindGoesToStart(r: Rig, count: Short, address: Half, v: Half, fun: nat, devs: nat -> Devices)
    requires Usable(r.drive) && Starts(v, fun) && (fun == 7 || fun == 0)
    ensures var r' := Issued(r, count, address, v, devs);
            && r'.bus == r.bus && r'.ctl == Control(false, false, false, false, false, count, address + v / 0x10 % 4 * 0x1_0000)
            && r'.drive.pos == 0 && r'.drive.bot && r'.drive.bytes == r.drive.bytes && r'.drive.online == (fun == 7)
            && r'.drive.eotPos == MarkPoint(r.drive, v) && r'.drive.eot == (fun == 7 && MarkPoint(r.drive, v) <= 0)
  {
    CommandGoes(r, count, address, v, fun, devs);
    hide Issued, DecodeCommand, Ready, Configured;
  }

  /** A write record is refused exactly for a protected tape, or a count of bytes below four or not of whole words. */
  lemma WriteIsRefusedIff(r: Rig, count: Short, address: Half, v: Half, fun: nat, devs: nat -> Devices)
    requires Usable(r.drive) && Starts(v, fun) && (fun == 2 || fun == 6)
    ensures var r' := Issued(r, count, address, v, devs);
            && (r'.ctl.ilc <==> r.drive.readOnly || count > -4 || count % 4 != 0)
            && (r'.ctl.ilc ==> r'.drive == r.drive.(eotPos := MarkPoint(r.drive, v)) && r'.bus == r.bus)
  {
    CommandGoes(r, count, address, v, fun, devs);
    var r0 := Latched(r, count, address, v);
    var r1 := r0.(drive := Ready(r.drive, DecodeCommand(v).den8), ctl := ClearErrors(r0.ctl));
    WriteGoes(r0, DecodeCommand(v), devs);
    hide GoOn, WriteRecord, Issued, Configured, DecodeCommand, Ready, MarkPoint, Starts;
    WriteIsRefused(r1, devs);
  }

  /** A write command is the writing of a record. */
  lemma WriteGoes(r: Rig, cmd: Command, devs: nat -> Devices)
    requires Usable(r.drive) && (cmd.fun == 2 || cmd.fun == 6)
    ensures GoOn(r, cmd, devs) == WriteRecord(r.(drive := Ready(r.drive, cmd.den8), ctl := ClearErrors(r.ctl)), devs)
  {
    hide WriteRecord;
  }

  lemma WriteIsRefused(r: Rig, devs: nat -> Devices)
    requires !r.ctl.ilc
    ensures var r' := WriteRecord(r, devs);
            && (r'.ctl.ilc <==> r.drive.readOnly || r.ctl.mtbrc > -4 || r.ctl.mtbrc % 4 != 0)
            && (r'.ctl.ilc ==> r'.drive == r.drive && r'.bus == r.bus)
  {
    NegatedMultiple(r.ctl.mtbrc);
    hide WriteLoop, TapeModel.WriteUInt32;
    var d := TapeModel.WriteUInt32(r.drive, BytesToGo(r.ctl)).1;
    WriteLoopKeepsIlc(r.(bus := r.bus.(errors := r.bus.errors.Reset()), drive := d), devs, 0);
  }

  lemma NegatedMultiple(x: int)
    ensures -x % 4 == 0 <==> x % 4 == 0
  {
  }

  lemma {:induction false} WriteLoopKeepsIlc(r: Rig, devs: nat -> Devices, j: nat)
    ensures WriteLoop(r, devs, j).ctl.ilc == r.ctl.ilc
    decreases BytesToGo(r.ctl)
  {
    hide TapeCommands.WriteHalf;
    if r.ctl.mtbrc < 0 {
      HalfKeepsIlc(r, devs(j));
      var (r', stop) := TapeCommands.WriteHalf(r, devs(j));
      if !stop { WriteLoopKeepsIlc(r', devs, j + 1); }
    }
  }

  lemma HalfKeepsIlc(r: Rig, dev: Devices)
    ensures TapeCommands.WriteHalf(r, dev).0.ctl.ilc == r.ctl.ilc
  {
    hide Dma.ReadUnibus, PutByte;
  }

  /** A read with the head on a file mark, four bytes FF, moves past it and sets EOF; nothing is transferred. */
  lemma MarkIsReadAsEof(r: Rig, count: Short, address: Half, v: Half, devs: nat -> Devices)
    requires Usable(r.drive) && Starts(v, 1) && FourAt(r.drive.bytes, r.drive.pos, 0xFFFF_FFFF)
    ensures var r', p := Issued(r, count, address, v, devs), r.drive.pos + 4;
            && r'.bus == r.bus.(errors := r.bus.errors.Reset())
            && r'.ctl == Control(false, true, p >= MarkPoint(r.drive, v), false, false, count, address + v / 0x10 % 4 * 0x1_0000)
            && r'.drive == r.drive.(eotPos := MarkPoint(r.drive, v), pos := p, bot := false, eot := r'.ctl.eot)
  {
    CommandGoes(r, count, address, v, 1, devs);
    var r0, d := Latched(r, count, address, v), Ready(r.drive, DecodeCommand(v).den8);
    ReadCommandReads(r0, DecodeCommand(v), devs);
    FourOnes(r.drive.bytes, r.drive.pos);
    hide MarkAt, TapeModel.ReadUInt32, WordAt;
    ReadWordAt(d, FILE_MARK) by { MarkIsWord(d.bytes, d.pos); }
    hide Issued, GoOn, DecodeCommand, Configured, ReadLoop, PastRecord, FourAt;
  }

  lemma MarkIsWord(bytes: seq<Byte>, p: nat)
    requires MarkAt(bytes, p)
    ensures WordAt(bytes, p, FILE_MARK)
  {
  }

  /** A power clear, a command word without GO, and a GO while another command runs. */
  lemma OtherCommandWords(r: Rig, cur: bool, v: Half, devs: nat -> Devices)
    requires Configured(r.drive)
    ensures var address := r.ctl.mtcma % 0x1_0000 + v / 0x10 % 4 * 0x1_0000;
            && (v / 0x1000 % 2 == 1 ==> MtcRig(r, cur, v, devs) == r.(ctl := Control(false, false, false, false, false, 0, address)))
            && (v / 0x1000 % 2 == 0 && v % 2 == 0 ==> MtcRig(r, cur, v, devs) == r.(ctl := r.ctl.(mtcma := address)))
            && (Starts(v, v / 2 % 8) && !cur ==> MtcRig(r, cur, v, devs) == r.(ctl := r.ctl.(mtcma := address, ilc := true)))
  {
    hide GoOn, Configured;
  }

  // ----- files -----

  /** Two tapes agree up to e. */
  predicate SameUpTo(bytes: seq<Byte>, bytes': seq<Byte>, e: nat) {
    |bytes'| == |bytes| && e <= |bytes| && bytes[..e] == bytes'[..e]
  }

  lemma OutsideIsUpTo(bytes: seq<Byte>, bytes': seq<Byte>, p: nat, n: nat)
    requires SameOutside(bytes, bytes', p, n) && p <= |bytes|
    ensures SameUpTo(bytes, bytes', p)
  {
  }

  lemma WordSurvives(bytes: seq<Byte>, bytes': seq<Byte>, e: nat, p: nat, v: Word)
    requires SameUpTo(bytes, bytes', e) && WordAt(bytes, p, v) && p + 4 <= e
    ensures WordAt(bytes', p, v)
  {
    hide Bytes4;
    assert bytes[p..p + 4] == bytes[..e][p..p + 4] && bytes'[p..p + 4] == bytes'[..e][p..p + 4];
  }

  lemma {:induction false} RunSurvives(bytes: seq<Byte>, bytes': seq<Byte>, p: nat, lengths: seq<nat>, e: nat)
    requires RunAt(bytes, p, lengths) && SameUpTo(bytes, bytes', e) && EndOf(p, lengths) <= e
    ensures RunAt(bytes', p, lengths)
    decreases |lengths|
  {
    hide WordAt, SameUpTo;
    if lengths != [] {
      var l, next := lengths[0], p + lengths[0] + 8;
      EndGrows(next, lengths[1..]);
      RunSurvives(bytes, bytes', next, lengths[1..], e);
      WordSurvives(bytes, bytes', e, p, l);
      WordSurvives(bytes, bytes', e, p + 4 + l, l);
      SameLength(bytes, bytes', e);
    }
  }

  lemma SameLength(bytes: seq<Byte>, bytes': seq<Byte>, e: nat)
    requires SameUpTo(bytes, bytes', e)
    ensures |bytes'| == |bytes|
  {
  }

  lemma {:induction false} RunGrows(bytes: seq<Byte>, p: nat, lengths: seq<nat>, l: nat)
    requires RunAt(bytes, p, lengths) && RecordAt(bytes, EndOf(p, lengths), l)
    ensures RunAt(bytes, p, lengths + [l]) && EndOf(p, lengths + [l]) == EndOf(p, lengths) + l + 8
    decreases |lengths|
  {
    hide RecordAt;
    var longer := lengths + [l];
    if lengths == [] {
      assert longer[0] == l && longer[1..] == [];
      assert EndOf(p + l + 8, longer[1..]) == p + l + 8;
    } else {
      assert longer[0] == lengths[0] && longer[1..] == lengths[1..] + [l];
      RunGrows(bytes, p + lengths[0] + 8, lengths[1..], l);
    }
  }

  /** A file: where one can start, and its records, up to where the head is. */
  ghost predicate InFile(d: Drive, p: nat, lengths: seq<nat>) {
    FileStartsAt(d.bytes, p) && RunAt(d.bytes, p, lengths) && d.pos == EndOf(p, lengths)
  }

  lemma FileSurvives(d: Drive, d': Drive, p: nat, lengths: seq<nat>, e: nat)
    requires InFile(d, p, lengths) && SameUpTo(d.bytes, d'.bytes, e) && d.pos <= e
    ensures FileStartsAt(d'.bytes, p) && RunAt(d'.bytes, p, lengths)
  {
    hide WordAt, SameUpTo;
    EndGrows(p, lengths);
    RunSurvives(d.bytes, d'.bytes, p, lengths, e);
    if p >= 4 && MarkAt(d.bytes, p - 4) { WordSurvives(d.bytes, d'.bytes, e, p - 4, FILE_MARK); }
  }

  lemma {:induction false} WordsOnTape(bytes: seq<Byte>, p: nat, ws: seq<Word>, i: nat)
    requires Holds(bytes, p, WordBytes(ws)) && i < |ws|
    ensures FourAt(bytes, p + 4 * i, ws[i])
    decreases i
  {
    hide Holds, WordBytes, WordAt, FourAt;
    FirstWordOnTape(bytes, p, ws);
    if i == 0 {
      WordIsFour(bytes, p, ws[0]);
    } else {
      WordsOnTape(bytes, p + 4, ws[1..], i - 1);
      assert p + 4 + 4 * (i - 1) == p + 4 * i;
    }
  }

  /** A record of these words, with its length before and behind it. */
  ghost predicate RecordHolds(bytes: seq<Byte>, p: nat, ws: seq<Word>) {
    FourAt(bytes, p, 4 * |ws|) && FourAt(bytes, p + 4 + 4 * |ws|, 4 * |ws|)
    && forall i: nat :: i < |ws| ==> FourAt(bytes, p + 4 + 4 * i, ws[i])
  }

  lemma FrameHolds(bytes: seq<Byte>, p: nat, ws: seq<Word>)
    requires 4 * |ws| < 0x1_0000_0000 && Holds(bytes, p, Frame(ws))
    ensures RecordHolds(bytes, p, ws)
  {
    hide Holds, Frame, WordBytes, WordAt, FourAt;
    FramePieces(bytes, p, ws);
    WordIsFour(bytes, p, 4 * |ws|);
    WordIsFour(bytes, p + 4 + 4 * |ws|, 4 * |ws|);
    forall i: nat | i < |ws| ensures FourAt(bytes, p + 4 + 4 * i, ws[i]) { WordsOnTape(bytes, p + 4, ws, i); }
  }

  /** A write command appends its record to a file. */
  lemma RecordIsAppended(r: Rig, p: nat, lengths: seq<nat>, n: nat, from: Half, v: Half, fun: nat, devs: nat -> Devices)
    requires Usable(r.drive) && !r.drive.readOnly && InFile(r.drive, p, lengths)
    requires Starts(v, fun) && (fun == 2 || fun == 6) && v / 0x10 % 4 == 0
    requires 0 < 4 * n <= 0x8000 && MappedRange(r.bus, from, n, false) && r.drive.pos + 4 * n + 8 <= |r.drive.bytes|
    ensures var r' := Issued(r, -4 * n, from, v, devs);
            && InFile(r'.drive, p, lengths + [4 * n]) && r'.drive.pos == r.drive.pos + 4 * n + 8
            && RecordHolds(r'.drive.bytes, r.drive.pos, WordsFrom(r.bus, from, n))
            && SameOutside(r.drive.bytes, r'.drive.bytes, r.drive.pos, 4 * n + 8)
            && Usable(r'.drive) && !r'.drive.readOnly && |r'.drive.bytes| == |r.drive.bytes|
            && r'.drive.lengthFt == r.drive.lengthFt && r'.bus.words == r.bus.words
  {
    hide Issued, Configured, DecodeCommand, WordsFrom, MappedRange, GoOn, Frame, Put, SameOutside, RecordAt, RecordHolds, WordAt, RunAt;
    CommandGoes(r, -4 * n, from, v, fun, devs);
    var ws := WordsFrom(r.bus, from, n);
    WriteCommandWrites(r, n, from, DecodeCommand(v), devs);
    var d := Ready(r.drive, DecodeCommand(v).den8);
    FrameIsRecord(d, ws);
    PutKeeps(d, Frame(ws));
    PutChangesOnly(d, Frame(ws));
    var d' := Put(d, Frame(ws));
    FrameHolds(d'.bytes, d.pos, ws);
    OutsideIsUpTo(d.bytes, d'.bytes, d.pos, 4 * n + 8);
    FileSurvives(r.drive, d', p, lengths, d.pos);
    RunGrows(d'.bytes, p, lengths, 4 * n);
    PutKeepsLength(d, Frame(ws));
  }

  lemma PutKeepsLength(d: Drive, data: seq<Byte>)
    requires d.pos + |data| <= |d.bytes|
    ensures Put(d, data).lengthFt == d.lengthFt
  {
  }

  /** A file mark after the records of a file ends it. */
  lemma FileIsEnded(r: Rig, p: nat, lengths: seq<nat>, count: Short, address: Half, v: Half, devs: nat -> Devices)
    requires Usable(r.drive) && !r.drive.readOnly && InFile(r.drive, p, lengths)
    requires r.drive.pos + 4 <= |r.drive.bytes| && Starts(v, 3)
    ensures var r' := Issued(r, count, address, v, devs);
            && InFile(r.drive.(bytes := r'.drive.bytes), p, lengths) && MarkAt(r'.drive.bytes, r.drive.pos)
            && Usable(r'.drive)
  {
    hide Issued, Configured, RunAt, FileStartsAt, SameOutside;
    EofIsWritten(r, count, address, v, devs);
    var d, d' := r.drive, Issued(r, count, address, v, devs).drive;
    FourOnes(d'.bytes, d.pos);
    OutsideIsUpTo(d.bytes, d'.bytes, d.pos, 4);
    hide MarkAt;
    FileSurvives(d, d', p, lengths, d.pos);
  }

  lemma FourOnes(bytes: seq<Byte>, p: nat)
    requires p + 4 <= |bytes|
    ensures MarkAt(bytes, p) <==> bytes[p] == 0xFF && bytes[p + 1] == 0xFF && bytes[p + 2] == 0xFF && bytes[p + 3] == 0xFF
  {
    var s := bytes[p..p + 4];
    assert s[0] == bytes[p] && s[1] == bytes[p + 1] && s[2] == bytes[p + 2] && s[3] == bytes[p + 3];
    assert Bytes4(FILE_MARK) == [0xFF, 0xFF, 0xFF, 0xFF];
    hide Bytes4;
  }

  /** A spacing command is the spacing of the drive, set up for its density. */
  lemma SpacingGoes(r: Rig, cmd: Command, devs: nat -> Devices)
    requires Usable(r.drive) && (cmd.fun == 4 || cmd.fun == 5)
    ensures var d, c := Ready(r.drive, cmd.den8), ClearErrors(r.ctl);
            && Mounted(d)
            && GoOn(r, cmd, devs) == OnDrive(r, if cmd.fun == 4 then TapeCommands.SpaceForward(d, c) else TapeCommands.SpaceReverse(d, c))
    ensures Usable(GoOn(r, cmd, devs).drive) == GoOn(r, cmd, devs).drive.online
  {
    CommandSafety(r, cmd, devs);
    ConfiguredIsMounted(r.drive, if cmd.den8 then 800 else 1600);
    hide TapeCommands.SpaceForward, TapeCommands.SpaceReverse, Configured;
  }

  /** Space reverse with count zero, just after the mark that ends a file, goes back to its start. */
  lemma BackToStart(r: Rig, p: nat, lengths: seq<nat>, address: Half, v: Half, devs: nat -> Devices)
    requires Usable(r.drive) && lengths != [] && FileStartsAt(r.drive.bytes, p) && RunAt(r.drive.bytes, p, lengths)
    requires MarkAt(r.drive.bytes, EndOf(p, lengths)) && r.drive.pos == EndOf(p, lengths) + 4 && Starts(v, 5)
    ensures var r' := Issued(r, 0, address, v, devs);
            && r'.drive.pos == p && r'.drive.bytes == r.drive.bytes && r'.ctl.eof == (p != 0) && Usable(r'.drive)
            && r'.drive.lengthFt == r.drive.lengthFt && r'.bus == r.bus
  {
    hide Issued, DecodeCommand, RunAt, FileStartsAt, MarkAt, TapeCommands.SpaceReverse, Configured, GoOn, Mounted, EndOf, Ready, MarkPoint, Seek;
    CommandGoes(r, 0, address, v, 5, devs);
    var d, r0 := Ready(r.drive, DecodeCommand(v).den8), Latched(r, 0, address, v);
    SpacingGoes(r0, DecodeCommand(v), devs);
    EndGrows(p, lengths);
    MarkFits(r.drive.bytes, EndOf(p, lengths));
    SpaceReverseOverFile(d, ClearErrors(r0.ctl), p, lengths);
    SeekTo(d, p);
  }

  /** Space forward with count zero, at the start of a file before the end-of-tape mark, goes just past its mark. */
  lemma ForwardToEnd(r: Rig, lengths: seq<nat>, address: Half, v: Half, devs: nat -> Devices)
    requires Usable(r.drive) && lengths != [] && RunAt(r.drive.bytes, r.drive.pos, lengths) && Starts(v, 4)
    requires MarkAt(r.drive.bytes, EndOf(r.drive.pos, lengths)) && EndOf(r.drive.pos, lengths) < MarkPoint(r.drive, v)
    ensures var r' := Issued(r, 0, address, v, devs);
            && r'.drive.pos == EndOf(r.drive.pos, lengths) + 4 && r'.drive.bytes == r.drive.bytes && r'.ctl.eof && Usable(r'.drive)
            && r'.bus == r.bus
  {
    hide Issued, DecodeCommand, RunAt, MarkAt, TapeCommands.SpaceForward, Configured, GoOn, Mounted, EndOf, Ready, MarkPoint, Seek;
    CommandGoes(r, 0, address, v, 4, devs);
    var d, r0 := Ready(r.drive, DecodeCommand(v).den8), Latched(r, 0, address, v);
    SpacingGoes(r0, DecodeCommand(v), devs);
    EndGrows(r.drive.pos, lengths);
    MarkFits(r.drive.bytes, EndOf(r.drive.pos, lengths));
    SpaceForwardOverFile(d, ClearErrors(r0.ctl), lengths);
    SeekTo(d, EndOf(d.pos, lengths) + 4);
  }

  /**
   A file is written and found again: write a record behind the records of a file, perhaps none,
   write EOF, space back with count zero, and space forward with count zero. The first spacing
   ends at the start of the file, the second just after the mark with EOF, and the tape holds the
   words of memory between their lengths and then the mark.
   */
  lemma FileIsFound(r: Rig, p: nat, lengths: seq<nat>, n: nat, from: Half, write: Half, mark: Half, back: Half, forth: Half,
                    addresses: seq<Half>, devs: nat -> Devices)
    requires Usable(r.drive) && !r.drive.readOnly && InFile(r.drive, p, lengths) && |addresses| == 3
    requires Starts(write, 2) && write / 0x10 % 4 == 0 && Starts(mark, 3) && Starts(back, 5) && Starts(forth, 4)
    requires 0 < 4 * n <= 0x8000 && MappedRange(r.bus, from, n, false)
    requires r.drive.pos + 4 * n + 12 <= |r.drive.bytes| && r.drive.pos + 4 * n + 8 < MarkPoint(r.drive, forth)
    ensures var written := Issued(r, -4 * n, from, write, devs);
            var marked := Issued(written, 0, addresses[0], mark, devs);
            var started := Issued(marked, 0, addresses[1], back, devs);
            var found := Issued(started, 0, addresses[2], forth, devs);
            var start, end := r.drive.pos, r.drive.pos + 4 * n + 8;
            && marked.drive.pos == end + 4
            && started.drive.pos == p && started.ctl.eof == (p != 0)
            && found.drive.pos == end + 4 && found.ctl.eof && found.drive.bytes == marked.drive.bytes
            && RecordHolds(written.drive.bytes, start, WordsFrom(r.bus, from, n))
            && FourAt(found.drive.bytes, end, 0xFFFF_FFFF)
            && SameOutside(r.drive.bytes, written.drive.bytes, start, 4 * n + 8)
            && SameOutside(written.drive.bytes, marked.drive.bytes, end, 4)
            && found.bus.words == r.bus.words
  {
    hide Issued, Configured, RunAt, FileStartsAt, SameOutside, RecordHolds, MarkAt, WordsFrom, MappedRange, FourAt, EndOf;
    RecordIsAppended(r, p, lengths, n, from, write, 2, devs);
    var written := Issued(r, -4 * n, from, write, devs);
    var longer := lengths + [4 * n];
    EofIsWritten(written, 0, addresses[0], mark, devs);
    FileIsEnded(written, p, longer, 0, addresses[0], mark, devs);
    var marked := Issued(written, 0, addresses[0], mark, devs);
    BackToStart(marked, p, longer, addresses[1], back, devs);
    var started := Issued(marked, 0, addresses[1], back, devs);
    ForwardToEnd(started, longer, addresses[2], forth, devs);
    MarkIsFour(marked.drive.bytes, r.drive.pos + 4 * n + 8);
  }

  lemma MarkIsFour(bytes: seq<Byte>, p: nat)
    requires MarkAt(bytes, p)
    ensures FourAt(bytes, p, 0xFFFF_FFFF)
  {
    WordIsFour(bytes, p, FILE_MARK);
  }
}

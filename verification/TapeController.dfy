/**
 The tape controller: decoding a command word, running the command on the selected drive, and
 the registers. Each command method has the effect that module TapeCommands specifies.
 */
module TapeControl {
  import opened Words
  import opened PhysicalMemory
  import opened Dma
  import opened Bus
  import opened TapeModel
  import opened Tape
  import opened TapeCommands

  type Index8 = x: int | 0 <= x < 8

  datatype Command = Command(den8: bool, den5: bool, pevn: bool, slt: Index8, intEnb: bool, fun: Index8)

  function DecodeCommand(v: Half): Command {
    Command(v / 0x4000 % 2 == 1, v / 0x2000 % 2 == 1, v / 0x800 % 2 == 1, v / 0x100 % 8, v / 0x40 % 2 == 1, v / 2 % 8)
  }
  predicate PowerClear(v: Half) { v / 0x1000 % 2 == 1 }
  predicate GoBit(v: Half) { v % 2 == 1 }
  function WithExtension(mtcma: Word, v: Half): Word { mtcma % 0x1_0000 + v / 0x10 % 4 * 0x1_0000 }

  function ClearErrors(c: Control): Control { c.(ilc := false, eof := false, eot := false, rle := false, nxm := false) }
  predicate AnyError(c: Control) { c.ilc || c.eof || c.eot || c.rle || c.nxm }

  /** What MTC reads as. */
  function EncodeMtc(c: Control, cmd: Command, cur: bool): Half {
    var slt: nat, fun: nat := cmd.slt, cmd.fun;
    0x8000 * B2N(AnyError(c)) + 0x4000 * B2N(cmd.den8) + 0x2000 * B2N(cmd.den5) + 0x800 * B2N(cmd.pevn) + 0x100 * slt
    + 0x80 * B2N(cur) + 0x40 * B2N(cmd.intEnb) + 0x10 * (c.mtcma / 0x1_0000 % 4) + 2 * fun
  }

  /** What MTS reads as; the bits for parity, bad tape and settling errors and for rewinding are never set. */
  function EncodeMts(c: Control, selr: bool, bot: bool, readOnly: bool, ready: bool): Half {
    0x8000 * B2N(c.ilc) + 0x4000 * B2N(c.eof) + 0x400 * B2N(c.eot) + 0x200 * B2N(c.rle) + 0x80 * B2N(c.nxm)
    + 0x40 * B2N(selr) + 0x20 * B2N(bot) + 4 * B2N(readOnly) + B2N(ready)
  }

  /** Every condition can be read off its own bit of the status word, and the other bits are clear. */
  predicate StatusIs(v: Half, c: Control, selr: bool, bot: bool, readOnly: bool, ready: bool) {
    && (v / 0x8000 % 2 == 1 <==> c.ilc) && (v / 0x4000 % 2 == 1 <==> c.eof) && v / 0x800 % 8 == 0
    && (v / 0x400 % 2 == 1 <==> c.eot) && (v / 0x200 % 2 == 1 <==> c.rle) && v / 0x100 % 2 == 0
    && (v / 0x80 % 2 == 1 <==> c.nxm) && (v / 0x40 % 2 == 1 <==> selr) && (v / 0x20 % 2 == 1 <==> bot)
    && v / 8 % 4 == 0 && (v / 4 % 2 == 1 <==> readOnly) && v / 2 % 2 == 0 && (v % 2 == 1 <==> ready)
  }

  lemma StatusBits(c: Control, selr: bool, bot: bool, readOnly: bool, ready: bool)
    ensures StatusIs(EncodeMts(c, selr, bot, readOnly, ready), c, selr, bot, readOnly, ready)
  {
    var v := EncodeMts(c, selr, bot, readOnly, ready);
    MtsDigits(v, B2N(c.ilc), B2N(c.eof), B2N(c.eot), B2N(c.rle), B2N(c.nxm), B2N(selr), B2N(bot), B2N(readOnly), B2N(ready));
    hide EncodeMts;
  }

  lemma MtsDigits(v: nat, ilc: nat, eof: nat, eot: nat, rle: nat, nxm: nat, selr: nat, bot: nat, wrl: nat, tur: nat)
    requires ilc < 2 && eof < 2 && eot < 2 && rle < 2 && nxm < 2 && selr < 2 && bot < 2 && wrl < 2 && tur < 2
    requires v == 0x8000 * ilc + 0x4000 * eof + 0x400 * eot + 0x200 * rle + 0x80 * nxm + 0x40 * selr + 0x20 * bot + 4 * wrl + tur
    ensures v / 0x8000 % 2 == ilc && v / 0x4000 % 2 == eof && v / 0x800 % 8 == 0 && v / 0x400 % 2 == eot && v / 0x200 % 2 == rle
    ensures v / 0x100 % 2 == 0 && v / 0x80 % 2 == nxm && v / 0x40 % 2 == selr && v / 0x20 % 2 == bot && v / 8 % 4 == 0
    ensures v / 4 % 2 == wrl && v / 2 % 2 == 0 && v % 2 == tur
  {
    var low8 := 0x80 * nxm + 0x40 * selr + 0x20 * bot + 4 * wrl + tur;
    HighDigits(v, ilc, eof, eot, rle, low8);
    LowDigits(v, 0x80 * ilc + 0x40 * eof + 4 * eot + 2 * rle, nxm, selr, bot, wrl, tur);
  }

  lemma HighDigits(v: nat, ilc: nat, eof: nat, eot: nat, rle: nat, low8: nat)
    requires ilc < 2 && eof < 2 && eot < 2 && rle < 2 && low8 < 0x100
    requires v == 0x8000 * ilc + 0x4000 * eof + 0x400 * eot + 0x200 * rle + low8
    ensures v / 0x8000 % 2 == ilc && v / 0x4000 % 2 == eof && v / 0x800 % 8 == 0 && v / 0x400 % 2 == eot && v / 0x200 % 2 == rle
    ensures v / 0x100 % 2 == 0
  {
    var low11 := 0x400 * eot + 0x200 * rle + low8;
    Digit(v, 0, ilc, 0x4000 * eof + low11, 0x8000, 2);
    Digit(v, ilc, eof, low11, 0x4000, 2);
    Digit(v, 2 * ilc + eof, 0, low11, 0x800, 8);
    var q := 16 * ilc + 8 * eof;
    Digit(v, q, eot, 0x200 * rle + low8, 0x400, 2);
    Digit(v, 2 * q + eot, rle, low8, 0x200, 2);
    Digit(v, 4 * q + 2 * eot + rle, 0, low8, 0x100, 2);
  }

  lemma LowDigits(v: nat, high: nat, nxm: nat, selr: nat, bot: nat, wrl: nat, tur: nat)
    requires nxm < 2 && selr < 2 && bot < 2 && wrl < 2 && tur < 2
    requires v == 0x100 * high + 0x80 * nxm + 0x40 * selr + 0x20 * bot + 4 * wrl + tur
    ensures v / 0x80 % 2 == nxm && v / 0x40 % 2 == selr && v / 0x20 % 2 == bot && v / 8 % 4 == 0
    ensures v / 4 % 2 == wrl && v / 2 % 2 == 0 && v % 2 == tur
  {
    var low5 := 4 * wrl + tur;
    Digit(v, high, nxm, 0x40 * selr + 0x20 * bot + low5, 0x80, 2);
    Digit(v, 2 * high + nxm, selr, 0x20 * bot + low5, 0x40, 2);
    Digit(v, 4 * high + 2 * nxm + selr, bot, low5, 0x20, 2);
    var q := 8 * high + 4 * nxm + 2 * selr + bot;
    Digit(v, q, 0, low5, 8, 4);
    Digit(v, 4 * q, wrl, tur, 4, 2);
    Digit(v, 8 * q + wrl, 0, tur, 2, 2);
  }

  /** Reading MTC and writing it back selects the same command and address, and starts nothing. */
  lemma CommandWordRoundTrip(c: Control, cmd: Command, cur: bool)
    ensures var v := EncodeMtc(c, cmd, cur);
            && DecodeCommand(v) == cmd && !GoBit(v) && !PowerClear(v)
            && (c.mtcma < 0x4_0000 ==> WithExtension(c.mtcma, v) == c.mtcma)
            && (v / 0x8000 == 1 <==> AnyError(c)) && (v / 0x80 % 2 == 1 <==> cur)
  {
    hide AnyError;
    var v := EncodeMtc(c, cmd, cur);
    MtcDigits(v, B2N(AnyError(c)), B2N(cmd.den8), B2N(cmd.den5), B2N(cmd.pevn), cmd.slt, B2N(cur), B2N(cmd.intEnb),
              c.mtcma / 0x1_0000 % 4, cmd.fun);
    hide EncodeMtc;
  }

  lemma MtcDigits(v: nat, e: nat, d8: nat, d5: nat, pe: nat, slt: nat, cr: nat, ie: nat, ext: nat, fun: nat)
    requires e < 2 && d8 < 2 && d5 < 2 && pe < 2 && slt < 8 && cr < 2 && ie < 2 && ext < 4 && fun < 8
    requires v == 0x8000 * e + 0x4000 * d8 + 0x2000 * d5 + 0x800 * pe + 0x100 * slt + 0x80 * cr + 0x40 * ie + 0x10 * ext + 2 * fun
    ensures v / 0x8000 == e && v / 0x4000 % 2 == d8 && v / 0x2000 % 2 == d5 && v / 0x1000 % 2 == 0 && v / 0x800 % 2 == pe
    ensures v / 0x100 % 8 == slt && v / 0x80 % 2 == cr && v / 0x40 % 2 == ie && v / 0x10 % 4 == ext && v / 2 % 8 == fun && v % 2 == 0
  {
    var low4 := 0x10 * ext + 2 * fun;
    var low7 := 0x80 * cr + 0x40 * ie + low4;
    var low11 := 0x100 * slt + low7;
    var low13 := 0x800 * pe + low11;
    Digit(v, e, d8, 0x2000 * d5 + low13, 0x4000, 2);
    Digit(v, 2 * e + d8, d5, low13, 0x2000, 2);
    Digit(v, 4 * e + 2 * d8 + d5, 0, low13, 0x1000, 2);
    Digit(v, 8 * e + 4 * d8 + 2 * d5, pe, low11, 0x800, 2);
    var q := 16 * e + 8 * d8 + 4 * d5 + pe;
    Digit(v, q, slt, low7, 0x100, 8);
    Digit(v, 8 * q + slt, cr, 0x40 * ie + low4, 0x80, 2);
    Digit(v, 16 * q + 2 * slt + cr, ie, low4, 0x40, 2);
    Digit(v, 32 * q + 4 * slt + 2 * cr + ie, ext, 2 * fun, 0x10, 4);
    Digit(v, 128 * q + 16 * slt + 8 * cr + 4 * ie + ext, fun, 0, 2, 8);
  }

  /** The digit of weight s in base n. */
  lemma Digit(v: nat, q: nat, d: nat, lo: nat, s: nat, n: nat)
    requires lo < s && d < n && v == (q * n + d) * s + lo
    ensures v / s % n == d
  {
    DivUnique(v, s, q * n + d, lo);
    DivUnique(q * n + d, n, q, d);
  }

  /** The size check that an on-line drive has passed. */
  ghost predicate Configured(d: Drive) {
    d.Valid() && (d.online ==> d.lengthFt > 0 && |d.bytes| >= d.lengthFt * 12 * 1600)
  }

  /** The drive set up for a command, which every command relies on to end. */
  function Ready(d: Drive, den8: bool): Drive { TapeModel.SetBpi(d, if den8 then 800 else 1600) }

  /** A command on an on-line drive. */
  ghost function Execute(r: Rig, cmd: Command, devs: nat -> Devices): Rig
    requires Configured(r.drive) && r.drive.online
  {
    var d, c := Ready(r.drive, cmd.den8), ClearErrors(r.ctl);
    ConfiguredIsMounted(r.drive, if cmd.den8 then 800 else 1600);
    var r' := r.(drive := d, ctl := c);
    if cmd.fun == 0 then r'.(drive := TapeModel.Seek(d, 0).(eot := false, online := false), ctl := c.(eot := false))
    else if cmd.fun == 1 then ReadRecord(r', devs)
    else if cmd.fun == 2 || cmd.fun == 6 then WriteRecord(r', devs)
    else if cmd.fun == 3 then OnDrive(r', TapeCommands.WriteEof(d, c))
    else if cmd.fun == 4 then OnDrive(r', TapeCommands.SpaceForward(d, c))
    else if cmd.fun == 5 then OnDrive(r', TapeCommands.SpaceReverse(d, c))
    else r'.(drive := TapeModel.Seek(d, 0), ctl := c.(eot := false))
  }

  /** A GO with a drive selected: an off-line drive is an illegal command. */
  ghost function GoOn(r: Rig, cmd: Command, devs: nat -> Devices): Rig
    requires Configured(r.drive)
  {
    if !r.drive.online then r.(ctl := ClearErrors(r.ctl).(ilc := true)) else Execute(r, cmd, devs)
  }

  /** The same drive at another position, perhaps with other bytes of the same number if it can be written. */
  ghost predicate Alike(d: Drive, d': Drive) {
    && d' == d.(bytes := d'.bytes, pos := d'.pos, bot := d'.bot, eot := d'.eot)
    && |d'.bytes| == |d.bytes| && (d.readOnly ==> d'.bytes == d.bytes) && (d.Valid() ==> d'.Valid())
  }

  lemma {:induction false} ReadLoopKeepsTape(r: Rig, length: Word, devs: nat -> Devices, j: nat)
    ensures SameTape(r.drive, ReadLoop(r, length, devs, j).0.drive)
    decreases BytesToGo(r.ctl)
  {
    hide TapeCommands.ReadHalf, Less2;
    if r.ctl.mtbrc < 0 && length != 0 {
      ReadHalfKeepsTape(r, devs(j));
      var r' := TapeCommands.ReadHalf(r, devs(j)).0;
      ReadLoopKeepsTape(r', Less2(length), devs, j + 1);
    }
  }

  lemma ReadHalfKeepsTape(r: Rig, dev: Devices)
    ensures SameTape(r.drive, TapeCommands.ReadHalf(r, dev).0.drive)
  {
    ReadByteKeepsTape(r.drive);
    ReadByteKeepsTape(TapeModel.ReadByte(r.drive).2);
    hide Dma.WriteUnibus, TapeModel.ReadByte;
  }

  lemma ReadByteKeepsTape(d: Drive)
    ensures SameTape(d, TapeModel.ReadByte(d).2)
  {
  }

  lemma ReadRecordKeepsTape(r: Rig, devs: nat -> Devices)
    ensures SameTape(r.drive, ReadRecord(r, devs).drive)
  {
    hide ReadLoop, TapeModel.ReadUInt32, PastRecord;
    var (_, preamble, d) := TapeModel.ReadUInt32(r.drive);
    ReadKeepsTape(r.drive);
    var r0 := r.(bus := r.bus.(errors := r.bus.errors.Reset()), drive := d);
    ReadLoopKeepsTape(r0, preamble, devs, 0);
    PastRecordKeepsTape(ReadLoop(r0, preamble, devs, 0).0.drive);
  }

  lemma PastRecordKeepsTape(d: Drive)
    ensures SameTape(d, PastRecord(d).0)
  {
    hide TapeModel.ReadUInt32;
    ReadKeepsTape(d);
    ReadKeepsTape(TapeModel.ReadUInt32(d).2);
  }

  lemma PutByteAlike(d: Drive, v: Byte)
    ensures Alike(d, PutByte(d, v))
  {
  }

  lemma WriteUInt32Alike(d: Drive, v: Word)
    ensures Alike(d, TapeModel.WriteUInt32(d, v).1)
  {
  }

  lemma {:induction false} WriteLoopAlike(r: Rig, devs: nat -> Devices, j: nat)
    ensures Alike(r.drive, WriteLoop(r, devs, j).drive)
    decreases BytesToGo(r.ctl)
  {
    hide TapeCommands.WriteHalf;
    if r.ctl.mtbrc < 0 {
      WriteHalfAlike(r, devs(j));
      var r' := TapeCommands.WriteHalf(r, devs(j)).0;
      if !TapeCommands.WriteHalf(r, devs(j)).1 { WriteLoopAlike(r', devs, j + 1); }
    }
  }

  lemma WriteHalfAlike(r: Rig, dev: Devices)
    ensures Alike(r.drive, TapeCommands.WriteHalf(r, dev).0.drive)
  {
    hide Dma.ReadUnibus, PutByte;
    var data := Dma.ReadUnibus(r.bus, r.ctl.mtcma, dev).0;
    PutByteAlike(r.drive, data % 0x100);
    PutByteAlike(PutByte(r.drive, data % 0x100), data / 0x100 % 0x100);
  }

  lemma WriteRecordAlike(r: Rig, devs: nat -> Devices)
    ensures Alike(r.drive, WriteRecord(r, devs).drive)
  {
    hide WriteLoop, TapeModel.WriteUInt32;
    var length := BytesToGo(r.ctl);
    WriteUInt32Alike(r.drive, length);
    var r0 := r.(bus := r.bus.(errors := r.bus.errors.Reset()), drive := TapeModel.WriteUInt32(r.drive, length).1);
    WriteLoopAlike(r0, devs, 0);
    WriteUInt32Alike(WriteLoop(r0, devs, 0).drive, length);
  }

  lemma {:induction false} ForwardFileKeepsTape(d: Drive, c: Control)
    requires Mounted(d)
    ensures SameTape(d, ForwardFile(d, c).0)
    decreases ForwardMeasure(d, c)
  {
    hide ForwardOne;
    if !c.eof && !c.eot {
      ForwardProgress(d);
      var (d', c') := ForwardStep(d, c);
      ForwardFileKeepsTape(d', c');
    }
  }

  lemma {:induction false} ForwardRecordsKeepsTape(d: Drive, c: Control)
    requires Mounted(d)
    ensures SameTape(d, ForwardRecords(d, c).0)
    decreases BytesToGo(c)
  {
    hide ForwardOne;
    if c.mtbrc < 0 {
      ForwardProgress(d);
      var (d', c') := ForwardStep(d, c);
      if !c'.eof && !c'.eot { ForwardRecordsKeepsTape(d', c'.(mtbrc := Increment(c'.mtbrc))); }
    }
  }

  lemma {:induction false} ReverseFileKeepsTape(d: Drive, c: Control)
    requires Mounted(d)
    ensures SameTape(d, ReverseFile(d, c).0)
    decreases ReverseMeasure(d, c)
  {
    hide ReverseOne;
    if !c.eof && !d.bot {
      ReverseProgress(d, true);
      var (d', c') := ReverseStep(d, c, true);
      ReverseFileKeepsTape(d', c');
    }
  }

  lemma {:induction false} ReverseRecordsKeepsTape(d: Drive, c: Control)
    requires Mounted(d)
    ensures SameTape(d, ReverseRecords(d, c).0)
    decreases BytesToGo(c)
  {
    hide ReverseOne;
    if c.mtbrc < 0 {
      ReverseProgress(d, true);
      var (d', c') := ReverseStep(d, c, true);
      if !c'.eof && !d'.bot { ReverseRecordsKeepsTape(d', c'.(mtbrc := Increment(c'.mtbrc))); }
    }
  }

  lemma SpacingKeepsTape(d: Drive, c: Control)
    requires Mounted(d)
    ensures SameTape(d, TapeCommands.SpaceForward(d, c).0) && SameTape(d, TapeCommands.SpaceReverse(d, c).0)
  {
    hide ForwardFile, ForwardRecords, ReverseOne, ReverseFile, ReverseRecords;
    ForwardFileKeepsTape(d, c);
    ForwardRecordsKeepsTape(d, c);
    ReverseProgress(d, false);
    var (d', c') := ReverseStep(d, c, false);
    ReverseFileKeepsTape(d', c');
    ReverseRecordsKeepsTape(d', c'.(mtbrc := Increment(c'.mtbrc)));
  }

  /** Only the write commands change the bytes of a tape, and none those of a protected one. */
  predicate Writes(cmd: Command) { cmd.fun == 2 || cmd.fun == 3 || cmd.fun == 6 }

  /** What may become of a drive: the same tape length and protection, other bytes only if they can be written. */
  ghost predicate Kept(d: Drive, d': Drive, writes: bool) {
    && |d'.bytes| == |d.bytes| && d'.readOnly == d.readOnly && d'.lengthFt == d.lengthFt
    && (d.Valid() ==> d'.Valid()) && (d'.online ==> d.online)
    && (d.readOnly || !writes ==> d'.bytes == d.bytes)
  }

  lemma KeptThrough(d: Drive, d': Drive, bpi: nat)
    ensures SameTape(TapeModel.SetBpi(d, bpi), d') ==> Kept(d, d', false) && Kept(d, d', true)
    ensures Alike(TapeModel.SetBpi(d, bpi), d') ==> Kept(d, d', true)
  {
  }

  /** Every command on an on-line drive keeps it so, and only the transfer commands touch the bus. */
  lemma ExecuteKeeps(r: Rig, cmd: Command, devs: nat -> Devices)
    requires Configured(r.drive) && r.drive.online
    ensures Kept(r.drive, Execute(r, cmd, devs).drive, Writes(cmd))
    ensures cmd.fun !in {1, 2, 6} ==> Execute(r, cmd, devs).bus == r.bus
  {
    hide ReadRecord, WriteRecord, TapeCommands.SpaceForward, TapeCommands.SpaceReverse, TapeModel.WriteUInt32;
    var bpi := if cmd.den8 then 800 else 1600;
    var d, c := Ready(r.drive, cmd.den8), ClearErrors(r.ctl);
    ConfiguredIsMounted(r.drive, bpi);
    var r' := r.(drive := d, ctl := c);
    KeptThrough(r.drive, Execute(r, cmd, devs).drive, bpi);
    if cmd.fun == 1 {
      hide Kept, Alike;
      ReadRecordKeepsTape(r', devs);
    } else if cmd.fun == 2 || cmd.fun == 6 {
      hide Kept, Alike;
      WriteRecordAlike(r', devs);
    } else if cmd.fun == 3 {
      WriteUInt32Alike(d, FILE_MARK);
    } else if cmd.fun == 4 || cmd.fun == 5 {
      hide Kept, Alike;
      SpacingKeepsTape(d, c);
    }
  }

  /**
   What no command does to the selected drive: change the number of bytes, leave the position
   outside the tape, write a protected tape, or write at all unless it is a write command. Only
   the transfer commands touch the bus.
   */
  lemma CommandSafety(r: Rig, cmd: Command, devs: nat -> Devices)
    requires Configured(r.drive)
    ensures var r' := GoOn(r, cmd, devs);
            && Configured(r'.drive) && |r'.drive.bytes| == |r.drive.bytes| && r'.drive.readOnly == r.drive.readOnly
            && (r.drive.readOnly || !Writes(cmd) || !r.drive.online ==> r'.drive.bytes == r.drive.bytes)
            && (cmd.fun !in {1, 2, 6} ==> r'.bus == r.bus)
  {
    hide Execute;
    if r.drive.online { ExecuteKeeps(r, cmd, devs); }
  }

  function OnDrive(r: Rig, dc: (Drive, Control)): Rig { r.(drive := dc.0, ctl := dc.1) }

  /** What a write of MTC does to the drive it selects. */
  ghost function MtcRig(r: Rig, cur: bool, v: Half, devs: nat -> Devices): Rig
    requires Configured(r.drive)
  {
    var c := r.ctl.(mtcma := WithExtension(r.ctl.mtcma, v));
    if PowerClear(v) then r.(ctl := ClearErrors(c).(mtbrc := 0))
    else if !GoBit(v) then r.(ctl := c)
    else if !cur then r.(ctl := c.(ilc := true))
    else GoOn(r.(ctl := c), DecodeCommand(v), devs)
  }

  /** A count register as it is read, and as it is written. */
  function AsHalf(x: Short): Half { x % 0x1_0000 }
  function AsShort(h: Half): Short { var v: int := h; if v < 0x8000 then v else v - 0x1_0000 }

  lemma CountRoundTrip(x: Short, h: Half)
    ensures AsShort(AsHalf(x)) == x && AsHalf(AsShort(h)) == h
  {
  }

  class TapeController {
    const bus: BusAdaptor
    const units: seq<TapeDrive>
    var ctl: Control
    var command: Command
    var cur: bool
    var selr: bool
    var mtrd: Half
    /** Which units are ready for a command: those mounted, and those that have obeyed one. */
    var ready: seq<bool>
    /** An interrupt has been requested. */
    var interrupt: bool

    ghost predicate Valid()
      reads this, units, set u | u in units :: u.file
    {
      && bus.Valid() && |units| == 8 && |ready| == 8
      && (forall i, j :: 0 <= i < j < 8 ==> units[i] != units[j] && units[i].file != units[j].file)
      && (forall i :: 0 <= i < 8 ==> Configured(units[i].View()))
    }

    ghost function RigOf(p: TapeDrive): Rig
      requires bus.Valid()
      reads this`ctl, p, p.file, bus, bus.busInterface, bus.mainMemory.words, bus.mapping.registers, bus.mapping.buffers
    {
      Rig(bus.View(), p.View(), ctl)
    }

    constructor (bus: BusAdaptor, units: seq<TapeDrive>)
      requires bus.Valid() && |units| == 8
      requires forall i, j :: 0 <= i < j < 8 ==> units[i] != units[j] && units[i].file != units[j].file
      requires forall i :: 0 <= i < 8 ==> Configured(units[i].View())
      ensures Valid() && this.bus == bus && this.units == units
      ensures forall i :: 0 <= i < 8 ==> ready[i] == units[i].online
    {
      this.bus := bus;
      this.units := units;
      ctl := Control(false, false, false, false, false, 0, 0);
      command := Command(false, false, false, 0, false, 0);
      cur := true;
      selr := false;
      mtrd := 0;
      interrupt := false;
      ready := seq(8, (i: int) requires 0 <= i < 8 reads units => units[i].online);
    }

    // ----- spacing -----

    method SpaceForwardOneRecord(p: TapeDrive)
      modifies this`ctl, p
      ensures (p.View(), ctl) == ForwardStep(old(p.View()), old(ctl))
    {
      hide TapeModel.ReadUInt32;
      var _, preamble := p.ReadUInt32();
      var recordLength: int := preamble;
      p.Seek((recordLength + 4) % 0x1_0000_0000, true);
      var _, maybeFileMark := p.ReadUInt32();
      if maybeFileMark == FILE_MARK {
        ctl := ctl.(eof := true);
      } else {
        p.Seek(-4, true);
      }
      ctl := ctl.(eot := p.eot);
    }

    method SpaceForward(p: TapeDrive)
      requires Mounted(p.View())
      modifies this`ctl, p
      ensures (p.View(), ctl) == TapeCommands.SpaceForward(old(p.View()), old(ctl))
    {
      if ctl.eot { return; }
      ghost var d, c := p.View(), ctl;
      if ctl.mtbrc == 0 {
        while !ctl.eof && !ctl.eot
          invariant Mounted(p.View()) && ForwardFile(p.View(), ctl) == ForwardFile(d, c)
          decreases ForwardMeasure(p.View(), ctl)
        {
          hide ForwardOne;
          ForwardProgress(p.View());
          SpaceForwardOneRecord(p);
        }
      } else {
        while ctl.mtbrc < 0
          invariant ForwardRecords(p.View(), ctl) == ForwardRecords(d, c)
          decreases BytesToGo(ctl)
        {
          hide ForwardOne;
          SpaceForwardOneRecord(p);
          if ctl.eof || ctl.eot { return; }
          ctl := ctl.(mtbrc := ctl.mtbrc + 1);
        }
      }
    }

    method SpaceReverseOneRecord(p: TapeDrive, stopAtFileMark: bool)
      modifies this`ctl, p
      ensures (p.View(), ctl) == ReverseStep(old(p.View()), old(ctl), stopAtFileMark)
    {
      hide TapeModel.ReadUInt32;
      p.Seek(-4, true);
      var _, postamble := p.ReadUInt32();
      if postamble == FILE_MARK {
        if stopAtFileMark {
          ctl := ctl.(eof := true, eot := p.eot);
          return;
        }
        p.Seek(-8, true);
        var _, again := p.ReadUInt32();
        postamble := again;
      }
      var recordLength: int := postamble;
      p.Seek(-(recordLength + 8), true);
      ctl := ctl.(eot := p.eot);
    }

    method SpaceReverse(p: TapeDrive)
      requires Mounted(p.View())
      modifies this`ctl, p
      ensures (p.View(), ctl) == TapeCommands.SpaceReverse(old(p.View()), old(ctl))
    {
      if p.bot { return; }
      hide ReverseOne, ReverseFile, ReverseRecords, Mounted;
      ReverseProgress(p.View(), false);
      SpaceReverseOneRecord(p, false);
      if ctl.mtbrc == 0 {
        BackOverFile(p);
      } else {
        ctl := ctl.(mtbrc := Increment(ctl.mtbrc));
        if !p.bot { BackOverRecords(p); }
      }
    }

    method BackOverFile(p: TapeDrive)
      requires Mounted(p.View())
      modifies this`ctl, p
      ensures (p.View(), ctl) == ReverseFile(old(p.View()), old(ctl))
    {
      hide ReverseOne, Mounted;
      ghost var d, c := p.View(), ctl;
      while !ctl.eof && !p.bot
        invariant Mounted(p.View()) && ReverseFile(p.View(), ctl) == ReverseFile(d, c)
        decreases ReverseMeasure(p.View(), ctl)
      {
        ReverseProgress(p.View(), true);
        SpaceReverseOneRecord(p, true);
      }
    }

    method BackOverRecords(p: TapeDrive)
      modifies this`ctl, p
      ensures (p.View(), ctl) == ReverseRecords(old(p.View()), old(ctl))
    {
      hide ReverseOne;
      ghost var d, c := p.View(), ctl;
      while ctl.mtbrc < 0
        invariant ReverseRecords(p.View(), ctl) == ReverseRecords(d, c)
        decreases BytesToGo(ctl)
      {
        SpaceReverseOneRecord(p, true);
        if ctl.eof || p.bot { return; }
        ctl := ctl.(mtbrc := ctl.mtbrc + 1);
      }
    }

    // ----- transfers -----

    /** One halfword of a read; true when the bus reported an error. */
    method ReadHalf(p: TapeDrive, dev: Devices) returns (stop: bool)
      requires bus.Valid()
      modifies this`ctl, p, bus, bus.busInterface, bus.mainMemory.words, bus.mapping.registers, bus.mapping.buffers
      ensures (RigOf(p), stop) == TapeCommands.ReadHalf(old(RigOf(p)), dev)
    {
      hide TapeModel.ReadByte, Dma.WriteUnibus;
      var _, v1 := p.ReadByte();
      var _, v2 := p.ReadByte();
      var lo: nat, hi: nat := v1, v2;
      ctl := ctl.(mtbrc := Increment(Increment(ctl.mtbrc)));
      var _ := bus.WriteUnibus(ctl.mtcma, hi * 0x100 + lo, dev, false);
      stop := bus.busInterface.errors.StopsTape();
      ctl := if stop then ctl.(nxm := true) else ctl.(mtcma := Wrap32(ctl.mtcma + 2));
    }

    /** The transfer loop of a read; returns what is left of the record. */
    method ReadData(p: TapeDrive, length: Word, devs: nat -> Devices) returns (recordLength: Word)
      requires bus.Valid()
      modifies this`ctl, p, bus, bus.busInterface, bus.mainMemory.words, bus.mapping.registers, bus.mapping.buffers
      ensures (RigOf(p), recordLength) == ReadLoop(old(RigOf(p)), length, devs, 0)
    {
      hide TapeCommands.ReadHalf, Less2;
      recordLength := length;
      var j: nat := 0;
      ghost var end := ReadLoop(RigOf(p), length, devs, 0);
      while ctl.mtbrc < 0 && recordLength > 0
        invariant bus.Valid() && ReadLoop(RigOf(p), recordLength, devs, j) == end
        decreases BytesToGo(ctl)
      {
        var stop := ReadHalf(p, devs(j));
        recordLength := Less2(recordLength);
        if stop { return; }
        j := j + 1;
      }
    }

    method Read(p: TapeDrive, devs: nat -> Devices)
      requires bus.Valid() && !ctl.nxm
      modifies this`ctl, p, bus, bus.busInterface, bus.mainMemory.words, bus.mapping.registers, bus.mapping.buffers
      ensures RigOf(p) == ReadRecord(old(RigOf(p)), devs)
    {
      hide TapeModel.ReadUInt32, ReadLoop;
      bus.busInterface.ResetBusErrorStatus();
      var _, preamble := p.ReadUInt32();
      if preamble == FILE_MARK {
        ctl := ctl.(eof := true, eot := p.eot);
        return;
      }
      var recordLength := ReadData(p, preamble, devs);
      if ctl.nxm {
      } else if recordLength > 0 {
        ctl := ctl.(rle := true);
      } else {
        var _, _ := p.ReadUInt32();
        var _, maybeFileMark := p.ReadUInt32();
        if maybeFileMark == FILE_MARK {
          ctl := ctl.(eof := true);
        } else {
          p.Seek(-4, true);
        }
      }
      ctl := ctl.(eot := p.eot);
    }

    /** One halfword of a write; true when the bus reported an error. */
    method WriteHalf(p: TapeDrive, dev: Devices) returns (stop: bool)
      requires bus.Valid()
      modifies this`ctl, p, p.file, bus, bus.busInterface, bus.mapping.buffers
      ensures (RigOf(p), stop) == TapeCommands.WriteHalf(old(RigOf(p)), dev)
    {
      hide TapeModel.WriteByte, Dma.ReadUnibus;
      var data := bus.ReadUnibus(ctl.mtcma, dev);
      stop := bus.busInterface.errors.StopsTape();
      if stop {
        ctl := ctl.(nxm := true);
        return;
      }
      ctl := ctl.(mtcma := Wrap32(ctl.mtcma + 2));
      var _ := p.WriteByte(data % 0x100);
      var _ := p.WriteByte(data / 0x100 % 0x100);
      ctl := ctl.(mtbrc := Increment(Increment(ctl.mtbrc)));
    }

    /** The transfer loop of a write. */
    method WriteData(p: TapeDrive, devs: nat -> Devices)
      requires bus.Valid()
      modifies this`ctl, p, p.file, bus, bus.busInterface, bus.mapping.buffers
      ensures RigOf(p) == WriteLoop(old(RigOf(p)), devs, 0)
    {
      hide TapeCommands.WriteHalf;
      var j: nat := 0;
      ghost var end := WriteLoop(RigOf(p), devs, 0);
      while ctl.mtbrc < 0
        invariant bus.Valid() && WriteLoop(RigOf(p), devs, j) == end
        decreases BytesToGo(ctl)
      {
        var stop := WriteHalf(p, devs(j));
        if stop { return; }
        j := j + 1;
      }
    }

    method WriteCommand(p: TapeDrive, devs: nat -> Devices)
      requires bus.Valid() && !ctl.nxm
      modifies this`ctl, p, p.file, bus, bus.busInterface, bus.mapping.buffers
      ensures RigOf(p) == WriteRecord(old(RigOf(p)), devs)
    {
      hide TapeModel.WriteUInt32, WriteLoop;
      if p.readOnly {
        ctl := ctl.(ilc := true);
        return;
      }
      var recordLength: int := ctl.mtbrc;
      recordLength := -recordLength;
      if recordLength < 4 {
        ctl := ctl.(ilc := true);
        return;
      } else if recordLength % 4 != 0 {
        ctl := ctl.(ilc := true);
        return;
      }
      bus.busInterface.ResetBusErrorStatus();
      var _ := p.WriteUInt32(recordLength);
      bus.busInterface.ResetBusErrorStatus();
      WriteData(p, devs);
      if ctl.nxm {
      } else if ctl.mtbrc == 0 {
        var _ := p.WriteUInt32(recordLength);
      }
      ctl := ctl.(eot := p.eot);
    }

    method WriteEof(p: TapeDrive)
      modifies this`ctl, p, p.file
      ensures (p.View(), ctl) == TapeCommands.WriteEof(old(p.View()), old(ctl))
    {
      if p.readOnly {
        ctl := ctl.(ilc := true);
        return;
      }
      hide TapeModel.WriteUInt32;
      var _ := p.WriteUInt32(FILE_MARK);
      ctl := ctl.(eot := p.eot, eof := true);
    }

    // ----- commands -----

    method Offline(p: TapeDrive)
      modifies this`ctl, p
      ensures p.View() == TapeModel.Seek(old(p.View()), 0).(eot := false, online := false)
      ensures ctl == old(ctl).(eot := false)
    {
      p.RewindAndOffline();
      ctl := ctl.(eot := p.eot);
    }

    method Rewind(p: TapeDrive)
      modifies this`ctl, this`interrupt, p
      ensures p.View() == TapeModel.Seek(old(p.View()), 0) && ctl == old(ctl).(eot := false)
      ensures interrupt == (old(interrupt) || command.intEnb)
    {
      p.Seek(0, false);
      ctl := ctl.(eot := false);
      if p.bot { AssertInterruptIfEnabled(); }
    }

    method AssertInterruptIfEnabled()
      modifies this`interrupt
      ensures interrupt == (old(interrupt) || command.intEnb)
    {
      if command.intEnb { interrupt := true; }
    }

    method Go(p: TapeDrive, devs: nat -> Devices)
      requires bus.Valid() && Configured(p.View()) && selr == p.online
      modifies this`ctl, this`interrupt, p, p.file
      modifies bus, bus.busInterface, bus.mainMemory.words, bus.mapping.registers, bus.mapping.buffers
      ensures bus.Valid() && Configured(p.View())
      ensures RigOf(p) == GoOn(old(RigOf(p)), command, devs)
      ensures interrupt == (old(interrupt) || (old(p.online) && command.fun == 7 && command.intEnb))
    {
      hide ForwardFile, ForwardRecords, ReverseStep, ReverseFile, ReverseRecords, ReadRecord, WriteRecord;
      ghost var r0 := RigOf(p);
      CommandSafety(r0, command, devs);
      ctl := ClearErrors(ctl);
      if !selr {
        ctl := ctl.(ilc := true);
        return;
      }
      p.SetBpi(if command.den8 then 800 else 1600);
      ConfiguredIsMounted(r0.drive, if command.den8 then 800 else 1600);
      if command.fun == 0 {
        Offline(p);
      } else if command.fun == 1 {
        Read(p, devs);
      } else if command.fun == 2 || command.fun == 6 {
        WriteCommand(p, devs);
      } else if command.fun == 3 {
        WriteEof(p);
      } else if command.fun == 4 {
        SpaceForward(p);
      } else if command.fun == 5 {
        SpaceReverse(p);
      } else {
        Rewind(p);
      }
    }

    /** Writing MTC: power clear, or select a drive and perhaps start a command on it. */
    method UpdateMtc(v: Half, devs: nat -> Devices)
      requires Valid()
      modifies this, units[v / 0x100 % 8], units[v / 0x100 % 8].file
      modifies bus, bus.busInterface, bus.mainMemory.words, bus.mapping.registers, bus.mapping.buffers
      ensures Valid() && mtrd == old(mtrd)
      ensures RigOf(units[v / 0x100 % 8]) == MtcRig(old(RigOf(units[v / 0x100 % 8])), old(cur), v, devs)
      ensures forall i :: 0 <= i < 8 && i != v / 0x100 % 8 ==> units[i].View() == old(units[i].View()) && ready[i] == old(ready[i])
      ensures command == (if PowerClear(v) then Command(false, false, false, 0, false, 0) else DecodeCommand(v))
      ensures cur == (PowerClear(v) || old(cur)) && selr == (!PowerClear(v) && old(units[v / 0x100 % 8].online))
      ensures interrupt == (old(interrupt) || (!PowerClear(v) && DecodeCommand(v).intEnb))
    {
      hide GoOn, Configured, MtcRig, DecodeCommand, PowerClear;
      var unit := v / 0x100 % 8;
      Obey(units[unit], unit, v, devs);
    }

    /** What a store into MTC does, on the unit that it selects. */
    method Obey(p: TapeDrive, unit: Index8, v: Half, devs: nat -> Devices)
      requires bus.Valid() && Configured(p.View()) && |ready| == 8
      modifies this, p, p.file, bus, bus.busInterface, bus.mainMemory.words, bus.mapping.registers, bus.mapping.buffers
      ensures bus.Valid() && Configured(p.View()) && mtrd == old(mtrd)
      ensures RigOf(p) == MtcRig(old(RigOf(p)), old(cur), v, devs)
      ensures command == (if PowerClear(v) then Command(false, false, false, 0, false, 0) else DecodeCommand(v))
      ensures cur == (PowerClear(v) || old(cur)) && selr == (!PowerClear(v) && old(p.online))
      ensures interrupt == (old(interrupt) || (!PowerClear(v) && DecodeCommand(v).intEnb))
      ensures |ready| == 8 && forall i :: 0 <= i < 8 && i != unit ==> ready[i] == old(ready[i])
    {
      hide GoOn, Configured, WithExtension, PowerClear, GoBit, ClearErrors, AnyError, DecodeCommand;
      Select(p, v);
      if PowerClear(v) {
        BusReset();
        return;
      }
      if GoBit(v) { StartCommand(p, unit, devs); }
      AssertInterruptIfEnabled();
    }

    /** GO: a command, or an illegal command while another is running. */
    method StartCommand(p: TapeDrive, unit: Index8, devs: nat -> Devices)
      requires bus.Valid() && Configured(p.View()) && selr == p.online && |ready| == 8
      modifies this`ctl, this`interrupt, this`cur, this`ready, p, p.file
      modifies bus, bus.busInterface, bus.mainMemory.words, bus.mapping.registers, bus.mapping.buffers
      ensures bus.Valid() && Configured(p.View()) && cur == old(cur)
      ensures RigOf(p) == if old(cur) then GoOn(old(RigOf(p)), command, devs) else old(RigOf(p)).(ctl := old(ctl).(ilc := true))
      ensures old(interrupt) ==> interrupt
      ensures interrupt ==> old(interrupt) || command.intEnb
      ensures ready == if old(cur) && selr then old(ready)[unit := true] else old(ready)
    {
      hide GoOn, Configured;
      if !cur {
        ctl := ctl.(ilc := true);
      } else {
        RunCommand(p, unit, devs);
      }
    }

    method Select(p: TapeDrive, v: Half)
      modifies this`command, this`ctl, this`selr
      ensures command == DecodeCommand(v) && selr == p.online && ctl == old(ctl).(mtcma := WithExtension(old(ctl).mtcma, v))
    {
      command := DecodeCommand(v);
      ctl := ctl.(mtcma := WithExtension(ctl.mtcma, v));
      selr := p.online;
    }

    /** A command from GO to its end. */
    method RunCommand(p: TapeDrive, unit: Index8, devs: nat -> Devices)
      requires bus.Valid() && Configured(p.View()) && selr == p.online && |ready| == 8 && cur
      modifies this`ctl, this`interrupt, this`cur, this`ready, p, p.file
      modifies bus, bus.busInterface, bus.mainMemory.words, bus.mapping.registers, bus.mapping.buffers
      ensures bus.Valid() && Configured(p.View()) && cur
      ensures RigOf(p) == GoOn(old(RigOf(p)), command, devs)
      ensures old(interrupt) ==> interrupt
      ensures interrupt ==> old(interrupt) || command.intEnb
      ensures ready == if selr then old(ready)[unit := true] else old(ready)
    {
      hide GoOn, Configured;
      cur := false;
      Go(p, devs);
      if selr { ready := ready[unit := true]; }
      cur := true;
    }

    method BusReset()
      modifies this`ctl, this`command, this`cur, this`selr
      ensures ctl == ClearErrors(old(ctl)).(mtbrc := 0)
      ensures command == Command(false, false, false, 0, false, 0) && cur && !selr
    {
      ctl := ClearErrors(ctl).(mtbrc := 0);
      command := Command(false, false, false, 0, false, 0);
      selr := false;
      cur := true;
    }

    /** The registers as they read: status, command, count, address, and the two data registers. */
    method ReadRegister(offset: nat) returns (value: Option<Half>)
      requires Valid()
      ensures value.Some? <==> offset in {0, 2, 4, 6, 8, 10}
      ensures var p := units[command.slt]; offset == 0 ==> StatusIs(value.value, ctl, selr, p.bot, p.readOnly, ready[command.slt])
      ensures offset == 2 ==> DecodeCommand(value.value) == command && !GoBit(value.value) && !PowerClear(value.value)
      ensures offset == 2 ==> (value.value / 0x8000 == 1 <==> AnyError(ctl)) && (value.value / 0x80 % 2 == 1 <==> cur)
      ensures offset == 4 ==> AsShort(value.value) == ctl.mtbrc
      ensures offset == 6 ==> ctl.mtcma == ctl.mtcma / 0x1_0000 * 0x1_0000 + value.value
      ensures offset == 8 ==> value.value == 0
      ensures offset == 10 ==> value.value == mtrd
    {
      hide EncodeMts, EncodeMtc, DecodeCommand, Configured, AnyError, StatusIs, AsHalf, AsShort;
      if offset == 0 {
        var p := units[command.slt];
        StatusBits(ctl, selr, p.bot, p.readOnly, ready[command.slt]);
        return Some(EncodeMts(ctl, selr, p.bot, p.readOnly, ready[command.slt]));
      }
      if offset == 2 {
        CommandWordRoundTrip(ctl, command, cur);
        return Some(EncodeMtc(ctl, command, cur));
      }
      CountRoundTrip(ctl.mtbrc, 0);
      if offset == 4 { return Some(AsHalf(ctl.mtbrc)); }
      if offset == 6 { return Some(ctl.mtcma % 0x1_0000); }
      if offset == 8 { return Some(0); }
      if offset == 10 { return Some(mtrd); }
      value := None;
    }

    /** Writing a register; the status and data registers cannot be written. */
    method WriteRegister(offset: nat, value: Half, devs: nat -> Devices) returns (ok: bool)
      requires Valid()
      modifies this, units[value / 0x100 % 8], units[value / 0x100 % 8].file
      modifies bus, bus.busInterface, bus.mainMemory.words, bus.mapping.registers, bus.mapping.buffers
      ensures Valid() && (ok <==> offset in {2, 4, 6, 10})
      ensures var p := units[value / 0x100 % 8];
              RigOf(p) == (if offset == 2 then MtcRig(old(RigOf(p)), old(cur), value, devs) else old(RigOf(p)).(ctl := ctl))
      ensures forall i :: 0 <= i < 8 && i != value / 0x100 % 8 ==> units[i].View() == old(units[i].View())
      ensures offset == 4 ==> ctl == old(ctl).(mtbrc := ctl.mtbrc) && AsHalf(ctl.mtbrc) == value
      ensures offset == 6 ==> ctl == old(ctl).(mtcma := old(ctl).mtcma / 0x1_0000 * 0x1_0000 + value)
      ensures offset != 2 && offset != 4 && offset != 6 ==> ctl == old(ctl)
      ensures offset != 2 ==> command == old(command) && cur == old(cur) && selr == old(selr) && ready == old(ready) && interrupt == old(interrupt)
      ensures mtrd == if offset == 10 then value else old(mtrd)
    {
      hide MtcRig, Configured, DecodeCommand, PowerClear;
      ok := true;
      if offset == 2 {
        UpdateMtc(value, devs);
      } else if offset == 4 {
        CountRoundTrip(0, value);
        ctl := ctl.(mtbrc := AsShort(value));
      } else if offset == 6 {
        ctl := ctl.(mtcma := ctl.mtcma / 0x1_0000 * 0x1_0000 + value);
      } else if offset == 10 {
        mtrd := value;
      } else {
        ok := false;
      }
    }
  }
}

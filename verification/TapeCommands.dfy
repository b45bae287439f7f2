/**
 The tape commands: what reading, writing and spacing do to the drive, the bus and the
 controller's count, address and status registers.
 */
module TapeCommands {
  import opened Words
  import opened Dma
  import opened TapeModel

  type Short = x: int | -0x8000 <= x < 0x8000

  /** The status bits and the count and address registers of the controller. */
  datatype Control = Control(ilc: bool, eof: bool, eot: bool, rle: bool, nxm: bool, mtbrc: Short, mtcma: Word)

  /** What a command works on. */
  datatype Rig = Rig(bus: BusState, drive: Drive, ctl: Control)

  /** The count register holds the two's complement of the bytes, or the records, still to go. */
  function BytesToGo(c: Control): nat {
    var n: int := c.mtbrc;
    if n < 0 then -n else 0
  }

  function Increment(x: Short): Short { if x == 0x7FFF then -0x8000 else x + 1 }

  /**
   A drive that Configure accepted and SetBpi has set up: the image is at least one record
   frame long and reaches at least eight bytes past the end-of-tape mark.
   */
  ghost predicate Mounted(d: Drive) { d.Valid() && d.online && |d.bytes| >= 8 && |d.bytes| >= d.eotPos + 8 }

  /** The size check of Configure is enough for either density. */
  lemma ConfiguredIsMounted(d: Drive, bpi: nat)
    requires d.Valid() && d.online && d.lengthFt > 0 && |d.bytes| >= d.lengthFt * 12 * 1600
    requires bpi == 800 || bpi == 1600
    ensures Mounted(SetBpi(d, bpi))
  {
  }

  // ----- spacing -----

  /** Over one record, and over the file mark after it if there is one. */
  function ForwardOne(d: Drive): (Drive, bool) {
    var (_, preamble, d1) := ReadUInt32(d);
    var d2 := SeekRelative(d1, Wrap32(preamble + 4));
    var (_, mark, d3) := ReadUInt32(d2);
    if mark == FILE_MARK then (d3, true) else (SeekRelative(d3, -4), false)
  }

  function ForwardStep(d: Drive, c: Control): (Drive, Control) {
    var (d', mark) := ForwardOne(d);
    (d', c.(eof := c.eof || mark, eot := d'.eot))
  }

  /** Back over one record; a file mark before it is skipped, or stops the tape. */
  function ReverseOne(d: Drive, stopAtFileMark: bool): (Drive, bool) {
    var (_, postamble, d1) := ReadUInt32(SeekRelative(d, -4));
    if postamble != FILE_MARK then (SeekRelative(d1, -(postamble + 8)), false)
    else if stopAtFileMark then (d1, true)
    else
      var (_, postamble', d2) := ReadUInt32(SeekRelative(d1, -8));
      (SeekRelative(d2, -(postamble' + 8)), false)
  }

  function ReverseStep(d: Drive, c: Control, stopAtFileMark: bool): (Drive, Control) {
    var (d', mark) := ReverseOne(d, stopAtFileMark);
    (d', c.(eof := c.eof || mark, eot := d'.eot))
  }

  ghost predicate SameTape(d: Drive, d': Drive) {
    d' == d.(pos := d'.pos, bot := d'.bot, eot := d'.eot) && (d.Valid() ==> d'.Valid())
  }

  lemma ReadKeepsTape(d: Drive)
    ensures SameTape(d, ReadUInt32(d).2)
    ensures ReadUInt32(d).2.pos == d.pos + Available(d, 4)
    ensures Available(d, 4) > 0 ==> ReadUInt32(d).2.eot == (ReadUInt32(d).2.pos >= d.eotPos)
  {
  }

  /** One record forward moves the tape on, or finds a file mark, or ends beyond the end-of-tape mark. */
  lemma ForwardProgress(d: Drive)
    requires Mounted(d)
    ensures var (d', mark) := ForwardOne(d);
            && SameTape(d, d') && Mounted(d') && d'.eot == (d'.pos >= d'.eotPos)
            && (mark || d'.pos > d.pos || d'.pos >= d'.eotPos)
            && (d.pos >= d.eotPos ==> mark || d'.pos >= d'.eotPos)
  {
    hide NextBytes, Little, ReadUInt32;
    ReadKeepsTape(d);
    var d1 := ReadUInt32(d).2;
    var d2 := SeekRelative(d1, Wrap32(ReadUInt32(d).1 + 4));
    ReadKeepsTape(d2);
    ShortReadIsNoMark(d2);
  }

  /** A read that runs off the end is short, so it never looks like a file mark. */
  lemma ShortReadIsNoMark(d: Drive)
    ensures Available(d, 4) < 4 ==> ReadUInt32(d).1 != FILE_MARK
  {
    var n := Available(d, 4);
    if n < 4 {
      LittleBound(NextBytes(d, n));
      Pow2Values();
      Pow2Monotone(8 * n, 24);
    }
  }

  /** One record back moves the tape back, or stops at a file mark, or ends at the beginning. */
  lemma ReverseProgress(d: Drive, stopAtFileMark: bool)
    requires Mounted(d)
    ensures var (d', mark) := ReverseOne(d, stopAtFileMark);
            && SameTape(d, d') && Mounted(d') && d'.eot == (d'.pos >= d'.eotPos)
            && (mark ==> stopAtFileMark)
            && (stopAtFileMark ==> mark || d'.pos < d.pos || d'.bot)
  {
    hide ReadUInt32, SeekRelative;
    SeekBack(d, 4);
    var d0 := SeekRelative(d, -4);
    ReadKeepsTape(d0);
    var (_, p, d1) := ReadUInt32(d0);
    SeekBack(d1, p + 8);
    SeekBack(d1, 8);
    var d1' := SeekRelative(d1, -8);
    ReadKeepsTape(d1');
    SeekBack(ReadUInt32(d1').2, ReadUInt32(d1').1 + 8);
  }

  lemma SeekBack(d: Drive, n: int)
    requires Mounted(d) && n >= 0
    ensures var d' := SeekRelative(d, -n);
            && Mounted(d') && SameTape(d, d') && d'.pos == (if d.pos < n then 0 else d.pos - n)
            && d'.eot == (d'.pos >= d'.eotPos)
  {
  }

  function ForwardMeasure(d: Drive, c: Control): nat {
    if c.eof || c.eot then 0 else if d.pos < d.eotPos then d.eotPos - d.pos + 1 else 1
  }

  /** Count zero: space over a whole file. */
  ghost function ForwardFile(d: Drive, c: Control): (Drive, Control)
    requires Mounted(d)
    decreases ForwardMeasure(d, c)
  {
    if c.eof || c.eot then (d, c)
    else
      ForwardProgress(d);
      var (d', c') := ForwardStep(d, c);
      ForwardFile(d', c')
  }

  /** A negative count: that many records, stopping early at a file mark or the end of tape. */
  ghost function ForwardRecords(d: Drive, c: Control): (Drive, Control)
    decreases BytesToGo(c)
  {
    if c.mtbrc >= 0 then (d, c)
    else
      var (d', c') := ForwardStep(d, c);
      if c'.eof || c'.eot then (d', c') else ForwardRecords(d', c'.(mtbrc := Increment(c'.mtbrc)))
  }

  ghost function SpaceForward(d: Drive, c: Control): (Drive, Control)
    requires Mounted(d)
  {
    if c.eot then (d, c) else if c.mtbrc == 0 then ForwardFile(d, c) else ForwardRecords(d, c)
  }

  function ReverseMeasure(d: Drive, c: Control): nat { if c.eof || d.bot then 0 else d.pos + 1 }

  ghost function ReverseFile(d: Drive, c: Control): (Drive, Control)
    requires Mounted(d)
    decreases ReverseMeasure(d, c)
  {
    if c.eof || d.bot then (d, c)
    else
      ReverseProgress(d, true);
      var (d', c') := ReverseStep(d, c, true);
      ReverseFile(d', c')
  }

  ghost function ReverseRecords(d: Drive, c: Control): (Drive, Control)
    decreases BytesToGo(c)
  {
    if c.mtbrc >= 0 then (d, c)
    else
      var (d', c') := ReverseStep(d, c, true);
      if c'.eof || d'.bot then (d', c') else ReverseRecords(d', c'.(mtbrc := Increment(c'.mtbrc)))
  }

  ghost function SpaceReverse(d: Drive, c: Control): (Drive, Control)
    requires Mounted(d)
  {
    ReverseProgress(d, false);
    if d.bot then (d, c)
    else
      var (d', c') := ReverseStep(d, c, false);
      if c.mtbrc == 0 then ReverseFile(d', c')
      else
        var c'' := c'.(mtbrc := Increment(c'.mtbrc));
        if d'.bot then (d', c'') else ReverseRecords(d', c'')
  }

  // ----- writing -----

  function PutByte(d: Drive, v: Byte): Drive { WriteByte(d, v).1 }

  /** One halfword from memory to tape, unless the bus reports an error: the transfer then stops. */
  function WriteHalf(r: Rig, dev: Devices): (result: (Rig, bool))
    ensures !result.1 ==> result.0.ctl == r.ctl.(mtcma := Wrap32(r.ctl.mtcma + 2), mtbrc := Increment(Increment(r.ctl.mtbrc)))
  {
    var (data, bus) := ReadUnibus(r.bus, r.ctl.mtcma, dev);
    if bus.errors.StopsTape() then (r.(bus := bus, ctl := r.ctl.(nxm := true)), true)
    else
      (Rig(bus, PutByte(PutByte(r.drive, data % 0x100), data / 0x100 % 0x100),
           r.ctl.(mtcma := Wrap32(r.ctl.mtcma + 2), mtbrc := Increment(Increment(r.ctl.mtbrc)))), false)
  }

  /** Memory to tape, a halfword at a time, until the count runs out or the bus reports an error. */
  function WriteLoop(r: Rig, devs: nat -> Devices, j: nat): Rig
    decreases BytesToGo(r.ctl)
  {
    if r.ctl.mtbrc >= 0 then r
    else
      var (r', stop) := WriteHalf(r, devs(j));
      if stop then r' else WriteLoop(r', devs, j + 1)
  }

  function WriteRecord(r: Rig, devs: nat -> Devices): Rig {
    var length := BytesToGo(r.ctl);
    if r.drive.readOnly || length < 4 || length % 4 != 0 then r.(ctl := r.ctl.(ilc := true))
    else
      var r1 := WriteLoop(r.(bus := r.bus.(errors := r.bus.errors.Reset()), drive := WriteUInt32(r.drive, length).1), devs, 0);
      var d := if !r1.ctl.nxm && r1.ctl.mtbrc == 0 then WriteUInt32(r1.drive, length).1 else r1.drive;
      r1.(drive := d, ctl := r1.ctl.(eot := d.eot))
  }

  function WriteEof(d: Drive, c: Control): (Drive, Control) {
    if d.readOnly then (d, c.(ilc := true))
    else
      var d' := WriteUInt32(d, FILE_MARK).1;
      (d', c.(eot := d'.eot, eof := true))
  }

  // ----- reading -----

  /** Two bytes less, modulo 2^32. */
  function Less2(length: Word): Word {
    var n: int := length;
    Wrap32(n - 2)
  }

  /** One halfword from tape to memory; an error that the bus reports stops the transfer. */
  function ReadHalf(r: Rig, dev: Devices): (result: (Rig, bool))
    ensures result.0.ctl.mtbrc == Increment(Increment(r.ctl.mtbrc))
  {
    var (_, v1, d1) := ReadByte(r.drive);
    var (_, v2, d2) := ReadByte(d1);
    var lo: nat, hi: nat := v1, v2;
    var bus := WriteUnibus(r.bus, r.ctl.mtcma, hi * 0x100 + lo, dev);
    var c := r.ctl.(mtbrc := Increment(Increment(r.ctl.mtbrc)));
    if bus.errors.StopsTape() then (Rig(bus, d2, c.(nxm := true)), true)
    else (Rig(bus, d2, c.(mtcma := Wrap32(c.mtcma + 2))), false)
  }

  /** Tape to memory, a halfword at a time, with the bytes still to come in the record. */
  function ReadLoop(r: Rig, length: Word, devs: nat -> Devices, j: nat): (Rig, Word)
    decreases BytesToGo(r.ctl)
  {
    if r.ctl.mtbrc >= 0 || length == 0 then (r, length)
    else
      var (r', stop) := ReadHalf(r, devs(j));
      if stop then (r', Less2(length)) else ReadLoop(r', Less2(length), devs, j + 1)
  }

  function ReadRecord(r: Rig, devs: nat -> Devices): Rig {
    var (_, preamble, d) := ReadUInt32(r.drive);
    var r0 := r.(bus := r.bus.(errors := r.bus.errors.Reset()), drive := d);
    if preamble == FILE_MARK then r0.(ctl := r.ctl.(eof := true, eot := d.eot))
    else
      var (r1, rest) := ReadLoop(r0, preamble, devs, 0);
      var r2 :=
        if r1.ctl.nxm then r1
        else if rest > 0 then r1.(ctl := r1.ctl.(rle := true))
        else
          var (d', mark) := PastRecord(r1.drive);
          r1.(drive := d', ctl := r1.ctl.(eof := r1.ctl.eof || mark));
      r2.(ctl := r2.ctl.(eot := r2.drive.eot))
  }

  /** After the data of a record: over its postamble, and over a file mark after that. */
  function PastRecord(d: Drive): (Drive, bool) {
    var (_, _, d1) := ReadUInt32(d);
    var (_, mark, d2) := ReadUInt32(d1);
    if mark == FILE_MARK then (d2, true) else (SeekRelative(d2, -4), false)
  }
}

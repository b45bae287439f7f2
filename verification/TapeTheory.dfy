/**
 Records and files on tape, and what spacing does on them: forward and back are inverse, by
 records and by whole files.
 */
module TapeTheory {
  import opened Words
  import opened PhysicalMemory
  import opened Dma
  import opened TapeModel
  import opened TapeCommands

  // ----- records on tape -----

  /** These bytes stand on the tape from p on. */
  predicate Holds(bytes: seq<Byte>, p: nat, data: seq<Byte>) {
    p + |data| <= |bytes| && bytes[p..p + |data|] == data
  }

  lemma HoldsBoth(bytes: seq<Byte>, p: nat, a: seq<Byte>, b: seq<Byte>)
    ensures Holds(bytes, p, a + b) <==> Holds(bytes, p, a) && Holds(bytes, p + |a|, b)
  {
    if Holds(bytes, p, a + b) {
      var s := bytes[p..p + |a + b|];
      assert s[..|a|] == a && s[|a|..] == b;
      forall i | 0 <= i < |a| ensures bytes[p..p + |a|][i] == a[i] { assert s[i] == bytes[p + i]; }
      forall i | 0 <= i < |b| ensures bytes[p + |a|..p + |a| + |b|][i] == b[i] { assert s[|a| + i] == bytes[p + |a| + i]; }
    }
    if Holds(bytes, p, a) && Holds(bytes, p + |a|, b) {
      assert bytes[p..p + |a + b|] == bytes[p..p + |a|] + bytes[p + |a|..p + |a| + |b|];
    }
  }

  predicate WordAt(bytes: seq<Byte>, p: nat, v: Word) { Holds(bytes, p, Bytes4(v)) }

  lemma ReadWordAt(d: Drive, v: Word)
    requires d.online && WordAt(d.bytes, d.pos, v)
    ensures ReadUInt32(d) == (true, v, SeekRelative(d, 4))
  {
    LittleBytes4(v);
    hide Bytes4, Little;
  }

  lemma WordAtIsUnique(bytes: seq<Byte>, p: nat, v: Word, w: Word)
    requires WordAt(bytes, p, v) && WordAt(bytes, p, w)
    ensures v == w
  {
    LittleBytes4(v);
    LittleBytes4(w);
  }

  /** What four bytes within the image read as is the word at that place. */
  lemma ReadIsWordAt(d: Drive)
    requires d.online && d.pos + 4 <= |d.bytes|
    ensures var (ok, v, d') := ReadUInt32(d); ok && d' == SeekRelative(d, 4)
    ensures forall v :: WordAt(d.bytes, d.pos, v) ==> ReadUInt32(d).1 == v
  {
    forall v | WordAt(d.bytes, d.pos, v) ensures ReadUInt32(d).1 == v { ReadWordAt(d, v); }
  }

  /** A record: its length, that many bytes, and its length again; a length that is not a file mark in disguise. */
  predicate RecordAt(bytes: seq<Byte>, p: nat, length: nat) {
    && length < 0xFFFF_FFFC && p + length + 8 <= |bytes|
    && WordAt(bytes, p, length) && WordAt(bytes, p + 4 + length, length)
  }

  predicate MarkAt(bytes: seq<Byte>, p: nat) { WordAt(bytes, p, FILE_MARK) }

  function EndOf(p: nat, lengths: seq<nat>): nat
    decreases |lengths|
  {
    if lengths == [] then p else EndOf(p + lengths[0] + 8, lengths[1..])
  }

  /** A run of records laid end to end. */
  predicate RunAt(bytes: seq<Byte>, p: nat, lengths: seq<nat>)
    decreases |lengths|
  {
    lengths != [] ==> RecordAt(bytes, p, lengths[0]) && RunAt(bytes, p + lengths[0] + 8, lengths[1..])
  }

  /** Seeing a file mark is reading the mark word. */
  lemma MarkIsRead(d: Drive)
    requires d.online && d.pos + 4 <= |d.bytes|
    ensures ReadUInt32(d).1 == FILE_MARK <==> MarkAt(d.bytes, d.pos)
  {
    var s := d.bytes[d.pos..d.pos + 4];
    if MarkAt(d.bytes, d.pos) {
      ReadWordAt(d, FILE_MARK);
    } else if ReadUInt32(d).1 == FILE_MARK {
      assert NextBytes(d, 4) == s;
      AllOnes(s);
    }
  }

  lemma AllOnes(s: seq<Byte>)
    requires |s| == 4 && Little(s) == FILE_MARK
    ensures s == Bytes4(FILE_MARK)
  {
    LittleOfFour(s);
    hide Little;
  }

  /** Forward over a record, and over the mark after it. */
  lemma ForwardOverRecord(d: Drive, length: nat)
    requires d.online && RecordAt(d.bytes, d.pos, length) && d.pos + length + 12 <= |d.bytes|
    ensures var (d', mark) := ForwardOne(d);
            && mark == MarkAt(d.bytes, d.pos + length + 8)
            && d' == Seek(d, d.pos + length + 8 + (if mark then 4 else 0))
  {
    hide WordAt, ReadUInt32;
    ReadWordAt(d, length);
    var d2 := SeekRelative(SeekRelative(d, 4), length + 4);
    assert d2 == Seek(d, d.pos + length + 8);
    MarkIsRead(d2);
    ReadIsWordAt(d2);
  }

  /** Back over the record that ends here. */
  lemma ReverseOverRecord(d: Drive, start: nat, length: nat, stopAtFileMark: bool)
    requires d.online && RecordAt(d.bytes, start, length) && d.pos == start + length + 8
    ensures ReverseOne(d, stopAtFileMark) == (Seek(d, start), false)
  {
    hide WordAt, ReadUInt32;
    ReadWordAt(SeekRelative(d, -4), length);
  }

  /** Back over the record that ends before the file mark just before the head. */
  lemma ReverseOverMark(d: Drive, start: nat, length: nat)
    requires d.online && RecordAt(d.bytes, start, length) && d.pos == start + length + 12
    requires MarkAt(d.bytes, d.pos - 4)
    ensures ReverseOne(d, false) == (Seek(d, start), false)
  {
    hide WordAt, ReadUInt32;
    assert d.pos <= |d.bytes| by { MarkFits(d.bytes, d.pos - 4); }
    ReadWordAt(SeekRelative(d, -4), FILE_MARK);
    var d1 := SeekRelative(SeekRelative(d, -4), 4);
    assert d1 == Seek(d, d.pos);
    ReadWordAt(SeekRelative(d1, -8), length);
  }

  lemma MarkFits(bytes: seq<Byte>, p: nat)
    requires MarkAt(bytes, p)
    ensures p + 4 <= |bytes|
  {
  }

  // ----- spacing forward and back -----

  lemma {:induction false} EndGrows(p: nat, lengths: seq<nat>)
    ensures EndOf(p, lengths) >= p + 8 * |lengths|
    decreases |lengths|
  {
    if lengths != [] { EndGrows(p + lengths[0] + 8, lengths[1..]); }
  }

  /** A record is not a file mark. */
  lemma RecordIsNoMark(bytes: seq<Byte>, p: nat, length: nat)
    requires RecordAt(bytes, p, length)
    ensures !MarkAt(bytes, p)
  {
    if MarkAt(bytes, p) { WordAtIsUnique(bytes, p, length, FILE_MARK); }
  }

  /** The status after spacing or reading over the last record: whether a mark followed, and where the tape ends up. */
  function AfterRun(d: Drive, end: nat): Drive { Seek(d, end + (if MarkAt(d.bytes, end) then 4 else 0)) }

  /** Spacing forward over exactly the records of a run wholly before the end-of-tape mark. */
  lemma {:induction false} ForwardOverRun(d: Drive, c: Control, lengths: seq<nat>)
    requires Mounted(d) && RunAt(d.bytes, d.pos, lengths) && lengths != [] && EndOf(d.pos, lengths) < d.eotPos
    requires !c.eof && !c.eot && BytesToGo(c) == |lengths|
    ensures ForwardRecords(d, c).0 == AfterRun(d, EndOf(d.pos, lengths))
    ensures ForwardRecords(d, c).1.eof == MarkAt(d.bytes, EndOf(d.pos, lengths))
    decreases |lengths|
  {
    hide WordAt, RecordAt, ForwardOne;
    var next := d.pos + lengths[0] + 8;
    EndGrows(next, lengths[1..]);
    RecordFits(d.bytes, d.pos, lengths[0]);
    ForwardOverRecord(d, lengths[0]);
    var (d', c') := ForwardStep(d, c);
    if |lengths| > 1 {
      RecordIsNoMark(d.bytes, next, lengths[1]);
      assert d' == Seek(d, next);
      ForwardOverRun(d', c'.(mtbrc := Increment(c'.mtbrc)), lengths[1..]);
    }
  }

  lemma RecordFits(bytes: seq<Byte>, p: nat, length: nat)
    requires RecordAt(bytes, p, length)
    ensures p + length + 8 <= |bytes|
  {
  }

  /** The last record of a run and the run before it. */
  lemma {:induction false} LastOfRun(bytes: seq<Byte>, p: nat, lengths: seq<nat>)
    requires RunAt(bytes, p, lengths) && lengths != []
    ensures var k := |lengths| - 1;
            && RunAt(bytes, p, lengths[..k])
            && RecordAt(bytes, EndOf(p, lengths[..k]), lengths[k])
            && EndOf(p, lengths) == EndOf(p, lengths[..k]) + lengths[k] + 8
    decreases |lengths|
  {
    hide RecordAt;
    var k := |lengths| - 1;
    if k > 0 {
      LastOfRun(bytes, p + lengths[0] + 8, lengths[1..]);
      assert lengths[..k][1..] == lengths[1..][..k - 1] && lengths[..k][0] == lengths[0];
    } else {
      assert EndOf(p + lengths[0] + 8, lengths[1..]) == p + lengths[0] + 8;
    }
  }

  /** Spacing back over the records of a run, from its end to its start. */
  lemma {:induction false} ReverseOverRun(d: Drive, c: Control, p: nat, lengths: seq<nat>)
    requires Mounted(d) && RunAt(d.bytes, p, lengths) && lengths != [] && d.pos == EndOf(p, lengths)
    requires !c.eof && BytesToGo(c) == |lengths|
    ensures ReverseRecords(d, c).0 == Seek(d, p)
    decreases |lengths|
  {
    hide RecordAt, ReverseOne;
    var k := |lengths| - 1;
    LastOfRun(d.bytes, p, lengths);
    var start := EndOf(p, lengths[..k]);
    EndGrows(p, lengths[..k]);
    RecordFits(d.bytes, start, lengths[k]);
    ReverseOverRecord(d, start, lengths[k], true);
    var (d', c') := ReverseStep(d, c, true);
    assert d' == Seek(d, start) && d'.bot == (start == 0);
    if k > 0 {
      ReverseOverRun(d', c'.(mtbrc := Increment(c'.mtbrc)), p, lengths[..k]);
    } else {
      assert lengths[..k] == [];
    }
  }

  lemma NoMoreRecords(d: Drive, c: Control)
    requires c.mtbrc >= 0
    ensures ReverseRecords(d, c) == (d, c)
  {
  }

  /** Space reverse over as many records as a run has, from behind it and the file mark that may follow it. */
  lemma SpaceReverseOverRun(d: Drive, c: Control, p: nat, lengths: seq<nat>)
    requires Mounted(d) && RunAt(d.bytes, p, lengths) && lengths != []
    requires d.pos == EndOf(p, lengths) + (if MarkAt(d.bytes, EndOf(p, lengths)) then 4 else 0)
    requires !c.eof && BytesToGo(c) == |lengths|
    ensures SpaceReverse(d, c).0 == Seek(d, p)
  {
    hide RecordAt, ReverseOne, RunAt, MarkAt, ReverseRecords, WordAt;
    var k, end := |lengths| - 1, EndOf(p, lengths);
    LastOfRun(d.bytes, p, lengths);
    EndGrows(p, lengths);
    var start := EndOf(p, lengths[..k]);
    EndGrows(p, lengths[..k]);
    RecordFits(d.bytes, start, lengths[k]);
    if MarkAt(d.bytes, end) {
      ReverseOverMark(d, start, lengths[k]);
    } else {
      ReverseOverRecord(d, start, lengths[k], false);
    }
    var (d2, c') := ReverseStep(d, c, false);
    assert d2 == Seek(d, start);
    if k > 0 {
      ReverseOverRun(d2, c'.(mtbrc := Increment(c.mtbrc)), p, lengths[..k]);
    } else {
      NoMoreRecords(d2, c'.(mtbrc := Increment(c.mtbrc)));
      assert lengths[..k] == [];
    }
  }

  /**
   Spacing is reversible: forward over n records, the last perhaps followed by a file mark,
   then back over n records, returns the drive to where it started.
   */
  lemma SpacingInverse(d: Drive, c: Control, c2: Control, lengths: seq<nat>)
    requires Mounted(d) && RunAt(d.bytes, d.pos, lengths) && lengths != [] && EndOf(d.pos, lengths) < d.eotPos
    requires !c.eof && !c.eot && BytesToGo(c) == |lengths|
    requires !c2.eof && !c2.eot && BytesToGo(c2) == |lengths|
    ensures SpaceForward(d, c).0 == AfterRun(d, EndOf(d.pos, lengths))
    ensures Mounted(SpaceForward(d, c).0)
    ensures SpaceReverse(SpaceForward(d, c).0, c2).0 == Seek(d, d.pos)
  {
    hide ForwardRecords, RunAt, MarkAt, SpaceReverse, EndOf;
    ForwardOverRun(d, c, lengths);
    SpaceReverseOverRun(SpaceForward(d, c).0, c2, d.pos, lengths);
  }

  // ----- spacing over whole files -----

  /** Spacing forward with count zero passes the records of a file and the mark that ends it. */
  lemma {:induction false} ForwardOverFile(d: Drive, c: Control, lengths: seq<nat>)
    requires Mounted(d) && RunAt(d.bytes, d.pos, lengths) && lengths != []
    requires MarkAt(d.bytes, EndOf(d.pos, lengths)) && EndOf(d.pos, lengths) < d.eotPos
    requires !c.eof && !c.eot
    ensures ForwardFile(d, c).0 == Seek(d, EndOf(d.pos, lengths) + 4) && ForwardFile(d, c).1.eof
    decreases |lengths|
  {
    hide MarkAt, WordAt, RecordAt, ForwardOne;
    var next := d.pos + lengths[0] + 8;
    EndGrows(next, lengths[1..]);
    RecordFits(d.bytes, d.pos, lengths[0]);
    ForwardOverRecord(d, lengths[0]);
    var (d', c') := ForwardStep(d, c);
    if |lengths| > 1 {
      RecordIsNoMark(d.bytes, next, lengths[1]);
      assert d' == Seek(d, next);
      ForwardOverFile(d', c', lengths[1..]);
    } else {
      assert d' == Seek(d, next + 4) && c'.eof;
    }
  }

  /** The start of a file: the beginning of the tape, or just after a file mark. */
  predicate FileStartsAt(bytes: seq<Byte>, p: nat) { p == 0 || (p >= 4 && MarkAt(bytes, p - 4)) }

  /** Back over the records of a file, up to the mark before it or to the beginning of the tape. */
  lemma {:induction false} ReverseOverFile(d: Drive, c: Control, p: nat, lengths: seq<nat>)
    requires Mounted(d) && RunAt(d.bytes, p, lengths) && d.pos == EndOf(p, lengths) && d == Seek(d, d.pos)
    requires FileStartsAt(d.bytes, p) && !c.eof
    ensures ReverseFile(d, c).0 == Seek(d, p) && ReverseFile(d, c).1.eof == (p != 0)
    decreases |lengths|
  {
    hide MarkAt, WordAt, RecordAt, ReverseOne;
    if lengths != [] {
      var k := |lengths| - 1;
      LastOfRun(d.bytes, p, lengths);
      var start := EndOf(p, lengths[..k]);
      EndGrows(p, lengths[..k]);
      RecordFits(d.bytes, start, lengths[k]);
      ReverseOverRecord(d, start, lengths[k], true);
      var (d', c') := ReverseStep(d, c, true);
      assert d' == Seek(d, start);
      ReverseOverFile(d', c', p, lengths[..k]);
    } else if p != 0 {
      ReverseToMark(d);
    }
  }

  /** Back onto a file mark: the tape stays just after it. */
  lemma ReverseToMark(d: Drive)
    requires d.online && d.pos >= 4 && MarkAt(d.bytes, d.pos - 4)
    ensures ReverseOne(d, true) == (Seek(d, d.pos), true)
  {
    MarkFits(d.bytes, d.pos - 4);
    hide WordAt, ReadUInt32;
    ReadWordAt(SeekRelative(d, -4), FILE_MARK);
  }

  lemma SpaceForwardOverFile(d: Drive, c: Control, lengths: seq<nat>)
    requires Mounted(d) && RunAt(d.bytes, d.pos, lengths) && lengths != []
    requires MarkAt(d.bytes, EndOf(d.pos, lengths)) && EndOf(d.pos, lengths) < d.eotPos
    requires c.mtbrc == 0 && !c.eof && !c.eot
    ensures SpaceForward(d, c).0 == Seek(d, EndOf(d.pos, lengths) + 4) && SpaceForward(d, c).1.eof
  {
    hide MarkAt, RunAt, EndOf, ForwardFile;
    ForwardOverFile(d, c, lengths);
  }

  /** Space reverse with count zero, from just after the mark that ends a file, goes to the start of the file. */
  lemma SpaceReverseOverFile(d: Drive, c: Control, p: nat, lengths: seq<nat>)
    requires Mounted(d) && RunAt(d.bytes, p, lengths) && lengths != [] && FileStartsAt(d.bytes, p)
    requires MarkAt(d.bytes, EndOf(p, lengths)) && d.pos == EndOf(p, lengths) + 4
    requires c.mtbrc == 0 && !c.eof
    ensures var (d', c') := SpaceReverse(d, c); d' == Seek(d, p) && c'.eof == (p != 0)
  {
    hide MarkAt, WordAt, RecordAt, ReverseOne;
    var k, end := |lengths| - 1, EndOf(p, lengths);
    LastOfRun(d.bytes, p, lengths);
    EndGrows(p, lengths);
    var start := EndOf(p, lengths[..k]);
    EndGrows(p, lengths[..k]);
    RecordFits(d.bytes, start, lengths[k]);
    ReverseOverMark(d, start, lengths[k]);
    var (d2, c') := ReverseStep(d, c, false);
    assert d2 == Seek(d, start);
    ReverseOverFile(d2, c', p, lengths[..k]);
  }

  /**
   Spacing over a file is reversible: with count zero, forward from the start of a file ends just
   after its mark, and back from there ends at the start again, stopping at the mark before the
   file, which sets EOF, or at the beginning of the tape, which does not.
   */
  lemma FileSpacingInverse(d: Drive, c: Control, c2: Control, lengths: seq<nat>)
    requires Mounted(d) && RunAt(d.bytes, d.pos, lengths) && lengths != [] && FileStartsAt(d.bytes, d.pos)
    requires MarkAt(d.bytes, EndOf(d.pos, lengths)) && EndOf(d.pos, lengths) < d.eotPos
    requires c.mtbrc == 0 == c2.mtbrc && !c.eof && !c.eot && !c2.eof
    ensures SpaceForward(d, c).0 == Seek(d, EndOf(d.pos, lengths) + 4) && SpaceForward(d, c).1.eof
    ensures Mounted(SpaceForward(d, c).0)
    ensures var (d', c') := SpaceReverse(SpaceForward(d, c).0, c2); d' == Seek(d, d.pos) && c'.eof == (d.pos != 0)
  {
    hide MarkAt, RunAt, SpaceForward, SpaceReverse;
    SpaceForwardOverFile(d, c, lengths);
    EndGrows(d.pos, lengths);
    MarkFits(d.bytes, EndOf(d.pos, lengths));
    SpaceReverseOverFile(SpaceForward(d, c).0, c2, d.pos, lengths);
  }
}

/**
 A tape drive as a value: a byte image with a position, and the flags that every seek
 recomputes. Words are stored little-endian; records are framed by their length.
 */
module TapeModel {
  import opened Words

  const FILE_MARK: Word := 0xFFFF_FFFF

  datatype Drive = Drive(
    bytes: seq<Byte>, pos: nat, bot: bool, eot: bool,
    eotPos: int, lengthFt: int, readOnly: bool, online: bool)
  {
    ghost predicate Valid() { pos <= |bytes| && (bot <==> pos == 0) }
  }

  function Min(a: int, b: int): int { if a < b then a else b }

  /** A seek clamps to the image and recomputes both end flags. */
  function Seek(d: Drive, target: int): Drive {
    var p: nat := if target < 0 then 0 else if target > |d.bytes| then |d.bytes| else target;
    d.(pos := p, bot := p == 0, eot := p >= d.eotPos)
  }

  function SeekRelative(d: Drive, delta: int): Drive { Seek(d, d.pos + delta) }

  function SetBpi(d: Drive, bpi: nat): Drive { d.(eotPos := (d.lengthFt - 4) * 12 * bpi) }

  function ReadByte(d: Drive): (bool, Byte, Drive) {
    if d.online && d.pos < |d.bytes| then (true, d.bytes[d.pos], SeekRelative(d, 1)) else (false, 0, d)
  }

  function WriteByte(d: Drive, v: Byte): (bool, Drive) {
    if d.online && !d.readOnly && d.pos < |d.bytes| then
      (true, SeekRelative(d.(bytes := d.bytes[d.pos := v]), 1))
    else (false, d)
  }

  /** The number that a little-endian byte string denotes. */
  function Little(s: seq<Byte>): nat { if s == [] then 0 else s[0] + 256 * Little(s[1..]) }

  function Bytes4(v: Word): (s: seq<Byte>)
    ensures |s| == 4
  {
    [v % 0x100, v / 0x100 % 0x100, v / 0x1_0000 % 0x100, v / 0x100_0000]
  }

  lemma LittleBytes4(v: Word)
    ensures Little(Bytes4(v)) == v
  {
    LittleOfFour(Bytes4(v));
    hide Little;
    BytesSum(v);
  }

  lemma BytesSum(v: nat)
    ensures v % 0x100 + 0x100 * (v / 0x100 % 0x100) + 0x1_0000 * (v / 0x1_0000 % 0x100) + 0x100_0000 * (v / 0x100_0000) == v
  {
    assert v / 0x1_0000 == v / 0x100 / 0x100;
    assert v / 0x100_0000 == v / 0x1_0000 / 0x100;
  }

  lemma LittleOfFour(s: seq<Byte>)
    requires |s| == 4
    ensures var b0: nat, b1: nat, b2: nat, b3: nat := s[0], s[1], s[2], s[3];
            Little(s) == b0 + 0x100 * b1 + 0x1_0000 * b2 + 0x100_0000 * b3
  {
    assert s[1..][1..] == s[2..] && s[2..][1..] == s[3..] && s[3..][1..] == [];
    var b2: nat, b3: nat := s[2], s[3];
    assert Little(s[3..]) == b3;
    assert Little(s[2..]) == b2 + 0x100 * b3;
  }

  /** `(byte)(v >> (8 * i))`. */
  function ByteOf(v: Word, i: nat): Byte { Shr(v, 8 * i) % 0x100 }

  lemma ByteOfIsBytes4(v: Word, i: nat)
    requires i < 4
    ensures ByteOf(v, i) == Bytes4(v)[i]
  {
    assert Pow2(0) == 1;
    Pow2Values();
    hide Pow2;
  }

  lemma {:induction false} LittleAppend(s: seq<Byte>, b: Byte)
    ensures Little(s + [b]) == Little(s) + b * Pow2(8 * |s|)
  {
    if s == [] {
      assert s + [b] == [b];
      assert Little([b]) == b + 256 * Little([b][1..]);
    } else {
      assert (s + [b])[1..] == s[1..] + [b];
      LittleAppend(s[1..], b);
      EightMore(8 * |s[1..]|);
      Rescale(b, Pow2(8 * |s[1..]|));
    }
  }

  lemma EightMore(k: nat)
    ensures Pow2(k + 8) == 256 * Pow2(k)
  {
    Pow2Add(8, k);
    assert Pow2(8) == 256;
  }

  lemma Rescale(b: nat, p: nat)
    ensures b * (256 * p) == 256 * (b * p)
  {
  }

  lemma {:induction false} LittleBound(s: seq<Byte>)
    ensures Little(s) < Pow2(8 * |s|)
  {
    if s != [] {
      LittleBound(s[1..]);
      Pow2Add(8, 8 * |s[1..]|);
      assert Pow2(8) == 256;
    }
  }

  /** How many of the next k bytes a read or write gets. */
  function Available(d: Drive, k: nat): (n: nat)
    ensures n <= k
  {
    if !d.online || d.pos >= |d.bytes| then 0 else Min(k, |d.bytes| - d.pos)
  }

  /** The next k bytes under the head. */
  function NextBytes(d: Drive, k: nat): (s: seq<Byte>)
    requires k <= Available(d, k)
    ensures |s| == k
  {
    if k == 0 then [] else d.bytes[d.pos..d.pos + k]
  }

  lemma NextBytesGrow(d: Drive, k: nat)
    requires k + 1 <= Available(d, k + 1)
    ensures NextBytes(d, k + 1) == NextBytes(d, k) + [d.bytes[d.pos + k]]
  {
  }

  /** The drive after reading k bytes. */
  function Skip(d: Drive, k: nat): Drive { if k == 0 then d else SeekRelative(d, k) }

  /** Reading one more byte of a word, and what the word then denotes. */
  lemma ReadStep(d: Drive, i: nat)
    requires i < 4 && i <= Available(d, 4)
    ensures var r := ReadByte(Skip(d, i));
            if i < Available(d, 4) then
              && r == (true, d.bytes[d.pos + i], Skip(d, i + 1))
              && Little(NextBytes(d, i + 1)) == Little(NextBytes(d, i)) + r.1 * Pow2(8 * i) < 0x1_0000_0000
              && Pow2(8 * (i + 1)) == 256 * Pow2(8 * i)
            else r == (false, 0, Skip(d, i))
  {
    hide Little, Pow2;
    if i < Available(d, 4) {
      NextBytesGrow(d, i);
      LittleAppend(NextBytes(d, i), d.bytes[d.pos + i]);
      Little4Bound(NextBytes(d, i + 1));
      EightMore(8 * i);
      hide NextBytes;
    }
  }

  /** Up to four bytes are read; a short read denotes what it got, over zeros. */
  function ReadUInt32(d: Drive): (bool, Word, Drive) {
    var n := Available(d, 4);
    var s := NextBytes(d, n);
    Little4Bound(s);
    (n == 4, Little(s), Skip(d, n))
  }

  lemma Little4Bound(s: seq<Byte>)
    requires |s| <= 4
    ensures Little(s) < 0x1_0000_0000
  {
    LittleBound(s);
    Pow2Values();
    Pow2Monotone(8 * |s|, 32);
  }

  /** The image with `data` written over it at `pos`. */
  function Overwrite(bytes: seq<Byte>, pos: nat, data: seq<Byte>): (s: seq<Byte>)
    requires pos + |data| <= |bytes|
    ensures |s| == |bytes|
  {
    bytes[..pos] + data + bytes[pos + |data|..]
  }

  function WriteUInt32(d: Drive, v: Word): (bool, Drive) {
    var n := if d.readOnly then 0 else Available(d, 4);
    (n == 4, Written(d, v, n))
  }

  /** The drive after n bytes of a word have been written. */
  function Written(d: Drive, v: Word, n: nat): Drive
    requires n <= 4 && (n == 0 || d.pos + n <= |d.bytes|)
  {
    if n == 0 then d else SeekRelative(d.(bytes := Overwrite(d.bytes, d.pos, Bytes4(v)[..n])), n)
  }

  /** Writing one more byte under the head extends the overwritten stretch. */
  lemma OverwriteGrows(bytes: seq<Byte>, pos: nat, data: seq<Byte>, i: nat)
    requires i < |data| && pos + i < |bytes|
    ensures Overwrite(bytes, pos, data[..i])[pos + i := data[i]] == Overwrite(bytes, pos, data[..i + 1])
  {
  }

  lemma WrittenStep(d: Drive, v: Word, i: nat)
    requires i < 4 && (i == 0 || d.pos + i <= |d.bytes|)
    requires i <= if d.readOnly then 0 else Available(d, 4)
    ensures var r := WriteByte(Written(d, v, i), ByteOf(v, i));
            r == if !d.readOnly && i < Available(d, 4) then (true, Written(d, v, i + 1)) else (false, Written(d, v, i))
  {
    ByteOfIsBytes4(v, i);
    hide ByteOf, Bytes4;
    if !d.readOnly && i < Available(d, 4) {
      OverwriteGrows(d.bytes, d.pos, Bytes4(v), i);
      if i == 0 { assert Overwrite(d.bytes, d.pos, Bytes4(v)[..0]) == d.bytes; }
      hide Overwrite;
    }
  }

  lemma OverwriteTwice(bytes: seq<Byte>, pos: nat, a: seq<Byte>, b: seq<Byte>)
    requires pos + |a| + |b| <= |bytes|
    ensures Overwrite(Overwrite(bytes, pos, a), pos + |a|, b) == Overwrite(bytes, pos, a + b)
  {
  }
}

/** The drive object. */
module Tape {
  import opened Words
  import opened TapeModel

  class TapeDrive {
    const file: array<Byte>
    const lengthFt: int
    const readOnly: bool
    var pos: nat
    var bot: bool
    var eot: bool
    var eotPos: int
    var online: bool

    ghost function View(): Drive
      reads this, file
    {
      Drive(file[..], pos, bot, eot, eotPos, lengthFt, readOnly, online)
    }

    ghost predicate Valid()
      reads this, file
    {
      View().Valid()
    }

    /** Mounting an image: the drive is on line only if the length is positive and the image is long enough. */
    constructor (lengthFt: int, readOnly: bool, image: array<Byte>)
      ensures Valid() && file == image && pos == 0 && !eot
      ensures this.lengthFt == lengthFt && this.readOnly == readOnly
      ensures online <==> lengthFt > 0 && image.Length >= lengthFt * 12 * 1600
      ensures eotPos == (lengthFt - 4) * 12 * 1600
    {
      this.lengthFt := lengthFt;
      this.readOnly := readOnly;
      file := image;
      pos := 0;
      bot := true;
      eot := false;
      eotPos := (lengthFt - 4) * 12 * 1600;
      online := lengthFt > 0 && image.Length >= lengthFt * 12 * 1600;
    }

    method SetBpi(bpi: nat)
      modifies this`eotPos
      ensures View() == TapeModel.SetBpi(old(View()), bpi)
    {
      eotPos := (lengthFt - 4) * 12 * bpi;
    }

    method Seek(value: int, relative: bool)
      modifies this`pos, this`bot, this`eot
      ensures View() == TapeModel.Seek(old(View()), if relative then old(pos) + value else value)
    {
      var p := if relative then pos + value else value;
      if p < 0 {
        pos := 0;
      } else if p > file.Length {
        pos := file.Length;
      } else {
        pos := p;
      }
      bot := pos == 0;
      eot := pos >= eotPos;
    }

    method ReadByte() returns (ok: bool, value: Byte)
      modifies this`pos, this`bot, this`eot
      ensures (ok, value, View()) == TapeModel.ReadByte(old(View()))
    {
      ok, value := false, 0;
      if !online || pos >= file.Length { return; }
      value := file[pos];
      Seek(1, true);
      ok := true;
    }

    method WriteByte(value: Byte) returns (ok: bool)
      modifies this`pos, this`bot, this`eot, file
      ensures (ok, View()) == TapeModel.WriteByte(old(View()), value)
    {
      ok := false;
      if !online || readOnly || pos >= file.Length { return; }
      file[pos] := value;
      Seek(1, true);
      ok := true;
    }

    method ReadUInt32() returns (ok: bool, value: Word)
      modifies this`pos, this`bot, this`eot
      ensures (ok, value, View()) == TapeModel.ReadUInt32(old(View()))
    {
      value := 0;
      var i: nat, scale: nat := 0, 1;
      ghost var d := View();
      while i < 4
        invariant 0 <= i <= Available(d, 4) && scale == Pow2(8 * i)
        invariant value == Little(NextBytes(d, i))
        invariant View() == Skip(d, i)
      {
        hide Little, Pow2, Skip, TapeModel.ReadByte, NextBytes;
        ReadStep(d, i);
        var got, b := ReadByte();
        if !got { return false, value; }
        value := value + b * scale;
        scale := scale * 256;
        i := i + 1;
      }
      ok := true;
    }

    method WriteUInt32(value: Word) returns (ok: bool)
      modifies this`pos, this`bot, this`eot, file
      ensures (ok, View()) == TapeModel.WriteUInt32(old(View()), value)
    {
      var i := 0;
      ghost var d := View();
      while i < 4
        invariant 0 <= i <= if d.readOnly then 0 else Available(d, 4)
        invariant View() == Written(d, value, i)
      {
        hide Written, ByteOf, TapeModel.WriteByte;
        WrittenStep(d, value, i);
        var wrote := WriteByte(ByteOf(value, i));
        if !wrote { return false; }
        i := i + 1;
      }
      ok := true;
    }

    method RewindAndOffline()
      modifies this`pos, this`bot, this`eot, this`online
      ensures View() == TapeModel.Seek(old(View()), 0).(eot := false, online := false)
    {
      Seek(0, false);
      eot := false;
      online := false;
    }
  }
}

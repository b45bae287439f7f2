/**
 The two displays as objects that keep their frame buffers up to date in place.
 */
module Displays {
  import opened Words
  import opened DisplayModel

  class Tv {
    const width: nat
    const height: nat
    const frameBuffer: array<Byte>
    const screenBuffer: array<Word>
    var mode: Word
    var foreground: Word
    var background: Word
    const syncRam: array<Byte>
    var syncPointer: SyncIndex
    var vertSpacing: Word
    var interrupt: bool
    /** A bus error has been requested. */
    var nxm: bool

    ghost predicate Valid() {
      && frameBuffer.Length == TV_BYTES && screenBuffer.Length == SCREEN_WORDS && syncRam.Length == 4096
      && frameBuffer != syncRam && width * height <= SCREEN_WORDS * 32
    }

    ghost function View(): DisplayModel.Tv
      requires Valid()
      reads this, frameBuffer, screenBuffer, syncRam
    {
      DisplayModel.Tv(width * height, screenBuffer[..], frameBuffer[..], mode, foreground, background,
                      Sync(syncRam[..], syncPointer, vertSpacing), interrupt, nxm)
    }

    constructor (width: nat, height: nat)
      requires width * height <= SCREEN_WORDS * 32
      ensures Valid() && fresh(frameBuffer) && fresh(screenBuffer) && View() == Initial(width * height)
    {
      this.width, this.height := width, height;
      frameBuffer := new Byte[0x8000 * 32 * 4](_ => 0);
      screenBuffer := new Word[0x8000](_ => 0);
      syncRam := new Byte[4096](_ => 0);
      mode, foreground, background, interrupt, nxm := 0, WHITE, BLACK, false, false;
      syncPointer, vertSpacing := 0, 0;
    }

    method Reset()
      requires Valid()
      modifies this, frameBuffer, screenBuffer
      ensures Valid() && View() == DisplayModel.Reset(old(View()))
    {
      mode := 0;
      forall i | 0 <= i < screenBuffer.Length { screenBuffer[i] := 0; }
      background := BLACK;
      foreground := WHITE;
      forall i | 0 <= i < frameBuffer.Length { frameBuffer[i] := 0; }
    }

    method ScreenWrite(offset: nat, v: Word)
      requires Valid() && offset < SCREEN_WORDS
      modifies frameBuffer, screenBuffer
      ensures View() == DisplayModel.ScreenWrite(old(View()), offset, v)
    {
      screenBuffer[offset] := v;
      var pixelBase := offset * 32;
      var word := v;
      for i := 0 to 32
        modifies frameBuffer
        invariant word == Shr(v, i)
        invariant forall j ::
          0 <= j < TV_BYTES ==>
            frameBuffer[j] == if pixelBase <= j / 4 < pixelBase + i
                              then ColourByte(if Bit(v, j / 4 - pixelBase) then foreground else background, j % 4)
                              else old(frameBuffer[j])
      {
        hide Bit, Shr, ColourByte;
        LowBitOfShift(v, i);
        PutPixel(pixelBase + i, if word % 2 != 0 then foreground else background);
        word := word / 2;
      }
      hide Bit, Shr, ColourByte;
      ghost var painted := Paint(old(frameBuffer[..]), offset, v, foreground, background);
      forall j | 0 <= j < TV_BYTES ensures frameBuffer[..][j] == painted[j] { PixelOfByte(j, offset); }
      assert frameBuffer[..] == painted;
    }

    method PutPixel(pixel: nat, colour: Word)
      requires Valid() && pixel < SCREEN_WORDS * 32
      modifies frameBuffer
      ensures forall j ::
        0 <= j < TV_BYTES ==> frameBuffer[j] == if j / 4 == pixel then ColourByte(colour, j % 4) else old(frameBuffer[j])
    {
      var byteIndex := pixel * 4;
      frameBuffer[byteIndex] := colour % 0x100;
      frameBuffer[byteIndex + 1] := colour / 0x100 % 0x100;
      frameBuffer[byteIndex + 2] := colour / 0x1_0000 % 0x100;
      frameBuffer[byteIndex + 3] := colour / 0x100_0000;
    }

    method ControlRead(offset: nat) returns (v: Word)
      requires Valid()
      modifies this`nxm
      ensures (v, View()) == DisplayModel.ControlRead(old(View()), offset)
    {
      if offset == 0 {
        v := mode;
      } else if offset == 1 {
        v := if vertSpacing / 0x80 % 2 == 0 then 0 else syncRam[syncPointer];
      } else {
        nxm := true;
        v := 0;
      }
    }

    method ControlWrite(offset: nat, v: Word)
      requires Valid()
      modifies this, frameBuffer, screenBuffer, syncRam
      ensures Valid() && View() == DisplayModel.ControlWrite(old(View()), offset, v)
    {
      hide Repaint;
      if offset == 0 {
        ModeWrite(v);
      } else if offset == 1 {
        if vertSpacing / 0x80 % 2 == 1 { syncRam[syncPointer] := v % 0x100; }
      } else if offset == 2 {
        syncPointer := v % 0x1000;
      } else if offset == 3 {
        vertSpacing := v;
      } else {
        nxm := true;
      }
    }

    /** The mode register: a change of polarity repaints the screen. */
    method ModeWrite(v: Word)
      requires Valid()
      modifies this`mode, this`foreground, this`background, frameBuffer, screenBuffer
      ensures View() == WriteMode(old(View()), v)
    {
      var wasBow := BlackOnWhite(mode);
      mode := v;
      var isBow := BlackOnWhite(mode);
      foreground := if isBow then BLACK else WHITE;
      background := if isBow then WHITE else BLACK;
      if wasBow != isBow {
        var wordCount := width * height / 32;
        for i := 0 to wordCount
          modifies frameBuffer, screenBuffer
          invariant screenBuffer[..] == old(screenBuffer[..])
          invariant frameBuffer[..] == Repaint(old(frameBuffer[..]), screenBuffer[..], i, foreground, background)
        {
          ghost var words := screenBuffer[..];
          ScreenWrite(i, screenBuffer[i]);
          assert words[i := words[i]] == words;
        }
      }
    }

    method Tick()
      requires Valid()
      modifies this`mode, this`interrupt
      ensures View() == DisplayModel.Tick(old(View()))
    {
      if InterruptEnabled(mode) {
        mode := if mode / 16 % 2 == 1 then mode else Wrap32(mode + 16);
        interrupt := true;
      }
    }
  }

  /** Byte j belongs to word `offset` when its pixel does, and which of the 32 that is. */
  lemma PixelOfByte(j: nat, offset: nat)
    ensures j / 128 == offset <==> 32 * offset <= j / 4 < 32 * offset + 32
    ensures j / 128 == offset ==> j / 4 - 32 * offset == j / 4 % 32
  {
  }

  lemma LowBitOfShift(v: Word, i: nat)
    ensures Shr(v, i) % 2 == 1 <==> Bit(v, i)
    ensures Shr(v, i) / 2 == Shr(v, i + 1)
  {
    ShrBit(v, i, 0);
    assert Bit(Shr(v, i), 0) == (Shr(v, i) % 2 == 1);
    ShrOneMore(v, Pow2(i));
  }

  lemma ShrOneMore(v: nat, p: nat)
    requires p > 0
    ensures v / p / 2 == v / (2 * p)
  {
    var q, r := v / p / 2, v / p % 2;
    assert v == (q * 2 + r) * p + v % p;
    assert (q * 2 + r) * p == q * (2 * p) + r * p;
    DivUnique(v, 2 * p, q, r * p + v % p);
  }

  class ColorTv {
    const frameBuffer: array<Byte>
    const screenBuffer: array<Word>
    const colourMap: array<Word>
    const syncRam: array<Byte>
    var syncPointer: SyncIndex
    var vertSpacing: Word
    var syncProm: bool
    var nxm: bool
    var mode: Word
    var hsync: bool
    var vsync: bool
    var interrupt: bool

    ghost predicate Valid()
      reads this`mode
    {
      && mode < 0x20 && frameBuffer.Length == COLOUR_BYTES && screenBuffer.Length == SCREEN_WORDS && colourMap.Length == 64
      && screenBuffer != colourMap && syncRam.Length == 4096 && syncRam != frameBuffer
    }

    ghost function SyncView(): ColourSync
      requires Valid()
      reads this, syncRam
    {
      ColourSync(syncRam[..], syncPointer, vertSpacing, syncProm)
    }

    constructor ()
      ensures Valid() && fresh(frameBuffer) && fresh(screenBuffer) && fresh(colourMap)
    {
      frameBuffer := new Byte[576 * 454 * 4](_ => 0);
      screenBuffer := new Word[0x8000](_ => 0);
      colourMap := new Word[64](_ => 0);
      syncRam := new Byte[4096](_ => 0);
      syncPointer, vertSpacing, syncProm, nxm := 0, 0, false, false;
      mode, hsync, vsync, interrupt := 0, false, false, false;
    }

    method ScreenWrite(offset: nat, v: Word)
      requires Valid() && offset < SCREEN_WORDS
      modifies screenBuffer
      ensures screenBuffer[..] == old(screenBuffer[..])[offset := v]
    {
      screenBuffer[offset] := v;
    }

    /** The mode with the sync PROM switch and the two timing signals, or sync data. */
    method ControlRead(offset: nat) returns (v: nat)
      requires Valid()
      modifies this`nxm
      ensures offset == 0 ==>
                && v % 0x20 == mode && (v / 0x20 % 2 == 1 <==> vsync) && (v / 0x40 % 2 == 1 <==> hsync) && (v / 0x80 == 1 <==> syncProm)
      ensures offset == 1 ==> v == if syncProm then 0 else syncRam[syncPointer]
      ensures nxm == (old(nxm) || offset > 1)
    {
      if offset == 0 {
        v := mode + B2N(vsync) * 0x20 + B2N(hsync) * 0x40 + B2N(syncProm) * 0x80;
      } else if offset == 1 {
        v := if syncProm then 0 else syncRam[syncPointer];
      } else {
        nxm := true;
        v := 0;
      }
    }

    method ControlWrite(offset: nat, v: Word)
      requires Valid()
      modifies this`mode, this`syncPointer, this`vertSpacing, this`syncProm, this`nxm, colourMap, syncRam
      ensures Valid() && mode == if offset == 0 then v % 0x20 else old(mode)
      ensures SyncView() == WriteSync(old(SyncView()), offset, v)
      ensures colourMap[..] == if offset == 4 then WriteMap(old(colourMap[..]), v) else old(colourMap[..])
      ensures nxm == (old(nxm) || offset > 4)
    {
      if offset == 0 {
        mode := v % 0x20;
      } else if offset == 1 {
        if !syncProm { syncRam[syncPointer] := v % 0x100; }
      } else if offset == 2 {
        syncPointer := v % 0x1000;
      } else if offset == 3 {
        syncProm := v / 0x80 % 2 == 0;
        vertSpacing := v % 0x80;
      } else if offset == 4 {
        var channel, location := v / 64 % 4, v % 64;
        if channel == 3 { return; }
        colourMap[location] := NewEntry(colourMap[location], channel, MapValue(v));
      } else {
        nxm := true;
      }
    }

    /** A frame: if the display is enabled, every pixel comes to show the colour of its four bits. */
    method Tick(enabled: bool)
      requires Valid()
      modifies this, frameBuffer
      ensures Valid()
      ensures !enabled ==> frameBuffer[..] == old(frameBuffer[..]) && mode == old(mode) && vsync == old(vsync) && hsync == old(hsync)
      ensures enabled ==> forall j :: 0 <= j < COLOUR_BYTES ==> frameBuffer[j] == ColourWanted(screenBuffer[..], colourMap[..], j)
      ensures enabled ==> vsync == !old(vsync) && hsync == !old(hsync)
      ensures enabled ==> mode == if InterruptEnabled(old(mode)) && old(mode) / 16 % 2 == 0 then Wrap32(old(mode) + 16) else old(mode)
      ensures interrupt == (old(interrupt) || (enabled && InterruptEnabled(old(mode))))
    {
      if !enabled { return; }
      vsync := !vsync;
      hsync := !hsync;
      UnpackFrameBuffer();
      if InterruptEnabled(mode) {
        mode := if mode / 16 % 2 == 1 then mode else Wrap32(mode + 16);
        interrupt := true;
      }
    }

    method UnpackFrameBuffer()
      requires Valid()
      modifies frameBuffer
      ensures forall j :: 0 <= j < COLOUR_BYTES ==> frameBuffer[j] == ColourWanted(screenBuffer[..], colourMap[..], j)
    {
      var wordIndex: nat, bitsInWord: nat, word := 0, 0, screenBuffer[0];
      ghost var words, colours := screenBuffer[..], colourMap[..];
      for y := 0 to 454
        invariant wordIndex == 576 * y / 8 && bitsInWord == 0 && word == words[wordIndex]
        invariant forall j :: 0 <= j < 4 * (576 * y) ==> frameBuffer[j] == ColourWanted(words, colours, j)
      {
        for x := 0 to 576
          invariant wordIndex == (576 * y + x) / 8 && bitsInWord == (576 * y + x) % 8 * 4
          invariant word == Drop(words[wordIndex], (576 * y + x) % 8)
          invariant forall j :: 0 <= j < 4 * (576 * y + x) ==> frameBuffer[j] == ColourWanted(words, colours, j)
        {
          hide ColourByte;
          var pixel := word % 16;
          assert pixel == Nibble(words, 576 * y + x);
          PutPixel(y * 576 + x, colourMap[pixel]);
          bitsInWord := bitsInWord + 4;
          if bitsInWord == 32 {
            bitsInWord := 0;
            wordIndex := wordIndex + 1;
            word := screenBuffer[wordIndex];
          } else {
            word := word / 16;
          }
        }
      }
    }

    method PutPixel(pixel: nat, colour: Word)
      requires Valid() && pixel < 576 * 454
      modifies frameBuffer
      ensures forall j ::
        0 <= j < COLOUR_BYTES ==> frameBuffer[j] == if j / 4 == pixel then ColourByte(colour, j % 4) else old(frameBuffer[j])
    {
      var byteIndex := pixel * 4;
      frameBuffer[byteIndex] := colour % 0x100;
      frameBuffer[byteIndex + 1] := colour / 0x100 % 0x100;
      frameBuffer[byteIndex + 2] := colour / 0x1_0000 % 0x100;
      frameBuffer[byteIndex + 3] := colour / 0x100_0000;
    }
  }
}

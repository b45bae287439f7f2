/**
 The displays as values: frame buffers that must agree with the screen words and with the mode
 or the colour map. A frame buffer is a string of bytes, four for each pixel: blue, green, red
 and alpha.
 */
module DisplayModel {
  import opened Words

  const SCREEN_WORDS := 0x8000
  const TV_BYTES := 0x8000 * 32 * 4
  const BLACK: Word := 0xFF00_0000
  const WHITE: Word := 0xFFFF_FFFF

  type ScreenWords = s: seq<Word> | |s| == 0x8000 witness seq(0x8000, _ => 0)
  type TvBytes = s: seq<Byte> | |s| == 0x8000 * 32 * 4 witness seq(0x8000 * 32 * 4, _ => 0)

  /** Byte k of a colour. */
  function ColourByte(c: Word, k: nat): Byte
    requires k < 4
  {
    if k == 0 then c % 0x100 else if k == 1 then c / 0x100 % 0x100 else if k == 2 then c / 0x1_0000 % 0x100 else c / 0x100_0000
  }

  // ----- the monochrome display -----

  type SyncRam = s: seq<Byte> | |s| == 4096 witness seq(4096, _ => 0)
  type SyncIndex = x: int | 0 <= x < 4096

  /** The sync program memory with its pointer; the monochrome display keeps the PROM switch in the vertical spacing register. */
  datatype Sync = Sync(ram: SyncRam, pointer: SyncIndex, vertSpacing: Word)

  const SYNC_AT_POWER_ON := Sync(seq(4096, _ => 0), 0, 0)

  datatype Tv = Tv(visible: nat, words: ScreenWords, bytes: TvBytes, mode: Word, foreground: Word, background: Word,
                   sync: Sync, interrupt: bool, nxm: bool)
  {
    /** The visible pixels fit the screen words, as the display's size must be chosen. */
    predicate Fits() { visible <= SCREEN_WORDS * 32 }
  }

  predicate BlackOnWhite(mode: Word) { mode / 4 % 2 == 1 }
  predicate InterruptEnabled(mode: Word) { mode / 8 % 2 == 1 }

  /** What byte j of the frame buffer should be for these words and colours. */
  function Wanted(words: ScreenWords, foreground: Word, background: Word, j: nat): Byte
    requires j < TV_BYTES
  {
    ColourByte(if Bit(words[j / 128], j / 4 % 32) then foreground else background, j % 4)
  }

  /** The frame buffer with the 32 pixels of one word painted. */
  function Paint(bytes: TvBytes, offset: nat, v: Word, foreground: Word, background: Word): TvBytes {
    seq(TV_BYTES, j requires 0 <= j < TV_BYTES =>
      if j / 128 == offset then ColourByte(if Bit(v, j / 4 % 32) then foreground else background, j % 4) else bytes[j])
  }

  function ScreenWrite(s: Tv, offset: nat, v: Word): Tv
    requires offset < SCREEN_WORDS
  {
    s.(words := s.words[offset := v], bytes := Paint(s.bytes, offset, v, s.foreground, s.background))
  }

  /** The frame buffer with the first n words painted anew. */
  function Repaint(bytes: TvBytes, words: ScreenWords, n: nat, foreground: Word, background: Word): TvBytes
    requires n <= SCREEN_WORDS
  {
    if n == 0 then bytes
    else Paint(Repaint(bytes, words, n - 1, foreground, background), n - 1, words[n - 1], foreground, background)
  }

  function WriteMode(s: Tv, v: Word): Tv
    requires s.Fits()
  {
    var foreground, background := if BlackOnWhite(v) then BLACK else WHITE, if BlackOnWhite(v) then WHITE else BLACK;
    var s' := s.(mode := v, foreground := foreground, background := background);
    if BlackOnWhite(s.mode) == BlackOnWhite(v) then s'
    else s'.(bytes := Repaint(s.bytes, s.words, s.visible / 32, foreground, background))
  }

  predicate SyncProm(sync: Sync) { sync.vertSpacing / 0x80 % 2 == 0 }

  /** A store into a control register; one that does not exist is a bus error. */
  function ControlWrite(s: Tv, offset: nat, v: Word): Tv
    requires s.Fits()
  {
    match offset
    case 0 => WriteMode(s, v)
    case 1 => if SyncProm(s.sync) then s else s.(sync := s.sync.(ram := s.sync.ram[s.sync.pointer := v % 0x100]))
    case 2 => s.(sync := s.sync.(pointer := v % 0x1000))
    case 3 => s.(sync := s.sync.(vertSpacing := v))
    case _ => s.(nxm := true)
  }

  function ControlRead(s: Tv, offset: nat): (Word, Tv) {
    match offset
    case 0 => (s.mode, s)
    case 1 => (if SyncProm(s.sync) then 0 else s.sync.ram[s.sync.pointer], s)
    case _ => (0, s.(nxm := true))
  }

  /** A byte stored in sync memory is read back from its address, whatever is stored elsewhere. */
  lemma SyncMemoryReadsBack(s: Tv, at: SyncIndex, v: Word, other: SyncIndex, w: Word)
    requires s.Fits() && !SyncProm(s.sync) && other != at
    ensures var s1 := ControlWrite(ControlWrite(s, 2, at), 1, v);
            var s2 := ControlWrite(ControlWrite(s1, 2, other), 1, w);
            ControlRead(ControlWrite(s2, 2, at), 1).0 == v % 0x100
  {
  }

  function Tick(s: Tv): Tv {
    if !InterruptEnabled(s.mode) then s
    else s.(mode := if s.mode / 16 % 2 == 1 then s.mode else Wrap32(s.mode + 16), interrupt := true)
  }

  function Reset(s: Tv): Tv {
    s.(mode := 0, words := seq(SCREEN_WORDS, _ => 0), foreground := WHITE, background := BLACK, bytes := seq(TV_BYTES, _ => 0))
  }

  function Initial(visible: nat): Tv {
    Tv(visible, seq(SCREEN_WORDS, _ => 0), seq(TV_BYTES, _ => 0), 0, WHITE, BLACK, SYNC_AT_POWER_ON, false, false)
  }

  datatype Event = Screen(offset: nat, v: Word) | Control(offset: nat, v: Word) | ControlSeen(offset: nat) | Ticked | Cleared

  predicate ValidEvent(e: Event) { e.Screen? ==> e.offset < SCREEN_WORDS }

  function Step(s: Tv, e: Event): (s': Tv)
    requires s.Fits() && ValidEvent(e)
    ensures s'.visible == s.visible
  {
    match e
    case Screen(offset, v) => ScreenWrite(s, offset, v)
    case Control(offset, v) => ControlWrite(s, offset, v)
    case ControlSeen(offset) => ControlRead(s, offset).1
    case Ticked => Tick(s)
    case Cleared => Reset(s)
  }

  function Run(s: Tv, es: seq<Event>): (s': Tv)
    requires s.Fits() && forall e :: e in es ==> ValidEvent(e)
    ensures s'.visible == s.visible
    decreases |es|
  {
    if es == [] then s else Run(Step(s, es[0]), es[1..])
  }

  /** The first n pixels show their bits in the current colours; alpha is not counted. */
  ghost predicate Shows(s: Tv, n: nat)
    requires n <= SCREEN_WORDS * 32
  {
    forall j :: 0 <= j < 4 * n && j % 4 != 3 ==> s.bytes[j] == Wanted(s.words, s.foreground, s.background, j)
  }

  predicate ColoursFitMode(s: Tv) {
    s.foreground == (if BlackOnWhite(s.mode) then BLACK else WHITE) && s.background == (if BlackOnWhite(s.mode) then WHITE else BLACK)
  }

  /** What every event keeps: the colours are those of the mode, and the whole words on screen show. */
  ghost predicate Coherent(s: Tv) { s.Fits() && ColoursFitMode(s) && Shows(s, s.visible / 32 * 32) }

  lemma {:induction false} RepaintAt(bytes: TvBytes, words: ScreenWords, n: nat, foreground: Word, background: Word, j: nat)
    requires n <= SCREEN_WORDS && j < TV_BYTES
    ensures Repaint(bytes, words, n, foreground, background)[j] ==
            if j / 128 < n then Wanted(words, foreground, background, j) else bytes[j]
  {
    if n > 0 { RepaintAt(bytes, words, n - 1, foreground, background, j); }
  }

  lemma ScreenWriteKeeps(s: Tv, offset: nat, v: Word)
    requires Coherent(s) && offset < SCREEN_WORDS
    ensures Coherent(ScreenWrite(s, offset, v))
  {
    hide ColourByte, Bit;
  }

  lemma WriteModeKeeps(s: Tv, v: Word)
    requires Coherent(s)
    ensures Coherent(WriteMode(s, v))
  {
    hide ColourByte, Bit, Repaint;
    var s' := WriteMode(s, v);
    if BlackOnWhite(s.mode) != BlackOnWhite(v) {
      forall j | 0 <= j < 4 * (s.visible / 32 * 32) && j % 4 != 3
        ensures s'.bytes[j] == Wanted(s'.words, s'.foreground, s'.background, j)
      {
        RepaintAt(s.bytes, s.words, s.visible / 32, s'.foreground, s'.background, j);
      }
    }
  }

  lemma ResetIsCoherent(s: Tv)
    requires s.Fits()
    ensures Coherent(Reset(s)) && Shows(Reset(s), s.visible)
  {
    forall j | 0 <= j < TV_BYTES ensures !Bit(Reset(s).words[j / 128], j / 4 % 32) { BitOfZero(j / 4 % 32); }
  }

  lemma CoherentFits(s: Tv)
    requires Coherent(s)
    ensures s.Fits()
  {
  }

  lemma TickKeeps(s: Tv)
    requires Coherent(s)
    ensures Coherent(Tick(s))
  {
    if s.mode / 16 % 2 == 0 { FlagKeepsPolarity(s.mode); }
    hide Shows, BlackOnWhite;
    ShowsIgnoresMode(s, Tick(s), s.visible / 32 * 32);
  }

  lemma FlagKeepsPolarity(mode: Word)
    requires mode / 16 % 2 == 0
    ensures BlackOnWhite(Wrap32(mode + 16)) == BlackOnWhite(mode)
  {
  }

  lemma ShowsIgnoresMode(s: Tv, s': Tv, n: nat)
    requires n <= SCREEN_WORDS * 32 && Shows(s, n)
    requires s'.words == s.words && s'.bytes == s.bytes && s'.foreground == s.foreground && s'.background == s.background
    ensures Shows(s', n)
  {
    hide Wanted;
  }

  lemma ControlWriteKeeps(s: Tv, offset: nat, v: Word)
    requires Coherent(s)
    ensures Coherent(ControlWrite(s, offset, v))
  {
    if offset == 0 {
      WriteModeKeeps(s, v);
    } else {
      SameScreenKeeps(s, ControlWrite(s, offset, v));
    }
  }

  lemma SameScreenKeeps(s: Tv, s': Tv)
    requires Coherent(s) && s' == s.(sync := s'.sync, nxm := s'.nxm)
    ensures Coherent(s')
  {
    hide Shows;
    ShowsIgnoresMode(s, s', s.visible / 32 * 32);
  }

  lemma StepKeepsCoherent(s: Tv, e: Event)
    requires Coherent(s) && ValidEvent(e)
    ensures Coherent(Step(s, e))
  {
    hide Coherent, Tick, ControlWrite, ScreenWrite, Reset;
    assert s.Fits() by { CoherentFits(s); }
    match e {
      case Screen(offset, v) => ScreenWriteKeeps(s, offset, v);
      case Control(offset, v) => ControlWriteKeeps(s, offset, v);
      case ControlSeen(offset) => SameScreenKeeps(s, ControlRead(s, offset).1);
      case Ticked => TickKeeps(s);
      case Cleared => ResetIsCoherent(s);
    }
  }

  /** After any run from power-on every pixel of every whole word on screen shows its bit in the current mode. */
  lemma {:induction false} RunKeepsCoherent(s: Tv, es: seq<Event>)
    requires s.Fits() && Coherent(s) && forall e :: e in es ==> ValidEvent(e)
    ensures Coherent(Run(s, es))
    decreases |es|
  {
    hide Coherent, Step;
    if es != [] {
      StepKeepsCoherent(s, es[0]);
      RunKeepsCoherent(Step(s, es[0]), es[1..]);
    }
  }

  lemma InitialIsCoherent(visible: nat)
    requires visible <= SCREEN_WORDS * 32
    ensures Coherent(Initial(visible))
  {
    ResetIsCoherent(Initial(visible));
  }

  /**
   Every visible pixel is right after every run exactly when the number of visible pixels is a
   multiple of 32. Otherwise the repainting of a mode change leaves out the last, partial word.
   */
  lemma AllPixelsShowIff(visible: nat)
    requires visible <= SCREEN_WORDS * 32
    ensures (forall es: seq<Event> :: (forall e :: e in es ==> ValidEvent(e)) ==> Shows(Run(Initial(visible), es), visible))
            <==> visible % 32 == 0
  {
    if visible % 32 == 0 {
      forall es: seq<Event> | forall e :: e in es ==> ValidEvent(e) ensures Shows(Run(Initial(visible), es), visible) {
        InitialIsCoherent(visible);
        RunKeepsCoherent(Initial(visible), es);
      }
    } else {
      PartialWordIsStale(visible);
    }
  }

  /** The first pixel after the last whole word stays black when the screen turns to black on white. */
  lemma PartialWordIsStale(visible: nat)
    requires visible <= SCREEN_WORDS * 32 && visible % 32 != 0
    ensures ValidEvent(Control(0, 4)) && !Shows(Run(Initial(visible), [Control(0, 4)]), visible)
  {
    var s := Initial(visible);
    var s' := WriteMode(s, 4);
    assert Run(s, [Control(0, 4)]) == s' by {
      assert [Control(0, 4)][1..] == [];
      assert Run(s', []) == s';
    }
    var j := 128 * (visible / 32);
    RepaintAt(s.bytes, s.words, visible / 32, BLACK, WHITE, j);
    BitOfZero(0);
    assert j / 4 % 32 == 0 && j % 4 == 0 && j / 128 == visible / 32;
    hide Repaint, Bit;
    assert s'.bytes[j] == 0;
    assert Wanted(s'.words, BLACK, WHITE, j) == 0xFF;
  }

  /** The two screens the emulator sets up are 768 pixels wide, so all of their pixels are always right. */
  lemma StandardScreensShow(es: seq<Event>, height: nat)
    requires height == 896 || height == 963
    requires forall e :: e in es ==> ValidEvent(e)
    ensures Shows(Run(Initial(768 * height), es), 768 * height)
  {
    hide Shows, Run, Initial;
    AllPixelsShowIff(768 * height);
  }

  // ----- the colour display -----

  const COLOUR_BYTES := 576 * 454 * 4

  type ColourMap = s: seq<Word> | |s| == 64 witness seq(64, _ => 0)

  /** The colour display's sync registers: the PROM switch is kept apart from the vertical spacing. */
  datatype ColourSync = ColourSync(ram: SyncRam, pointer: SyncIndex, vertSpacing: Word, prom: bool)

  function WriteSync(s: ColourSync, offset: nat, v: Word): ColourSync {
    match offset
    case 1 => if s.prom then s else s.(ram := s.ram[s.pointer := v % 0x100])
    case 2 => s.(pointer := v % 0x1000)
    case 3 => s.(prom := v / 0x80 % 2 == 0, vertSpacing := v % 0x80)
    case _ => s
  }

  /** A byte stored in sync memory is read back from its address, whatever is stored elsewhere. */
  lemma ColourSyncReadsBack(s: ColourSync, at: SyncIndex, v: Word, other: SyncIndex, w: Word)
    requires !s.prom && other != at
    ensures var s1 := WriteSync(WriteSync(s, 2, at), 1, v);
            var s2 := WriteSync(WriteSync(WriteSync(s1, 2, other), 1, w), 2, at);
            !s2.prom && s2.ram[s2.pointer] == v % 0x100
  {
  }

  /** Eight pixels of four bits lie in a word; this is the word with the first k shifted out. */
  function Drop(w: Word, k: nat): Word {
    if k == 0 then w else Drop(w, k - 1) / 16
  }

  function Nibble(words: ScreenWords, p: nat): nat
    requires p < 576 * 454
  {
    Drop(words[p / 8], p % 8) % 16
  }

  /** The pixel is the field of four bits at its place in its word. */
  lemma NibbleIsField(words: ScreenWords, p: nat)
    requires p < 576 * 454
    ensures Nibble(words, p) == Field(words[p / 8], 4 * (p % 8), 4)
  {
    DropIsShift(words[p / 8], p % 8);
    assert Pow2(4) == 16;
    hide Drop, Shr, Pow2;
  }

  lemma {:induction false} DropIsShift(w: Word, k: nat)
    ensures Drop(w, k) == Shr(w, 4 * k)
  {
    if k > 0 {
      DropIsShift(w, k - 1);
      ShiftFourMore(w, 4 * (k - 1));
    }
  }

  lemma ShiftFourMore(w: nat, n: nat)
    ensures Shr(w, n + 4) == Shr(w, n) / 16
  {
    Pow2Add(4, n);
    assert Pow2(4) == 16;
    var p := Pow2(n);
    hide Pow2;
    DivTwice(w, p);
  }

  lemma DivTwice(w: nat, p: nat)
    requires p > 0
    ensures w / (16 * p) == w / p / 16
  {
    var q, r := w / p / 16, w / p % 16;
    var t := w % p;
    assert w == (q * 16 + r) * p + t;
    assert (q * 16 + r) * p == q * (16 * p) + r * p;
    assert r * p <= 15 * p by { MulMonotone(r, 15, p); }
    DivUnique(w, 16 * p, q, r * p + t);
  }

  lemma MulMonotone(a: nat, b: nat, p: nat)
    requires a <= b
    ensures a * p <= b * p
  {
    assert (b - a) * p >= 0;
    assert b * p == a * p + (b - a) * p;
  }

  function ColourWanted(words: ScreenWords, colours: ColourMap, j: nat): Byte
    requires j < COLOUR_BYTES
  {
    ColourByte(colours[Nibble(words, j / 4)], j % 4)
  }

  /** A store into the colour map: the complement of the high byte goes into one channel of an entry. */
  function MapLocation(v: Word): (i: nat)
    ensures i < 64
  {
    v % 64
  }
  function MapChannel(v: Word): nat { v / 64 % 4 }
  function MapValue(v: Word): Byte { 255 - v / 0x100 % 0x100 }

  function NewEntry(entry: Word, channel: nat, value: Byte): Word
    requires channel < 3
  {
    var x: nat, red: nat, green: nat, blue: nat := value, entry / 0x1_0000 % 0x100, entry / 0x100 % 0x100, entry % 0x100;
    0xFF00_0000 + (if channel == 0 then x * 0x1_0000 + green * 0x100 + blue
                   else if channel == 1 then red * 0x1_0000 + x * 0x100 + blue
                   else red * 0x1_0000 + green * 0x100 + x)
  }

  function WriteMap(colours: ColourMap, v: Word): ColourMap {
    if MapChannel(v) == 3 then colours
    else colours[MapLocation(v) := NewEntry(colours[MapLocation(v)], MapChannel(v), MapValue(v))]
  }

  /** Of the entry, the named channel and the alpha byte change, and no other entry changes. */
  lemma WriteMapSetsChannel(colours: ColourMap, v: Word, i: nat, k: nat)
    requires i < 64 && k < 4
    ensures ColourByte(WriteMap(colours, v)[i], k) ==
            if i != v % 64 || v / 64 % 4 == 3 then ColourByte(colours[i], k)
            else if k == 3 then 0xFF
            else if k == 2 - v / 64 % 4 then 255 - v / 0x100 % 0x100
            else ColourByte(colours[i], k)
  {
    var entry, x: nat := colours[i], MapValue(v);
    var red, green, blue := entry / 0x1_0000 % 0x100, entry / 0x100 % 0x100, entry % 0x100;
    ColourOfBytes(x, green, blue);
    ColourOfBytes(red, x, blue);
    ColourOfBytes(red, green, x);
  }

  lemma ColourOfBytes(red: nat, green: nat, blue: nat)
    requires red < 0x100 && green < 0x100 && blue < 0x100
    ensures var c := 0xFF00_0000 + red * 0x1_0000 + green * 0x100 + blue;
            c % 0x100 == blue && c / 0x100 % 0x100 == green && c / 0x1_0000 % 0x100 == red && c / 0x100_0000 == 0xFF
  {
  }
}

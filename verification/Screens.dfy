/**
 What a program sees on the displays after any run from power-on: the words and the mode that it
 stored last, pixel by pixel.
 */
module Screens {
  import opened Words
  import opened DisplayModel

  /** The value last stored in screen word k since the last reset; zero if there is none. */
  function LastWord(es: seq<Event>, k: nat): Word
    decreases |es|
  {
    if es == [] then 0
    else
      var before := es[..|es| - 1];
      match es[|es| - 1]
      case Screen(offset, v) => if offset == k then v else LastWord(before, k)
      case Cleared => 0
      case _ => LastWord(before, k)
  }

  /** The value last stored in the mode register since the last reset; zero if there is none. */
  function LastMode(es: seq<Event>): Word
    decreases |es|
  {
    if es == [] then 0
    else
      var before := es[..|es| - 1];
      match es[|es| - 1]
      case Control(offset, v) => if offset == 0 then v else LastMode(before)
      case Cleared => 0
      case _ => LastMode(before)
  }

  /** Its bit 2: black on white. */
  predicate LastPolarity(es: seq<Event>) { LastMode(es) / 4 % 2 == 1 }

  /** A tick came while bit 3 of the mode was set; a register was named that does not exist. */
  predicate Interrupted(es: seq<Event>)
    decreases |es|
  {
    es != [] && (Interrupted(es[..|es| - 1]) || (es[|es| - 1].Ticked? && LastMode(es[..|es| - 1]) / 8 % 2 == 1))
  }

  predicate Missed(es: seq<Event>) {
    exists i :: 0 <= i < |es| && ((es[i].Control? && es[i].offset > 3) || (es[i].ControlSeen? && es[i].offset > 1))
  }

  /** Two values of the mode register that can differ in bit 4, the vertical flag, only. */
  predicate SameButFlag(m: Word, m': Word) { m % 16 == m' % 16 && m / 32 == m' / 32 }

  ghost predicate AllValid(es: seq<Event>) { forall e :: e in es ==> ValidEvent(e) }

  /** The display after these events from power-on. */
  ghost function After(visible: nat, es: seq<Event>): (s: Tv)
    requires visible <= SCREEN_WORDS * 32 && AllValid(es)
    ensures s.visible == visible
  {
    Run(Initial(visible), es)
  }

  lemma {:induction false} RunLast(s: Tv, es: seq<Event>, e: Event)
    requires s.Fits() && AllValid(es + [e])
    ensures AllValid(es) && ValidEvent(e)
    ensures Run(s, es + [e]) == Step(Run(s, es), e)
    decreases |es|
  {
    hide Step;
    var longer := es + [e];
    assert longer[|es|] == e;
    assert forall x :: x in es ==> x in longer;
    if es == [] {
      assert longer[1..] == [];
    } else {
      assert longer[1..] == es[1..] + [e];
      assert forall x :: x in es[1..] ==> x in es;
      RunLast(Step(s, es[0]), es[1..], e);
    }
  }

  /** The words and the mode that an event leaves, given those before it, and what it asks for. */
  lemma StepWords(s: Tv, e: Event, k: nat, m: Word)
    requires s.Fits() && ValidEvent(e) && k < SCREEN_WORDS && SameButFlag(s.mode, m)
    ensures Step(s, e).words[k] ==
            match e case Screen(offset, v) => if offset == k then v else s.words[k] case Cleared => 0 case _ => s.words[k]
    ensures SameButFlag(Step(s, e).mode, match e case Control(offset, v) => if offset == 0 then v else m case Cleared => 0 case _ => m)
    ensures Step(s, e).interrupt == (s.interrupt || (e.Ticked? && m / 8 % 2 == 1))
    ensures Step(s, e).nxm == (s.nxm || (e.Control? && e.offset > 3) || (e.ControlSeen? && e.offset > 1))
  {
    hide Repaint, Paint;
    SameBitThree(s.mode, m);
    if e.Ticked? { FlagDigit(s.mode); }
  }

  lemma SameBitThree(m: Word, m': Word)
    requires SameButFlag(m, m')
    ensures m / 8 % 2 == m' / 8 % 2 && m / 4 % 2 == m' / 4 % 2
  {
    LowBits(m, m / 16, m % 16);
    LowBits(m', m' / 16, m' % 16);
  }

  lemma LowBits(m: nat, q: nat, r: nat)
    requires m == 16 * q + r && r < 16
    ensures m / 8 % 2 == r / 8 && m / 4 % 2 == r / 4 % 2
  {
    DivUnique(m, 8, 2 * q + r / 8, r % 8);
    DivUnique(2 * q + r / 8, 2, q, r / 8);
    DivUnique(m, 4, 4 * q + r / 4, r % 4);
    DivUnique(4 * q + r / 4, 2, 2 * q + r / 8, r / 4 % 2);
  }

  lemma {:induction false} WordsAreLast(visible: nat, es: seq<Event>, k: nat)
    requires visible <= SCREEN_WORDS * 32 && AllValid(es) && k < SCREEN_WORDS
    ensures After(visible, es).words[k] == LastWord(es, k)
    ensures SameButFlag(After(visible, es).mode, LastMode(es))
    ensures After(visible, es).interrupt == Interrupted(es) && After(visible, es).nxm == Missed(es)
    decreases |es|
  {
    assert SameButFlag(0, 0);
    hide Step, SameButFlag;
    if es != [] {
      var before, e := es[..|es| - 1], es[|es| - 1];
      assert es == before + [e];
      RunLast(Initial(visible), before, e);
      WordsAreLast(visible, before, k);
      StepWords(After(visible, before), e, k, LastMode(before));
      MissedLast(before, e);
    }
  }

  lemma MissedLast(es: seq<Event>, e: Event)
    ensures Missed(es + [e]) <==> Missed(es) || (e.Control? && e.offset > 3) || (e.ControlSeen? && e.offset > 1)
  {
    var longer := es + [e];
    assert longer[|es|] == e;
    if Missed(es) {
      var i :| 0 <= i < |es| && ((es[i].Control? && es[i].offset > 3) || (es[i].ControlSeen? && es[i].offset > 1));
      assert longer[i] == es[i];
    }
  }

  /**
   After every run from power-on, screen word k holds the value stored in it last, and each pixel
   of a whole word on screen is white, in all three colours, exactly when its bit of that value
   differs from the polarity stored last; else it is black.
   */
  lemma PixelsShowLastWords(visible: nat, es: seq<Event>, p: nat, channel: nat)
    requires visible <= SCREEN_WORDS * 32 && AllValid(es) && p < visible / 32 * 32 && channel < 3
    ensures var s, k := After(visible, es), p / 32;
            && s.words[k] == LastWord(es, k)
            && s.bytes[4 * p + channel] == if Bit(LastWord(es, k), p % 32) != LastPolarity(es) then 0xFF else 0
  {
    InitialIsCoherent(visible);
    RunKeepsCoherent(Initial(visible), es);
    WordsAreLast(visible, es, p / 32);
    SameBitThree(After(visible, es).mode, LastMode(es));
    hide LastWord, LastMode, After, Run, Initial, Bit, Interrupted, Missed, SameButFlag;
    PixelOf(After(visible, es), p, channel);
  }

  lemma PixelOf(s: Tv, p: nat, channel: nat)
    requires Coherent(s) && p < s.visible / 32 * 32 && channel < 3
    ensures p / 32 < SCREEN_WORDS
    ensures s.bytes[4 * p + channel] == if Bit(s.words[p / 32], p % 32) != (s.mode / 4 % 2 == 1) then 0xFF else 0
  {
    ByteOfPixel(s.visible, p, channel);
    ByteShown(s, p, channel);
    hide Bit, Coherent;
  }

  lemma ByteShown(s: Tv, p: nat, channel: nat)
    requires Coherent(s) && p < s.visible / 32 * 32 && channel < 3
    ensures 4 * p + channel < TV_BYTES && p / 32 < SCREEN_WORDS
    ensures ColoursFitMode(s)
    ensures s.bytes[4 * p + channel] == ColourByte(if Bit(s.words[p / 32], p % 32) then s.foreground else s.background, channel)
  {
    ByteOfPixel(s.visible, p, channel);
    hide Bit, ColourByte, ColoursFitMode;
    assert s.bytes[4 * p + channel] == Wanted(s.words, s.foreground, s.background, 4 * p + channel);
  }

  lemma ByteOfPixel(visible: nat, p: nat, channel: nat)
    requires visible <= SCREEN_WORDS * 32 && p < visible / 32 * 32 && channel < 4
    ensures var j := 4 * p + channel; j / 128 == p / 32 && j / 4 % 32 == p % 32 && j % 4 == channel && j / 4 == p
    ensures p / 32 < SCREEN_WORDS && 4 * p + channel < 4 * (visible / 32 * 32) <= TV_BYTES
  {
    var j, q, r := 4 * p + channel, p / 32, p % 32;
    DivUnique(j, 4, p, channel);
    DivUnique(j, 128, q, 4 * r + channel);
  }

  /** The two screens that the emulator sets up show every pixel. */
  lemma StandardScreensShowLastWords(es: seq<Event>, height: nat, p: nat, channel: nat)
    requires (height == 896 || height == 963) && AllValid(es) && p < 768 * height && channel < 3
    ensures After(768 * height, es).bytes[4 * p + channel] ==
            if Bit(LastWord(es, p / 32), p % 32) != LastPolarity(es) then 0xFF else 0
  {
    hide After, LastWord, LastPolarity, Bit;
    PixelsShowLastWords(768 * height, es, p, channel);
  }

  // ----- the registers -----

  /** The vertical interrupt: with bit 3 of the mode set it sets bit 4, and asks for an interrupt; else nothing happens. */
  lemma TickInterrupts(s: Tv)
    ensures s.mode / 8 % 2 == 0 ==> Tick(s) == s
    ensures s.mode / 8 % 2 == 1 ==> Tick(s) == s.(interrupt := true, mode := Tick(s).mode)
    ensures s.mode / 8 % 2 == 1 ==>
              && Tick(s).mode / 16 % 2 == 1 && Tick(s).mode % 16 == s.mode % 16 && Tick(s).mode / 32 == s.mode / 32
  {
    FlagDigit(s.mode);
    hide Tv.Fits;
  }

  lemma FlagDigit(m: Word)
    ensures m / 16 % 2 == 0 ==> m + 16 < 0x1_0000_0000 && (m + 16) / 16 % 2 == 1 && (m + 16) % 16 == m % 16 && (m + 16) / 32 == m / 32
  {
  }

  /** The registers of the monochrome display that a store reaches, and what can be read back. */
  lemma ControlReadsBack(s: Tv, offset: nat, v: Word)
    requires s.Fits()
    ensures var s' := ControlWrite(s, offset, v);
            && (offset == 0 ==> ControlRead(s', 0) == (v, s'))
            && (offset == 3 ==> ControlRead(s', 1) == (if v / 0x80 % 2 == 1 then s.sync.ram[s.sync.pointer] else 0, s'))
            && (offset == 3 && v / 0x80 % 2 == 0 ==> ControlWrite(s', 1, v) == s')
            && (offset > 3 ==> s' == s.(nxm := true))
    ensures offset > 1 ==> ControlRead(s, offset) == (0, s.(nxm := true))
  {
    hide Repaint;
  }

  /** The mode register of the monochrome display sets the colours and, of the screen, repaints only on a change of bit 2. */
  lemma ModeRepaintsOnChange(s: Tv, v: Word)
    requires s.Fits() && (v / 4 % 2 == s.mode / 4 % 2)
    ensures ControlWrite(s, 0, v).bytes == s.bytes && ControlWrite(s, 0, v).words == s.words
  {
  }

  /** The colour display's vertical spacing register keeps bit 7 apart, as the switch to sync memory. */
  lemma ColourPromSwitch(s: ColourSync, v: Word, w: Word)
    ensures var s' := WriteSync(s, 3, v);
            && s'.vertSpacing == v % 0x80 && (s'.prom <==> v / 0x80 % 2 == 0)
            && s'.ram == s.ram && s'.pointer == s.pointer
            && (s'.prom ==> WriteSync(s', 1, w) == s')
  {
  }
}

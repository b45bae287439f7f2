/**
 Which keys the keyboard accepts over whole runs, and when a scancode is delivered, waits or is
 given up.
 */
module KeyboardRuns {
  import opened Words
  import opened KeyboardModel

  /** The scancode of a key: the header that selects the new keyboard, bit 8 for a key going up, and seven bits of the key. */
  function Scancode(k: Word, up: bool): nat { 0xF9_0000 + (if up then 0x100 else 0) + k % 0x80 }

  lemma {:induction false} PumpKeepsAccepted(s: Board, clock: Clock)
    ensures Pump(s, clock).accepted == s.accepted
    decreases |s.queue|
  {
    if s.queue != [] && PumpRound(s, clock).1 {
      PumpKeepsAccepted(PumpRound(s, clock).0, clock);
    }
  }

  /** A key that exists is accepted exactly while fewer than a hundred scancodes wait; else nothing happens. */
  lemma KeyIsAcceptedIff(s: Board, k: Word, up: bool, clock: Clock)
    requires |s.queue| <= 100
    ensures var s' := Step(s, Key(k, up), clock);
            if k != 0 && |s.queue| < 100 then s'.accepted == s.accepted + [Scancode(k, up)] else s' == s
  {
    hide Pump;
    PumpKeepsAccepted(s.(queue := s.queue + [KeyScancode(k, up)], accepted := s.accepted + [KeyScancode(k, up)]), clock);
  }

  lemma OthersAcceptNothing(s: Board, e: Event, clock: Clock)
    requires !e.Key?
    ensures Step(s, e, clock).accepted == s.accepted
  {
    hide Pump, ReadLow, WithLowBits, SetMouse, ClearMouse;
    PumpKeepsAccepted(s, clock);
    assert ReadLow(s).accepted == s.accepted by { ReadAcceptsNothing(s); }
  }

  lemma ReadAcceptsNothing(s: Board)
    ensures ReadLow(s).accepted == s.accepted
  {
  }

  /** The scancodes of the key events of a run that found fewer than a hundred waiting, in order. */
  function AcceptedIn(s: Board, es: seq<Event>, clock: Clock): seq<nat>
    decreases |es|
  {
    if es == [] then []
    else
      var e := es[0];
      (if e.Key? && e.keysym != 0 && |s.queue| < 100 then [Scancode(e.keysym, e.up)] else [])
      + AcceptedIn(Step(s, e, clock), es[1..], clock)
  }

  lemma InvariantBounds(s: Board, clock: Clock)
    requires Invariant(s, clock)
    ensures |s.queue| <= 100
  {
    hide Left, NothingOverwritten, DropsJustified;
  }

  lemma {:induction false} RunAccepts(s: Board, es: seq<Event>, clock: Clock)
    requires Ticking(clock) && Invariant(s, clock)
    ensures Run(s, es, clock).accepted == s.accepted + AcceptedIn(s, es, clock)
    decreases |es|
  {
    hide Invariant, Step;
    if es != [] {
      var e := es[0];
      InvariantBounds(s, clock);
      if e.Key? { KeyIsAcceptedIff(s, e.keysym, e.up, clock); } else { OthersAcceptNothing(s, e, clock); }
      StepKeeps(s, e, clock);
      RunAccepts(Step(s, e, clock), es[1..], clock);
    }
  }

  /**
   Over every run from power-on, each accepted key has been delivered or dropped, in order, or still
   waits, and the accepted keys are exactly those that found fewer than a hundred waiting.
   */
  lemma RunAccountsForKeys(es: seq<Event>, clock: Clock)
    requires Ticking(clock)
    ensures var s := Run(INITIAL, es, clock);
            AcceptedIn(INITIAL, es, clock) == Left(s.fates) + s.queue && |s.queue| <= 100
  {
    assert Invariant(INITIAL, clock);
    hide Run, AcceptedIn, Left, NothingOverwritten, DropsJustified;
    RunAccepts(INITIAL, es, clock);
    RunConserves(es, clock);
    assert INITIAL.accepted == [];
  }

  /** An empty mailbox takes the head of the queue, sets bit 5 of the status, and interrupts exactly if bit 2 is set. */
  lemma EmptyMailboxIsFilled(s: Board, clock: Clock)
    requires s.queue != [] && s.csr / 0x20 % 2 == 0
    ensures Pump(s, clock) ==
            s.(queue := s.queue[1..], scancode := s.queue[0], csr := s.csr + 0x20, busySince := -1,
               interrupt := s.interrupt || s.csr / 4 % 2 == 1,
               changed := s.readings, fates := s.fates + [Delivered(s.queue[0])])
  {
    FifthBitFits(s.csr);
  }

  lemma FifthBitFits(csr: Word)
    requires csr / 0x20 % 2 == 0
    ensures csr + 0x20 < 0x1_0000_0000 && (csr + 0x20) / 4 % 2 == csr / 4 % 2
  {
    EvenFits(csr, csr / 0x20, csr % 0x20, 0x20, 0x800_0000);
    DivUnique(csr + 0x20, 4, csr / 4 + 8, csr % 4);
    var q := csr / 4;
    EightMoreIsEven(q);
  }

  lemma EightMoreIsEven(q: nat)
    ensures (q + 8) % 2 == q % 2
  {
  }

  /** A number with an even quotient has room for one more of the divisor below an even limit. */
  lemma EvenFits(x: nat, q: nat, r: nat, d: nat, limit: nat)
    requires d > 0 && r < d && x == d * q + r && q < limit && q % 2 == 0 && limit % 2 == 0
    ensures x + d < d * limit
  {
    assert q + 2 <= limit;
    assert d * (limit - q - 2) >= 0;
    assert d * limit == d * (limit - q - 2) + d * q + 2 * d;
  }

  /** A full mailbox: the head of the queue begins to wait, or waits on while less than 510 ms have passed. */
  lemma FullMailboxIsWaitedFor(s: Board, clock: Clock)
    requires s.queue != [] && s.csr / 0x20 % 2 == 1 && (s.busySince < 0 || clock(s.readings) - s.busySince < 510)
    ensures Pump(s, clock) ==
            if s.busySince < 0 then s.(busySince := clock(s.readings), from := s.readings, readings := s.readings + 1)
            else s.(readings := s.readings + 1)
  {
  }

  /** After 510 ms the head is dropped, and the next scancode begins to wait at the same clock reading. */
  lemma HeadIsDroppedAfterTimeout(s: Board, clock: Clock)
    requires s.queue != [] && s.csr / 0x20 % 2 == 1 && s.busySince >= 0 && clock(s.readings) - s.busySince >= 510
    ensures Pump(s, clock) ==
            Pump(s.(queue := s.queue[1..], busySince := clock(s.readings), from := s.readings, readings := s.readings + 1,
                    fates := s.fates + [Dropped(s.queue[0], s.scancode, s.changed, s.from, s.readings)]), clock)
  {
  }

  /** With nothing to deliver no wait goes on. */
  lemma NothingWaits(s: Board, clock: Clock)
    requires s.queue == []
    ensures Pump(s, clock) == s.(busySince := -1)
  {
  }

  /** Reading the low half of the mailbox takes its scancode, if there is one, and clears bit 5 alone. */
  lemma ReadTakes(s: Board)
    ensures ReadLow(s) ==
            if s.csr / 0x20 % 2 == 1 then s.(csr := s.csr - 0x20, taken := s.taken + [s.scancode], changed := s.readings) else s
  {
  }

  /** The mouse has bits 4 and 1 of the status in the same way, and a store reaches the low four bits. */
  lemma StatusBitsOfTheMouse(s: Board, v: Half, clock: Clock)
    ensures Step(s, MouseMoved, clock) ==
            s.(csr := if s.csr / 0x10 % 2 == 1 then s.csr else s.csr + 0x10, interrupt := s.interrupt || s.csr / 2 % 2 == 1)
    ensures Step(s, MouseRead, clock) == s.(csr := if s.csr / 0x10 % 2 == 1 then s.csr - 0x10 else s.csr)
    ensures Step(s, CsrWritten(v), clock) == s.(csr := s.csr / 16 * 16 + v % 16)
  {
    if s.csr / 0x10 % 2 == 0 { FourthBitFits(s.csr); }
  }

  lemma FourthBitFits(csr: Word)
    requires csr / 0x10 % 2 == 0
    ensures csr + 0x10 < 0x1_0000_0000
  {
    EvenFits(csr, csr / 0x10, csr % 0x10, 0x10, 0x1000_0000);
  }
}

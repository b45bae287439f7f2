/**
 Keyboard delivery as a value: a bounded queue of scancodes in front of the one-scancode mailbox
 of the I/O board, with a clock that decides when a blocked scancode is given up. The history of
 a run (what was accepted, what became of it, and what Lisp has taken) is kept beside the state.
 */
module KeyboardModel {
  import opened Words

  const QUEUE_CAPACITY := 100
  const BUSY_TIMEOUT_MS := 510
  const NKB_HEADER := 0xF9_0000

  /**
   What became of a scancode that left the queue. A dropped one found the mailbox full at clock
   readings `from` and `to`; the mailbox had last changed before reading `changed` was taken.
   */
  datatype Fate =
    | Delivered(scancode: Word)
    | Dropped(scancode: Word, unread: Word, changed: nat, from: nat, to: nat)

  datatype Board = Board(
    queue: seq<Word>, busySince: int, csr: Word, scancode: Word, interrupt: bool,
    // history: clock readings so far, the reading behind busySince, the readings taken before the mailbox last changed
    readings: nat, from: nat, changed: nat,
    accepted: seq<Word>, fates: seq<Fate>, taken: seq<Word>)

  type Clock = nat -> int

  /** The clock never runs backwards, and starts after its origin. */
  ghost predicate Ticking(clock: Clock) { clock(0) >= 0 && forall i: nat, j: nat :: i <= j ==> clock(i) <= clock(j) }

  predicate KeyboardReady(csr: Word) { csr / 0x20 % 2 == 1 }
  predicate KeyboardInterrupts(csr: Word) { csr / 4 % 2 == 1 }
  function SetReady(csr: Word): Word { if KeyboardReady(csr) then csr else Wrap32(csr + 0x20) }
  function ClearReady(csr: Word): Word { if KeyboardReady(csr) then csr - 0x20 else csr }
  function WithLowBits(csr: Word, v: Half): Word { csr / 16 * 16 + v % 16 }
  predicate MouseReady(csr: Word) { csr / 0x10 % 2 == 1 }
  predicate MouseInterrupts(csr: Word) { csr / 2 % 2 == 1 }
  function SetMouse(csr: Word): Word { if MouseReady(csr) then csr else Wrap32(csr + 0x10) }
  function ClearMouse(csr: Word): Word { if MouseReady(csr) then csr - 0x10 else csr }

  /** Delivery into the mailbox. */
  function Deliver(s: Board, scancode: Word): Board {
    var csr := SetReady(s.csr);
    s.(scancode := scancode, csr := csr, interrupt := s.interrupt || KeyboardInterrupts(csr), changed := s.readings)
  }

  /** One round of the delivery loop, on a queue that is not empty; true when it dropped a scancode and goes on. */
  function PumpRound(s: Board, clock: Clock): (result: (Board, bool))
    requires s.queue != []
    ensures result.1 ==> result.0.queue == s.queue[1..]
  {
    if !KeyboardReady(s.csr) then
      (Deliver(s, s.queue[0]).(queue := s.queue[1..], busySince := -1, fates := s.fates + [Delivered(s.queue[0])]), false)
    else
      var now := clock(s.readings);
      var s1 := s.(readings := s.readings + 1);
      if s.busySince < 0 then (s1.(busySince := now, from := s.readings), false)
      else if now - s.busySince < BUSY_TIMEOUT_MS then (s1, false)
      else
        (s1.(queue := s.queue[1..], busySince := now, from := s.readings,
             fates := s.fates + [Dropped(s.queue[0], s.scancode, s.changed, s.from, s.readings)]), true)
  }

  function Pump(s: Board, clock: Clock): Board
    decreases |s.queue|
  {
    if s.queue == [] then s.(busySince := -1)
    else
      var (s', again) := PumpRound(s, clock);
      if again then Pump(s', clock) else s'
  }

  function Enqueue(s: Board, scancode: Word, clock: Clock): Board {
    if |s.queue| == QUEUE_CAPACITY then s
    else Pump(s.(queue := s.queue + [scancode], accepted := s.accepted + [scancode]), clock)
  }

  /** The scancode of a key: header, up or down, and seven bits of the key. */
  function KeyScancode(keysym: Word, up: bool): Word { NKB_HEADER + (if up then 0x100 else 0) + keysym % 0x80 }

  /** Lisp reads the low half of the mailbox, which frees it. */
  function ReadLow(s: Board): Board {
    if KeyboardReady(s.csr) then s.(csr := ClearReady(s.csr), taken := s.taken + [s.scancode], changed := s.readings) else s
  }

  datatype Event = Key(keysym: Word, up: bool) | Ticked | LowRead | CsrWritten(v: Half) | MouseMoved | MouseRead

  function Step(s: Board, e: Event, clock: Clock): Board {
    match e
    case Key(keysym, up) => if keysym == 0 then s else Enqueue(s, KeyScancode(keysym, up), clock)
    case Ticked => Pump(s, clock)
    case LowRead => ReadLow(s)
    case CsrWritten(v) => s.(csr := WithLowBits(s.csr, v))
    case MouseMoved => s.(csr := SetMouse(s.csr), interrupt := s.interrupt || MouseInterrupts(s.csr))
    case MouseRead => s.(csr := ClearMouse(s.csr))
  }

  function Run(s: Board, es: seq<Event>, clock: Clock): Board
    decreases |es|
  {
    if es == [] then s else Run(Step(s, es[0], clock), es[1..], clock)
  }

  const INITIAL := Board([], -1, 0, 0, false, 0, 0, 0, [], [], [])

  /** A scancode carries its key and direction, under the header that selects the new keyboard. */
  lemma ScancodeDecodes(keysym: Word, up: bool)
    ensures var v := KeyScancode(keysym, up);
            v / 0x1_0000 == 0xF9 && v % 0x80 == keysym % 0x80 && (v / 0x100 % 2 == 1 <==> up)
  {
    var k := keysym % 0x80;
    if up {
      assert (NKB_HEADER + 0x100 + k) / 0x100 == 0xF901;
    } else {
      assert (NKB_HEADER + k) / 0x100 == 0xF900;
    }
  }

  // ----- conservation -----

  /** The scancodes that left the queue, and those of them that reached the mailbox. */
  function Left(fates: seq<Fate>): seq<Word> { seq(|fates|, i requires 0 <= i < |fates| => fates[i].scancode) }

  function Deliveries(fates: seq<Fate>): seq<Word> {
    if fates == [] then []
    else
      var last := fates[|fates| - 1];
      Deliveries(fates[..|fates| - 1]) + (if last.Delivered? then [last.scancode] else [])
  }

  /** What is in the mailbox and not yet taken. */
  function Unread(s: Board): seq<Word> { if KeyboardReady(s.csr) then [s.scancode] else [] }

  /**
   A drop is justified: at two clock readings at least 510 ms apart the mailbox was full, and it
   had not changed since before the first of them, so the same unread scancode was blocking.
   */
  ghost predicate Justified(f: Fate, clock: Clock) {
    f.Dropped? ==> f.changed <= f.from < f.to && clock(f.to) - clock(f.from) >= 510
  }

  /** Nothing is lost or reordered: every accepted scancode was delivered or dropped, in order, or still waits. */
  ghost predicate Conserved(s: Board) { s.accepted == Left(s.fates) + s.queue && |s.queue| <= 100 }

  /** No delivery overwrites: every delivered scancode has been taken by Lisp, or is the unread one. */
  ghost predicate NothingOverwritten(s: Board) { Deliveries(s.fates) == s.taken + Unread(s) }

  /** Each wait that ended in a drop begins only when the one before has ended. */
  ghost predicate WaitsApart(s: Board) {
    forall i, j :: 0 <= i < j < |s.fates| && s.fates[i].Dropped? && s.fates[j].Dropped? ==> s.fates[i].to <= s.fates[j].from
  }

  ghost predicate DropsJustified(s: Board, clock: Clock) {
    && (forall i :: 0 <= i < |s.fates| ==> Justified(s.fates[i], clock))
    && WaitsApart(s)
    && (forall i :: 0 <= i < |s.fates| && s.fates[i].Dropped? ==> s.fates[i].to < s.readings && (s.busySince >= 0 ==> s.fates[i].to <= s.from))
    // the current wait
    && s.changed <= s.readings
    && (s.busySince >= 0 ==> s.from < s.readings && s.busySince == clock(s.from))
    && (s.busySince >= 0 && KeyboardReady(s.csr) ==> s.changed <= s.from)
  }

  ghost predicate Invariant(s: Board, clock: Clock) { Conserved(s) && NothingOverwritten(s) && DropsJustified(s, clock) }

  /** The ready bit is set by a delivery and cleared by a read, and nothing else changes it. */
  lemma ReadyBit(csr: Word, v: Half)
    ensures KeyboardReady(SetReady(csr)) && !KeyboardReady(ClearReady(csr))
    ensures KeyboardReady(WithLowBits(csr, v)) == KeyboardReady(SetMouse(csr)) == KeyboardReady(ClearMouse(csr)) == KeyboardReady(csr)
  {
    hide WithLowBits, SetMouse, ClearMouse, SetReady, ClearReady;
    SetAndClear(csr);
    LowBitsBelow(csr, v);
    MouseBitBelow(csr);
  }

  lemma SetAndClear(csr: Word)
    ensures KeyboardReady(SetReady(csr)) && !KeyboardReady(ClearReady(csr))
  {
    if KeyboardReady(csr) {
      assert (csr - 0x20) / 0x20 == csr / 0x20 - 1;
    } else {
      assert Wrap32(csr + 0x20) == csr + 0x20;
      assert (csr + 0x20) / 0x20 == csr / 0x20 + 1;
    }
  }

  lemma LowBitsBelow(csr: Word, v: Half)
    ensures WithLowBits(csr, v) / 0x20 == csr / 0x20
  {
    assert WithLowBits(csr, v) / 16 == csr / 16;
    hide WithLowBits;
    HighBits(csr, WithLowBits(csr, v));
  }

  lemma MouseBitBelow(csr: Word)
    ensures SetMouse(csr) / 0x20 == ClearMouse(csr) / 0x20 == csr / 0x20
  {
    var q: nat, r: nat := csr / 0x20, csr % 0x20;
    FourthBit(csr);
    if MouseReady(csr) { DivUnique(csr - 0x10, 0x20, q, r - 0x10); } else { DivUnique(csr + 0x10, 0x20, q, r + 0x10); }
  }

  lemma FourthBit(x: nat)
    ensures x / 0x10 % 2 == 1 <==> x % 0x20 >= 0x10
  {
    DivUnique(x / 0x10, 2, x / 0x20, x % 0x20 / 0x10) by { assert x / 0x10 == 2 * (x / 0x20) + x % 0x20 / 0x10; }
  }

  lemma HighBits(x: nat, y: nat)
    requires x / 16 == y / 16
    ensures x / 0x20 == y / 0x20
  {
    assert x / 0x20 == x / 16 / 2 && y / 0x20 == y / 16 / 2;
  }

  lemma LeftGrows(fates: seq<Fate>, f: Fate, queue: seq<Word>)
    requires queue != [] && f.scancode == queue[0]
    ensures Left(fates + [f]) + queue[1..] == Left(fates) + queue
  {
    assert Left(fates + [f]) == Left(fates) + [f.scancode];
  }

  lemma DeliveriesGrow(fates: seq<Fate>, f: Fate)
    ensures Deliveries(fates + [f]) == Deliveries(fates) + (if f.Delivered? then [f.scancode] else [])
  {
    assert (fates + [f])[..|fates|] == fates;
  }

  lemma DeliverKeeps(s: Board, clock: Clock)
    requires Ticking(clock) && Invariant(s, clock) && s.queue != [] && !KeyboardReady(s.csr)
    ensures Invariant(PumpRound(s, clock).0, clock)
  {
    ReadyBit(s.csr, 0);
    LeftGrows(s.fates, Delivered(s.queue[0]), s.queue);
    DeliveriesGrow(s.fates, Delivered(s.queue[0]));
    hide KeyboardReady, SetReady, Left, Deliveries;
  }

  lemma DropKeeps(s: Board, clock: Clock)
    requires Ticking(clock) && Invariant(s, clock) && s.queue != [] && KeyboardReady(s.csr) && s.busySince >= 0
    requires clock(s.readings) - s.busySince >= BUSY_TIMEOUT_MS
    ensures Invariant(PumpRound(s, clock).0, clock)
  {
    var f := Dropped(s.queue[0], s.scancode, s.changed, s.from, s.readings);
    LeftGrows(s.fates, f, s.queue);
    DeliveriesGrow(s.fates, f);
    hide KeyboardReady, Left, Deliveries;
  }

  lemma WaitKeeps(s: Board, clock: Clock)
    requires Ticking(clock) && Invariant(s, clock) && s.queue != [] && KeyboardReady(s.csr)
    requires s.busySince < 0 || clock(s.readings) - s.busySince < BUSY_TIMEOUT_MS
    ensures Invariant(PumpRound(s, clock).0, clock)
  {
    hide KeyboardReady, Left, Deliveries;
  }

  lemma RoundKeeps(s: Board, clock: Clock)
    requires Ticking(clock) && Invariant(s, clock) && s.queue != []
    ensures Invariant(PumpRound(s, clock).0, clock)
  {
    hide Invariant, PumpRound, KeyboardReady;
    if !KeyboardReady(s.csr) {
      DeliverKeeps(s, clock);
    } else if s.busySince >= 0 && clock(s.readings) - s.busySince >= BUSY_TIMEOUT_MS {
      DropKeeps(s, clock);
    } else {
      WaitKeeps(s, clock);
    }
  }

  lemma {:induction false} PumpKeeps(s: Board, clock: Clock)
    requires Ticking(clock) && Invariant(s, clock)
    ensures Invariant(Pump(s, clock), clock)
    decreases |s.queue|
  {
    if s.queue != [] {
      hide Invariant, PumpRound;
      RoundKeeps(s, clock);
      if PumpRound(s, clock).1 { PumpKeeps(PumpRound(s, clock).0, clock); }
    } else {
      hide KeyboardReady, Left, Deliveries;
    }
  }

  lemma StepKeeps(s: Board, e: Event, clock: Clock)
    requires Ticking(clock) && Invariant(s, clock)
    ensures Invariant(Step(s, e, clock), clock)
  {
    hide KeyboardReady, Left, Deliveries, Pump, ClearReady, WithLowBits, SetMouse, ClearMouse;
    ReadyBit(s.csr, if e.CsrWritten? then e.v else 0);
    match e {
      case Key(keysym, up) =>
        if |s.queue| < QUEUE_CAPACITY {
          var v := KeyScancode(keysym, up);
          var s1 := s.(queue := s.queue + [v], accepted := s.accepted + [v]);
          assert Left(s.fates) + s1.queue == Left(s.fates) + s.queue + [v];
          PumpKeeps(s1, clock);
        }
      case Ticked => PumpKeeps(s, clock);
      case LowRead =>
      case CsrWritten(v) =>
      case MouseMoved =>
      case MouseRead =>
    }
  }

  lemma {:induction false} RunKeeps(s: Board, es: seq<Event>, clock: Clock)
    requires Ticking(clock) && Invariant(s, clock)
    ensures Invariant(Run(s, es, clock), clock)
    decreases |es|
  {
    hide Invariant, Step;
    if es != [] {
      StepKeeps(s, es[0], clock);
      RunKeeps(Step(s, es[0], clock), es[1..], clock);
    }
  }

  /**
   Keyboard conservation, for every run from power-on and every clock: no accepted scancode is
   lost or reordered, no delivery overwrites an unread scancode, and every drop was forced by one
   unread scancode that blocked the mailbox for at least 510 ms.
   */
  lemma RunConserves(es: seq<Event>, clock: Clock)
    requires Ticking(clock)
    ensures var s := Run(INITIAL, es, clock); Conserved(s) && NothingOverwritten(s) && DropsJustified(s, clock)
  {
    assert Invariant(INITIAL, clock);
    hide Run, Conserved, NothingOverwritten, DropsJustified;
    RunKeeps(INITIAL, es, clock);
  }

  /** Once Lisp has read the mailbox, the next pump delivers the scancode at the head of the queue, whatever the clock says. */
  lemma HeadIsDelivered(s: Board, clock: Clock)
    requires s.queue != []
    ensures var s' := Pump(ReadLow(s), clock);
            s'.scancode == s.queue[0] && s'.queue == s.queue[1..] && KeyboardReady(s'.csr) && s'.readings == s.readings
  {
    ReadyBit(s.csr, 0);
    ReadyBit(ReadLow(s).csr, 0);
    hide KeyboardReady, SetReady, ClearReady;
  }
}

/** The keyboard and the I/O board as objects. */
module Keyboards {
  import opened Words
  import opened KeyboardModel

  class Iob {
    var csr: Word
    var scancode: Word
    var mouseX: Half
    var mouseY: Half
    var cycles: Half
    var timer: nat
    var latched: Word
    var interrupt: bool
    ghost var readings: nat
    ghost var changed: nat
    ghost var taken: seq<Word>

    constructor ()
      ensures csr == 0 && scancode == 0 && !interrupt && taken == [] && readings == 0 && changed == 0 && timer == 0
    {
      csr, scancode, interrupt := 0, 0, false;
      mouseX, mouseY, cycles, timer, latched := 0, 0, 0, 0, 0;
      readings, changed, taken := 0, 0, [];
    }

    method SetKeyboardReady(scancode: Word)
      modifies this`scancode, this`csr, this`interrupt, this`changed
      ensures this.scancode == scancode && csr == SetReady(old(csr))
      ensures interrupt == (old(interrupt) || KeyboardInterrupts(csr)) && changed == readings
    {
      this.scancode := scancode;
      csr := if csr / 0x20 % 2 == 1 then csr else Wrap32(csr + 0x20);
      changed := readings;
      if KeyboardInterrupts(csr) { interrupt := true; }
    }

    /** A mouse position and buttons, already packed for the two mouse registers. */
    method SetMouseReady(x: Half, y: Half)
      modifies this`mouseX, this`mouseY, this`csr, this`interrupt
      ensures mouseX == x && mouseY == y && csr == SetMouse(old(csr))
      ensures interrupt == (old(interrupt) || MouseInterrupts(old(csr)))
    {
      mouseX, mouseY := x, y;
      if csr / 0x10 % 2 == 0 {
        MouseBitIsApart(csr);
        csr := Wrap32(csr + 0x10);
      }
      if MouseInterrupts(csr) { interrupt := true; }
    }

    /**
     A register read, with the microseconds since the clock was first read. Reading the low half of
     the scancode frees the keyboard's mailbox and reading the mouse's y the mouse's; no other read
     changes the status register, and the two halves of a clock reading are of the same moment.
     */
    method Read(offset: nat, micros: Word) returns (v: Half)
      modifies this`csr, this`latched, this`taken, this`changed
      ensures csr == if offset == 0x40 then ClearReady(old(csr)) else if offset == 0x44 then ClearMouse(old(csr)) else old(csr)
      ensures var takes := offset == 0x40 && KeyboardReady(old(csr));
              taken == (if takes then old(taken) + [scancode] else old(taken)) && changed == (if takes then readings else old(changed))
      ensures latched == if offset == 0x50 then micros else old(latched)
      ensures offset == 0x40 ==> v == scancode % 0x1_0000
      ensures offset == 0x42 ==> scancode == v * 0x1_0000 + scancode % 0x1_0000
      ensures offset == 0x44 ==> v == mouseY
      ensures offset == 0x46 ==> v == mouseX
      ensures offset == 0x4A ==> v == csr % 0x1_0000
      ensures offset == 0x50 ==> v == micros % 0x1_0000
      ensures offset == 0x52 ==> latched == v * 0x1_0000 + latched % 0x1_0000
      ensures offset == 0x54 ==> v == cycles
      ensures offset == 0x62 || offset == 0x6A ==> v == 0xFE20
      ensures offset !in {0x40, 0x42, 0x44, 0x46, 0x4A, 0x50, 0x52, 0x54, 0x62, 0x6A} ==> v == 0
    {
      v := 0;
      if offset == 0x40 {
        v := scancode % 0x1_0000;
        if KeyboardReady(csr) {
          csr := csr - 0x20;
          taken := taken + [scancode];
          changed := readings;
        }
      } else if offset == 0x42 {
        v := scancode / 0x1_0000 % 0x1_0000;
      } else if offset == 0x44 {
        v := mouseY;
        if MouseReady(csr) { csr := csr - 0x10; }
      } else if offset == 0x46 {
        v := mouseX;
      } else if offset == 0x4A {
        v := csr % 0x1_0000;
      } else if offset == 0x50 {
        latched := micros;
        v := latched % 0x1_0000;
      } else if offset == 0x52 {
        v := latched / 0x1_0000 % 0x1_0000;
      } else if offset == 0x54 {
        v := cycles;
      } else if offset == 0x62 || offset == 0x6A {
        v := 0xFE20;
      }
    }

    /**
     A register write: the low four bits of the status register, and never its ready bits, or the
     interval timer, set in microseconds times 16 and counted in ticks of 16 milliseconds, rounded up.
     */
    method Write(offset: nat, v: Half)
      modifies this`csr, this`timer
      ensures csr / 16 == old(csr) / 16 && csr % 16 == if offset == 0x4A then v % 16 else old(csr) % 16
      ensures KeyboardReady(csr) == KeyboardReady(old(csr)) && MouseReady(csr) == MouseReady(old(csr))
      ensures offset != 0x54 ==> timer == old(timer)
      ensures offset == 0x54 ==> 1000 * timer >= v && (timer > 0 ==> 1000 * (timer - 1) < v)
    {
      ReadyBit(csr, v);
      if offset == 0x4A {
        csr := csr / 16 * 16 + v % 16;
      } else if offset == 0x54 {
        var n: nat := v;
        timer := (n + 999) / 1000;
      }
    }

    /** Sixty times a second: the cycle clock counts, and the interval timer interrupts when it runs out. */
    method Tick()
      modifies this`cycles, this`timer, this`interrupt
      ensures cycles == (old(cycles) as int + 1) % 0x1_0000
      ensures timer == if old(timer) == 0 then 0 else old(timer) - 1
      ensures interrupt == (old(interrupt) || old(timer) == 1)
    {
      var n: nat := cycles;
      cycles := (n + 1) % 0x1_0000;
      if timer > 0 {
        timer := timer - 1;
        if timer == 0 { interrupt := true; }
      }
    }
  }

  lemma MouseBitIsApart(csr: Word)
    requires !MouseReady(csr)
    ensures MouseInterrupts(Wrap32(csr + 0x10)) == MouseInterrupts(csr)
  {
    assert csr + 0x10 == Wrap32(csr + 0x10);
    assert (csr + 0x10) / 2 == csr / 2 + 8;
  }

  class Keyboard {
    const clock: Clock
    const iob: Iob
    var queue: seq<Word>
    var busySince: int
    /** How many times the clock has been read. */
    var readings: nat
    ghost var from: nat
    ghost var accepted: seq<Word>
    ghost var fates: seq<Fate>

    ghost predicate Valid()
      reads this, iob
    {
      iob.readings == readings
    }

    ghost function View(): Board
      reads this, iob
    {
      Board(queue, busySince, iob.csr, iob.scancode, iob.interrupt, readings, from, iob.changed, accepted, fates, iob.taken)
    }

    constructor (clock: Clock)
      ensures fresh(iob) && Valid() && View() == INITIAL && this.clock == clock
    {
      this.clock := clock;
      iob := new Iob();
      queue, busySince, readings, from, accepted, fates := [], -1, 0, 0, [], [];
    }

    method Pump()
      requires Valid()
      modifies this, iob
      ensures Valid() && View() == KeyboardModel.Pump(old(View()), clock)
    {
      hide KeyboardModel.PumpRound;
      ghost var result := KeyboardModel.Pump(View(), clock);
      while |queue| > 0
        invariant Valid() && KeyboardModel.Pump(View(), clock) == result
        decreases |queue|
      {
        var again := PumpRound();
        if !again { return; }
      }
      busySince := -1;
    }

    /** One round: deliver the head, wait, or drop it; true when it was dropped and the next is to be looked at. */
    method PumpRound() returns (again: bool)
      requires Valid() && queue != []
      modifies this, iob
      ensures Valid() && (View(), again) == KeyboardModel.PumpRound(old(View()), clock)
    {
      hide KeyboardReady, SetReady, KeyboardInterrupts;
      again := false;
      if !KeyboardReady(iob.csr) {
        fates := fates + [Delivered(queue[0])];
        iob.SetKeyboardReady(queue[0]);
        queue := queue[1..];
        busySince := -1;
        return;
      }
      var now := clock(readings);
      readings := readings + 1;
      iob.readings := iob.readings + 1;
      if busySince < 0 {
        busySince := now;
        from := readings - 1;
        return;
      }
      if now - busySince < BUSY_TIMEOUT_MS { return; }
      fates := fates + [Dropped(queue[0], iob.scancode, iob.changed, from, readings - 1)];
      queue := queue[1..];
      busySince := now;
      from := readings - 1;
      again := true;
    }

    method Enqueue(scancode: Word)
      requires Valid()
      modifies this, iob
      ensures Valid() && View() == KeyboardModel.Enqueue(old(View()), scancode, clock)
    {
      hide KeyboardModel.Pump;
      if |queue| == QUEUE_CAPACITY { return; }
      queue := queue + [scancode];
      accepted := accepted + [scancode];
      Pump();
    }

    method KeyDown(keysym: Word)
      requires Valid()
      modifies this, iob
      ensures Valid() && View() == Step(old(View()), Key(keysym, false), clock)
    {
      if keysym == 0 { return; }
      Enqueue(NKB_HEADER + keysym % 0x80);
    }

    method KeyUp(keysym: Word)
      requires Valid()
      modifies this, iob
      ensures Valid() && View() == Step(old(View()), Key(keysym, true), clock)
    {
      if keysym == 0 { return; }
      Enqueue(NKB_HEADER + 0x100 + keysym % 0x80);
    }

    method Tick()
      requires Valid()
      modifies this, iob
      ensures Valid() && View() == Step(old(View()), Ticked, clock)
    {
      Pump();
    }
  }
}

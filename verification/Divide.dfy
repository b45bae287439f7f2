/**
 Iterating the divide step: non-restoring division of a 64-bit dividend by a 32-bit divisor.
 */
module Divide {
  import opened Words
  import opened Arithmetic
  import opened Multiply

  // ----- non-restoring division -----

  /** The divisor the steps use: the magnitude of A. */
  function Divisor(a: Word): nat {
    var v: int := Signed(a);
    if v < 0 then -v else v
  }

  predicate ProperDivisor(a: Word) { 0 < Divisor(a) < 0x8000_0000 }

  /**
   A divide loop between steps: the ALU holds the partial remainder r or r - D, the low
   bit of Q tells which, and M holds twice that plus the next dividend bit, modulo 2^32.
   */
  ghost predicate Dividing(a: Word, s: Pair, r: nat, bit: nat) {
    var d := Divisor(a);
    var p := if s.q % 2 == 1 then r else r - d;
    r < d && bit < 2 && s.alu == Wrap32(p) && s.m == Wrap32(2 * p + bit)
  }

  /** The ALU output of a divide step is twice the remainder plus the new bit, less the divisor. */
  lemma DivideStepOutput(a: Word, s: Pair, r: nat, bit: nat)
    requires ProperDivisor(a) && Dividing(a, s, r, bit)
    ensures DivOps(33, s.m, a, s.q, Result(s.alu, false), false).out == Wrap32(2 * r + bit - Divisor(a))
  {
    Abs32IsMagnitude(a);
    assert Abs32(a) == Divisor(a);
    hide Abs32, Divisor;
    var d: int := Divisor(a);
    if s.q % 2 == 1 {
      WrapShift(2 * r + bit, -d);
    } else {
      WrapShift(2 * r - 2 * d + bit, d);
    }
  }

  lemma WrapShift(x: int, d: int)
    ensures Wrap32(Wrap32(x) + d) == Wrap32(x + d)
  {
    var k := x / 0x1_0000_0000;
    assert x + d == Wrap32(x) + d + k * 0x1_0000_0000;
  }

  lemma DoubleWrap(p: int)
    ensures Wrap32(2 * Wrap32(p)) == Wrap32(2 * p) && Wrap32(2 * p) % 2 == 0
  {
    var k := p / 0x1_0000_0000;
    assert 2 * p == 2 * Wrap32(p) + 2 * k * 0x1_0000_0000;
  }

  /** What Q control 1 and output select 3 make of a partial remainder in [-D, D). */
  lemma ShiftControls(p: int, q: Word)
    requires -0x8000_0000 < p < 0x8000_0000
    ensures QControl(1, q, Wrap32(p)) == Wrap32(2 * q) + B2N(p >= 0)
    ensures forall c, m :: OutControl(3, Result(Wrap32(p), c), m, 0, q) == Wrap32(2 * p + q / 0x8000_0000)
  {
    DoubleWrap(p);
    WrapShift(2 * p, q / 0x8000_0000);
  }

  lemma LowBit(q: Word, h: bool)
    ensures (Wrap32(2 * q) + B2N(h)) % 2 == 1 <==> h
    ensures Wrap32(2 * q) + B2N(h) < 0x1_0000_0000
  {
  }

  /** A divide step brings down one dividend bit and appends one quotient bit h. */
  lemma DivideStepValue(a: Word, s: Pair, r: nat, bit: nat, h: bool)
    requires ProperDivisor(a) && Dividing(a, s, r, bit) && h == (2 * r + bit >= Divisor(a))
    ensures Dividing(a, DivideStep(a, s), if h then 2 * r + bit - Divisor(a) else 2 * r + bit, s.q / 0x8000_0000)
    ensures DivideStep(a, s).q == Wrap32(2 * s.q) + B2N(h)
  {
    hide DivOps, Divisor, OutControl, QControl, Wrap32;
    var p := 2 * r + bit - Divisor(a);
    DivideStepOutput(a, s, r, bit);
    ShiftControls(p, s.q);
    LowBit(s.q, h);
    var c := DivOps(33, s.m, a, s.q, Result(s.alu, false), false).carry;
    assert DivideStep(a, s) == Pair(Wrap32(2 * p + s.q / 0x8000_0000), Wrap32(2 * s.q) + B2N(p >= 0), Wrap32(p)) by {
      assert OutControl(3, Result(Wrap32(p), c), s.m, 0, s.q) == Wrap32(2 * p + s.q / 0x8000_0000);
    }
  }

  /** The initial step subtracts unconditionally; with M below D its quotient bit is zero. */
  lemma InitialDivideStepValue(a: Word, s: Pair)
    requires ProperDivisor(a) && s.m < Divisor(a)
    ensures Dividing(a, InitialDivideStep(a, s), s.m, s.q / 0x8000_0000)
    ensures InitialDivideStep(a, s).q == Wrap32(2 * s.q)
  {
    Abs32IsMagnitude(a);
    assert DivOps(41, s.m, a, s.q, Result(s.alu, false), false).out == Wrap32(s.m - Divisor(a));
    hide DivOps, Divisor;
    ShiftControls(s.m - Divisor(a), s.q);
  }

  /** The n dividend bits still to come: the pending bit over the top n - 1 bits of Q. */
  function Pending(bit: nat, q: Word, n: nat): nat
    requires 0 < n <= 32
  {
    (if bit == 0 then 0 else Pow2(n - 1)) + Shr(q, 33 - n)
  }

  /** Shifting Q left, whatever comes in at the bottom, exposes the pending bits one by one. */
  lemma PendingStep(bit: nat, q: Word, n: nat, h: nat)
    requires 1 < n <= 32 && h < 2 && bit < 2
    ensures Pending(bit, q, n) ==
            bit * Pow2(n - 1) + Pending(q / 0x8000_0000, Wrap32(2 * q) + h, n - 1)
  {
    Pow2Values();
    Pow2Add(n - 2, 33 - n);
    var b, c := Pow2(n - 2), Pow2(33 - n);
    assert Pow2(34 - n) == 2 * c;
    var top, low := q / 0x8000_0000, q % 0x8000_0000;
    hide Pow2, Shr;
    ShiftOut(q);
    PendingIs(bit, q, n);
    PendingIs(top, 2 * low + h, n - 1);
    hide Pending;
    TopBits(top, low, h, b, c);
  }

  lemma ShiftOut(q: Word)
    ensures q == q / 0x8000_0000 * 0x8000_0000 + q % 0x8000_0000 && q / 0x8000_0000 < 2
    ensures Wrap32(2 * q) == 2 * (q % 0x8000_0000)
  {
  }

  lemma PendingIs(bit: nat, q: Word, n: nat)
    requires 0 < n <= 32 && bit < 2
    ensures Pending(bit, q, n) == bit * Pow2(n - 1) + q / Pow2(33 - n)
    ensures Pending(bit, q, n) == (if bit == 0 then 0 else Pow2(n - 1)) + q / Pow2(33 - n)
  {
    hide Pow2;
  }

  lemma TopBits(x: nat, low: nat, h: nat, b: nat, c: nat)
    requires x < 2 && h < 2 && c > 0 && b * c == 0x8000_0000
    ensures (x * 0x8000_0000 + low) / c == (if x == 0 then 0 else b) + (2 * low + h) / (2 * c)
  {
    DivDiv(2 * low + h, c);
    if x == 1 { QuotientOfSum(b, c, low); }
  }

  lemma QuotientOfSum(b: nat, c: nat, low: nat)
    requires c > 0
    ensures (b * c + low) / c == b + low / c
  {
    assert (b + low / c) * c == b * c + (low / c) * c;
    DivUnique(b * c + low, c, b + low / c, low % c);
  }

  /** The remainder the correction step recovers from the last partial remainder. */
  lemma RemainderIsCorrected(a: Word, s: Pair, r: nat, bit: nat)
    requires ProperDivisor(a) && Dividing(a, s, r, bit)
    ensures RemainderStep(a, s) == Pair(r, s.q, r)
  {
    CorrectionOutput(a, s, r, bit);
    hide DivOps, Divisor, Dividing;
  }

  lemma CorrectionOutput(a: Word, s: Pair, r: nat, bit: nat)
    requires ProperDivisor(a) && Dividing(a, s, r, bit)
    ensures DivOps(37, s.m, a, s.q, Result(s.alu, false), false).out == r < 0x1_0000_0000
  {
    Abs32IsMagnitude(a);
    assert Abs32(a) == Divisor(a);
    hide Abs32, Divisor, Add32, Sub32;
    var d: int := Divisor(a);
    WrapShift(r - d, d);
    assert Wrap32(r) == r;
    hide Wrap32;
  }

  lemma ModScale(x: nat, b: nat, c: nat)
    requires b > 0 && c > 0
    ensures b * c > 0 && (x * c) % (b * c) == (x % b) * c
  {
    MulAtLeast(b, c);
    var k, r := x / b, x % b;
    assert x * c == k * (b * c) + r * c by {
      assert x == k * b + r;
      assert (k * b + r) * c == (k * b) * c + r * c;
      assert (k * b) * c == k * (b * c);
    }
    assert r * c < b * c by {
      MulAtLeast(b - r, c);
      assert (b - r) * c == b * c - r * c;
    }
    DivUnique(x * c, b * c, k, r * c);
  }

  /** Shifting a word left by n keeps its low 32 - n bits. */
  lemma ShiftedOut(x: nat, n: nat)
    requires n <= 32
    ensures Wrap32(x * Pow2(n)) == (x % Pow2(32 - n)) * Pow2(n)
  {
    Pow2Values();
    Pow2Add(32 - n, n);
    ModScale(x, Pow2(32 - n), Pow2(n));
  }

  /** The quotient bit that a step puts into Q ends up n - 1 places higher. */
  lemma QuotientBitRises(q: Word, n: nat, h: bool)
    requires 0 < n <= 32
    ensures Wrap32((Wrap32(2 * q) + B2N(h)) * Pow2(n - 1)) ==
            Wrap32(q * Pow2(n)) + (if h then Pow2(n - 1) else 0)
  {
    var x := Wrap32(2 * q) + B2N(h);
    ShiftedOut(x, n - 1);
    ShiftedOut(q, n);
    Pow2Values();
    Pow2Add(n - 1, 33 - n);
    var b, c := Pow2(32 - n), Pow2(n - 1);
    assert Pow2(33 - n) == 2 * b && Pow2(n) == 2 * c;
    hide Pow2;
    DoublePlusBit(q, h);
    ModDoubling(2 * q + B2N(h), b, c);
    hide Wrap32;
    calc {
      Wrap32(x * c);
      (x % (2 * b)) * c;
      (2 * (q % b) + B2N(h)) * c;
      { Distribute(q % b, B2N(h), c); }
      (q % b) * (2 * c) + B2N(h) * c;
      Wrap32(q * Pow2(n)) + B2N(h) * c;
    }
  }

  lemma DoublePlusBit(q: Word, h: bool)
    ensures Wrap32(2 * q) + B2N(h) == (2 * q + B2N(h)) % 0x1_0000_0000 && (2 * q + B2N(h)) / 2 == q
    ensures (2 * q + B2N(h)) % 2 == B2N(h)
  {
  }

  lemma Distribute(x: int, h: int, c: int)
    ensures (2 * x + h) * c == x * (2 * c) + h * c
  {
  }

  lemma ModDoubling(y: nat, b: nat, c: nat)
    requires b > 0 && c > 0 && c * (2 * b) == 0x1_0000_0000
    ensures (y % 0x1_0000_0000) % (2 * b) == 2 * ((y / 2) % b) + y % 2
  {
    ModOfMod(y, c, 2 * b);
    ModHalf(y, b);
  }

  lemma LongDivision(total: nat, d: nat, h: bool, p: nat, rest: nat)
    requires d > 0 && total == (if h then d * p else 0) + rest
    ensures total / d == (if h then p else 0) + rest / d && total % d == rest % d
  {
    var hp := if h then p else 0;
    assert (hp + rest / d) * d == hp * d + (rest / d) * d;
    DivUnique(total, d, hp + rest / d, rest % d);
  }

  /** The dividend that n more steps will divide: the remainder followed by the pending bits. */
  function Dividend(r: nat, bit: nat, q: Word, n: nat): nat
    requires 0 < n <= 32
  {
    r * Pow2(n) + Pending(bit, q, n)
  }

  lemma DividendStep(d: nat, r: nat, bit: nat, q: Word, n: nat, h: bool)
    requires 0 < d && r < d && bit < 2 && 1 < n <= 32 && h == (2 * r + bit >= d)
    ensures Dividend(r, bit, q, n) == (if h then d * Pow2(n - 1) else 0) +
            Dividend(if h then 2 * r + bit - d else 2 * r + bit, q / 0x8000_0000, Wrap32(2 * q) + B2N(h), n - 1)
  {
    hide Pending;
    PendingStep(bit, q, n, B2N(h));
    var p := Pow2(n - 1);
    assert r * Pow2(n) == (2 * r) * p;
    if h {
      assert (2 * r + bit - d) * p == (2 * r) * p + bit * p - d * p;
    } else {
      assert (2 * r + bit) * p == (2 * r) * p + bit * p;
    }
  }

  /** n divide steps perform long division of the remainder followed by the pending dividend bits. */
  lemma {:induction false} DivideRunValue(a: Word, s: Pair, r: nat, bit: nat, n: nat)
    requires ProperDivisor(a) && Dividing(a, s, r, bit) && 0 < n <= 32
    ensures var d, t, dividend := Divisor(a), DivideRun(a, s, n), Dividend(r, bit, s.q, n);
            && RemainderStep(a, t).q == t.q && RemainderStep(a, t).m == RemainderStep(a, t).alu == dividend % d
            && t.q == Wrap32(s.q * Pow2(n)) + dividend / d
    decreases n
  {
    hide DivideStep, RemainderStep, Divisor, Dividing, Dividend, Wrap32, Pow2;
    var d, t := Divisor(a), DivideStep(a, s);
    var h := 2 * r + bit >= d;
    var r', bit' := if h then 2 * r + bit - d else 2 * r + bit, s.q / 0x8000_0000;
    DividingFacts(a, s, r, bit);
    DivideStepValue(a, s, r, bit, h);
    QuotientBitRises(s.q, n, h);
    if n > 1 {
      DividendStep(d, r, bit, s.q, n, h);
      LongDivision(Dividend(r, bit, s.q, n), d, h, Pow2(n - 1), Dividend(r', bit', t.q, n - 1));
      DivideRunValue(a, t, r', bit', n - 1);
    } else {
      LastDivideStep(a, s, r, bit, h, r', t);
    }
  }

  lemma LastDivideStep(a: Word, s: Pair, r: nat, bit: nat, h: bool, r': nat, t: Pair)
    requires ProperDivisor(a) && Dividing(a, s, r, bit) && h == (2 * r + bit >= Divisor(a))
    requires r' == if h then 2 * r + bit - Divisor(a) else 2 * r + bit
    requires t == DivideStep(a, s)
    ensures var d, dividend := Divisor(a), Dividend(r, bit, s.q, 1);
            && DivideRun(a, s, 1) == t
            && RemainderStep(a, t).q == t.q && RemainderStep(a, t).m == RemainderStep(a, t).alu == dividend % d
            && t.q == Wrap32(s.q * Pow2(1)) + dividend / d
  {
    DividingFacts(a, s, r, bit);
    TimesTwo(s.q);
    hide DivideStep, RemainderStep, Divisor, Dividing, Dividend, Wrap32, Pow2;
    DivideStepValue(a, s, r, bit, h);
    LastDividend(r, bit, s.q);
    RemainderIsCorrected(a, t, r', s.q / 0x8000_0000);
    assert DivideRun(a, t, 0) == t;
    SmallQuotient(Dividend(r, bit, s.q, 1), Divisor(a));
  }

  lemma TimesTwo(q: Word)
    ensures q * Pow2(1) == 2 * q
  {
    assert Pow2(1) == 2;
  }

  lemma SmallQuotient(x: nat, d: nat)
    requires x < 2 * d
    ensures x / d == B2N(x >= d) && x % d == if x >= d then x - d else x
  {
    if x >= d { DivUnique(x, d, 1, x - d); } else { DivUnique(x, d, 0, x); }
  }

  lemma LastDividend(r: nat, bit: nat, q: Word)
    requires bit < 2
    ensures Dividend(r, bit, q, 1) == 2 * r + bit
  {
    Pow2Values();
    assert Pow2(1) == 2;
  }

  lemma DividingFacts(a: Word, s: Pair, r: nat, bit: nat)
    requires ProperDivisor(a) && Dividing(a, s, r, bit)
    ensures 0 < Divisor(a) && r < Divisor(a) && bit < 2
  {
  }

  /** The whole division: an initial step, thirty-two divide steps and the remainder correction. */
  function Division(a: Word, s: Pair): Pair {
    RemainderStep(a, DivideRun(a, InitialDivideStep(a, s), 32))
  }

  /**
   Non-restoring division is exact: with the dividend's high word below the divisor,
   Q ends as the quotient and the ALU output (and M) as the remainder.
   */
  lemma DivisionIsExact(a: Word, s: Pair)
    requires ProperDivisor(a) && s.m < Divisor(a)
    ensures var dividend, result := s.m * 0x1_0000_0000 + s.q, Division(a, s);
            && result.q == dividend / Divisor(a)
            && result.m == result.alu == dividend % Divisor(a)
  {
    hide InitialDivideStep, DivideRun, RemainderStep, Dividing, Divisor, Dividend, Pow2, Wrap32;
    var t := InitialDivideStep(a, s);
    InitialDivideStepValue(a, s);
    DivideRunValue(a, t, s.m, s.q / 0x8000_0000, 32);
    WholeDividend(s.m, s.q);
    NothingLeft(t.q);
  }

  lemma NothingLeft(q: Word)
    ensures Wrap32(q * Pow2(32)) == 0
  {
    Pow2Values();
  }

  lemma WholeDividend(m: Word, q: Word)
    ensures Dividend(m, q / 0x8000_0000, Wrap32(2 * q), 32) == m * 0x1_0000_0000 + q
  {
    Pow2Values();
    assert Pow2(1) == 2;
    hide Pow2;
    assert Pending(q / 0x8000_0000, Wrap32(2 * q), 32) == q;
  }
}

/**
 Iterating the multiply step: thirty-two of them multiply a signed by an unsigned word.
 */
module Multiply {
  import opened Words
  import opened Arithmetic

  /** The registers a step loop carries: M fed back from Out, Q, and the latched ALU output. */
  datatype Pair = Pair(m: Word, q: Word, alu: Word)

  /** One ALU instruction of the multiply/divide group whose output goes back to M. */
  function StepPair(op: nat, qControl: nat, select: nat, a: Word, s: Pair): Pair
    requires op == 32 || op == 33 || op == 37 || op == 41
    requires qControl < 4 && 0 < select < 4
  {
    var r := DivOps(op, s.m, a, s.q, Result(s.alu, false), false);
    Pair(OutControl(select, r, s.m, 0, s.q), QControl(qControl, s.q, r.out), r.out)
  }

  function MultiplyStep(a: Word, s: Pair): Pair { StepPair(32, 2, 2, a, s) }
  function InitialDivideStep(a: Word, s: Pair): Pair { StepPair(41, 1, 3, a, s) }
  function DivideStep(a: Word, s: Pair): Pair { StepPair(33, 1, 3, a, s) }
  function RemainderStep(a: Word, s: Pair): Pair { StepPair(37, 0, 1, a, s) }

  function MultiplyRun(a: Word, s: Pair, k: nat): Pair
    decreases k
  {
    if k == 0 then s else MultiplyRun(a, MultiplyStep(a, s), k - 1)
  }

  function DivideRun(a: Word, s: Pair, k: nat): Pair
    decreases k
  {
    if k == 0 then s else DivideRun(a, DivideStep(a, s), k - 1)
  }

  /** The 64-bit number held by M (signed) over Q. */
  function Value64(s: Pair): int { Signed(s.m) * 0x1_0000_0000 + s.q }

  /** One multiply step: twice the new pair is the old pair plus A in the high half if a one left Q. */
  lemma MultiplyStepValue(a: Word, s: Pair)
    ensures 2 * Value64(MultiplyStep(a, s)) ==
            Value64(s) + (if s.q % 2 == 1 then Signed(a) * 0x1_0000_0000 - 1 else 0)
    ensures MultiplyStep(a, s).q % 0x8000_0000 == s.q / 2
  {
    var v := Signed(s.m) + (if s.q % 2 == 1 then Signed(a) else 0);
    Add32IsExact(a, s.m, false);
    assert DivOps(32, s.m, a, s.q, Result(s.alu, false), false) == Result33(v);
    hide DivOps, Add32;
    HalveSigned(v);
  }

  lemma HalveSigned(v: int)
    requires -0x1_0000_0000 <= v < 0x1_0000_0000 - 1
    ensures Signed(OutControl(2, Result33(v), 0, 0, 0)) == v / 2
    ensures forall m, q :: OutControl(2, Result33(v), m, 0, q) == OutControl(2, Result33(v), 0, 0, 0)
    ensures Result33(v).out % 2 == v % 2
  {
  }

  /** k multiply steps divide by 2^k while adding A times the low k bits of Q into the high half. */
  lemma {:induction false} MultiplyRunValue(a: Word, s: Pair, k: nat)
    requires k <= 32
    ensures Pow2(k) * Value64(MultiplyRun(a, s, k)) ==
            Value64(s) + (Signed(a) * 0x1_0000_0000 - 1) * (s.q % Pow2(k))
    decreases k
  {
    hide MultiplyStep, Signed, Value64;
    if k > 0 {
      var t, c := MultiplyStep(a, s), Signed(a) * 0x1_0000_0000 - 1;
      MultiplyStepValue(a, s);
      MultiplyRunValue(a, t, k - 1);
      LowBitsOf(t.q, k - 1);
      ModHalf(s.q, Pow2(k - 1));
      Doubling(Pow2(k - 1), Value64(MultiplyRun(a, s, k)), Value64(t), Value64(s), c, s.q % 2, t.q % Pow2(k - 1));
    }
  }

  lemma Doubling(p: int, w: int, wt: int, ws: int, c: int, b: int, low: int)
    requires p * w == wt + c * low && 2 * wt == ws + c * b
    ensures (2 * p) * w == ws + c * (2 * low + b)
  {
    assert (2 * p) * w == 2 * (p * w);
    assert c * (2 * low + b) == 2 * (c * low) + c * b;
  }

  lemma LowBitsOf(x: Word, k: nat)
    requires k <= 31
    ensures (x % 0x8000_0000) % Pow2(k) == x % Pow2(k)
  {
    Pow2Values();
    Pow2Add(31 - k, k);
    ModOfMod(x, Pow2(31 - k), Pow2(k));
  }

  lemma ModOfMod(x: nat, b: nat, c: nat)
    requires b > 0 && c > 0
    ensures b * c > 0 && (x % (b * c)) % c == x % c
  {
    MulAtLeast(b, c);
    var q, r := x / (b * c), x % (b * c);
    assert x == q * (b * c) + r;
    assert q * (b * c) == (q * b) * c;
    DivUnique(x, c, q * b + r / c, r % c) by {
      assert (q * b + r / c) * c == (q * b) * c + (r / c) * c;
      assert r == (r / c) * c + r % c;
    }
  }

  /**
   Thirty-two multiply steps multiply exactly: the signed 64-bit pair they leave is
   A (signed) times the old Q (unsigned) plus the old M (signed).
   */
  lemma MultiplyIsExact(a: Word, s: Pair)
    ensures Value64(MultiplyRun(a, s, 32)) == Signed(a) * s.q + Signed(s.m)
  {
    hide MultiplyRun, Signed, Pow2;
    Pow2Values();
    MultiplyRunValue(a, s, 32);
    CancelHighPart(Value64(MultiplyRun(a, s, 32)), Signed(a), s.q, Signed(s.m));
  }

  lemma CancelHighPart(w: int, a: int, q: int, m: int)
    requires 0x1_0000_0000 * w == m * 0x1_0000_0000 + q + (a * 0x1_0000_0000 - 1) * q
    ensures w == a * q + m
  {
    assert (a * 0x1_0000_0000 - 1) * q == 0x1_0000_0000 * (a * q) - q;
  }
}

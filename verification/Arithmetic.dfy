/**
 The arithmetic core of the microcode ALU: adders with their inverted carries,
 rotation, the arithmetic and logical function codes, and single multiply and
 divide steps.
 */
module Arithmetic {
  import opened Words

  /** An ALU output word with its carry. */
  datatype Result = Result(out: Word, carry: bool)

  /** The word and sign bit of a 33-bit signed value. */
  function Result33(v: int): (r: Result)
    requires -0x1_0000_0000 <= v < 0x1_0000_0000
    ensures r.out - 0x1_0000_0000 * B2N(r.carry) == v
  {
    Result(Wrap32(v), v < 0)
  }

  function Add32(a: Word, b: Word, ci: bool): Result {
    Result(Wrap32(a + b + B2N(ci)),
           if ci then !(Signed(b) >= Signed(Not32(a))) else !(Signed(b) > Signed(Not32(a))))
  }

  /** The comparison form of the carry is the sign of the true 33-bit sum. */
  lemma Add32IsExact(a: Word, b: Word, ci: bool)
    ensures Add32(a, b, ci) == Result33(Signed(a) + Signed(b) + B2N(ci))
  {
    assert Signed(Not32(a)) == -1 - Signed(a);
  }

  function Sub32(a: Word, b: Word, ci: bool): Result {
    var o := Wrap32(a - b - B2N(!ci));
    Result(o, o < a)
  }

  /** The carry of the subtracter means "no borrow", except that subtracting nothing also clears it. */
  lemma Sub32IsDifference(a: Word, b: Word, ci: bool)
    ensures Sub32(a, b, ci).out == Wrap32(Signed(a) - Signed(b) - B2N(!ci))
    ensures Sub32(a, b, ci).carry <==> 0 < b + B2N(!ci) <= a
  {
    var k := B2N(!ci);
    var o := a - b - k;
    assert o == Wrap32(o) || o + 0x1_0000_0000 == Wrap32(o);
  }

  /** `a < 0 ? ~a + 1 : a`, with the wrap of the most negative value to itself. */
  function Abs32(a: Word): Word {
    if Signed(a) < 0 then Wrap32(Not32(a) + 1) else a
  }

  lemma Abs32IsMagnitude(a: Word)
    ensures a != 0x8000_0000 ==> Abs32(a) == (if Signed(a) < 0 then -Signed(a) else Signed(a)) < 0x8000_0000
    ensures a == 0x8000_0000 ==> Abs32(a) == a
  {
  }

  // ----- rotation -----

  /** An arithmetic right shift of the sign bit: the mask of the top bits + 1 bits. */
  function TopMask(bits: nat): Word
    requires 0 < bits < 32
  {
    Pow2Values();
    Pow2Monotone(31 - bits, 31);
    0x1_0000_0000 - Pow2(31 - bits)
  }

  /** The bits that a left rotation moves around to the bottom. */
  function RolTail(value: Word, bits: nat): Word
    requires 0 < bits < 32
  {
    Shr(And32(value, TopMask(bits)), 32 - bits)
  }

  function Rol32(value: Word, bits: nat): Word
    requires bits < 32
  {
    if bits == 0 then value else Or32(Wrap32(value * Pow2(bits)), RolTail(value, bits))
  }

  /** The bit position that a left rotation by n moves to position i. */
  function RolSource(n: nat, i: nat): (j: nat)
    requires n < 32 && i < 32
    ensures j < 32 && (j + n) % 32 == i
  {
    if i >= n then i - n else i + 32 - n
  }

  lemma TopMaskBit(n: nat, i: nat)
    requires 0 < n < 32 && i < 32
    ensures Bit(TopMask(n), i) <==> 31 - n <= i
  {
    hide Bit;
    Pow2Values();
    Pow2Monotone(31 - n, 31);
    OnesBit(31 - n, i);
    Not32Bit(Pow2(31 - n) - 1, i);
  }

  lemma RolTailBit(v: Word, n: nat, i: nat)
    requires 0 < n < 32 && i < 32
    ensures Bit(RolTail(v, n), i) <==> i < n && Bit(v, 32 - n + i)
  {
    hide Bit, And, TopMask, Shr, Pow2;
    ShrBit(And32(v, TopMask(n)), 32 - n, i);
    AndBit(v, TopMask(n), 32 - n + i);
    if i < n {
      TopMaskBit(n, 32 - n + i);
    } else {
      Pow2Values();
      HighBitsClear(v, 32, 32 - n + i);
    }
  }

  lemma RolHeadBit(v: Word, n: nat, i: nat)
    requires 0 < n < 32 && i < 32
    ensures Bit(Wrap32(v * Pow2(n)), i) <==> i >= n && Bit(v, i - n)
  {
    hide Bit, Wrap32, Pow2;
    WrapIsMod(v * Pow2(n));
    ModBit(v * Pow2(n), 32, i);
    ShlBit(v, n, i);
  }

  lemma WrapIsMod(x: nat)
    ensures Wrap32(x) == x % Pow2(32)
  {
    Pow2Values();
  }

  /** Rotation is cyclic: every bit of the result is the bit RolSource names. */
  lemma RolBit(v: Word, n: nat, i: nat)
    requires n < 32 && i < 32
    ensures Bit(Rol32(v, n), i) == Bit(v, RolSource(n, i))
  {
    hide Bit, Or, RolTail, Wrap32;
    if n > 0 {
      OrBit(Wrap32(v * Pow2(n)), RolTail(v, n), i);
      RolHeadBit(v, n, i);
      RolTailBit(v, n, i);
    }
  }

  lemma RotationsComposeAt(v: Word, m: nat, n: nat, i: nat)
    requires m < 32 && n < 32 && i < 32
    ensures Bit(Rol32(Rol32(v, m), n), i) == Bit(Rol32(v, (m + n) % 32), i)
  {
    hide Rol32, Bit;
    RolBit(Rol32(v, m), n, i);
    RolBit(v, m, RolSource(n, i));
    RolBit(v, (m + n) % 32, i);
  }

  lemma RotationsCompose(v: Word, m: nat, n: nat)
    requires m < 32 && n < 32
    ensures Rol32(Rol32(v, m), n) == Rol32(v, (m + n) % 32)
  {
    forall i: nat | i < 32 ensures Bit(Rol32(Rol32(v, m), n), i) == Bit(Rol32(v, (m + n) % 32), i) {
      RotationsComposeAt(v, m, n, i);
    }
    WordsEqual(Rol32(Rol32(v, m), n), Rol32(v, (m + n) % 32));
  }

  // ----- logical codes 0-15 -----

  function LogiOps(op: nat, m: Word, a: Word): Word
    requires op < 16
  {
    match op
    case 0 => 0
    case 1 => And32(m, a)
    case 2 => And32(m, Not32(a))
    case 3 => m
    case 4 => And32(Not32(m), a)
    case 5 => a
    case 6 => Xor32(m, a)
    case 7 => Or32(m, a)
    case 8 => And32(Not32(a), Not32(m))
    case 9 => if a == m then 1 else 0
    case 10 => Not32(a)
    case 11 => Or32(m, Not32(a))
    case 12 => Not32(m)
    case 13 => Or32(Not32(m), a)
    case 14 => Or32(Not32(m), Not32(a))
    case 15 => 0xFFFF_FFFF
  }

  /** The operation code read as a truth table: bit 3 - 2m - a is the result for operand bits m and a. */
  predicate TruthTable(op: nat, m: bool, a: bool)
    requires op < 16
  {
    Bit(op, 3 - (if m then 2 else 0) - (if a then 1 else 0))
  }

  /** Every logical code except 9 applies its own number, as a truth table, to each bit. */
  lemma LogicalCodesAreTruthTables(op: nat, m: Word, a: Word, i: nat)
    requires op < 16 && op != 9 && i < 32
    ensures Bit(LogiOps(op, m, a), i) == TruthTable(op, Bit(m, i), Bit(a, i))
  {
    hide And, Or, Xor, Not32;
    Not32Bit(m, i);
    Not32Bit(a, i);
    match op
    case 0 => BitOfZero(i);
    case 1 => AndBit(m, a, i);
    case 2 => AndBit(m, Not32(a), i);
    case 3 =>
    case 4 => AndBit(Not32(m), a, i);
    case 5 =>
    case 6 => XorBit(m, a, i);
    case 7 => OrBit(m, a, i);
    case 8 => AndBit(Not32(a), Not32(m), i);
    case 10 =>
    case 11 => OrBit(m, Not32(a), i);
    case 12 =>
    case 13 => OrBit(Not32(m), a, i);
    case 14 => OrBit(Not32(m), Not32(a), i);
    case 15 => Pow2Values(); OnesBit(32, i);
  }

  ghost predicate EqvFollowsTable(m: Word, a: Word) {
    forall i: nat :: i < 32 ==> Bit(LogiOps(9, m, a), i) == TruthTable(9, Bit(m, i), Bit(a, i))
  }

  /** Code 9 is a whole-word test: it follows its truth table exactly for complementary operands. */
  lemma EqvIsTruthTableIff(m: Word, a: Word)
    ensures EqvFollowsTable(m, a) <==> a == Not32(m)
  {
    if a == Not32(m) {
      forall i: nat | i < 32 ensures Bit(LogiOps(9, m, a), i) == TruthTable(9, Bit(m, i), Bit(a, i)) {
        Not32Bit(m, i);
        BitOfZero(i);
      }
    } else if a == m {
      assert !Bit(LogiOps(9, m, a), 1) && TruthTable(9, Bit(m, 1), Bit(a, 1));
    } else if EqvFollowsTable(m, a) {
      forall i: nat | i < 32 ensures Bit(a, i) == Bit(Not32(m), i) {
        assert Bit(LogiOps(9, m, a), i) == TruthTable(9, Bit(m, i), Bit(a, i));
        Not32Bit(m, i);
        BitOfZero(i);
      }
      WordsEqual(a, Not32(m));
    }
  }

  // ----- arithmetic codes 16-31 -----

  /** The signed expression that arithmetic code `op` names, with its carry-in. */
  function ArithValue(op: nat, m: Word, a: Word, cin: bool): int
    requires 16 <= op < 32
  {
    var and, andca := Signed(And32(m, a)), Signed(And32(m, Not32(a)));
    var or, orca := Signed(Or32(m, a)), Signed(Or32(m, Not32(a)));
    var c := B2N(cin);
    match op
    case 16 => c - 1
    case 17 => and - 1 + c
    case 18 => andca - 1 + c
    case 19 => Signed(m) - 1 + c
    case 20 => orca + c
    case 21 => orca + and + c
    case 22 => Signed(m) - Signed(a) - 1 + c
    case 23 => orca + Signed(m) + c
    case 24 => or + c
    case 25 => Signed(m) + Signed(a) + c
    case 26 => or + andca + c
    case 27 => or + Signed(m) + c
    case 28 => Signed(m) + c
    case 29 => Signed(m) + and + c
    case 30 => Signed(m) + orca + c
    case 31 => 2 * Signed(m) + c
  }

  /** `AluCarry = (lv >> 32) != 0`. */
  function FromLong(lv: int): Result { Result(Wrap32(lv), lv / 0x1_0000_0000 != 0) }

  lemma FromLongIsExact(lv: int)
    requires -0x1_0000_0000 <= lv < 0x1_0000_0000
    ensures FromLong(lv) == Result33(lv)
  {
  }

  /** The code of the arithmetic group: three special cases, two adders, and sums in 64 bits. */
  function ArithOps(op: nat, m: Word, a: Word, cin: bool): Result
    requires 16 <= op < 32
  {
    var and, andca := Signed(And32(m, a)), Signed(And32(m, Not32(a)));
    var or, orca := Signed(Or32(m, a)), Signed(Or32(m, Not32(a)));
    var c := B2N(cin);
    match op
    case 16 => Result(if cin then 0 else 0xFFFF_FFFF, false)
    case 17 => FromLong(and - B2N(!cin))
    case 18 => FromLong(andca - B2N(!cin))
    case 19 => FromLong(Signed(m) - B2N(!cin))
    case 20 => FromLong(orca + c)
    case 21 => FromLong(orca + and + c)
    case 22 => Sub32(m, a, cin)
    case 23 => FromLong(orca + Signed(m) + c)
    case 24 => FromLong(or + c)
    case 25 => Add32(m, a, cin)
    case 26 => FromLong(or + andca + c)
    case 27 => FromLong(or + Signed(m) + c)
    case 28 => Result(Wrap32(Signed(m) + c), m == 0xFFFF_FFFF && cin)
    case 29 => FromLong(Signed(m) + and + c)
    case 30 => FromLong(Signed(m) + orca + c)
    case 31 => Add32(m, m, cin)
  }

  /**
   Output minus 2^32 times carry is the true value: the comparison carry of Add32
   and the 64-bit shift compute the same thing, the sign of the 33-bit result.
   */
  lemma ArithIsExact(op: nat, m: Word, a: Word, cin: bool)
    requires 16 <= op < 32 && op != 16 && op != 22 && op != 28
    ensures -0x1_0000_0000 <= ArithValue(op, m, a, cin) < 0x1_0000_0000
    ensures ArithOps(op, m, a, cin) == Result33(ArithValue(op, m, a, cin))
  {
    hide And32, Or32, Not32, Signed, FromLong, Add32, Result33;
    Add32IsExact(m, a, cin);
    Add32IsExact(m, m, cin);
    FromLongIsExact(ArithValue(op, m, a, cin));
  }

  /** The output word alone is right for every code. */
  lemma ArithWordIsExact(op: nat, m: Word, a: Word, cin: bool)
    requires 16 <= op < 32
    ensures ArithOps(op, m, a, cin).out == Wrap32(ArithValue(op, m, a, cin))
  {
    hide And32, Or32;
    if op == 22 {
      Sub32IsDifference(m, a, cin);
    } else if op != 16 && op != 28 {
      ArithIsExact(op, m, a, cin);
    }
  }

  /** Exactly when the carries of the two constant-like codes 16 and 28 are a sign bit too. */
  lemma SpecialCarriesAreExactIff(m: Word, a: Word, cin: bool)
    ensures ArithOps(16, m, a, cin) == Result33(ArithValue(16, m, a, cin)) <==> cin
    ensures ArithOps(28, m, a, cin) == Result33(ArithValue(28, m, a, cin)) <==> m < 0x8000_0000
  {
    hide And32, Or32;
  }

  /** The subtracter's carry is no sign bit in general: exactly when it is one. */
  lemma SubtractCarryIsTheSignIff(m: Word, a: Word, cin: bool)
    ensures ArithOps(22, m, a, cin) == Result33(ArithValue(22, m, a, cin)) <==>
            if a == 0 && cin then m < 0x8000_0000 else (m < 0x8000_0000) != (a < 0x8000_0000)
  {
    hide And32, Or32;
    Sub32IsDifference(m, a, cin);
    hide Sub32;
  }

  // ----- multiply and divide steps -----

  /** Codes 32, 33, 37 and 41 on the operands, Q and the previous ALU output and carry. */
  function DivOps(op: nat, m: Word, a: Word, q: Word, prev: Result, cin: bool): Result
    requires op == 32 || op == 33 || op == 37 || op == 41
  {
    match op
    case 32 => if q % 2 == 1 then Add32(a, m, cin) else Result(m, m >= 0x8000_0000)
    case 33 => if q % 2 == 1 then Sub32(m, Abs32(a), !cin) else Add32(m, Abs32(a), cin)
    case 41 => Sub32(m, Abs32(a), !cin)
    case 37 => if q % 2 == 1 then Result(prev.out, false) else CorrectRemainder(prev.out, Abs32(a), cin)
  }

  /** The remainder correction compares against the sum it has just stored, not against its operand. */
  function CorrectRemainder(prev: Word, b: Word, cin: bool): Result {
    var sum := Wrap32(prev + b + B2N(cin));
    Result(sum, Add32(sum, b, cin).carry)
  }

  /** Q controls 0 to 3: hold, shift left taking in the complemented sign, shift right taking in bit 0, load. */
  function QControl(control: nat, q: Word, aluOut: Word): Word
    requires control < 4
  {
    match control
    case 0 => q
    case 1 => Wrap32(2 * q) + B2N(aluOut < 0x8000_0000)
    case 2 => q / 2 + 0x8000_0000 * (aluOut % 2)
    case 3 => aluOut
  }

  /** Output selects 0 to 3. */
  function OutControl(select: nat, r: Result, m: Word, rot: nat, oldQ: Word): Word
    requires select < 4 && rot < 32
  {
    match select
    case 0 => Rol32(m, rot)
    case 1 => r.out
    case 2 => r.out / 2 + 0x8000_0000 * B2N(r.carry)
    case 3 => Wrap32(2 * r.out) + oldQ / 0x8000_0000
  }
}

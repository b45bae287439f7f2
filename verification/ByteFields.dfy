/**
 Byte instructions and their disassembly: what LDB, DPB, SELECTIVE-DEPOSIT and DISPATCH
 take from their operands, and the (length, position) that the disassembler prints for it.
 */
module ByteFields {
  import opened Words
  import opened Arithmetic
  import opened Microcode

  // ----- masks and merges, bit by bit -----

  /** The mask runs from pos to (pos + width - 1) mod 32, and is empty when that has wrapped. */
  lemma MskBit(w: MicroWord, pos: nat, i: nat)
    requires pos < 32 && i < 32
    ensures Bit(Msk(w, pos), i) <==> pos <= i <= (pos + WidthField(w)) % 32
  {
    hide Bit, And;
    var left := (pos + WidthField(w)) % 32;
    Pow2Values();
    Pow2Monotone(left + 1, 32);
    Pow2Monotone(pos, 31);
    AndBit(Pow2(left + 1) - 1, Not32(Pow2(pos) - 1), i);
    OnesBit(left + 1, i);
    OnesBit(pos, i);
    Not32Bit(Pow2(pos) - 1, i);
  }

  lemma MergeBit(m: Word, a: Word, mask: Word, i: nat)
    requires i < 32
    ensures Bit(Merge(m, a, mask), i) == if Bit(mask, i) then Bit(m, i) else Bit(a, i)
  {
    hide Bit, And, Or, Not32;
    OrBit(And32(m, mask), And32(a, Not32(mask)), i);
    AndBit(m, mask, i);
    AndBit(a, Not32(mask), i);
    Not32Bit(mask, i);
  }

  predicate IsLdb(w: MicroWord) { OutField(w) == 1 }
  predicate IsSelectiveDeposit(w: MicroWord) { OutField(w) == 2 }
  predicate IsDpb(w: MicroWord) { OutField(w) == 3 }

  /** The number of bits a byte instruction moves. */
  function Length(w: MicroWord): nat { WidthField(w) + 1 }

  /** Where a rotation to the left by p brings bit 0 from. */
  function Source(p: Index5): nat { (32 - p) % 32 }

  /** DPB: the field at its position comes from the low bits of M, everything else from A. */
  lemma DpbBit(w: MicroWord, p: Index5, m: Word, a: Word, i: nat)
    requires IsDpb(w) && i < 32
    ensures Bit(ByteOut(w, p, m, a), i) ==
            if p + Length(w) <= 32 && p <= i < p + Length(w) then Bit(m, i - p) else Bit(a, i)
  {
    hide Bit, Merge, Rol32, Msk;
    MskBit(w, p, i);
    MergeBit(Rol32(m, p), a, Msk(w, p), i);
    RolBit(m, p, i);
  }

  lemma SelectiveDepositBit(w: MicroWord, p: Index5, m: Word, a: Word, i: nat)
    requires IsSelectiveDeposit(w) && i < 32
    ensures Bit(ByteOut(w, p, m, a), i) ==
            if p + Length(w) <= 32 && p <= i < p + Length(w) then Bit(m, i) else Bit(a, i)
  {
    hide Bit, Merge, Rol32, Msk;
    MskBit(w, p, i);
    MergeBit(m, a, Msk(w, p), i);
  }

  /** LDB: the low bits come from the field of M at its source position, cyclically, the rest from A. */
  lemma LdbBit(w: MicroWord, p: Index5, m: Word, a: Word, i: nat)
    requires IsLdb(w) && i < 32
    ensures Bit(ByteOut(w, p, m, a), i) == if i < Length(w) then Bit(m, (Source(p) + i) % 32) else Bit(a, i)
  {
    hide Bit, Merge, Rol32, Msk;
    MskBit(w, 0, i);
    MergeBit(Rol32(m, p), a, Msk(w, 0), i);
    RolBit(m, p, i);
    assert RolSource(p, i) == (Source(p) + i) % 32;
  }

  // ----- the same as numbers, of the byte instruction in P0 -----

  /** The bits of x outside a field are those of y. */
  ghost predicate SameOutside(x: Word, y: Word, pos: nat, len: nat) {
    forall i: nat :: i < 32 && !(pos <= i < pos + len) ==> Bit(x, i) == Bit(y, i)
  }

  predicate AgreeAt(x: Word, y: Word, px: nat, py: nat, i: nat) { Bit(x, px + i) == Bit(y, py + i) }

  lemma FieldsAgree(x: Word, y: Word, px: nat, py: nat, len: nat)
    requires forall i: nat :: i < len ==> AgreeAt(x, y, px, py, i)
    ensures Field(x, px, len) == Field(y, py, len)
  {
    hide Bit, Shr;
    forall i: nat | i < len ensures Bit(Field(x, px, len), i) == Bit(Field(y, py, len), i) {
      assert AgreeAt(x, y, px, py, i);
      FieldBit(x, px, len, i);
      FieldBit(y, py, len, i);
    }
    BitsDetermine(Field(x, px, len), Field(y, py, len), len);
  }

  lemma BytOutIs(c: Cpu)
    ensures BytCycle(c).path.out == ByteOut(c.pipe.p0, RotatePosition(c), c.path.mData, c.path.aData)
  {
    hide ByteOut, RotatePosition, OutField, Rol32;
  }

  /** A deposit that fits puts the low bits of M at its position and keeps the rest of A. */
  lemma DpbDeposits(c: Cpu)
    requires IsDpb(c.pipe.p0) && RotatePosition(c) + Length(c.pipe.p0) <= 32
    ensures var out, p, n := BytCycle(c).path.out, RotatePosition(c), Length(c.pipe.p0);
            Field(out, p, n) == Field(c.path.mData, 0, n) && SameOutside(out, c.path.aData, p, n)
  {
    BytOutIs(c);
    hide BytCycle, RotatePosition;
    ByteOutDeposits(c.pipe.p0, RotatePosition(c), c.path.mData, c.path.aData);
  }

  lemma ByteOutDeposits(w: MicroWord, p: Index5, m: Word, a: Word)
    requires IsDpb(w) && p + Length(w) <= 32
    ensures Field(ByteOut(w, p, m, a), p, Length(w)) == Field(m, 0, Length(w))
    ensures SameOutside(ByteOut(w, p, m, a), a, p, Length(w))
  {
    hide ByteOut, Bit;
    forall i: nat | i < Length(w) ensures AgreeAt(ByteOut(w, p, m, a), m, p, 0, i) { DpbBit(w, p, m, a, p + i); }
    FieldsAgree(ByteOut(w, p, m, a), m, p, 0, Length(w));
    forall i: nat | i < 32 && !(p <= i < p + Length(w)) ensures Bit(ByteOut(w, p, m, a), i) == Bit(a, i) {
      DpbBit(w, p, m, a, i);
    }
  }

  /** A deposit past bit 31 does not wrap around: its mask is empty, and it deposits nothing at all. */
  lemma DpbPastTheTopDepositsNothing(w: MicroWord, p: Index5, m: Word, a: Word)
    requires IsDpb(w) && p + Length(w) > 32
    ensures ByteOut(w, p, m, a) == a
  {
    hide ByteOut, Bit;
    forall i: nat | i < 32 ensures Bit(ByteOut(w, p, m, a), i) == Bit(a, i) { DpbBit(w, p, m, a, i); }
    WordsEqual(ByteOut(w, p, m, a), a);
  }

  /** A deposit instruction at rotation p deposits its field whatever M and A hold. */
  ghost predicate AlwaysDeposits(w: MicroWord, p: Index5) {
    forall m: Word, a: Word :: Field(ByteOut(w, p, m, a), p, Length(w)) == Field(m, 0, Length(w))
  }

  /** That is so exactly when the field ends at or below bit 31. */
  lemma DpbDepositsIff(w: MicroWord, p: Index5)
    requires IsDpb(w)
    ensures AlwaysDeposits(w, p) <==> p + Length(w) <= 32
  {
    hide ByteOut, Bit, Field;
    if p + Length(w) <= 32 {
      forall m: Word, a: Word ensures Field(ByteOut(w, p, m, a), p, Length(w)) == Field(m, 0, Length(w)) {
        ByteOutDeposits(w, p, m, a);
      }
    } else {
      DpbPastTheTopDepositsNothing(w, p, 1, 0);
      FieldBit(0, p, Length(w), 0);
      FieldBit(1, 0, Length(w), 0);
      BitOfZero(p);
      LowestBits();
      assert Field(ByteOut(w, p, 1, 0), p, Length(w)) != Field(1, 0, Length(w));
    }
  }

  lemma LowestBits()
    ensures Bit(1, 0)
  {
  }

  /** Loading from a field that does not wrap gives that field of M below, and A above it. */
  lemma LdbExtracts(c: Cpu)
    requires IsLdb(c.pipe.p0) && Source(RotatePosition(c)) + Length(c.pipe.p0) <= 32
    ensures var out, n := BytCycle(c).path.out, Length(c.pipe.p0);
            Field(out, 0, n) == Field(c.path.mData, Source(RotatePosition(c)), n) && SameOutside(out, c.path.aData, 0, n)
  {
    BytOutIs(c);
    hide BytCycle, RotatePosition;
    ByteOutLoads(c.pipe.p0, RotatePosition(c), c.path.mData, c.path.aData);
  }

  lemma ByteOutLoads(w: MicroWord, p: Index5, m: Word, a: Word)
    requires IsLdb(w) && Source(p) + Length(w) <= 32
    ensures Field(ByteOut(w, p, m, a), 0, Length(w)) == Field(m, Source(p), Length(w))
    ensures SameOutside(ByteOut(w, p, m, a), a, 0, Length(w))
  {
    hide ByteOut, Bit, Source;
    forall i: nat | i < Length(w) ensures AgreeAt(ByteOut(w, p, m, a), m, 0, Source(p), i) {
      LdbBit(w, p, m, a, i);
    }
    FieldsAgree(ByteOut(w, p, m, a), m, 0, Source(p), Length(w));
    forall i: nat | i < 32 && !(0 <= i < 0 + Length(w)) ensures Bit(ByteOut(w, p, m, a), i) == Bit(a, i) {
      LdbBit(w, p, m, a, i);
    }
  }

  lemma ByteOutSelects(w: MicroWord, p: Index5, m: Word, a: Word)
    requires IsSelectiveDeposit(w) && p + Length(w) <= 32
    ensures Field(ByteOut(w, p, m, a), p, Length(w)) == Field(m, p, Length(w))
    ensures SameOutside(ByteOut(w, p, m, a), a, p, Length(w))
  {
    hide ByteOut, Bit;
    forall i: nat | i < Length(w) ensures AgreeAt(ByteOut(w, p, m, a), m, p, p, i) {
      SelectiveDepositBit(w, p, m, a, p + i);
    }
    FieldsAgree(ByteOut(w, p, m, a), m, p, p, Length(w));
    forall i: nat | i < 32 && !(p <= i < p + Length(w)) ensures Bit(ByteOut(w, p, m, a), i) == Bit(a, i) {
      SelectiveDepositBit(w, p, m, a, i);
    }
  }

  /**
   Depositing a byte and loading it back from the same position returns the low bits
   of the source, whatever surrounded it.
   */
  lemma DepositThenLoad(c: Cpu, c': Cpu)
    requires IsDpb(c.pipe.p0) && IsLdb(c'.pipe.p0) && Length(c.pipe.p0) == Length(c'.pipe.p0)
    requires RotatePosition(c) + Length(c.pipe.p0) <= 32 && RotatePosition(c') == (32 - RotatePosition(c)) % 32
    requires c'.path.mData == BytCycle(c).path.out && c'.path.aData == 0
    ensures BytCycle(c').path.out == c.path.mData % Pow2(Length(c.pipe.p0))
  {
    BytOutIs(c);
    BytOutIs(c');
    hide BytCycle, RotatePosition, IsDpb, IsLdb;
    LoadOfDeposit(c.pipe.p0, RotatePosition(c), c'.pipe.p0, RotatePosition(c'), c.path.mData, c.path.aData);
  }

  lemma LoadOfDeposit(dpb: MicroWord, p: Index5, ldb: MicroWord, q: Index5, m: Word, a: Word)
    requires IsDpb(dpb) && IsLdb(ldb) && Length(dpb) == Length(ldb) && p + Length(dpb) <= 32 && q == (32 - p) % 32
    ensures ByteOut(ldb, q, ByteOut(dpb, p, m, a), 0) == m % Pow2(Length(dpb))
  {
    hide ByteOut, Bit, WidthField, IsDpb, IsLdb, Pow2;
    var n, x := Length(dpb), ByteOut(ldb, q, ByteOut(dpb, p, m, a), 0);
    Pow2Values();
    Pow2Monotone(n, 32);
    forall i: nat | i < 32 ensures Bit(x, i) == Bit(m % Pow2(n), i) {
      LdbBit(ldb, q, ByteOut(dpb, p, m, a), 0, i);
      ModBit(m, n, i);
      BitOfZero(i);
      if i < n { DpbBit(dpb, p, m, a, p + i); }
    }
    WordsEqual(x, m % Pow2(n));
  }

  // ----- rotation by the location counter -----

  /**
   In byte mode the location counter turns the rotation by whole bytes: back when bit 3 of the
   instruction is clear, forward when it is set.
   */
  lemma LcTurnsByBytes(c: Cpu)
    requires ByteMode(c)
    ensures var base, lc := PosField(c.pipe.p0), c.port.lc % 4;
            LcByteMode(c) == if c.pipe.p0 / 8 % 2 == 0 then (base - 8 * lc) % 32 else (base + 8 * lc) % 32
  {
    var w, lc := c.pipe.p0, c.port.lc;
    LowFive(w);
    LowTwo(lc);
    BytesTurn(w % 8, w / 16 % 2, w / 8 % 2, lc / 2 % 2, lc % 2);
  }

  lemma BytesTurn(low: nat, ir4: nat, ir3: nat, lc1: nat, lc0: nat)
    requires low < 8 && ir4 < 2 && ir3 < 2 && lc1 < 2 && lc0 < 2
    ensures var base, lc := low + 8 * ir3 + 16 * ir4, lc0 + 2 * lc1;
            low + 16 * ((ir4 + lc1 + lc0) % 2) + 8 * ((ir3 + lc0) % 2)
            == if ir3 == 0 then (base - 8 * lc) % 32 else (base + 8 * lc) % 32
  {
    if lc1 == 0 { if lc0 == 0 { } } else { if lc0 == 0 { } }
  }

  /** Outside byte mode it turns by a halfword, when it points to the first one. */
  lemma LcTurnsByHalfwords(c: Cpu)
    requires !ByteMode(c)
    ensures LcByteMode(c) == (PosField(c.pipe.p0) + 16 * (1 + c.port.lc / 2 % 2)) % 32
  {
    LowFive(c.pipe.p0);
    TurnBySixteen(c.pipe.p0 % 16, c.pipe.p0 / 16 % 2, c.port.lc / 2 % 2);
    hide ByteMode;
  }

  lemma TurnBySixteen(low: nat, d: nat, l: nat)
    requires low < 16 && d < 2 && l < 2
    ensures (low + 16 * d + 16 * (1 + l)) % 32 == low + 16 * B2N(d == l)
  {
    DivUnique(low + 16 * d + 16 * (1 + l), 32, (d + l + 1) / 2, low + 16 * B2N(d == l));
  }

  lemma LowFive(w: nat)
    ensures w % 32 == w % 8 + 8 * (w / 8 % 2) + 16 * (w / 16 % 2) == w % 16 + 16 * (w / 16 % 2)
  {
    var q, r := w / 32, w % 32;
    DivUnique(w, 8, 4 * q + r / 8, r % 8);
    DivUnique(4 * q + r / 8, 2, 2 * q + r / 16, r / 8 % 2);
    DivUnique(w, 16, 2 * q + r / 16, r % 16);
    DivUnique(2 * q + r / 16, 2, q, r / 16);
  }

  lemma LowTwo(lc: nat)
    ensures lc % 4 == lc % 2 + 2 * (lc / 2 % 2)
  {
  }

  /** So an eight-bit load with base 0 loads the byte of M that LC names. */
  lemma LcLoadsItsByte(c: Cpu)
    requires MiscField(c.pipe.p0) == 3 && ByteMode(c) && IsLdb(c.pipe.p0) && Length(c.pipe.p0) == 8 && PosField(c.pipe.p0) == 0
    ensures Field(BytCycle(c).path.out, 0, 8) == Field(c.path.mData, 8 * (c.port.lc % 4), 8)
  {
    LowFive(c.pipe.p0);
    LcTurnsByBytes(c);
    assert RotatePosition(c) == LcByteMode(c);
    assert Source(RotatePosition(c)) == 8 * (c.port.lc % 4);
    hide LcByteMode, BytCycle, RotatePosition, Field, Length, Source;
    LdbExtracts(c);
  }

  /** And an eight-bit deposit with base 24 deposits the byte before it, leaving the other three. */
  lemma LcDepositsTheByteBefore(c: Cpu)
    requires MiscField(c.pipe.p0) == 3 && ByteMode(c) && IsDpb(c.pipe.p0) && Length(c.pipe.p0) == 8 && PosField(c.pipe.p0) == 24
    ensures var out, at := BytCycle(c).path.out, 8 * ((c.port.lc + 3) % 4);
            Field(out, at, 8) == Field(c.path.mData, 0, 8) && SameOutside(out, c.path.aData, at, 8)
  {
    LowFive(c.pipe.p0);
    LcTurnsByBytes(c);
    assert RotatePosition(c) == LcByteMode(c) == 8 * ((c.port.lc + 3) % 4);
    hide LcByteMode, BytCycle, RotatePosition, Field, Length;
    DpbDeposits(c);
  }

  // ----- the disassembler -----

  /** The length and position printed for a byte field, from the low valBits bits of an instruction. */
  function ByteFieldOut(instruction: MicroWord, valBits: nat, alwaysReflectMrot: bool, lengthIsMinusOne: bool): (nat, nat) {
    var val := instruction % Pow2(valBits);
    var len := val / 32 % 32 + (if lengthIsMinusOne then 1 else 0);
    var pos := val % 32;
    (len, if pos != 0 && (alwaysReflectMrot || OutField(instruction) == 1) then 32 - pos else pos)
  }

  function DisassembledByte(w: MicroWord): (nat, nat) { ByteFieldOut(w, 10, false, true) }
  function DisassembledDispatch(w: MicroWord): (nat, nat) { ByteFieldOut(w, 8, true, false) }

  /** Truncating to val first leaves the low two fields of five bits as they are. */
  lemma LowFields(w: nat, k: nat)
    requires k > 0
    ensures w % (32 * k) / 32 == w / 32 % k && w % (32 * k) % 32 == w % 32
  {
    var q, r := w / 32, w % 32;
    var h, l := q / k, q % k;
    assert q == h * k + l;
    assert w == h * (32 * k) + (l * 32 + r);
    DivUnique(w, 32 * k, h, l * 32 + r);
    DivUnique(l * 32 + r, 32, l, r);
  }

  lemma ByteFieldIs(w: MicroWord)
    ensures DisassembledByte(w) == (Length(w), if IsLdb(w) then Source(PosField(w)) else PosField(w))
  {
    assert Pow2(10) == 1024 by { assert Pow2(8) == 256; }
    hide Pow2, OutField;
    LowFields(w, 32);
  }

  lemma DispatchFieldIs(w: MicroWord)
    ensures DisassembledDispatch(w) == (LengthField(w), Source(PosField(w)))
  {
    assert Pow2(8) == 256;
    hide Pow2, OutField;
    LowFields(w, 8);
  }

  /** The printed field of an LDB is the field of M it loads, of a deposit the field of A it replaces. */
  lemma ByteDisassemblyIsTruthful(c: Cpu)
    requires MiscField(c.pipe.p0) != 3
    requires var (len, pos) := DisassembledByte(c.pipe.p0); pos + len <= 32
    ensures var w, m, a, out := c.pipe.p0, c.path.mData, c.path.aData, BytCycle(c).path.out;
            var (len, pos) := DisassembledByte(w);
            && (IsLdb(w) ==> Field(out, 0, len) == Field(m, pos, len) && SameOutside(out, a, 0, len))
            && (IsDpb(w) ==> Field(out, pos, len) == Field(m, 0, len) && SameOutside(out, a, pos, len))
            && (IsSelectiveDeposit(w) ==> Field(out, pos, len) == Field(m, pos, len) && SameOutside(out, a, pos, len))
  {
    var w, m, a := c.pipe.p0, c.path.mData, c.path.aData;
    ByteFieldIs(w);
    BytOutIs(c);
    assert RotatePosition(c) == PosField(w);
    hide BytCycle, ByteOut, Field, DisassembledByte, Source, WidthField, PosField, RotatePosition;
    if IsLdb(w) { ByteOutLoads(w, PosField(w), m, a); }
    if IsDpb(w) { ByteOutDeposits(w, PosField(w), m, a); }
    if IsSelectiveDeposit(w) { ByteOutSelects(w, PosField(w), m, a); }
  }

  /** The printed field of a DISPATCH is the field of M that is ORed into the dispatch address, beside the map bit. */
  lemma DispatchDisassemblyIsTruthful(w: MicroWord, mapL2: Word, m: Word)
    requires var (len, pos) := DisassembledDispatch(w); pos + len <= 32
    ensures var (len, pos) := DisassembledDispatch(w);
            DispatchAddress(w, mapL2, Rol32(m, PosField(w))) ==
            Or(Or(DispatchField(w), Field(m, pos, len)), MapBit(w, mapL2))
  {
    DispatchFieldIs(w);
    hide Rol32, Bit, Source, LengthField, PosField, Field, DispatchField, DispatchAddress, Or, MapBit;
    MaskedAddress(w, mapL2, Rol32(m, PosField(w)));
    RotatedField(m, PosField(w), LengthField(w));
  }

  lemma MaskedAddress(w: MicroWord, mapL2: Word, r: Word)
    ensures DispatchAddress(w, mapL2, r) == Or(Or(DispatchField(w), r % Pow2(LengthField(w))), MapBit(w, mapL2))
  {
    hide And, Or, Pow2, LengthField, DispatchField, MapBit, DispatchMask;
    LengthBound(w);
    MaskedLow(r, LengthField(w));
    OrOfThree(DispatchField(w), r % Pow2(LengthField(w)), MapBit(w, mapL2)) by { MapBitBound(w, mapL2); }
  }

  lemma OrOfThree(base: nat, low: nat, mapBit: nat)
    requires base < 2048 && low < 2048 && mapBit < 2048
    ensures Or(Or(base, low), mapBit) < 2048
  {
    hide Or, Pow2;
    Pow2Is2048(0);
    OrBound(base, low, 11);
    OrBound(Or(base, low), mapBit, 11);
  }

  lemma MapBitBound(w: MicroWord, mapL2: Word)
    ensures MapBit(w, mapL2) < 2048
  {
    assert Pow2(1) == 2;
    hide Or;
    OrBound(mapL2 / 0x4_0000 % 2, mapL2 / 0x8_0000 % 2, 1);
  }

  lemma MaskedLow(r: Word, len: nat)
    requires len < 8
    ensures And(r, DispatchMask(len)) == r % Pow2(len) < 2048
  {
    hide And;
    AndOnes(r, len);
    Pow2Is2048(len);
  }

  lemma Pow2Is2048(len: nat)
    requires len < 8
    ensures Pow2(11) == 2048 && Pow2(len) <= 2048
  {
    assert Pow2(8) == 256;
    assert Pow2(11) == 2048;
    Pow2Monotone(len, 11);
  }

  lemma LengthBound(w: MicroWord)
    ensures LengthField(w) < 8
  {
  }

  lemma SourceOfBit(p: Index5, i: nat, len: nat)
    requires Source(p) + len <= 32 && i < len
    ensures RolSource(p, i) == Source(p) + i
  {
  }

  lemma RotatedField(m: Word, p: Index5, len: nat)
    requires Source(p) + len <= 32
    ensures Rol32(m, p) % Pow2(len) == Field(m, Source(p), len)
  {
    hide Rol32, Bit, Field, Pow2;
    var r := Rol32(m, p);
    forall i: nat | i < len ensures Bit(r % Pow2(len), i) == Bit(Field(m, Source(p), len), i) {
      ModBit(r, len, i);
      FieldBit(m, Source(p), len, i);
      RolBit(m, p, i);
      SourceOfBit(p, i, len);
    }
    BitsDetermine(r % Pow2(len), Field(m, Source(p), len), len);
  }
}

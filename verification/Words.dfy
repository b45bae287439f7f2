/**
 Machine words of the CADR emulator as integers with explicit wrap-around, and
 the bitwise operators on them, each characterised bit by bit.
 */
module Words {
  type Word = x: int | 0 <= x < 0x1_0000_0000
  type Int32 = x: int | -0x8000_0000 <= x < 0x8000_0000
  type Half = x: int | 0 <= x < 0x1_0000
  type Byte = x: int | 0 <= x < 0x100

  datatype Option<+T> = None | Some(value: T)

  /** The C# conversion `unchecked((uint)x)`. */
  function Wrap32(x: int): Word { x % 0x1_0000_0000 }

  /** The two's complement reading of a word: the C# conversion `(int)w`. */
  function Signed(w: Word): Int32 { if w < 0x8000_0000 then w else w - 0x1_0000_0000 }

  function Pow2(n: nat): (p: nat)
    ensures p >= 1
  {
    if n == 0 then 1 else 2 * Pow2(n - 1)
  }

  lemma {:induction false} Pow2Add(m: nat, n: nat)
    ensures Pow2(m + n) == Pow2(m) * Pow2(n)
  {
    if m == 0 {
    } else {
      Pow2Add(m - 1, n);
      assert Pow2(m + n) == 2 * (Pow2(m - 1) * Pow2(n));
      assert 2 * (Pow2(m - 1) * Pow2(n)) == (2 * Pow2(m - 1)) * Pow2(n);
    }
  }

  lemma Pow2Values()
    ensures Pow2(8) == 0x100 && Pow2(16) == 0x1_0000 && Pow2(24) == 0x100_0000 && Pow2(31) == 0x8000_0000
    ensures Pow2(32) == 0x1_0000_0000
  {
    assert Pow2(8) == 0x100;
    Pow2Add(8, 8);
    Pow2Add(16, 8);
    Pow2Add(24, 8);
  }

  lemma {:induction false} Pow2Monotone(m: nat, n: nat)
    requires m <= n
    ensures Pow2(m) <= Pow2(n)
    decreases n
  {
    if m < n { Pow2Monotone(m, n - 1); }
  }

  // ----- bits -----

  predicate Bit(x: nat, i: nat) {
    if i == 0 then x % 2 == 1 else Bit(x / 2, i - 1)
  }

  function B2N(b: bool): nat { if b then 1 else 0 }

  function And(a: nat, b: nat): nat {
    if a == 0 then 0 else 2 * And(a / 2, b / 2) + B2N(a % 2 == 1 && b % 2 == 1)
  }

  function Or(a: nat, b: nat): nat
    decreases a + b
  {
    if a == 0 && b == 0 then 0 else 2 * Or(a / 2, b / 2) + B2N(a % 2 == 1 || b % 2 == 1)
  }

  function Xor(a: nat, b: nat): nat
    decreases a + b
  {
    if a == 0 && b == 0 then 0 else 2 * Xor(a / 2, b / 2) + B2N((a % 2 == 1) != (b % 2 == 1))
  }

  /** The C# operator `~` on a 32-bit word. */
  function Not32(a: Word): Word { 0xFFFF_FFFF - a }

  lemma {:induction false} BitOfZero(i: nat)
    ensures !Bit(0, i)
  {
    if i > 0 { BitOfZero(i - 1); }
  }

  lemma {:induction false} AndBit(a: nat, b: nat, i: nat)
    ensures Bit(And(a, b), i) <==> Bit(a, i) && Bit(b, i)
    decreases i
  {
    if a == 0 {
      BitOfZero(i);
    } else {
      var r := 2 * And(a / 2, b / 2) + B2N(a % 2 == 1 && b % 2 == 1);
      assert r / 2 == And(a / 2, b / 2);
      if i > 0 { AndBit(a / 2, b / 2, i - 1); }
    }
  }

  lemma {:induction false} OrBit(a: nat, b: nat, i: nat)
    ensures Bit(Or(a, b), i) <==> Bit(a, i) || Bit(b, i)
    decreases i
  {
    if a == 0 && b == 0 {
      BitOfZero(i);
    } else {
      var r := 2 * Or(a / 2, b / 2) + B2N(a % 2 == 1 || b % 2 == 1);
      assert r / 2 == Or(a / 2, b / 2);
      if i > 0 { OrBit(a / 2, b / 2, i - 1); }
    }
  }

  lemma {:induction false} XorBit(a: nat, b: nat, i: nat)
    ensures Bit(Xor(a, b), i) <==> Bit(a, i) != Bit(b, i)
    decreases i
  {
    if a == 0 && b == 0 {
      BitOfZero(i);
    } else {
      var r := 2 * Xor(a / 2, b / 2) + B2N((a % 2 == 1) != (b % 2 == 1));
      assert r / 2 == Xor(a / 2, b / 2);
      if i > 0 { XorBit(a / 2, b / 2, i - 1); }
    }
  }

  /** Complement relative to an all-ones word of any width, so that it can be unrolled. */
  lemma {:induction false} ComplementBit(a: nat, n: nat, i: nat)
    requires a < Pow2(n) && i < n
    ensures Bit((Pow2(n) - 1 - a) as nat, i) <==> !Bit(a, i)
    decreases i
  {
    var c: nat := Pow2(n) - 1 - a;
    assert c == 2 * (Pow2(n - 1) - 1 - a / 2) + (1 - a % 2);
    if i > 0 {
      assert c / 2 == Pow2(n - 1) - 1 - a / 2;
      ComplementBit(a / 2, n - 1, i - 1);
    }
  }

  lemma Not32Bit(a: Word, i: nat)
    requires i < 32
    ensures Bit(Not32(a), i) <==> !Bit(a, i)
  {
    Pow2Values();
    ComplementBit(a, 32, i);
  }

  /** Bits at or above the width of a number are clear. */
  lemma {:induction false} HighBitsClear(a: nat, n: nat, i: nat)
    requires a < Pow2(n) && n <= i
    ensures !Bit(a, i)
    decreases n
  {
    if n == 0 {
      BitOfZero(i);
    } else {
      HighBitsClear(a / 2, n - 1, i - 1);
    }
  }

  /** Two numbers of n bits that agree on every bit are equal. */
  lemma {:induction false} BitsDetermine(a: nat, b: nat, n: nat)
    requires a < Pow2(n) && b < Pow2(n)
    requires forall i: nat :: i < n ==> Bit(a, i) == Bit(b, i)
    ensures a == b
    decreases n
  {
    if n > 0 {
      forall i: nat | i < n - 1 ensures Bit(a / 2, i) == Bit(b / 2, i) {
        assert Bit(a, i + 1) == Bit(b, i + 1);
      }
      BitsDetermine(a / 2, b / 2, n - 1);
      assert Bit(a, 0) == Bit(b, 0);
    }
  }

  lemma WordsEqual(a: Word, b: Word)
    requires forall i: nat :: i < 32 ==> Bit(a, i) == Bit(b, i)
    ensures a == b
  {
    Pow2Values();
    BitsDetermine(a, b, 32);
  }

  lemma {:induction false} AndBound(a: nat, b: nat)
    ensures And(a, b) <= a && And(a, b) <= b
  {
    if a > 0 { AndBound(a / 2, b / 2); }
  }

  lemma {:induction false} OrBound(a: nat, b: nat, n: nat)
    requires a < Pow2(n) && b < Pow2(n)
    ensures Or(a, b) < Pow2(n)
    decreases n
  {
    if n > 0 { OrBound(a / 2, b / 2, n - 1); }
  }

  lemma {:induction false} XorBound(a: nat, b: nat, n: nat)
    requires a < Pow2(n) && b < Pow2(n)
    ensures Xor(a, b) < Pow2(n)
    decreases n
  {
    if n > 0 { XorBound(a / 2, b / 2, n - 1); }
  }

  function And32(a: Word, b: Word): Word { AndBound(a, b); And(a, b) }

  function Or32(a: Word, b: Word): Word {
    Pow2Values();
    OrBound(a, b, 32);
    Or(a, b)
  }

  function Xor32(a: Word, b: Word): Word {
    Pow2Values();
    XorBound(a, b, 32);
    Xor(a, b)
  }

  // ----- shifts, masks and fields -----

  /** The right shift `x >> k`. */
  function Shr(x: nat, k: nat): (y: nat)
    ensures y <= x
  {
    DivAtMost(x, Pow2(k));
    x / Pow2(k)
  }

  lemma DivAtMost(x: nat, p: nat)
    requires p >= 1
    ensures 0 <= x / p <= x
  {
    if x / p > x { MulAtLeast(x / p - x, p); }
  }

  /** Bit i of a right shift. */
  lemma {:induction false} ShrBit(x: nat, k: nat, i: nat)
    ensures Bit(Shr(x, k), i) == Bit(x, k + i)
    decreases k
  {
    if k > 0 {
      ShrBit(x / 2, k - 1, i);
      DivDiv(x, Pow2(k - 1));
    }
  }

  lemma DivDiv(x: nat, p: nat)
    requires p > 0
    ensures x / (2 * p) == (x / 2) / p
  {
    var q, r := (x / 2) / p, (x / 2) % p;
    assert x / 2 == q * p + r;
    var s := 2 * r + x % 2;
    assert x == q * (2 * p) + s by {
      assert q * (2 * p) == 2 * (q * p);
    }
    assert 0 <= s < 2 * p;
    DivUnique(x, 2 * p, q, s);
  }

  lemma DivUnique(x: int, d: int, q: int, r: int)
    requires d > 0 && 0 <= r < d && x == q * d + r
    ensures x / d == q && x % d == r
  {
    var q', r' := x / d, x % d;
    assert (q - q') * d == r' - r by {
      assert x == q' * d + r';
      assert (q - q') * d == q * d - q' * d;
    }
    if q > q' {
      MulAtLeast(q - q', d);
    } else if q < q' {
      MulAtLeast(q' - q, d);
    }
  }

  lemma MulAtLeast(a: int, d: int)
    requires a >= 1 && d > 0
    ensures a * d >= d
  {
    assert a * d == (a - 1) * d + d;
    assert (a - 1) * d >= 0;
  }

  /** A bit is a binary digit. */
  lemma BitIsDigit(x: nat, k: nat)
    ensures Bit(x, k) <==> x / Pow2(k) % 2 == 1
  {
    ShrBit(x, k, 0);
    assert Bit(Shr(x, k), 0) == (Shr(x, k) % 2 == 1);
  }

  /** Bit i of a left shift. */
  lemma {:induction false} ShlBit(x: nat, k: nat, i: nat)
    ensures Bit(x * Pow2(k), i) <==> k <= i && Bit(x, i - k)
    decreases k
  {
    if k == 0 {
    } else {
      var h := x * Pow2(k - 1);
      assert x * Pow2(k) == 2 * h;
      if i > 0 { ShlBit(x, k - 1, i - 1); }
    }
  }

  /** Bit i of the low n bits. */
  lemma {:induction false} ModBit(x: nat, n: nat, i: nat)
    ensures Bit(x % Pow2(n), i) <==> i < n && Bit(x, i)
    decreases n
  {
    if n == 0 {
      BitOfZero(i);
    } else {
      ModHalf(x, Pow2(n - 1));
      if i > 0 { ModBit(x / 2, n - 1, i - 1); }
    }
  }

  lemma ModHalf(x: nat, p: nat)
    requires p > 0
    ensures x % (2 * p) == 2 * ((x / 2) % p) + x % 2
  {
    var q, r := (x / 2) / p, (x / 2) % p;
    assert x / 2 == q * p + r;
    assert q * (2 * p) == 2 * (q * p);
    DivUnique(x, 2 * p, q, 2 * r + x % 2);
  }

  /** Bit i of the mask 2^n - 1. */
  lemma {:induction false} OnesBit(n: nat, i: nat)
    ensures Bit(Pow2(n) - 1, i) <==> i < n
  {
    if n == 0 {
      BitOfZero(i);
    } else if i > 0 {
      assert Pow2(n) - 1 == 2 * (Pow2(n - 1) - 1) + 1;
      OnesBit(n - 1, i - 1);
    } else {
      assert Pow2(n) - 1 == 2 * (Pow2(n - 1) - 1) + 1;
    }
  }

  /** Masking with 2^n - 1 keeps the value modulo 2^n. */
  lemma AndOnes(x: nat, n: nat)
    ensures And(x, Pow2(n) - 1) == x % Pow2(n)
  {
    var m := Pow2(n) - 1;
    AndBound(x, m);
    forall i: nat | i < n ensures Bit(And(x, m), i) == Bit(x % Pow2(n), i) {
      AndBit(x, m, i);
      OnesBit(n, i);
      ModBit(x, n, i);
    }
    BitsDetermine(And(x, m), x % Pow2(n), n);
  }

  /** `len` bits of w starting at bit `pos`. */
  function Field(w: nat, pos: nat, len: nat): (f: nat)
    ensures f < Pow2(len)
  {
    Shr(w, pos) % Pow2(len)
  }

  lemma FieldBit(w: nat, pos: nat, len: nat, i: nat)
    ensures Bit(Field(w, pos, len), i) <==> i < len && Bit(w, pos + i)
  {
    hide Bit, Shr, Pow2;
    ModBit(Shr(w, pos), len, i);
    ShrBit(w, pos, i);
  }
}

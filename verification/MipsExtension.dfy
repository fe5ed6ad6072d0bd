/** Sign extension from 32 to 64 bits and the operations of the MIPS cores. */
module MipsExtension {
  import opened Arithmetic
  import opened MipsWords

  // ----------------------------------------------------------------------
  // Words
  // ----------------------------------------------------------------------

  lemma LowOfWord(v: Word32)
    ensures Low(Word(v)) == v
  {
  }

  /** Signs and orders survive sign extension. */
  lemma WordOrder(a: Word32, b: Word32)
    ensures Signed64(Word(a)) == Signed32(a)
    ensures (Word(a) < Word(b)) == (a < b) && (Word(a) == Word(b)) == (a == b)
  {
  }

  lemma WordOfNumber(v: int)
    requires -W31 <= v < W31
    ensures Low64(v) == Word(Low(v)) && Signed32(Low(v)) == v
  {
  }

  /** Sign extension adds a multiple of 2^32. */
  lemma WordParts(v: Word32) returns (k: nat)
    ensures Word(v) == v + k * W32 && k < W32
  {
    k := if v < W31 then 0 else W32 - 1;
  }

  lemma WordNot(a: Word32)
    ensures Not64(Word(a)) == Word(Not32(a)) && Low(Not64(Word(a))) == Not32(a)
  {
  }

  lemma WordProduct(a: Word32, b: Word32)
    ensures Low(Word(a) * Word(b)) == Low(a * b)
  {
    var i := WordParts(a);
    var j := WordParts(b);
    MulCongruent(a, i, b, j, W32);
  }

  // --- Bitwise operations ------------------------------------------------------

  lemma Pow2Step(n: nat)
    requires n > 0
    ensures Pow2(n) == 2 * Pow2(n - 1)
  {
  }

  lemma Doubled(x: int, p: int)
    ensures x * (2 * p) == 2 * (x * p)
  {
  }

  lemma Regrouped(k: int, q: int, p: int)
    ensures k * (q * p) == (k * q) * p
  {
  }

  lemma HalfOf(h: int, a: nat)
    ensures (2 * h + a) / 2 == h + a / 2 && (2 * h + a) % 2 == a % 2
  {
  }

  lemma SameBit(op: Bitwise, a: nat, b: nat, c: nat, d: nat)
    requires a % 2 == c % 2 && b % 2 == d % 2
    ensures OneBit(op, a, b) == OneBit(op, c, d)
  {
  }

  /** High and low parts of the operands do not mix. */
  lemma {:induction false} BitsSplit(op: Bitwise, a: nat, b: nat, x: nat, y: nat, n: nat)
    requires a < Pow2(n) && b < Pow2(n)
    ensures Bits(op, x * Pow2(n) + a, y * Pow2(n) + b) == Bits(op, x, y) * Pow2(n) + Bits(op, a, b)
  {
    if n > 0 {
      hide Bits, OneBit, Pow2;
      Pow2Step(n);
      var p := Pow2(n - 1);
      Doubled(x, p);
      Doubled(y, p);
      Doubled(Bits(op, x, y), p);
      var h, g := x * p, y * p;
      HalfOf(h, a);
      HalfOf(g, b);
      BitsSplit(op, a / 2, b / 2, x, y, n - 1);
      BitsStep(op, 2 * h + a, 2 * g + b);
      BitsStep(op, a, b);
      SameBit(op, a, b, 2 * h + a, 2 * g + b);
      var high, low := Bits(op, x, y) * p, Bits(op, a / 2, b / 2);
      assert Bits(op, 2 * h + a, 2 * g + b) == OneBit(op, a, b) + 2 * (high + low);
      assert x * Pow2(n) == 2 * h && y * Pow2(n) == 2 * g && Bits(op, x, y) * Pow2(n) == 2 * high;
    } else {
      hide Bits;
      assert Pow2(n) == 1;
      BitsOfOnes(op, 0);
    }
  }

  lemma BitsStep(op: Bitwise, a: nat, b: nat)
    ensures Bits(op, a, b) == OneBit(op, a, b) + 2 * Bits(op, a / 2, b / 2)
  {
  }

  lemma HalfOfOnes(n: nat)
    requires n > 0
    ensures (Pow2(n) - 1) / 2 == Pow2(n - 1) - 1 && (Pow2(n) - 1) % 2 == 1
  {
    ModuloUnique(Pow2(n) - 1, Pow2(n - 1) - 1, 1, 2);
  }

  /** Words of ones and zeros. */
  lemma {:induction false} BitsOfOnes(op: Bitwise, n: nat)
    ensures Bits(op, Pow2(n) - 1, Pow2(n) - 1) == if op.Xor? then 0 else Pow2(n) - 1
    ensures Bits(op, Pow2(n) - 1, 0) == Bits(op, 0, Pow2(n) - 1) == if op.And? then 0 else Pow2(n) - 1
    ensures Bits(op, 0, 0) == 0 && Pow2(0) == 1
  {
    if n > 0 {
      hide Bits, Pow2;
      BitsOfOnes(op, n - 1);
      var v: nat := Pow2(n) - 1;
      HalfOfOnes(n);
      Pow2Step(n);
      BitsStep(op, v, v);
      BitsStep(op, v, 0);
      BitsStep(op, 0, v);
    }
  }

  /** The high part of a sign-extended word: 32 equal bits. */
  function HighPart(v: Word32): nat {
    if v < W31 then 0 else W32 - 1
  }

  lemma TopBit(op: Bitwise, a: Word32, b: Word32)
    ensures Bits(op, a, b) >= W31 <==> OneBit(op, Bit(a >= W31), Bit(b >= W31)) == 1
  {
    hide Pow2, Bits, OneBit;
    Pow2Words();
    Pow2Step(32);
    var x, y := Bit(a >= W31), Bit(b >= W31);
    BitsBound(op, a - x * W31, b - y * W31, 31);
    BitsSplit(op, a - x * W31, b - y * W31, x, y, 31);
    BitsStep(op, x, y);
    BitsOfOnes(op, 0);
  }

  lemma SignOfBits(op: Bitwise, a: Word32, b: Word32)
    ensures Bits(op, HighPart(a), HighPart(b)) == HighPart(Bits32(op, a, b))
  {
    hide Pow2, Bits;
    Pow2Words();
    BitsOfOnes(op, 32);
    TopBit(op, a, b);
  }

  lemma WordOfHigh(v: Word32)
    ensures Word(v) == HighPart(v) * W32 + v
  {
  }

  lemma WordBits(op: Bitwise, a: Word32, b: Word32)
    ensures Bits64(op, Word(a), Word(b)) == Word(Bits32(op, a, b))
  {
    hide Bits, HighPart, Word, Pow2;
    Pow2Words();
    WordOfHigh(a);
    WordOfHigh(b);
    BitsSplit(op, a, b, HighPart(a), HighPart(b), 32);
    SignOfBits(op, a, b);
    WordOfHigh(Bits32(op, a, b));
  }

  // --- Shifts and fields -------------------------------------------------------

  lemma PowWithin(n: nat)
    requires n <= 32
    ensures Pow2(n) * Pow2(32 - n) == W32
  {
    Pow2Words();
    Pow2Sum(n, 32 - n);
  }

  /** Multiples of 2^32 shifted down. */
  lemma DownOfSum(v: nat, k: nat, n: nat)
    requires n <= 32
    ensures Down(v + k * W32, n) == Down(v, n) + k * Pow2(32 - n)
  {
    hide Pow2;
    var p, q := Pow2(n), Pow2(32 - n);
    PowWithin(n);
    NaturalQuotient(v, p);
    Regrouped(k, q, p);
    assert v + k * W32 == (v / p + k * q) * p + v % p;
    ModuloUnique(v + k * W32, v / p + k * q, v % p, p);
  }

  lemma LowBitsOfSum(v: nat, k: nat, n: nat)
    requires n <= 32
    ensures LowBits(v + k * W32, n) == LowBits(v, n)
  {
    hide Pow2;
    PowWithin(n);
    Regrouped(k, Pow2(32 - n), Pow2(n));
    ModuloOf(v, k * Pow2(32 - n), Pow2(n));
  }

  lemma FieldOfSum(v: nat, k: nat, position: nat, bits: nat)
    requires position + bits <= 32
    ensures Field(v + k * W32, position, bits) == Field(v, position, bits)
  {
    hide Pow2, Down;
    DownOfSum(v, k, position);
    var q := Pow2(32 - position - bits);
    Pow2Sum(32 - position - bits, bits);
    Regrouped(k, q, Pow2(bits));
    ModuloOf(Down(v, position), k * q, Pow2(bits));
  }

  lemma UpOfSum(v: nat, k: nat, n: nat)
    requires n <= 32
    ensures Up(v + k * Pow2(32 - n), n) == Up(v, n) + k * W32
  {
    hide Pow2;
    var p, q := Pow2(n), Pow2(32 - n);
    PowWithin(n);
    Regrouped(k, q, p);
    assert (v + k * q) * p == v * p + (k * q) * p;
  }

  lemma WithFieldOfSum(v: nat, k: nat, position: nat, bits: nat, field: nat, j: nat)
    requires position + bits <= 32
    ensures Low(WithField(v + k * W32, position, bits, field + j * W32)) == Low(WithField(v, position, bits, field))
  {
    hide Pow2, Down, Up, LowBits;
    var n := position + bits;
    DownOfSum(v, k, n);
    UpOfSum(Down(v, n), k, n);
    LowBitsOfSum(v, k, position);
    LowBitsOfSum(field, j, bits);
    ModuloOf(WithField(v, position, bits, field), k, W32);
  }

  /** An arithmetic shift of the sign-extended word, cut to a word. */
  lemma WordSar(v: Word32, n: nat)
    requires n < 32
    ensures Low(ShiftSigned64(Word(v), n)) == ShiftSigned32(v, n)
  {
    hide Pow2, Down;
    assert n % 32 == n && n % 64 == n;
    DownZero(v);
    DownZero(Word(v));
    if v >= W31 && n > 0 {
      NegativeSar(v, n);
    }
  }

  lemma DownZero(v: nat)
    ensures Down(v, 0) == v
  {
    assert Pow2(0) == 1;
  }

  lemma NegativeSar(v: Word32, n: nat)
    requires 0 < n < 32 && v >= W31
    ensures Low(Low64(Down(Word(v), n) + (W64 - Pow2(64 - n)))) == Low(Down(v, n) + (W32 - Pow2(32 - n)))
  {
    hide Pow2, Down, Low, Low64;
    var q := Pow2(32 - n);
    DownOfSum(v, W32 - 1, n);
    assert Word(v) == v + (W32 - 1) * W32;
    Pow2Sum(32, 32 - n);
    Pow2Words();
    assert Pow2(64 - n) == W32 * q;
    assert (W32 - 1) * q == W32 * q - q;
    LowOfMany(Down(v, n) + (W32 - q), W32 - 1);
  }

  lemma LowOfMany(v: int, k: nat)
    ensures Low(Low64(v + k * W32)) == Low(v)
  {
    ModuloOf(v, k, W32);
    ReduceTwice(v + k * W32, W32, W32);
  }

  // --- Counting zeros ------------------------------------------------------------

  lemma {:induction false} ZerosAgree(v: Word64, left: nat)
    ensures LeadingZeros64(v, W31, left) == LeadingZeros32(Low(v), left)
    decreases left
  {
    hide Low, Low64, HasBit;
    BitThirtyOne(v);
    if left > 0 && Low(v) < W31 {
      DoubledLow(v);
      ZerosAgree(Low64(2 * v), left - 1);
    }
  }

  lemma DoubledLow(v: Word64)
    ensures Low(Low64(2 * v)) == Low(2 * Low(v))
  {
    ReduceTwice(2 * v, W32, W32);
    NaturalQuotient(v, W32);
    ModuloOf(2 * (v % W32), 2 * (v / W32), W32);
  }

  lemma BitThirtyOne(v: Word64)
    ensures HasBit(v, W31) == (Low(v) >= W31)
  {
    var high, low := v / W32, v % W32;
    var top := if low >= W31 then 1 else 0;
    NaturalQuotient(v, W32);
    ModuloUnique(v, 2 * high + top, low - top * W31, W31);
    ModuloOf(top, high, 2);
  }
}

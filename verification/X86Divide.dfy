/**
  Unsigned and signed division of the x86 core: the restoring division of a
  128-bit dividend (xxemul_x86_divide_u128, src/xxemul_x86.c, lines 1371-1386)
  and the DIV and IDIV cases around it (lines 3791-3885).
*/
module X86Divide {
  import opened Arithmetic
  import opened Wrappers

  const TWO_63 := 0x8000_0000_0000_0000
  const TWO_64 := 0x1_0000_0000_0000_0000
  const TWO_128 := 0x1_0000_0000_0000_0000_0000_0000_0000_0000

  /** Two's complement negation of a 64-bit word. */
  function Negated(word: nat): (r: nat)
    requires word < TWO_64
    ensures r < TWO_64
  {
    if word == 0 then 0 else TWO_64 - word
  }

  function Complement(word: nat): (r: nat)
    requires word < TWO_64
    ensures r < TWO_64
  {
    TWO_64 - 1 - word
  }

  /**
    Before each turn, with weight two to the number of bits still to come: the
    quotient so far, the remainder so far, and those bits of the dividend.
  */
  predicate Divided(total: nat, low: nat, divisor: nat, weight: nat, quotient: nat, remainder: nat)
    requires weight > 0
  {
    && remainder < divisor
    && quotient % weight == 0
    && quotient + weight <= TWO_64
    && quotient * divisor + remainder * weight + low % weight == total
  }

  /** The next bit joins the remainder, which then takes the divisor if it can. */
  function RestoreBit(remainder: nat, bit: nat, divisor: nat): (r: (nat, nat))
    requires remainder < divisor < TWO_64 && bit <= 1
    ensures r.0 == if 2 * remainder + bit >= divisor then 1 else 0
    ensures r.1 == 2 * remainder + bit - (if r.0 == 1 then divisor else 0)
  {
    var carry := remainder / TWO_63;
    var shifted := (2 * remainder) % TWO_64 + bit;
    if carry != 0 || shifted >= divisor then (1, (shifted - divisor) % TWO_64) else (0, shifted)
  }

  lemma RestoringStep(total: nat, low: nat, divisor: nat, h: nat, quotient: nat, remainder: nat, take: nat, left: nat)
    requires h > 0 && take <= 1 && Divided(total, low, divisor, 2 * h, quotient, remainder)
    requires left == 2 * remainder + (low / h) % 2 - (if take == 1 then divisor else 0) && left < divisor
    ensures Divided(total, low, divisor, h, quotient + take * h, left)
  {
    var bit := (low / h) % 2;
    BitSplit(low, h);
    ProductsOfStep(quotient, divisor, remainder, h, bit, low % h, take);
    StillMultiple(quotient, h, take);
    assert left == 2 * remainder + bit - take * divisor;
  }

  lemma StillMultiple(q: nat, h: nat, take: nat)
    requires h > 0 && q % (2 * h) == 0
    ensures (q + take * h) % h == 0
  {
    var k := q / (2 * h);
    assert q == k * (2 * h);
    assert q + take * h == (2 * k + take) * h + 0;
    ModuloUnique(q + take * h, 2 * k + take, 0, h);
  }

  lemma ProductsOfStep(q: int, d: int, r: int, h: int, bit: int, rest: int, take: int)
    ensures q * d + r * (2 * h) + (bit * h + rest)
            == (q + take * h) * d + (2 * r + bit - take * d) * h + rest
  {
    assert (2 * r + bit - take * d) * h == (2 * r) * h + bit * h - (take * d) * h;
    assert (take * d) * h == (take * h) * d;
    assert (2 * r) * h == r * (2 * h);
    assert (q + take * h) * d == q * d + (take * h) * d;
  }

  /**
    One bit a turn.  The bit that the original ORs into the quotient is clear
    there (the quotient is a multiple of twice its weight), so it is added.
  */
  method DivideU128(high: nat, low: nat, divisor: nat) returns (ok: bool, quotient: nat, remainder: nat)
    requires high < TWO_64 && low < TWO_64 && divisor < TWO_64
    ensures ok <==> high < divisor
    ensures ok ==> quotient < TWO_64 && remainder < divisor
    ensures ok ==> quotient * divisor + remainder == high * TWO_64 + low
  {
    if divisor == 0 || high >= divisor {
      return false, 0, 0;
    }
    hide Divided, Pow2;
    quotient, remainder := 0, high;
    ghost var total := high * TWO_64 + low;
    var bit := 64;
    Pow2Words();
    NothingDivided(high, low, divisor);
    while bit != 0
      invariant 0 <= bit <= 64
      invariant Divided(total, low, divisor, Pow2(bit), quotient, remainder)
      decreases bit
    {
      var weight := Pow2(bit - 1);
      PowerStep(bit);
      StillBelow(total, low, divisor, Pow2(bit), quotient, remainder);
      var (take, left) := RestoreBit(remainder, (low / weight) % 2, divisor);
      RestoringStep(total, low, divisor, weight, quotient, remainder, take, left);
      quotient, remainder, bit := quotient + take * weight, left, bit - 1;
    }
    AllDivided(total, low, divisor, quotient, remainder);
    ok := true;
  }

  lemma NothingDivided(high: nat, low: nat, divisor: nat)
    requires low < TWO_64 && high < divisor
    ensures Divided(high * TWO_64 + low, low, divisor, TWO_64, 0, high)
  {
  }

  lemma StillBelow(total: nat, low: nat, divisor: nat, weight: nat, quotient: nat, remainder: nat)
    requires weight > 0 && Divided(total, low, divisor, weight, quotient, remainder)
    ensures remainder < divisor
  {
  }

  lemma PowerStep(n: nat)
    requires n > 0
    ensures Pow2(n) == 2 * Pow2(n - 1) && Pow2(0) == 1
  {
  }

  lemma AllDivided(total: nat, low: nat, divisor: nat, quotient: nat, remainder: nat)
    requires Divided(total, low, divisor, Pow2(0), quotient, remainder)
    ensures quotient < TWO_64 && remainder < divisor && quotient * divisor + remainder == total
  {
    assert Pow2(0) == 1;
  }

  // ----------------------------------------------------------------------
  // DIV and IDIV
  // ----------------------------------------------------------------------

  type Size = n: nat | n == 1 || n == 2 || n == 4 || n == 8 witness 1

  function Base(size: Size): (b: nat)
    ensures b == 0x100 || b == 0x1_0000 || b == 0x1_0000_0000 || b == TWO_64
  {
    if size == 1 then 0x100 else if size == 2 then 0x1_0000 else if size == 4 then 0x1_0000_0000 else TWO_64
  }

  /** The low word of a register. */
  function Part(size: Size, a: int): (r: nat)
    ensures r < Base(size)
  {
    if size == 1 then a % 0x100 else if size == 2 then a % 0x1_0000 else if size == 4 then a % 0x1_0000_0000 else a % TWO_64
  }

  /** The number a word of some modulus stands for. */
  function Value(signed: bool, modulus: nat, word: nat): int {
    if signed && word >= modulus / 2 then word - modulus else word
  }

  /** The dividend: AX for bytes, otherwise the register pair. */
  function DividendWord(size: Size, rax: nat, rdx: nat): nat {
    if size == 1 then rax % 0x1_0000
    else if size == 2 then (rdx % 0x1_0000) * 0x1_0000 + rax % 0x1_0000
    else if size == 4 then (rdx % 0x1_0000_0000) * 0x1_0000_0000 + rax % 0x1_0000_0000
    else (rdx % TWO_64) * TWO_64 + rax % TWO_64
  }

  function DividendBase(size: Size): nat {
    if size == 1 then 0x1_0000 else if size == 2 then 0x1_0000_0000 else if size == 4 then TWO_64 else TWO_128
  }

  predicate QuotientFits(signed: bool, base: nat, q: int) {
    if signed then -(base / 2) <= q < base / 2 else 0 <= q < base
  }

  /** r is the quotient and remainder towards zero, as words, if the quotient fits one. */
  predicate IsDivision(signed: bool, base: nat, a: int, b: int, r: Option<(nat, nat)>)
    requires b != 0
  {
    && (r.Some? <==> QuotientFits(signed, base, Quotient(a, b)))
    && (r.Some? ==>
          && r.value.0 < base && r.value.1 < base
          && Value(signed, base, r.value.0) == Quotient(a, b)
          && Value(signed, base, r.value.1) == Remainder(a, b))
  }

  /**
    The DIV and IDIV instructions of every operand size: the quotient and
    remainder words, or None for a divide error.
  */
  method Divide(signed: bool, size: Size, rax: nat, rdx: nat, operand: nat) returns (r: Option<(nat, nat)>)
    requires rax < TWO_64 && rdx < TWO_64 && operand < TWO_64
    ensures var dividend := Value(signed, DividendBase(size), DividendWord(size, rax, rdx));
            var divisor := Value(signed, Base(size), Part(size, operand));
            if divisor == 0 then r == None else IsDivision(signed, Base(size), dividend, divisor, r)
  {
    if Part(size, operand) == 0 {
      return None;
    }
    if size == 8 {
      assert DividendWord(size, rax, rdx) == rdx * TWO_64 + rax && Part(size, operand) == operand;
      if signed {
        r := DivideSigned128(rdx, rax, operand);
      } else {
        r := DivideUnsigned128(rdx, rax, operand);
      }
    } else {
      r := DivideNarrow(signed, size, rax, rdx, operand);
    }
  }

  method DivideUnsigned128(high: nat, low: nat, divisor: nat) returns (r: Option<(nat, nat)>)
    requires high < TWO_64 && low < TWO_64 && 0 < divisor < TWO_64
    ensures IsDivision(false, TWO_64, high * TWO_64 + low, divisor, r)
  {
    var ok, quotient, remainder := DivideU128(high, low, divisor);
    if !ok {
      LargeQuotient(high, low, divisor);
      return None;
    }
    DivisionUnique(high * TWO_64 + low, divisor, quotient, remainder);
    return Some((quotient, remainder));
  }

  lemma LargeQuotient(high: nat, low: nat, divisor: nat)
    requires 0 < divisor <= high
    ensures (high * TWO_64 + low) / divisor >= TWO_64
  {
    var total := high * TWO_64 + low;
    NaturalQuotient(total, divisor);
    var q := total / divisor;
    assert TWO_64 * divisor <= total;
    MultipleApart(TWO_64 - q, divisor);
    assert (TWO_64 - q) * divisor == TWO_64 * divisor - q * divisor;
  }

  /** The magnitude of a two's complement double word. */
  method MagnitudeWords(rdx: nat, rax: nat) returns (high: nat, low: nat)
    requires rax < TWO_64 && rdx < TWO_64
    ensures high < TWO_64 && low < TWO_64
    ensures high * TWO_64 + low == Magnitude(Value(true, TWO_128, rdx * TWO_64 + rax))
  {
    high, low := rdx, rax;
    if high / TWO_63 == 1 {
      low := Negated(low);
      high := (Complement(high) + if low == 0 then 1 else 0) % TWO_64;
    }
  }

  /** A quotient towards zero has the magnitude of the magnitudes' quotient. */
  lemma SignsOfDivision(a: int, b: int)
    requires b != 0
    ensures Magnitude(Quotient(a, b)) == Magnitude(a) / Magnitude(b)
  {
    NaturalQuotient(Magnitude(a), Magnitude(b));
  }

  /** IDIV r/m64: divide the magnitudes, then check the quotient and restore the signs. */
  method DivideSigned128(rdx: nat, rax: nat, operand: nat) returns (r: Option<(nat, nat)>)
    requires rax < TWO_64 && rdx < TWO_64 && 0 < operand < TWO_64
    ensures var dividend := Value(true, TWO_128, rdx * TWO_64 + rax);
            var divisor := Value(true, TWO_64, operand);
            IsDivision(true, TWO_64, dividend, divisor, r)
  {
    var high, low := MagnitudeWords(rdx, rax);
    var divisor := if operand / TWO_63 == 1 then Negated(operand) else operand;
    var negativeDividend := rdx / TWO_63 == 1;
    var negativeDivisor := operand / TWO_63 == 1;
    ghost var a, b := Value(true, TWO_128, rdx * TWO_64 + rax), Value(true, TWO_64, operand);
    var ok, quotient, remainder := DivideU128(high, low, divisor);
    if !ok {
      LargeQuotient(high, low, divisor);
      SignsOfDivision(a, b);
      return None;
    }
    DivisionUnique(Magnitude(a), b, quotient, remainder);
    var limit := if negativeDividend != negativeDivisor then TWO_63 else TWO_63 - 1;
    if quotient > limit {
      return None;
    }
    if negativeDividend != negativeDivisor {
      quotient := Negated(quotient);
    }
    if negativeDividend {
      remainder := Negated(remainder);
    }
    return Some((quotient, remainder));
  }

  lemma RemainderSmall(a: int, b: int, limit: int)
    requires b != 0 && Magnitude(b) <= limit
    ensures -limit < Remainder(a, b) < limit
  {
    NaturalQuotient(Magnitude(a), Magnitude(b));
  }

  lemma PartOfSigned(size: Size, v: int)
    requires -(Base(size) / 2) <= v < Base(size) / 2
    ensures Value(true, Base(size), Part(size, v)) == v
  {
  }

  /** 8, 16 and 32 bit operands fit the host's 64-bit division. */
  method DivideNarrow(signed: bool, size: Size, rax: nat, rdx: nat, operand: nat) returns (r: Option<(nat, nat)>)
    requires size != 8 && Part(size, operand) != 0
    ensures var dividend := Value(signed, DividendBase(size), DividendWord(size, rax, rdx));
            var divisor := Value(signed, Base(size), Part(size, operand));
            IsDivision(signed, Base(size), dividend, divisor, r)
  {
    var dividend := Value(signed, DividendBase(size), DividendWord(size, rax, rdx));
    var divisor := Value(signed, Base(size), Part(size, operand));
    if signed {
      var limit := Base(size) / 2;
      if dividend == -TWO_63 && divisor == -1 {
        return None;
      }
      var quotient := Quotient(dividend, divisor);
      if quotient < -limit || quotient >= limit {
        return None;
      }
      RemainderSmall(dividend, divisor, limit);
      PartOfSigned(size, quotient);
      PartOfSigned(size, Remainder(dividend, divisor));
      return Some((Part(size, quotient), Part(size, Remainder(dividend, divisor))));
    }
    NaturalQuotient(dividend, divisor);
    var quotient := dividend / divisor;
    if quotient > Base(size) - 1 {
      return None;
    }
    return Some((quotient, dividend % divisor));
  }
}

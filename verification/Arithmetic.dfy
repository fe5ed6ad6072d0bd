/** Non-linear facts about products, quotients and remainders. */
module Arithmetic {

  lemma MultipleApart(d: int, m: int)
    requires m > 0
    ensures d >= 1 ==> d * m >= m
    ensures d <= -1 ==> d * m <= -m
  {
    if d >= 1 {
      assert (d - 1) * m >= 0;
    } else if d <= -1 {
      assert (-d - 1) * m >= 0;
    }
  }

  lemma ModuloUnique(a: int, q: int, r: int, m: int)
    requires m > 0 && a == q * m + r && 0 <= r < m
    ensures a % m == r && a / m == q
  {
    var d := a / m - q;
    assert d * m == r - a % m;
    MultipleApart(d, m);
  }

  lemma ModuloOf(a: int, k: int, m: int)
    requires m > 0
    ensures (a + k * m) % m == a % m
  {
    var q := a / m;
    assert a + k * m == (q + k) * m + a % m;
    ModuloUnique(a + k * m, q + k, a % m, m);
  }

  /** Reducing modulo a multiple first does not matter. */
  lemma ReduceTwice(a: int, k: int, m: int)
    requires k > 0 && m > 0 && k * m > 0
    ensures a % (k * m) % m == a % m
  {
    var q := a / (k * m);
    assert a == a % (k * m) + (q * k) * m;
    ModuloOf(a % (k * m), q * k, m);
  }

  /** Factors may be replaced by congruent ones. */
  lemma MulCongruent(a: int, i: int, b: int, j: int, m: int)
    requires m > 0
    ensures ((a + i * m) * (b + j * m)) % m == (a * b) % m
  {
    var t := b + j * m;
    assert (a + i * m) * t == a * t + (i * t) * m;
    ModuloOf(a * t, i * t, m);
    assert a * t == a * b + (a * j) * m;
    ModuloOf(a * b, a * j, m);
  }

  /** For positive divisors, a > m / b exactly when a * b > m. */
  lemma ExceedsQuotient(m: int, a: int, b: int)
    requires m >= 0 && b > 0
    ensures a > m / b <==> a * b > m
  {
    var q := m / b;
    assert m == q * b + m % b;
    MultipleApart(a - q, b);
    assert a * b == q * b + (a - q) * b;
    if a <= q {
      assert (q - a) * b >= 0;
    }
  }

  lemma SignOfProduct(a: int, b: int)
    requires a > 0 && b > 0
    ensures a * b > 0 && (-a) * b == -(a * b) && a * (-b) == -(a * b) && (-a) * (-b) == a * b
  {
  }

  lemma Negations(a: int, b: int)
    ensures -a * b == -(a * b) && a * -b == -(a * b) && -a * -b == a * b
  {
  }

  lemma ProductAtLeast(q: int, b: int)
    requires q >= 0 && b > 0
    ensures q * b >= q
    ensures b > 1 ==> q * b >= 2 * q
  {
    assert q * (b - 1) >= 0;
    if b > 1 {
      assert q * (b - 2) >= 0;
    }
  }

  lemma NaturalQuotient(a: int, b: int)
    requires a >= 0 && b > 0
    ensures a == (a / b) * b + a % b && 0 <= a % b < b && 0 <= a / b <= a && a % b <= a
    ensures b > 1 && a > 0 ==> a / b < a
  {
    assert a / b >= 0;
    ProductAtLeast(a / b, b);
  }

  // ----------------------------------------------------------------------
  // Division towards zero
  // ----------------------------------------------------------------------

  /** The integer division of C: towards zero. */
  function Quotient(a: int, b: int): int
    requires b != 0
  {
    if a >= 0 then (if b > 0 then a / b else -(a / -b))
    else if b > 0 then -(-a / b) else -a / -b
  }

  /** The remainder of C takes the sign of the dividend. */
  function Remainder(a: int, b: int): int
    requires b != 0
  {
    if a >= 0 then a % Magnitude(b) else -(-a % Magnitude(b))
  }

  function Magnitude(a: int): (m: int)
    ensures m >= 0
  {
    if a < 0 then -a else a
  }

  lemma QuotientAndRemainder(sx: int, sy: int)
    requires sy != 0
    ensures sx == Quotient(sx, sy) * sy + Remainder(sx, sy)
  {
    var a, b := Magnitude(sx), Magnitude(sy);
    NaturalQuotient(a, b);
    Negations(a / b, b);
    var q := a / b;
    if sx >= 0 && sy < 0 {
      assert Quotient(sx, sy) * sy == -q * -b;
    } else if sx < 0 && sy > 0 {
      assert Quotient(sx, sy) * sy == -q * b;
    } else if sx < 0 {
      assert Quotient(sx, sy) * sy == q * -b;
    }
  }

  /** Quotient and remainder are the only ones with a small remainder of the dividend's sign. */
  lemma DivisionUnique(a: int, b: int, q: int, r: int)
    requires b != 0 && a >= 0 && q >= 0 && a == q * Magnitude(b) + r && 0 <= r < Magnitude(b)
    ensures Quotient(a, b) == (if b > 0 then q else -q) && Remainder(a, b) == r
    ensures Quotient(-a, b) == (if b > 0 then -q else q) && Remainder(-a, b) == -r
  {
    ModuloUnique(a, q, r, Magnitude(b));
  }

  function Pow2(n: nat): (p: nat)
    ensures p > 0
  {
    if n == 0 then 1 else 2 * Pow2(n - 1)
  }

  /** The low bits of a number, split at one bit. */
  lemma BitSplit(a: nat, h: nat)
    requires h > 0
    ensures a % (2 * h) == ((a / h) % 2) * h + a % h
  {
    var q, bit := (a / h) / 2, (a / h) % 2;
    assert a == (a / h) * h + a % h;
    assert a / h == 2 * q + bit;
    assert a == q * (2 * h) + (bit * h + a % h);
    assert 0 <= bit * h <= h;
    ModuloUnique(a, q, bit * h + a % h, 2 * h);
  }

  lemma {:induction false} Pow2Sum(m: nat, n: nat)
    ensures Pow2(m + n) == Pow2(m) * Pow2(n)
  {
    if m > 0 {
      Pow2Sum(m - 1, n);
      assert 2 * Pow2(m - 1) * Pow2(n) == 2 * (Pow2(m - 1) * Pow2(n));
    }
  }

  lemma Pow2Words()
    ensures Pow2(8) == 0x100 && Pow2(16) == 0x1_0000 && Pow2(32) == 0x1_0000_0000 && Pow2(64) == 0x1_0000_0000_0000_0000
  {
    assert Pow2(4) == 16;
    Pow2Sum(4, 4);
    Pow2Sum(8, 8);
    Pow2Sum(16, 16);
    Pow2Sum(32, 32);
  }

  /** A multiple of 256 p does not touch the byte at p. */
  lemma MultipleOfByte(v: nat, k: nat, p: nat, q: nat)
    requires p > 0
    ensures (v + k * (p * (0x100 * q))) / p % 0x100 == v / p % 0x100
  {
    NaturalQuotient(v, p);
    Reordered(k, p, q);
    ModuloUnique(v + k * (p * (0x100 * q)), v / p + k * q * 0x100, v % p, p);
    ModuloOf(v / p, k * q, 0x100);
  }

  lemma Reordered(k: int, p: int, q: int)
    ensures k * (p * (0x100 * q)) == (k * q * 0x100) * p
  {
    assert k * (p * (0x100 * q)) == (k * (0x100 * q)) * p;
  }
}

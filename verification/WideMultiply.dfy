/**
  64 by 64 bit products in 32-bit parts: xxemul_x86_multiply_u64
  (src/xxemul_x86.c, lines 1360-1370), xxemul_arm_unsigned_multiply_high and its
  signed correction (src/xxemul_arm.c, lines 1241-1270), and m64_multiply_high
  with DMULT (src/xxemul_mips64.c, lines 66-72 and 138-145).
*/
module WideMultiply {
  import opened Arithmetic

  const HALF := 0x1_0000_0000
  const WORD := 0x1_0000_0000_0000_0000

  /** The largest product of two halves. */
  const MOST := (HALF - 1) * (HALF - 1)

  /** What a uint64_t holds of a sum or product. */
  function Wrap(v: int): (r: nat)
    ensures r < WORD
  {
    v % WORD
  }

  lemma WrapSmall(v: int)
    requires 0 <= v < WORD
    ensures Wrap(v) == v
  {
  }

  lemma Halves(v: nat)
    requires v < WORD
    ensures v == v / HALF * HALF + v % HALF && v / HALF < HALF && v % HALF < HALF
  {
  }

  /** A product of two halves. */
  lemma HalfProduct(a: nat, b: nat)
    requires a < HALF && b < HALF
    ensures 0 <= a * b <= MOST
  {
    ProductOfBounds(a, HALF - 1, b, HALF - 1);
  }

  lemma ProductOfBounds(a: nat, m: nat, b: nat, n: nat)
    requires a <= m && b <= n
    ensures 0 <= a * b <= m * n
  {
    assert a * b <= m * b;
    assert m * b <= m * n;
  }

  lemma ProductOfHalves(ah: nat, al: nat, bh: nat, bl: nat)
    ensures (ah * HALF + al) * (bh * HALF + bl) == ah * bh * WORD + (ah * bl + al * bh) * HALF + al * bl
  {
    assert (ah * HALF + al) * (bh * HALF + bl) == (ah * HALF) * (bh * HALF) + (ah * HALF) * bl + al * (bh * HALF) + al * bl;
    assert (ah * HALF) * (bh * HALF) == ah * bh * WORD;
    assert (ah * HALF) * bl == ah * bl * HALF;
    assert al * (bh * HALF) == al * bh * HALF;
  }

  /** xxemul_arm_unsigned_multiply_high and m64_multiply_high */
  function MultiplyHigh(a: nat, b: nat): (high: nat)
    ensures high < WORD
  {
    var al, ah, bl, bh := a % HALF, a / HALF, b % HALF, b / HALF;
    HighOfParts(al * bl, ah * bl, al * bh, ah * bh)
  }

  /** From the partial products, high times low named hl. */
  function HighOfParts(ll: nat, hl: nat, lh: nat, hh: nat): (high: nat)
    ensures high < WORD
  {
    var middle := Wrap(Wrap(ll) / HALF + Wrap(hl));
    var carry := Wrap(middle % HALF + Wrap(lh));
    Wrap(Wrap(hh) + middle / HALF + carry / HALF)
  }

  /** xxemul_x86_multiply_u64 */
  function Multiply(a: nat, b: nat): (r: (nat, nat))
    ensures r.0 < WORD && r.1 < WORD
  {
    var al, ah, bl, bh := a % HALF, a / HALF, b % HALF, b / HALF;
    BothOfParts(al * bl, ah * bl, al * bh, ah * bh)
  }

  function BothOfParts(ll: nat, hl: nat, lh: nat, hh: nat): (r: (nat, nat))
    ensures r.0 < WORD && r.1 < WORD
  {
    var middle := Wrap(Wrap(ll) / HALF + Wrap(lh) % HALF + Wrap(hl) % HALF);
    (Wrap(Wrap(ll) % HALF + Wrap(middle * HALF)), Wrap(Wrap(hh) + Wrap(lh) / HALF + Wrap(hl) / HALF + middle / HALF))
  }

  lemma Digits(v: nat, k: nat)
    requires v <= k * HALF
    ensures v == v / HALF * HALF + v % HALF && 0 <= v / HALF <= k && v % HALF < HALF
  {
  }

  /** The four partial products of two words. */
  lemma Partials(a: nat, b: nat) returns (ll: nat, hl: nat, lh: nat, hh: nat)
    requires a < WORD && b < WORD
    ensures ll == a % HALF * (b % HALF) && hl == a / HALF * (b % HALF)
    ensures lh == a % HALF * (b / HALF) && hh == a / HALF * (b / HALF)
    ensures ll <= MOST && hl <= MOST && lh <= MOST && hh <= MOST
    ensures a * b == hh * WORD + (hl + lh) * HALF + ll
  {
    var al, ah, bl, bh := a % HALF, a / HALF, b % HALF, b / HALF;
    Halves(a);
    Halves(b);
    HalfProduct(al, bl);
    HalfProduct(ah, bl);
    HalfProduct(al, bh);
    HalfProduct(ah, bh);
    ll, hl, lh, hh := al * bl, ah * bl, al * bh, ah * bh;
    ProductOfHalves(ah, al, bh, bl);
  }

  /** Carrying in the order of the ARM and MIPS code; nothing wraps. */
  lemma CarryHigh(p: nat, ll: nat, hl: nat, lh: nat, hh: nat)
    requires ll <= MOST && hl <= MOST && lh <= MOST && hh <= MOST
    requires p == hh * WORD + (hl + lh) * HALF + ll
    ensures HighOfParts(ll, hl, lh, hh) == p / WORD
  {
    hide Wrap;
    WrapSmall(ll);
    WrapSmall(hl);
    WrapSmall(lh);
    WrapSmall(hh);
    Digits(ll, HALF - 1);
    var middle := ll / HALF + hl;
    WrapSmall(middle);
    Digits(middle, HALF - 1);
    var carry := middle % HALF + lh;
    WrapSmall(carry);
    Digits(carry, HALF - 1);
    var high := hh + middle / HALF + carry / HALF;
    WrapSmall(high);
    ModuloUnique(p, high, carry % HALF * HALF + ll % HALF, WORD);
  }

  /** The high half of the product, exactly. */
  lemma MultiplyHighIsExact(a: nat, b: nat)
    requires a < WORD && b < WORD
    ensures MultiplyHigh(a, b) == a * b / WORD
  {
    hide HighOfParts;
    var ll, hl, lh, hh := Partials(a, b);
    CarryHigh(a * b, ll, hl, lh, hh);
  }

  /** Carrying in the order of the x86 code. */
  lemma CarryBoth(p: nat, ll: nat, hl: nat, lh: nat, hh: nat)
    requires ll <= MOST && hl <= MOST && lh <= MOST && hh <= MOST
    requires p == hh * WORD + (hl + lh) * HALF + ll
    ensures var (low, high) := BothOfParts(ll, hl, lh, hh); high * WORD + low == p
  {
    hide Wrap;
    WrapSmall(ll);
    WrapSmall(hl);
    WrapSmall(lh);
    WrapSmall(hh);
    Digits(ll, HALF - 1);
    Digits(hl, HALF - 1);
    Digits(lh, HALF - 1);
    var middle := ll / HALF + lh % HALF + hl % HALF;
    WrapSmall(middle);
    Digits(middle, 3);
    ShiftedUp(middle);
    var high := hh + lh / HALF + hl / HALF + middle / HALF;
    var low := ll % HALF + middle % HALF * HALF;
    WrapSmall(low);
    assert high * WORD + low == p;
    assert p < WORD * WORD;
    assert high < WORD;
    WrapSmall(high);
  }

  lemma ShiftedUp(v: nat)
    requires v == v / HALF * HALF + v % HALF && v % HALF < HALF
    ensures Wrap(v * HALF) == v % HALF * HALF
  {
    ModuloUnique(v * HALF, v / HALF, v % HALF * HALF, WORD);
  }

  /** Both halves of the product, exactly. */
  lemma MultiplyIsExact(a: nat, b: nat)
    requires a < WORD && b < WORD
    ensures var (low, high) := Multiply(a, b); high * WORD + low == a * b
  {
    hide BothOfParts;
    var ll, hl, lh, hh := Partials(a, b);
    CarryBoth(a * b, ll, hl, lh, hh);
  }

  // ----------------------------------------------------------------------
  // The signed correction
  // ----------------------------------------------------------------------

  /** A word as two's complement. */
  function Signed(v: nat): int {
    if v < WORD / 2 then v else v - WORD
  }

  /** SMULH and DMULT: subtract an operand from the unsigned high half for each negative one. */
  function SignedHigh(a: nat, b: nat): (high: nat)
    ensures high < WORD
  {
    var high := MultiplyHigh(a, b);
    var once := if a >= WORD / 2 then Wrap(high - b) else high;
    if b >= WORD / 2 then Wrap(once - a) else once
  }

  /** It is the high half of the signed product. */
  lemma SignedHighIsExact(a: nat, b: nat)
    requires a < WORD && b < WORD
    ensures SignedHigh(a, b) == Wrap(Signed(a) * Signed(b) / WORD)
  {
    hide Wrap, MultiplyHigh;
    MultiplyHighIsExact(a, b);
    var high, low := a * b / WORD, a * b % WORD;
    ProductOfBounds(a, WORD - 1, b, WORD - 1);
    var x, y := if a >= WORD / 2 then 1 else 0, if b >= WORD / 2 then 1 else 0;
    SignedProducts(a, b, x, y);
    ModuloUnique(Signed(a) * Signed(b), high - x * b - y * a + x * y * WORD, low, WORD);
    WrapSteps(high, a, b, x, y);
  }

  lemma SignedProducts(a: int, b: int, x: int, y: int)
    ensures (a - x * WORD) * (b - y * WORD) == a * b + (x * y * WORD - x * b - y * a) * WORD
  {
    assert (a - x * WORD) * (b - y * WORD) == a * b - a * (y * WORD) - (x * WORD) * b + (x * WORD) * (y * WORD);
    assert a * (y * WORD) == y * a * WORD && (x * WORD) * b == x * b * WORD;
    assert (x * WORD) * (y * WORD) == x * y * WORD * WORD;
  }

  /** Wrapping after each subtraction, or once. */
  lemma WrapSteps(high: nat, a: nat, b: nat, x: nat, y: nat)
    requires high < WORD && x <= 1 && y <= 1
    ensures var once := if x == 1 then Wrap(high - b) else high;
            (if y == 1 then Wrap(once - a) else once) == Wrap(high - x * b - y * a + x * y * WORD)
  {
    if x == 1 {
      WrapAgain(high as int - b, -(a as int));
    }
    ModuloOf(high - x * b - y * a, x * y, WORD);
    WrapSmall(high);
  }

  lemma WrapAgain(v: int, d: int)
    ensures Wrap(Wrap(v) + d) == Wrap(v + d)
  {
    ModuloOf(v % WORD + d, v / WORD, WORD);
    assert v + d == v % WORD + d + v / WORD * WORD;
  }
}

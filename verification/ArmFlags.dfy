/**
  ARM flag arithmetic (src/xxemul_arm.c, lines 462-538 and 686-797) against
  AddWithCarry, section A2.2.1 of the ARMv7-A/R Architecture Reference Manual, and
  the condition codes.  A word has a sign bit of weight s, so there are 2 s words.
*/
module ArmFlags {
  import opened Arithmetic

  datatype Flags = Flags(n: bool, z: bool, c: bool, v: bool)

  datatype Sum = Sum(result: nat, flags: Flags)

  predicate IsWord(s: nat, v: nat) {
    s > 0 && v < 2 * s
  }

  /** What a register keeps of a sum or difference. */
  function Wrap(s: nat, v: int): (r: nat)
    requires s > 0
    ensures IsWord(s, r)
  {
    v % (2 * s)
  }

  lemma WrapUnique(s: nat, v: int, q: int, r: nat)
    requires IsWord(s, r) && v == q * (2 * s) + r
    ensures Wrap(s, v) == r
  {
    ModuloUnique(v, q, r, 2 * s);
  }

  /** Sums and differences of two words leave the range at most once. */
  lemma WrapOnce(s: nat, v: int)
    requires s > 0 && -(2 * s) <= v < 4 * s
    ensures Wrap(s, v) == if v < 0 then v + 2 * s else if v < 2 * s then v else v - 2 * s
  {
    var q := if v < 0 then -1 else if v < 2 * s then 0 else 1;
    WrapUnique(s, v, q, v - q * (2 * s));
  }

  predicate Negative(s: nat, v: nat) { v >= s }

  /** Two's complement. */
  function Signed(s: nat, v: nat): int {
    if Negative(s, v) then v - 2 * s else v
  }

  function Not(s: nat, v: nat): (r: nat)
    requires IsWord(s, v)
    ensures IsWord(s, r)
  {
    2 * s - 1 - v
  }

  function Bit(c: bool): nat {
    if c then 1 else 0
  }

  // ----------------------------------------------------------------------
  // The manual
  // ----------------------------------------------------------------------

  /** AddWithCarry, with the N and Z flags of its result. */
  function AddWithCarry(s: nat, x: nat, y: nat, carry: bool): (r: Sum)
    requires IsWord(s, x) && IsWord(s, y)
    ensures IsWord(s, r.result)
  {
    var unsigned := x + y + Bit(carry);
    var signed := Signed(s, x) + Signed(s, y) + Bit(carry);
    var result := Wrap(s, unsigned);
    Sum(result, Flags(Negative(s, result), result == 0, result != unsigned, Signed(s, result) != signed))
  }

  // ----------------------------------------------------------------------
  // The code
  // ----------------------------------------------------------------------

  /** xxemul_arm_set_nz */
  function WithNZ(s: nat, value: nat, c: bool, v: bool): Flags
    requires s > 0
  {
    Flags(Negative(s, Wrap(s, value)), Wrap(s, value) == 0, c, v)
  }

  /** xxemul_arm_set_add_flags; a sign test on exclusive ors compares signs. */
  function AddFlags(s: nat, left: nat, right: nat, result: nat): Flags
    requires s > 0
  {
    var a, b, r := Wrap(s, left), Wrap(s, right), Wrap(s, result);
    WithNZ(s, r, r < a, Negative(s, a) == Negative(s, b) && Negative(s, a) != Negative(s, r))
  }

  /** xxemul_arm_set_sub_flags */
  function SubFlags(s: nat, left: nat, right: nat, result: nat): Flags
    requires s > 0
  {
    var a, b, r := Wrap(s, left), Wrap(s, right), Wrap(s, result);
    WithNZ(s, r, a >= b, Negative(s, a) != Negative(s, b) && Negative(s, a) != Negative(s, r))
  }

  /** The sum of xxemul_arm_add_with_carry, for ADC. */
  function Adc(s: nat, left: nat, right: nat, carry: bool): Sum
    requires s > 0
  {
    var a, b := Wrap(s, left), Wrap(s, right);
    var intermediate := Wrap(s, a + b);
    var result := Wrap(s, intermediate + Bit(carry));
    Sum(result, WithNZ(s, result, intermediate < a || result < intermediate,
                       Negative(s, a) == Negative(s, b) && Negative(s, a) != Negative(s, result)))
  }

  /** Its difference, for SBC, NGC and, with the operands exchanged, RSC. */
  function Sbc(s: nat, left: nat, right: nat, carry: bool): Sum
    requires s > 0
  {
    var a, b := Wrap(s, left), Wrap(s, right);
    var intermediate := Wrap(s, a - b);
    var result := Wrap(s, intermediate - Bit(!carry));
    Sum(result, WithNZ(s, result, if carry then a >= b else b != 2 * s - 1 && a > b,
                       Negative(s, a) != Negative(s, b) && Negative(s, a) != Negative(s, result)))
  }

  lemma WordWraps(s: nat, v: nat)
    requires IsWord(s, v)
    ensures Wrap(s, v) == v
  {
    WrapOnce(s, v);
  }

  /** ADD and CMN */
  lemma AddIsAddWithCarry(s: nat, left: nat, right: nat)
    requires s > 0
    ensures var sum := AddWithCarry(s, Wrap(s, left), Wrap(s, right), false);
            Wrap(s, left + right) == sum.result && AddFlags(s, left, right, Wrap(s, left + right)) == sum.flags
  {
    var a, b := Wrap(s, left), Wrap(s, right);
    WrapPart(s, left, right);
    WrapPart(s, right, a);
    hide Wrap;
    WordWraps(s, Wrap(s, left + right));
    WrapOnce(s, a + b);
  }

  /** Reducing an operand first does not change a sum or difference. */
  lemma WrapPart(s: nat, v: int, d: int)
    requires s > 0
    ensures Wrap(s, v + d) == Wrap(s, Wrap(s, v) + d) && Wrap(s, d - v) == Wrap(s, d - Wrap(s, v))
  {
    var m, q := 2 * s, v / (2 * s);
    assert v == q * m + v % m;
    ModuloOf(v % m + d, q, m);
    ModuloOf(d - v % m, -q, m);
    assert -q * m == -(q * m);
  }

  /** SUB and CMP */
  lemma SubIsAddWithCarry(s: nat, left: nat, right: nat)
    requires s > 0
    ensures var a, b := Wrap(s, left), Wrap(s, right);
            var sum := AddWithCarry(s, a, Not(s, b), true);
            Wrap(s, left - right) == sum.result && SubFlags(s, left, right, Wrap(s, left - right)) == sum.flags
  {
    var a, b := Wrap(s, left), Wrap(s, right);
    WrapPart(s, left, -(right as int));
    WrapPart(s, right, a);
    hide Wrap;
    WordWraps(s, Wrap(s, left - right));
    WrapOnce(s, a - b);
    WrapOnce(s, a + Not(s, b) + 1);
  }

  lemma AdcIsAddWithCarry(s: nat, left: nat, right: nat, carry: bool)
    requires s > 0
    ensures Adc(s, left, right, carry) == AddWithCarry(s, Wrap(s, left), Wrap(s, right), carry)
  {
    hide Wrap;
    var a, b := Wrap(s, left), Wrap(s, right);
    var intermediate := Wrap(s, a + b);
    WrapOnce(s, a + b);
    WrapOnce(s, intermediate + Bit(carry));
    WordWraps(s, Wrap(s, intermediate + Bit(carry)));
    WrapOnce(s, a + b + Bit(carry));
  }

  lemma SbcIsAddWithCarry(s: nat, left: nat, right: nat, carry: bool)
    requires s > 0
    ensures Sbc(s, left, right, carry) == AddWithCarry(s, Wrap(s, left), Not(s, Wrap(s, right)), carry)
  {
    hide Wrap;
    var a, b := Wrap(s, left), Wrap(s, right);
    var intermediate := Wrap(s, a - b);
    WrapOnce(s, a - b);
    WrapOnce(s, intermediate - Bit(!carry));
    WordWraps(s, Wrap(s, intermediate - Bit(!carry)));
    WrapOnce(s, a + Not(s, b) + Bit(carry));
  }

  // ----------------------------------------------------------------------
  // Conditions
  // ----------------------------------------------------------------------

  datatype Condition = EQ | NE | CS | CC | MI | PL | VS | VC | HI | LS | GE | LT | GT | LE | AL | Other

  /** xxemul_arm_condition_passed */
  predicate Passed(f: Flags, condition: Condition) {
    match condition
    case EQ => f.z
    case NE => !f.z
    case CS => f.c
    case CC => !f.c
    case MI => f.n
    case PL => !f.n
    case VS => f.v
    case VC => !f.v
    case HI => f.c && !f.z
    case LS => !f.c || f.z
    case GE => f.n == f.v
    case LT => f.n != f.v
    case GT => !f.z && f.n == f.v
    case LE => f.z || f.n != f.v
    case AL => true
    case Other => false
  }

  predicate Fits(s: nat, v: int) {
    0 <= v + s < 2 * s
  }

  /** What a condition after a comparison of two words says of them. */
  predicate Says(s: nat, a: nat, b: nat, condition: Condition)
    requires s > 0
  {
    match condition
    case EQ => a == b
    case NE => a != b
    case CS => a >= b
    case CC => a < b
    case HI => a > b
    case LS => a <= b
    case GE => Signed(s, a) >= Signed(s, b)
    case LT => Signed(s, a) < Signed(s, b)
    case GT => Signed(s, a) > Signed(s, b)
    case LE => Signed(s, a) <= Signed(s, b)
    case VS => !Fits(s, Signed(s, a) - Signed(s, b))
    case VC => Fits(s, Signed(s, a) - Signed(s, b))
    case MI => Signed(s, Wrap(s, a - b)) < 0
    case PL => Signed(s, Wrap(s, a - b)) >= 0
    case AL => true
    case Other => false
  }

  /** What each flag means after the comparison of two words. */
  lemma CompareFlags(s: nat, a: nat, b: nat)
    requires IsWord(s, a) && IsWord(s, b)
    ensures var f := SubFlags(s, a, b, Wrap(s, a - b));
            && f.c == (a >= b) && f.z == (a == b) && f.n == Negative(s, Wrap(s, a - b))
            && f.v == !Fits(s, Signed(s, a) - Signed(s, b)) && (f.n != f.v) == (Signed(s, a) < Signed(s, b))
  {
    hide Wrap;
    WordWraps(s, a);
    WordWraps(s, b);
    WordWraps(s, Wrap(s, a - b));
    WrapOnce(s, a - b);
  }

  /** After CMP every condition code decides its order, unsigned or signed. */
  lemma CompareDecides(s: nat, left: nat, right: nat, condition: Condition)
    requires s > 0
    ensures Passed(SubFlags(s, left, right, Wrap(s, left - right)), condition)
            <==> Says(s, Wrap(s, left), Wrap(s, right), condition)
  {
    var a, b := Wrap(s, left), Wrap(s, right);
    WrapPart(s, left, -(right as int));
    WrapPart(s, right, a);
    hide Wrap, WithNZ;
    WordWraps(s, a);
    WordWraps(s, b);
    CompareFlags(s, a, b);
    SignedOrder(s, a, b);
    hide SubFlags, Fits;
  }

  lemma SignedOrder(s: nat, a: nat, b: nat)
    requires IsWord(s, a) && IsWord(s, b)
    ensures Signed(s, a) == Signed(s, b) <==> a == b
    ensures Negative(s, a) <==> Signed(s, a) < 0
  {
  }

  // ----------------------------------------------------------------------
  // Numbers of many words
  // ----------------------------------------------------------------------

  /** The value of words from the least significant one on. */
  function Value(s: nat, x: seq<nat>): nat {
    if x == [] then 0 else x[0] + 2 * s * Value(s, x[1..])
  }

  function Base(s: nat, n: nat): (p: nat)
    requires s > 0
    ensures p > 0
  {
    if n == 0 then 1 else 2 * s * Base(s, n - 1)
  }

  predicate AreWords(s: nat, x: seq<nat>) {
    s > 0 && forall k | 0 <= k < |x| :: x[k] < 2 * s
  }

  datatype Chain = Chain(result: seq<nat>, flags: Flags)

  /** ADDS and then ADCS, or SUBS and then SBCS, word by word; the flags are those of the last. */
  function Chained(s: nat, x: seq<nat>, y: seq<nat>, subtract: bool, flags: Flags): (r: Chain)
    requires s > 0 && |x| == |y|
    ensures |r.result| == |x|
  {
    if x == [] then Chain([], flags)
    else
      var step := if subtract then Sbc(s, x[0], y[0], flags.c) else Adc(s, x[0], y[0], flags.c);
      var rest := Chained(s, x[1..], y[1..], subtract, step.flags);
      Chain([step.result] + rest.result, rest.flags)
  }

  /** One word of a sum. */
  lemma AdcValue(s: nat, x: nat, y: nat, carry: bool)
    requires IsWord(s, x) && IsWord(s, y)
    ensures var step := Adc(s, x, y, carry);
            IsWord(s, step.result) && step.result + 2 * s * Bit(step.flags.c) == x + y + Bit(carry)
  {
    AdcIsAddWithCarry(s, x, y, carry);
    WordWraps(s, x);
    WordWraps(s, y);
    WrapOnce(s, x + y + Bit(carry));
  }

  lemma SbcValue(s: nat, x: nat, y: nat, carry: bool)
    requires IsWord(s, x) && IsWord(s, y)
    ensures var step := Sbc(s, x, y, carry);
            IsWord(s, step.result) && step.result - 2 * s * Bit(!step.flags.c) == x - y - Bit(!carry)
  {
    SbcIsAddWithCarry(s, x, y, carry);
    WordWraps(s, x);
    WordWraps(s, y);
    WrapOnce(s, x + Not(s, y) + Bit(carry));
  }

  lemma Distribute(m: int, a: int, b: int, c: int)
    ensures m * (a + b - c) == m * a + m * b - m * c
  {
  }

  /** Chained addition is addition of the whole numbers, and C the final carry. */
  lemma {:induction false} ChainedAddition(s: nat, x: seq<nat>, y: seq<nat>, flags: Flags)
    requires |x| == |y| && AreWords(s, x) && AreWords(s, y)
    ensures var r := Chained(s, x, y, false, flags);
            && AreWords(s, r.result)
            && Value(s, r.result) + Base(s, |x|) * Bit(r.flags.c) == Value(s, x) + Value(s, y) + Bit(flags.c)
    decreases |x|
  {
    if x != [] {
      hide Adc, Sbc;
      var m := 2 * s;
      AdcValue(s, x[0], y[0], flags.c);
      var step := Adc(s, x[0], y[0], flags.c);
      ChainedAddition(s, x[1..], y[1..], step.flags);
      var rest := Chained(s, x[1..], y[1..], false, step.flags);
      var r := Chained(s, x, y, false, flags);
      assert r.result[1..] == rest.result;
      var vx, vy, vr := Value(s, x[1..]), Value(s, y[1..]), Value(s, rest.result);
      var high := Base(s, |x| - 1) * Bit(rest.flags.c);
      assert vr == vx + vy - (high - Bit(step.flags.c));
      Distribute(m, vx, vy, high - Bit(step.flags.c));
      Carried(m, Base(s, |x| - 1), Bit(rest.flags.c), Bit(step.flags.c));
    }
  }

  lemma Carried(m: int, b: int, c: int, d: int)
    ensures m * (b * c - d) == m * b * c - m * d
  {
    assert m * (b * c) == m * b * c;
  }

  /** Chained subtraction is subtraction, and C clear the final borrow. */
  lemma {:induction false} ChainedSubtraction(s: nat, x: seq<nat>, y: seq<nat>, flags: Flags)
    requires |x| == |y| && AreWords(s, x) && AreWords(s, y)
    ensures var r := Chained(s, x, y, true, flags);
            && AreWords(s, r.result)
            && Value(s, r.result) - Base(s, |x|) * Bit(!r.flags.c) == Value(s, x) - Value(s, y) - Bit(!flags.c)
    decreases |x|
  {
    if x != [] {
      hide Adc, Sbc;
      var m := 2 * s;
      SbcValue(s, x[0], y[0], flags.c);
      var step := Sbc(s, x[0], y[0], flags.c);
      ChainedSubtraction(s, x[1..], y[1..], step.flags);
      var rest := Chained(s, x[1..], y[1..], true, step.flags);
      var r := Chained(s, x, y, true, flags);
      assert r.result[1..] == rest.result;
      var vx, vy, vr := Value(s, x[1..]), Value(s, y[1..]), Value(s, rest.result);
      var high := Base(s, |x| - 1) * Bit(!rest.flags.c);
      assert vr == vx + (high - Bit(!step.flags.c)) - vy;
      Distribute(m, vx, high - Bit(!step.flags.c), vy);
      Carried(m, Base(s, |x| - 1), Bit(!rest.flags.c), Bit(!step.flags.c));
    }
  }

  // --- Comparisons of many words ----------------------------------------------------

  /** The two's complement value of words: the last one carries the sign. */
  function SignedValue(s: nat, x: seq<nat>): int
    requires x != []
  {
    if |x| == 1 then Signed(s, x[0]) else x[0] + 2 * s * SignedValue(s, x[1..])
  }

  lemma SbcDecides(s: nat, x: nat, y: nat, carry: bool)
    requires IsWord(s, x) && IsWord(s, y)
    ensures Passed(Sbc(s, x, y, carry).flags, LT) <==> Signed(s, x) - Signed(s, y) - Bit(!carry) < 0
  {
    SbcIsAddWithCarry(s, x, y, carry);
    WordWraps(s, x);
    WordWraps(s, y);
    WrapOnce(s, x + Not(s, y) + Bit(carry));
  }

  /** A number with a small low part has the sign of its high part. */
  lemma SignOfHigh(m: int, low: int, high: int)
    requires 0 <= low < m
    ensures low + m * high < 0 <==> high < 0
  {
    MultipleApart(high, m);
  }

  /** Low words and their borrow do not decide what the rest decides. */
  lemma HighDecides(m: int, r: int, x: int, y: int, vx: int, vy: int, borrow: int, next: int)
    requires 0 <= r < m && r - m * next == x - y - borrow
    ensures (x + m * vx) - (y + m * vy) - borrow < 0 <==> vx - vy - next < 0
  {
    SignOfHigh(m, r, vx - vy - next);
    assert m * (vx - vy - next) == m * vx - m * vy - m * next;
  }

  lemma {:induction false} ChainedSigned(s: nat, x: seq<nat>, y: seq<nat>, flags: Flags)
    requires |x| == |y| > 0 && AreWords(s, x) && AreWords(s, y)
    ensures Passed(Chained(s, x, y, true, flags).flags, LT) <==> SignedValue(s, x) - SignedValue(s, y) - Bit(!flags.c) < 0
    decreases |x|
  {
    hide Sbc, Adc;
    var step := Sbc(s, x[0], y[0], flags.c);
    if |x| == 1 {
      SbcDecides(s, x[0], y[0], flags.c);
      assert Chained(s, x[1..], y[1..], true, step.flags).flags == step.flags;
    } else {
      var m := 2 * s;
      SbcValue(s, x[0], y[0], flags.c);
      ChainedSigned(s, x[1..], y[1..], step.flags);
      HighDecides(m, step.result, x[0], y[0], SignedValue(s, x[1..]), SignedValue(s, y[1..]), Bit(!flags.c), Bit(!step.flags.c));
    }
  }

  /** After SUBS and SBCS on numbers of any length, CS, CC, GE and LT decide their unsigned and signed orders. */
  lemma ChainedCompareDecides(s: nat, x: seq<nat>, y: seq<nat>, flags: Flags)
    requires |x| == |y| > 0 && AreWords(s, x) && AreWords(s, y) && flags.c
    ensures var f := Chained(s, x, y, true, flags).flags;
            && (Passed(f, CS) <==> Value(s, x) >= Value(s, y)) && (Passed(f, CC) <==> Value(s, x) < Value(s, y))
            && (Passed(f, GE) <==> SignedValue(s, x) >= SignedValue(s, y)) && (Passed(f, LT) <==> SignedValue(s, x) < SignedValue(s, y))
  {
    hide Chained, Value, SignedValue;
    ChainedSubtraction(s, x, y, flags);
    ChainedSigned(s, x, y, flags);
    var r := Chained(s, x, y, true, flags);
    ValueBelow(s, r.result);
  }

  lemma NextBelow(m: nat, v: nat, b: nat)
    requires v < b
    ensures m * v + m <= m * b
  {
    var k := b - v - 1;
    Distribute(m, v + 1, k, 0);
    Distribute(m, v, 1, 0);
    assert v + 1 + k - 0 == b && v + 1 - 0 == v + 1;
    NaturalProduct(m, k);
  }

  lemma NaturalProduct(a: nat, b: nat)
    ensures a * b >= 0
  {
  }

  lemma {:induction false} ValueBelow(s: nat, x: seq<nat>)
    requires AreWords(s, x)
    ensures Value(s, x) < Base(s, |x|)
    decreases |x|
  {
    if x != [] {
      ValueBelow(s, x[1..]);
      NextBelow(2 * s, Value(s, x[1..]), Base(s, |x| - 1));
    }
  }

  // ----------------------------------------------------------------------
  // The processor state
  // ----------------------------------------------------------------------

  /** The flags of pstate, as the flag setters change them. */
  class ProcessorState {
    var n: bool
    var z: bool
    var c: bool
    var v: bool

    function Value(): Flags
      reads this
    {
      Flags(n, z, c, v)
    }

    constructor (f: Flags)
      ensures Value() == f
    {
      n, z, c, v := f.n, f.z, f.c, f.v;
    }

    method SetNZ(s: nat, value: nat)
      requires s > 0
      modifies this
      ensures Value() == WithNZ(s, value, old(c), old(v))
    {
      var r := Wrap(s, value);
      n, z := false, false;
      if r == 0 {
        z := true;
      }
      if r >= s {
        n := true;
      }
    }

    /** ADD and CMN: the flags are those of AddWithCarry. */
    method SetAddFlags(s: nat, left: nat, right: nat, result: nat)
      requires s > 0
      modifies this
      ensures Value() == AddFlags(s, left, right, result)
      ensures result == Wrap(s, left + right) ==> Value() == AddWithCarry(s, Wrap(s, left), Wrap(s, right), false).flags
    {
      hide Wrap, AddWithCarry;
      var a, b, r := Wrap(s, left), Wrap(s, right), Wrap(s, result);
      c, v := false, false;
      if r < a {
        c := true;
      }
      if (a >= s) == (b >= s) && (a >= s) != (r >= s) {
        v := true;
      }
      SetNZ(s, r);
      AddIsAddWithCarry(s, left, right);
    }

    /** SUB and CMP */
    method SetSubFlags(s: nat, left: nat, right: nat, result: nat)
      requires s > 0
      modifies this
      ensures Value() == SubFlags(s, left, right, result)
      ensures result == Wrap(s, left - right) ==> Value() == AddWithCarry(s, Wrap(s, left), Not(s, Wrap(s, right)), true).flags
    {
      hide Wrap, AddWithCarry;
      var a, b, r := Wrap(s, left), Wrap(s, right), Wrap(s, result);
      c, v := false, false;
      if a >= b {
        c := true;
      }
      if (a >= s) != (b >= s) && (a >= s) != (r >= s) {
        v := true;
      }
      SetNZ(s, r);
      SubIsAddWithCarry(s, left, right);
    }

    /** The arithmetic of xxemul_arm_add_with_carry: ADC, SBC or, reversed, RSC; the flags change only when the instruction sets them. */
    method AddOrSubtract(s: nat, operand0: nat, operand1: nat, subtract: bool, reverse: bool, setFlags: bool) returns (result: nat)
      requires s > 0
      modifies this
      ensures var x, y := if reverse then operand1 else operand0, if reverse then operand0 else operand1;
              var sum := AddWithCarry(s, Wrap(s, x), if subtract then Not(s, Wrap(s, y)) else Wrap(s, y), old(c));
              result == sum.result && Value() == if setFlags then sum.flags else old(Value())
    {
      hide Wrap, AddWithCarry;
      var left, right := operand0, operand1;
      if reverse {
        left, right := right, left;
      }
      left, right := Wrap(s, left), Wrap(s, right);
      WordWraps(s, left);
      WordWraps(s, right);
      var carry, overflow, intermediate;
      if subtract {
        SbcIsAddWithCarry(s, left, right, c);
        intermediate := Wrap(s, left - right);
        result := Wrap(s, intermediate - Bit(!c));
        carry := if c then left >= right else right != 2 * s - 1 && left > right;
        overflow := (left >= s) != (right >= s) && (left >= s) != (result >= s);
      } else {
        AdcIsAddWithCarry(s, left, right, c);
        intermediate := Wrap(s, left + right);
        result := Wrap(s, intermediate + Bit(c));
        carry := intermediate < left || result < intermediate;
        overflow := (left >= s) == (right >= s) && (left >= s) != (result >= s);
      }
      if setFlags {
        c, v := carry, overflow;
        SetNZ(s, result);
      }
    }
  }
}

/**
  Integer arithmetic and conversions of the CIL interpreter (net_binary and the
  integer part of net_convert, src/xxemul_dotnet_runtime.c, lines 665-741 and
  763-884).  Machine words are integers below a power of two; wrap-around and C's
  truncating division are written out.
*/
module CilArithmetic {
  import opened Arithmetic
  import opened Wrappers

  const TWO_8 := 0x100
  const TWO_16 := 0x1_0000
  const TWO_31 := 0x8000_0000
  const TWO_32 := 0x1_0000_0000
  const TWO_63 := 0x8000_0000_0000_0000
  const TWO_64 := 0x1_0000_0000_0000_0000

  datatype Kind = I4 | I8 | Native
  datatype Value = Value(kind: Kind, bits: nat)
  datatype Fault = DivideByZero | Overflow
  datatype Answer = Result(value: Value) | Raised(fault: Fault) | Failed(status: Status)

  type Width = w: nat | w == 32 || w == 64 witness 32

  function Modulus(width: Width): (m: nat)
    ensures m == TWO_32 || m == TWO_64
  {
    if width == 32 then TWO_32 else TWO_64
  }

  /** The low bits of a number: what a word of that width holds of it. */
  function Low(width: Width, a: int): (r: nat)
    ensures r < Modulus(width)
  {
    if width == 32 then a % TWO_32 else a % TWO_64
  }

  /** net_width */
  function WidthOf(pointerSize: nat, kind: Kind): Width {
    if kind == I4 || (kind == Native && pointerSize == 4) then 32 else 64
  }

  /** net_signed */
  function Signed(width: Width, bits: nat): (v: int)
    requires bits < Modulus(width)
    ensures -(Modulus(width) / 2) <= v < Modulus(width) / 2
    ensures v == bits || v == bits - Modulus(width)
  {
    if bits < Modulus(width) / 2 then bits else bits - Modulus(width)
  }

  function Minimum(width: Width): int { -(Modulus(width) / 2) }
  function Maximum(width: Width): int { Modulus(width) / 2 - 1 }

  // ----------------------------------------------------------------------
  // net_binary
  // ----------------------------------------------------------------------

  datatype Operation = Add | Sub | Mul | Div | DivUn | Rem | RemUn

  /** An opcode: the operation, and how its overflow is checked. */
  datatype Opcode = Plain(operation: Operation) | Checked(operation: Operation, signed: bool)

  /** 0x58-0x5e and 0xd6-0xdb; the checked forms are those of add, mul and sub. */
  function Decode(opcode: nat): Option<Opcode> {
    match opcode
    case 0x58 => Some(Plain(Add))
    case 0x59 => Some(Plain(Sub))
    case 0x5a => Some(Plain(Mul))
    case 0x5b => Some(Plain(Div))
    case 0x5c => Some(Plain(DivUn))
    case 0x5d => Some(Plain(Rem))
    case 0x5e => Some(Plain(RemUn))
    case 0xd6 => Some(Checked(Add, true))
    case 0xd7 => Some(Checked(Add, false))
    case 0xd8 => Some(Checked(Mul, true))
    case 0xd9 => Some(Checked(Mul, false))
    case 0xda => Some(Checked(Sub, true))
    case 0xdb => Some(Checked(Sub, false))
    case _ => None
  }

  function WrappedSum(operation: Operation, x: nat, y: nat): nat
    requires operation == Add || operation == Sub || operation == Mul
  {
    match operation
    case Add => (x + y) % TWO_64
    case Sub => (x - y) % TWO_64
    case Mul => (x * y) % TWO_64
  }

  function Tests(width: Width, signed: bool, operation: Operation, x: nat, y: nat): bool
    requires operation == Add || operation == Sub || operation == Mul
    requires x < Modulus(width) && y < Modulus(width)
  {
    var mask := Modulus(width) - 1;
    var sx, sy := Signed(width, x), Signed(width, y);
    var minimum, maximum := Minimum(width), Maximum(width);
    if !signed then
      match operation
      case Add => x > mask - y
      case Sub => x < y
      case Mul => y != 0 && x > mask / y
    else
      match operation
      case Add => (sy > 0 && sx > maximum - sy) || (sy < 0 && sx < minimum - sy)
      case Sub => (sy < 0 && sx > maximum + sy) || (sy > 0 && sx < minimum + sy)
      case Mul =>
        sx != 0 && sy != 0 &&
        if sx > 0 then (if sy > 0 then sx > Quotient(maximum, sy) else sy < Quotient(minimum, sx))
        else if sy > 0 then sx < Quotient(minimum, sy) else sx < Quotient(maximum, sy)
  }

  function CheckedAnswer(width: Width, kind: Kind, operation: Operation, signed: bool, x: nat, y: nat): Answer
    requires x < Modulus(width) && y < Modulus(width)
  {
    if operation != Add && operation != Sub && operation != Mul then Failed(UnsupportedInstruction)
    else if Tests(width, signed, operation, x, y) then Raised(Overflow)
    else Result(Value(kind, Low(width, WrappedSum(operation, x, y))))
  }

  function UnsignedQuotient(x: nat, y: nat): nat
    requires y > 0
  {
    x / y
  }

  function UnsignedRemainder(x: nat, y: nat): nat
    requires y > 0
  {
    x % y
  }

  function Binary(pointerSize: nat, opcode: nat, a: Value, b: Value): Answer {
    if a.kind != b.kind then Failed(DecodeError)
    else
      var width := WidthOf(pointerSize, a.kind);
      var x, y := Low(width, a.bits), Low(width, b.bits);
      var sx, sy := Signed(width, x), Signed(width, y);
      match Decode(opcode)
      case None => Failed(UnsupportedInstruction)
      case Some(Checked(operation, signed)) => CheckedAnswer(width, a.kind, operation, signed, x, y)
      case Some(Plain(operation)) =>
        match operation
        case Add => Result(Value(a.kind, Low(width, WrappedSum(Add, x, y))))
        case Sub => Result(Value(a.kind, Low(width, WrappedSum(Sub, x, y))))
        case Mul => Result(Value(a.kind, Low(width, WrappedSum(Mul, x, y))))
        case Div =>
          if y == 0 then Raised(DivideByZero)
          else if sx == Minimum(width) && sy == -1 then Raised(Overflow)
          else Result(Value(a.kind, Low(width, Quotient(sx, sy) % TWO_64)))
        case Rem =>
          if y == 0 then Raised(DivideByZero)
          else if sx == Minimum(width) && sy == -1 then Raised(Overflow)
          else Result(Value(a.kind, Low(width, Remainder(sx, sy) % TWO_64)))
        case DivUn => if y == 0 then Raised(DivideByZero) else Result(Value(a.kind, UnsignedQuotient(x, y)))
        case RemUn => if y == 0 then Raised(DivideByZero) else Result(Value(a.kind, UnsignedRemainder(x, y)))
  }

  /** The mathematical result. */
  function Exact(operation: Operation, a: int, b: int): int
    requires operation == Add || operation == Sub || operation == Mul
  {
    match operation
    case Add => a + b
    case Sub => a - b
    case Mul => a * b
  }

  // --- Division bounds ----------------------------------------------------

  lemma SignedMulTest(minimum: int, maximum: int, sx: int, sy: int)
    requires maximum >= 0 && minimum == -maximum - 1 && sx != 0 && sy != 0
    ensures (if sx > 0 then (if sy > 0 then sx > Quotient(maximum, sy) else sy < Quotient(minimum, sx))
             else if sy > 0 then sx < Quotient(minimum, sy) else sx < Quotient(maximum, sy))
            <==> !(minimum <= sx * sy <= maximum)
  {
    var a, b := Magnitude(sx), Magnitude(sy);
    SignOfProduct(a, b);
    if sx > 0 && sy > 0 {
      ExceedsQuotient(maximum, a, b);
    } else if sx > 0 {
      ExceedsQuotient(-minimum, b, a);
    } else if sy > 0 {
      ExceedsQuotient(-minimum, a, b);
    } else {
      ExceedsQuotient(maximum, a, b);
    }
  }

  lemma UnsignedMulTest(mask: int, x: nat, y: nat)
    requires mask >= 0
    ensures (y != 0 && x > mask / y) <==> !(0 <= x * y <= mask)
  {
    if y != 0 {
      ExceedsQuotient(mask, x, y);
    }
  }

  /** The machine's overflow tests are exact. */
  lemma TestsAreExact(width: Width, signed: bool, operation: Operation, x: nat, y: nat)
    requires operation == Add || operation == Sub || operation == Mul
    requires x < Modulus(width) && y < Modulus(width)
    ensures var r := if signed then Exact(operation, Signed(width, x), Signed(width, y)) else Exact(operation, x, y);
            Tests(width, signed, operation, x, y) <==>
            !(if signed then Minimum(width) <= r <= Maximum(width) else 0 <= r < Modulus(width))
  {
    if operation == Mul && signed {
      var sx, sy := Signed(width, x), Signed(width, y);
      if sx != 0 && sy != 0 {
        SignedMulTest(Minimum(width), Maximum(width), sx, sy);
      } else {
        assert sx * sy == 0;
      }
    } else if operation == Mul {
      UnsignedMulTest(Modulus(width) - 1, x, y);
    }
  }

  // --- Wrap-around ----------------------------------------------------------

  lemma LowOfWord(width: Width, a: int)
    ensures Low(width, a % TWO_64) == Low(width, a)
  {
    if width == 32 {
      ReduceTwice(a, TWO_32, TWO_32);
    }
  }

  lemma LowIsModulo(width: Width, a: int)
    ensures Low(width, a) == a % Modulus(width)
  {
  }

  /** A wrapped result holds the low bits of the exact one, signed or not. */
  lemma WrapIsCongruent(width: Width, operation: Operation, x: nat, y: nat)
    requires operation == Add || operation == Sub || operation == Mul
    requires x < Modulus(width) && y < Modulus(width)
    ensures var r := Low(width, WrappedSum(operation, x, y));
            && r == Low(width, Exact(operation, x, y))
            && r == Low(width, Exact(operation, Signed(width, x), Signed(width, y)))
  {
    var m := Modulus(width);
    LowOfWord(width, Exact(operation, x, y));
    var sx, sy := Signed(width, x), Signed(width, y);
    SignedIsCongruent(operation, sx, if sx == x then 0 else 1, sy, if sy == y then 0 else 1, m);
    LowIsModulo(width, Exact(operation, x, y));
    LowIsModulo(width, Exact(operation, sx, sy));
  }

  lemma SignedIsCongruent(operation: Operation, sx: int, i: int, sy: int, j: int, m: int)
    requires operation == Add || operation == Sub || operation == Mul
    requires m > 0
    ensures Exact(operation, sx + i * m, sy + j * m) % m == Exact(operation, sx, sy) % m
  {
    match operation
    case Add =>
      assert (sx + i * m) + (sy + j * m) == (sx + sy) + (i + j) * m;
      ModuloOf(sx + sy, i + j, m);
    case Sub =>
      assert (sx + i * m) - (sy + j * m) == (sx - sy) + (i - j) * m;
      ModuloOf(sx - sy, i - j, m);
    case Mul => MulCongruent(sx, i, sy, j, m);
  }

  lemma InRangeSigned(width: Width, v: int)
    requires Minimum(width) <= v <= Maximum(width)
    ensures Signed(width, Low(width, v)) == v
  {
  }

  /** The number an operand word denotes. */
  function Denotes(width: Width, signed: bool, bits: nat): int
    requires bits < Modulus(width)
  {
    if signed then Signed(width, bits) else bits
  }

  predicate Fits(width: Width, signed: bool, v: int) {
    if signed then Minimum(width) <= v <= Maximum(width) else 0 <= v < Modulus(width)
  }

  lemma FittingWord(width: Width, signed: bool, v: int)
    requires Fits(width, signed, v)
    ensures Denotes(width, signed, Low(width, v)) == v
  {
    if signed {
      InRangeSigned(width, v);
    }
  }

  lemma CheckedAnswerIsExact(width: Width, kind: Kind, operation: Operation, signed: bool, x: nat, y: nat)
    requires operation == Add || operation == Sub || operation == Mul
    requires x < Modulus(width) && y < Modulus(width)
    ensures var r := Exact(operation, Denotes(width, signed, x), Denotes(width, signed, y));
            var answer := CheckedAnswer(width, kind, operation, signed, x, y);
            && (answer == Raised(Overflow) <==> !Fits(width, signed, r))
            && (Fits(width, signed, r) ==> answer.Result? && answer.value.kind == kind && answer.value.bits < Modulus(width)
                                           && Denotes(width, signed, answer.value.bits) == r)
  {
    hide Tests, WrappedSum, Exact, Low, Signed;
    var r := Exact(operation, Denotes(width, signed, x), Denotes(width, signed, y));
    TestsAreExact(width, signed, operation, x, y);
    WrapIsCongruent(width, operation, x, y);
    if Fits(width, signed, r) {
      FittingWord(width, signed, r);
    }
  }

  /**
    add.ovf, sub.ovf and mul.ovf, signed and unsigned, at both widths: they
    raise OverflowException exactly when the mathematical result does not fit,
    and otherwise their result denotes it.
  */
  lemma CheckedArithmeticIsExact(pointerSize: nat, opcode: nat, a: Value, b: Value)
    requires a.kind == b.kind && 0xd6 <= opcode <= 0xdb
    ensures var width := WidthOf(pointerSize, a.kind);
            var Checked(operation, signed) := Decode(opcode).value;
            var r := Exact(operation, Denotes(width, signed, Low(width, a.bits)), Denotes(width, signed, Low(width, b.bits)));
            var answer := Binary(pointerSize, opcode, a, b);
            && signed == (opcode % 2 == 0)
            && (answer == Raised(Overflow) <==> !Fits(width, signed, r))
            && (Fits(width, signed, r) ==> answer.Result? && answer.value.kind == a.kind && answer.value.bits < Modulus(width)
                                           && Denotes(width, signed, answer.value.bits) == r)
  {
    var width := WidthOf(pointerSize, a.kind);
    var Checked(operation, signed) := Decode(opcode).value;
    CheckedAnswerIsExact(width, a.kind, operation, signed, Low(width, a.bits), Low(width, b.bits));
  }

  lemma QuotientFits(sx: int, sy: int, bound: int)
    requires sy != 0 && bound > 0 && -bound <= sx < bound && !(sx == -bound && sy == -1)
    ensures -bound <= Quotient(sx, sy) < bound
    ensures -bound <= Remainder(sx, sy) < bound
    ensures -Magnitude(sy) < Remainder(sx, sy) < Magnitude(sy)
    ensures Remainder(sx, sy) != 0 ==> (Remainder(sx, sy) > 0 <==> sx > 0)
  {
    NaturalQuotient(Magnitude(sx), Magnitude(sy));
  }

  /** div and rem: the quotient towards zero and its remainder, or the two exceptions. */
  lemma DivisionIsExact(pointerSize: nat, a: Value, b: Value)
    requires a.kind == b.kind
    ensures var width := WidthOf(pointerSize, a.kind);
            var sx, sy := Signed(width, Low(width, a.bits)), Signed(width, Low(width, b.bits));
            var div, rem := Binary(pointerSize, 0x5b, a, b), Binary(pointerSize, 0x5d, a, b);
            if sy == 0 then div == Raised(DivideByZero) && rem == Raised(DivideByZero)
            else if sx == Minimum(width) && sy == -1 then div == Raised(Overflow) && rem == Raised(Overflow)
            else
              && div.Result? && rem.Result? && div.value.bits < Modulus(width) && rem.value.bits < Modulus(width)
              && var q, r := Signed(width, div.value.bits), Signed(width, rem.value.bits);
                 sx == q * sy + r && -Magnitude(sy) < r < Magnitude(sy) && (r != 0 ==> (r > 0 <==> sx > 0))
  {
    var width := WidthOf(pointerSize, a.kind);
    var sx, sy := Signed(width, Low(width, a.bits)), Signed(width, Low(width, b.bits));
    if sy != 0 && !(sx == Minimum(width) && sy == -1) {
      QuotientFits(sx, sy, Modulus(width) / 2);
      QuotientAndRemainder(sx, sy);
      LowOfWord(width, Quotient(sx, sy));
      LowOfWord(width, Remainder(sx, sy));
      InRangeSigned(width, Quotient(sx, sy));
      InRangeSigned(width, Remainder(sx, sy));
    }
  }

  // ----------------------------------------------------------------------
  // net_convert
  // ----------------------------------------------------------------------

  /** What the switch of net_convert sets for an integer target. */
  datatype Conversion = Conversion(width: nat, sign: bool, checked: bool, sourceUnsigned: bool, kind: Kind)

  type Size = w: nat | w == 8 || w == 16 || w == 32 || w == 64 witness 8

  predicate PointerSizeOk(pointerSize: nat) { pointerSize == 4 || pointerSize == 8 }

  /** conv.* to integers: 0x67-0x6a, 0x6d, 0x6e, 0x82-0x8b, 0xb3-0xba, 0xd1-0xd5 and 0xe0. */
  function DecodeConversion(pointerSize: nat, opcode: nat): (r: Option<Conversion>)
    requires PointerSizeOk(pointerSize)
    ensures r.Some? ==> r.value.width == 8 || r.value.width == 16 || r.value.width == 32 || r.value.width == 64
    ensures r.Some? ==> r.value.width <= WidthOf(pointerSize, r.value.kind)
    ensures r.Some? && r.value.kind != I4 ==> r.value.width == WidthOf(pointerSize, r.value.kind)
  {
    var native := pointerSize * 8;
    match opcode
    case 0x67 => Some(Conversion(8, true, false, false, I4))
    case 0x68 => Some(Conversion(16, true, false, false, I4))
    case 0x69 => Some(Conversion(32, true, false, false, I4))
    case 0x6a => Some(Conversion(64, true, false, false, I8))
    case 0x6d => Some(Conversion(32, false, false, false, I4))
    case 0x6e => Some(Conversion(64, false, false, false, I8))
    case 0xd1 => Some(Conversion(16, false, false, false, I4))
    case 0xd2 => Some(Conversion(8, false, false, false, I4))
    case 0xd3 => Some(Conversion(native, true, false, false, Native))
    case 0xe0 => Some(Conversion(native, false, false, false, Native))
    case 0xd4 => Some(Conversion(native, true, true, false, Native))
    case 0xd5 => Some(Conversion(native, false, true, false, Native))
    case 0x82 => Some(Conversion(8, true, true, true, I4))
    case 0x83 => Some(Conversion(16, true, true, true, I4))
    case 0x84 => Some(Conversion(32, true, true, true, I4))
    case 0x85 => Some(Conversion(64, true, true, true, I8))
    case 0x86 => Some(Conversion(8, false, true, true, I4))
    case 0x87 => Some(Conversion(16, false, true, true, I4))
    case 0x88 => Some(Conversion(32, false, true, true, I4))
    case 0x89 => Some(Conversion(64, false, true, true, I8))
    case 0x8a => Some(Conversion(native, true, true, true, Native))
    case 0x8b => Some(Conversion(native, false, true, true, Native))
    case 0xb3 => Some(Conversion(8, true, true, false, I4))
    case 0xb4 => Some(Conversion(8, false, true, false, I4))
    case 0xb5 => Some(Conversion(16, true, true, false, I4))
    case 0xb6 => Some(Conversion(16, false, true, false, I4))
    case 0xb7 => Some(Conversion(32, true, true, false, I4))
    case 0xb8 => Some(Conversion(32, false, true, false, I4))
    case 0xb9 => Some(Conversion(64, true, true, false, I8))
    case 0xba => Some(Conversion(64, false, true, false, I8))
    case _ => None
  }

  function Power(size: Size): (p: nat)
    ensures p == TWO_8 || p == TWO_16 || p == TWO_32 || p == TWO_64
  {
    if size == 8 then TWO_8 else if size == 16 then TWO_16 else if size == 32 then TWO_32 else TWO_64
  }

  function Cut(size: Size, a: nat): (r: nat)
    ensures r < Power(size)
  {
    if size == 8 then a % TWO_8 else if size == 16 then a % TWO_16 else if size == 32 then a % TWO_32 else a % TWO_64
  }

  /** net_mask as net_convert calls it: full 64 bits for every width but 32. */
  function NetMask(size: Size): nat {
    if size == 32 then TWO_32 - 1 else TWO_64 - 1
  }

  /** The largest value the check lets through. */
  function CheckedMaximum(size: Size, sign: bool): nat {
    if sign then Power(size) / 2 - 1 else NetMask(size)
  }

  /** The last lines of net_convert: cut to the width, extend the sign, cut an int32 to 32 bits. */
  function Narrow(size: Size, sign: bool, kind: Kind, bits: nat): nat
    requires bits < TWO_64
  {
    var cut := if size < 64 then Cut(size, bits) else bits;
    var extended := if size < 64 && sign && cut >= Power(size) / 2 then cut + (TWO_64 - Power(size)) else cut;
    if kind == I4 then extended % TWO_32 else extended
  }

  function Convert(pointerSize: nat, opcode: nat, input: Value): Answer
    requires PointerSizeOk(pointerSize)
  {
    match DecodeConversion(pointerSize, opcode)
    case None => Failed(UnsupportedInstruction)
    case Some(c) =>
      var width := WidthOf(pointerSize, input.kind);
      var source := Low(width, input.bits);
      var signedSource := Signed(width, source);
      if c.checked then
        var maximum := CheckedMaximum(c.width, c.sign);
        var overflow :=
          if c.sourceUnsigned then source > maximum
          else if signedSource < 0 then !c.sign || signedSource < -(Power(c.width) / 2)
          else signedSource > maximum;
        if overflow then Raised(Overflow)
        else Result(Value(c.kind, Narrow(c.width, c.sign, c.kind, if c.sourceUnsigned then source else signedSource % TWO_64)))
      else
        Result(Value(c.kind, Narrow(c.width, c.sign, c.kind, signedSource % TWO_64)))
  }

  /** The number a conversion reads. */
  function SourceValue(pointerSize: nat, c: Conversion, input: Value): int {
    var width := WidthOf(pointerSize, input.kind);
    var source := Low(width, input.bits);
    if c.sourceUnsigned then source else Signed(width, source)
  }

  /** The number a result denotes in the target type of the conversion. */
  function Denoted(pointerSize: nat, c: Conversion, v: Value): int {
    var width := WidthOf(pointerSize, v.kind);
    var bits := Low(width, v.bits);
    if c.sign then Signed(width, bits) else bits
  }

  predicate InTarget(c: Conversion, v: int)
    requires c.width == 8 || c.width == 16 || c.width == 32 || c.width == 64
  {
    if c.sign then -(Power(c.width) / 2) <= v < Power(c.width) / 2 else 0 <= v < Power(c.width)
  }

  lemma WordOf(v: int)
    requires -TWO_63 <= v < TWO_64
    ensures v % TWO_64 == if v >= 0 then v else v + TWO_64
  {
  }

  lemma NarrowBits(c: Conversion, word: nat)
    requires word < TWO_64 && (c.width == 8 || c.width == 16 || c.width == 32 || c.width == 64)
    requires c.kind == I4 ==> c.width <= 32
    ensures var cut := Cut(c.width, word);
            Narrow(c.width, c.sign, c.kind, word)
            == if !c.sign || cut < Power(c.width) / 2 || c.width == 64 then cut
               else cut + (if c.kind == I4 then TWO_32 else TWO_64) - Power(c.width)
  {
    hide Cut;
    var cut := Cut(c.width, word);
    if c.width == 64 {
      WholeCut(word);
    } else {
      ModuloOf(cut + TWO_32 - Power(c.width), TWO_32 - 1, TWO_32);
    }
  }

  /** What Narrow leaves denotes the number that the low bits of the word denote in the target. */
  lemma NarrowDenotes(pointerSize: nat, c: Conversion, word: nat)
    requires PointerSizeOk(pointerSize) && word < TWO_64
    requires c.width == 8 || c.width == 16 || c.width == 32 || c.width == 64
    requires c.width <= WidthOf(pointerSize, c.kind) && (c.kind != I4 ==> c.width == WidthOf(pointerSize, c.kind))
    ensures var cut := Cut(c.width, word);
            Denoted(pointerSize, c, Value(c.kind, Narrow(c.width, c.sign, c.kind, word)))
            == if c.sign && cut >= Power(c.width) / 2 then cut - Power(c.width) else cut
  {
    hide Cut, Narrow;
    NarrowBits(c, word);
  }

  lemma WholeCut(word: nat)
    requires word < TWO_64
    ensures Cut(64, word) == word
  {
  }

  lemma NarrowKeepsValue(pointerSize: nat, c: Conversion, v: int)
    requires PointerSizeOk(pointerSize)
    requires c.width == 8 || c.width == 16 || c.width == 32 || c.width == 64
    requires c.width <= WidthOf(pointerSize, c.kind) && (c.kind != I4 ==> c.width == WidthOf(pointerSize, c.kind))
    requires InTarget(c, v)
    ensures Denoted(pointerSize, c, Value(c.kind, Narrow(c.width, c.sign, c.kind, v % TWO_64))) == v
  {
    hide Cut, Narrow, Denoted;
    WordOf(v);
    CutOfWord(c.width, v);
    NarrowDenotes(pointerSize, c, v % TWO_64);
  }

  lemma CutOfWord(size: Size, v: int)
    requires -(Power(size) / 2) <= v < Power(size)
    ensures Cut(size, v % TWO_64) == if v >= 0 then v else v + Power(size)
  {
    if size == 8 {
      ReduceTwice(v, 0x100_0000_0000_0000, TWO_8);
    } else if size == 16 {
      ReduceTwice(v, 0x1_0000_0000_0000, TWO_16);
    } else if size == 32 {
      ReduceTwice(v, TWO_32, TWO_32);
    }
  }

  /** The guard under which the checked conversions meet section 3.28 of Partition III of ECMA-335. */
  predicate MaximumIsRight(pointerSize: nat, c: Conversion, input: Value) {
    c.sign || c.width >= 32 || SourceValue(pointerSize, c, input) < (if c.width == 8 then TWO_8 else TWO_16)
  }

  /**
    conv.ovf.* raise OverflowException exactly when the value is out of the
    target's range, if and only if the target is signed, or at least 32 bits
    wide, or the value fits: the unsigned 8 and 16 bit forms compare with a
    64-bit mask, so they let every larger value through.  A value in range is
    converted exactly.
  */
  lemma CheckedConversionExactly(pointerSize: nat, opcode: nat, input: Value)
    requires PointerSizeOk(pointerSize)
    requires DecodeConversion(pointerSize, opcode).Some? && DecodeConversion(pointerSize, opcode).value.checked
    ensures var c := DecodeConversion(pointerSize, opcode).value;
            var v := SourceValue(pointerSize, c, input);
            var answer := Convert(pointerSize, opcode, input);
            && ((answer == Raised(Overflow) <==> !InTarget(c, v)) <==> MaximumIsRight(pointerSize, c, input))
            && (InTarget(c, v) ==> answer.Result? && answer.value.kind == c.kind && Denoted(pointerSize, c, answer.value) == v)
  {
    var c := DecodeConversion(pointerSize, opcode).value;
    var v := SourceValue(pointerSize, c, input);
    WordOf(v);
    if InTarget(c, v) {
      NarrowKeepsValue(pointerSize, c, v);
    }
  }

  /** conv.ovf.u1 of 300 is 44. */
  lemma CheckedConversionCounterexample()
    ensures Convert(8, 0xb4, Value(I4, 300)) == Result(Value(I4, 44))
    ensures !InTarget(DecodeConversion(8, 0xb4).value, 300)
  {
  }

  lemma CutIsModulo(size: Size, v: int)
    ensures Cut(size, v % TWO_64) == v % Power(size)
  {
    if size == 8 {
      ReduceTwice(v, 0x100_0000_0000_0000, TWO_8);
    } else if size == 16 {
      ReduceTwice(v, 0x1_0000_0000_0000, TWO_16);
    } else if size == 32 {
      ReduceTwice(v, TWO_32, TWO_32);
    }
  }

  lemma UncheckedNarrows(pointerSize: nat, opcode: nat, input: Value)
    requires PointerSizeOk(pointerSize)
    requires DecodeConversion(pointerSize, opcode).Some? && !DecodeConversion(pointerSize, opcode).value.checked
    ensures var c := DecodeConversion(pointerSize, opcode).value;
            Convert(pointerSize, opcode, input)
            == Result(Value(c.kind, Narrow(c.width, c.sign, c.kind, SourceValue(pointerSize, c, input) % TWO_64)))
  {
    hide Narrow, Low, Signed;
  }

  lemma Congruent(d: int, v: int, size: Size)
    requires d == v % Power(size) || d == v % Power(size) - Power(size)
    ensures d % Power(size) == v % Power(size)
  {
    hide Power;
    var p := Power(size);
    ModuloUnique(d, if d == v % p then 0 else -1, v % p, p);
  }

  /** conv.* without overflow checks wrap: the result is the one number of the target that is congruent to the value. */
  lemma ConversionWraps(pointerSize: nat, opcode: nat, input: Value)
    requires PointerSizeOk(pointerSize)
    requires DecodeConversion(pointerSize, opcode).Some? && !DecodeConversion(pointerSize, opcode).value.checked
    ensures var c := DecodeConversion(pointerSize, opcode).value;
            var answer := Convert(pointerSize, opcode, input);
            && answer.Result? && answer.value.kind == c.kind
            && var d := Denoted(pointerSize, c, answer.value);
               InTarget(c, d) && d % Power(c.width) == SourceValue(pointerSize, c, input) % Power(c.width)
  {
    hide Cut, Narrow, Denoted, DecodeConversion, Convert, SourceValue;
    var c := DecodeConversion(pointerSize, opcode).value;
    var v := SourceValue(pointerSize, c, input);
    UncheckedNarrows(pointerSize, opcode, input);
    CutIsModulo(c.width, v);
    NarrowDenotes(pointerSize, c, v % TWO_64);
    Congruent(Denoted(pointerSize, c, Convert(pointerSize, opcode, input).value), v, c.width);
  }

  /**
    conv.u8, and conv.u with 64-bit pointers, should zero-extend a 32-bit integer,
    int32 or native (Table 8 of section 1.5 of Partition III of ECMA-335); the
    conversion goes through a signed word, so it does exactly for the values that
    are not negative.
  */
  lemma WideningUnsignedExactly(pointerSize: nat, opcode: nat, input: Value)
    requires PointerSizeOk(pointerSize) && WidthOf(pointerSize, input.kind) == 32
    requires opcode == 0x6e || (opcode == 0xe0 && pointerSize == 8)
    ensures var kind := if opcode == 0x6e then I8 else Native;
            var bits := Low(32, input.bits);
            Convert(pointerSize, opcode, input) == Result(Value(kind, bits)) <==> bits < TWO_31
  {
    var kind := if opcode == 0x6e then I8 else Native;
    var bits := Low(32, input.bits);
    assert DecodeConversion(pointerSize, opcode) == Some(Conversion(64, false, false, false, kind));
    WordOf(Signed(32, bits));
    assert Convert(pointerSize, opcode, input) == Result(Value(kind, Signed(32, bits) % TWO_64));
  }
}

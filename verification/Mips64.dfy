/** The 64-bit MIPS core: one step (src/xxemul_mips64.c, lines 10-299). */
module Mips64 {
  import opened Arithmetic
  import opened Wrappers
  import opened GuestMemory
  import opened MipsWords
  import WideMultiply

  datatype Cpu64 = Cpu64(
    gpr: seq<Word64>, hi: Word64, lo: Word64, pc: Word64,
    delayed: bool, target: Word64,
    reservation: Option<Reservation>,
    mem: Memory, big: bool, debugTraps: bool, halted: bool)

  predicate Valid(s: Cpu64) {
    |s.gpr| == 32
  }

  function Reg(s: Cpu64, r: nat): Word64
    requires Valid(s) && r < 32
  {
    Read(s.gpr, 0, r)
  }

  function Immediate(f: Fields): Word64 {
    Low64(SignedHalf(f.imm))
  }

  // ----------------------------------------------------------------------
  // Arithmetic
  // ----------------------------------------------------------------------

  predicate Overflows(result: int) {
    result < -W31 || result > W31 - 1
  }

  function Special(f: Fields, a: Word64, b: Word64, hi: Word64, lo: Word64): Alu<Word64>
    requires f.Valid()
  {
    match f.fn
    case 0 => Write(f.rd, Word(Left32(Low(b), f.sa)))
    case 2 => Write(f.rd, Word(if f.rs == 1 then RotateRight32(Low(b), f.sa) else Down(Low(b), f.sa)))
    case 3 => Write(f.rd, Word(Low(ShiftSigned64(Word(Low(b)), f.sa))))
    case 4 => Write(f.rd, Word(Left32(Low(b), a % 32)))
    case 6 => Write(f.rd, Word(if f.sa == 1 then RotateRight32(Low(b), Low(a)) else Down(Low(b), a % 32)))
    case 7 => Write(f.rd, Word(Low(ShiftSigned64(Word(Low(b)), a % 32))))
    case 10 => if b == 0 then Write(f.rd, a) else Nothing
    case 11 => if b != 0 then Write(f.rd, a) else Nothing
    case 15 => Nothing
    case 16 => Write(f.rd, hi)
    case 17 => WriteHiLo(a, lo)
    case 18 => Write(f.rd, lo)
    case 19 => WriteHiLo(hi, a)
    case 24 => Words(Signed32(Low(a)) * Signed32(Low(b)))
    case 25 => Words(Low(a) * Low(b))
    case 26 => DivideSigned(a, b)
    case 27 => DivideUnsigned(a, b)
    case 32 => Checked(f.rd, Signed32(Low(a)) + Signed32(Low(b)))
    case 34 => Checked(f.rd, Signed32(Low(a)) - Signed32(Low(b)))
    case 33 => Write(f.rd, Word(Low(Low(a) + Low(b))))
    case 35 => Write(f.rd, Word(Low(Low(a) - Low(b))))
    case 36 => Write(f.rd, Bits64(And, a, b))
    case 37 => Write(f.rd, Bits64(Or, a, b))
    case 38 => Write(f.rd, Bits64(Xor, a, b))
    case 39 => Write(f.rd, Not64(Bits64(Or, a, b)))
    case 42 => Write(f.rd, Bit(Signed64(a) < Signed64(b)))
    case 43 => Write(f.rd, Bit(a < b))
    case _ => SpecialDoubleword(f, a, b)
  }

  /** HI and LO hold the two words of a product, each sign-extended. */
  function Words(product: int): Alu<Word64> {
    WriteHiLo(Word(Low64(product) / W32), Word(Low(product)))
  }

  function Checked(r: nat, result: int): Alu<Word64> {
    if Overflows(result) then Refused else Write(r, Word(Low(result)))
  }

  function DivideSigned(a: Word64, b: Word64): Alu<Word64> {
    if Low(b) == 0 then WriteHiLo(Word(Low(a)), if Signed32(Low(a)) < 0 then 1 else W64 - 1)
    else if Low(a) == W31 && Low(b) == W32 - 1 then WriteHiLo(0, Word(Low(a)))
    else
      WriteHiLo(Word(Low(Remainder(Signed32(Low(a)), Signed32(Low(b))))), Word(Low(Quotient(Signed32(Low(a)), Signed32(Low(b))))))
  }

  function DivideUnsigned(a: Word64, b: Word64): Alu<Word64> {
    if Low(b) == 0 then WriteHiLo(Word(Low(a)), W64 - 1) else WriteHiLo(Word(Low(Low(a) % Low(b))), Word(Low(Low(a) / Low(b))))
  }

  /** The doubleword instructions of the same opcode; sa + 32 shifts further. */
  function SpecialDoubleword(f: Fields, a: Word64, b: Word64): Alu<Word64>
    requires f.Valid()
  {
    match f.fn
    case 20 => Write(f.rd, Left64(b, a % 64))
    case 22 => Write(f.rd, if f.sa == 1 then RotateRight64(b, a) else Down(b, a % 64))
    case 23 => Write(f.rd, ShiftSigned64(b, a))
    case 28 => WriteHiLo(WideMultiply.SignedHigh(a, b), Low64(a * b))
    case 29 => WriteHiLo(WideMultiply.MultiplyHigh(a, b), Low64(a * b))
    case 30 => DivideDoublewords(a, b)
    case 31 => if b == 0 then WriteHiLo(a, W64 - 1) else WriteHiLo(Low64(a % b), Low64(a / b))
    case 44 => CheckedDoubleword(f.rd, a, (a >= W63) == (b >= W63), Low64(a + b))
    case 45 => Write(f.rd, Low64(a + b))
    case 46 => CheckedDoubleword(f.rd, a, (a >= W63) != (b >= W63), Low64(a - b))
    case 47 => Write(f.rd, Low64(a - b))
    case 56 => Write(f.rd, Left64(b, f.sa))
    case 58 => Write(f.rd, if f.rs == 1 then RotateRight64(b, f.sa) else Down(b, f.sa))
    case 59 => Write(f.rd, ShiftSigned64(b, f.sa))
    case 60 => Write(f.rd, Left64(b, f.sa + 32))
    case 62 => Write(f.rd, if f.rs == 1 then RotateRight64(b, f.sa + 32) else Down(b, f.sa + 32))
    case 63 => Write(f.rd, ShiftSigned64(b, f.sa + 32))
    case _ => Refused
  }

  /** A sum or difference overflows when the operands' signs allow it and the sign of the result is not that of a. */
  function CheckedDoubleword(r: nat, a: Word64, mayOverflow: bool, result: Word64): Alu<Word64> {
    if mayOverflow && (a >= W63) != (result >= W63) then Refused else Write(r, result)
  }

  function DivideDoublewords(a: Word64, b: Word64): Alu<Word64> {
    if b == 0 then WriteHiLo(a, if a >= W63 then 1 else W64 - 1)
    else if a == W63 && b == W64 - 1 then WriteHiLo(0, a)
    else WriteHiLo(Low64(Remainder(Signed64(a), Signed64(b))), Low64(Quotient(Signed64(a), Signed64(b))))
  }

  function Immediates(f: Fields, a: Word64): Alu<Word64>
    requires f.Valid()
  {
    match f.op
    case 8 => Checked(f.rt, Signed32(Low(a)) + SignedHalf(f.imm))
    case 9 => Write(f.rt, Word(Low(Low(a) + Low(SignedHalf(f.imm)))))
    case 10 => Write(f.rt, Bit(Signed64(a) < SignedHalf(f.imm)))
    case 11 => Write(f.rt, Bit(a < Immediate(f)))
    case 12 => Write(f.rt, Bits64(And, a, f.imm))
    case 13 => Write(f.rt, Bits64(Or, a, f.imm))
    case 14 => Write(f.rt, Bits64(Xor, a, f.imm))
    case _ => Write(f.rt, Word(Low(f.imm * W16)))
  }

  /** DADDI and DADDIU */
  function DoublewordImmediate(f: Fields, a: Word64): Alu<Word64> {
    var sum := Low64(a + Immediate(f));
    if f.op == 24 then CheckedDoubleword(f.rt, a, (a >= W63) == (Immediate(f) >= W63), sum) else Write(f.rt, sum)
  }

  /** MADD, MADDU, MSUB and MSUBU wrap around at 64 bits. */
  function Accumulate(f: Fields, a: Word64, b: Word64, hi: Word64, lo: Word64): Alu<Word64> {
    var product := if HasBit(f.fn, 1) then Low(a) * Low(b) else Signed32(Low(a)) * Signed32(Low(b));
    Words(Low(hi) * W32 + Low(lo) + if HasBit(f.fn, 4) then -product else product)
  }

  function Special2(f: Fields, a: Word64, b: Word64, hi: Word64, lo: Word64): Alu<Word64> {
    match f.fn
    case 0 => Accumulate(f, a, b, hi, lo)
    case 1 => Accumulate(f, a, b, hi, lo)
    case 4 => Accumulate(f, a, b, hi, lo)
    case 5 => Accumulate(f, a, b, hi, lo)
    case 2 => Write(f.rd, Word(Low(a * b)))
    case 32 => Write(f.rd, LeadingZeros64(Low(a), W31, 32))
    case 33 => Write(f.rd, LeadingZeros64(Low(Not64(a)), W31, 32))
    case 36 => Write(f.rd, LeadingZeros64(a, W63, 64))
    case 37 => Write(f.rd, LeadingZeros64(Not64(a), W63, 64))
    case _ => Refused
  }

  /** EXT, DEXTM, DEXTU and DEXT; none of them sign-extends. */
  function Extract(f: Fields, a: Word64): Alu<Word64>
    requires f.Valid()
  {
    var position := f.sa + if f.fn == 2 then 32 else 0;
    var bits := f.rd + if f.fn == 1 then 33 else 1;
    if position + bits > (if f.fn == 0 then 32 else 64) then Refused else Write(f.rt, Low64(Field(a, position, bits)))
  }

  /** INS, DINSM, DINSU and DINS */
  function Insert(f: Fields, a: Word64, b: Word64): Alu<Word64>
    requires f.Valid()
  {
    var position := f.sa + if f.fn == 6 then 32 else 0;
    var top := f.rd + if f.fn == 5 || f.fn == 6 then 32 else 0;
    if top < position || top >= (if f.fn == 4 then 32 else 64) then Refused
    else
      var value := WithField(b, position, top - position + 1, a);
      Write(f.rt, if f.fn == 4 then Word(Low(value)) else Low64(value))
  }

  /** DSBH and DSHD */
  function SwapDoubleword(v: Word64, halves: bool): Word64 {
    if halves then
      v % W16 * 0x1_0000_0000_0000 + v / W16 % W16 * W32 + v / W32 % W16 * W16 + v / 0x1_0000_0000_0000
    else SwapBytes(v % W32) + SwapBytes(v / W32) * W32
  }

  function Special3(f: Fields, a: Word64, b: Word64): Alu<Word64>
    requires f.Valid()
  {
    if f.fn <= 3 then Extract(f, a)
    else if f.fn <= 7 then Insert(f, a, b)
    else
      match f.fn
      case 32 =>
        (match f.sa
         case 2 => Write(f.rd, Word(SwapBytes(Low(b))))
         case 16 => Write(f.rd, Low64(SignedByte(b)))
         case 24 => Write(f.rd, Low64(SignedHalf(b)))
         case _ => Refused)
      case 36 =>
        (match f.sa
         case 2 => Write(f.rd, SwapDoubleword(b, false))
         case 5 => Write(f.rd, SwapDoubleword(b, true))
         case _ => Refused)
      case _ => Refused
  }

  /** Every instruction that is no branch, break or access. */
  function Operate(f: Fields, a: Word64, b: Word64, hi: Word64, lo: Word64): Alu<Word64>
    requires f.Valid()
  {
    if f.op == 0 then Special(f, a, b, hi, lo)
    else if f.op == 1 then if f.rt == 31 then Nothing else Refused
    else if 8 <= f.op <= 15 then Immediates(f, a)
    else if f.op == 24 || f.op == 25 then DoublewordImmediate(f, a)
    else if f.op == 28 then Special2(f, a, b, hi, lo)
    else if f.op == 31 then Special3(f, a, b)
    else if f.op == 47 || f.op == 51 then Nothing
    else Refused
  }

  // ----------------------------------------------------------------------
  // Branches
  // ----------------------------------------------------------------------

  function Jump(f: Fields, a: Word64, pc: Word64): Branch<Word64>
    requires f.Valid()
  {
    if f.op == 0 then Branch(true, a, false, if f.fn == 9 then Some(f.rd) else None)
    else
      Branch(true, Low64(pc + 4) / 0x1000_0000 * 0x1000_0000 + f.raw % 0x400_0000 * 4, false, if f.op == 3 then Some(31) else None)
  }

  predicate Taken(f: Fields, a: Word64, b: Word64) {
    if f.op == 1 then (if HasBit(f.rt, 1) then Signed64(a) >= 0 else Signed64(a) < 0)
    else if f.op == 4 || f.op == 20 then a == b
    else if f.op == 5 || f.op == 21 then a != b
    else if f.op == 6 || f.op == 22 then Signed64(a) <= 0
    else Signed64(a) > 0
  }

  function Conditional(f: Fields, a: Word64, b: Word64, pc: Word64): Branch<Word64> {
    var taken := Taken(f, a, b);
    Branch(taken, Low64(if taken then pc + 4 + SignedHalf(f.imm) * 4 else pc + 8), IsLikely(f),
           if f.op == 1 && HasBit(f.rt, 16) then Some(31) else None)
  }

  // ----------------------------------------------------------------------
  // Loads and stores
  // ----------------------------------------------------------------------

  /** m64_load */
  function Load(s: Cpu64, address: Word64, size: nat): Option<nat>
    requires 0 < size <= 8
  {
    if address + size > W64 || !Holds(s.mem, address, size) then None
    else Some(Assemble(ReadBytes(s.mem, address, size), s.big, size))
  }

  /** m64_store; a store that reaches memory ends any reservation. */
  function Store(s: Cpu64, address: Word64, size: nat, v: nat): Access<Word64>
    requires 0 < size <= 8
  {
    if address + size > W64 then Access(AddressFault, s.mem, s.reservation, None)
    else if !Holds(s.mem, address, size) then Access(AddressFault, s.mem, None, None)
    else Access(Ok, WriteBytes(s.mem, address, Split(v, size, s.big)), None, None)
  }

  /** LDL, LDR, LWU, SDL, SDR, LLD, LD, SCD and SD come on top of the word accesses. */
  predicate IsAccess(f: Fields) {
    IsWordAccess(f) || f.op == 26 || f.op == 27 || f.op == 39 || f.op == 44 || f.op == 45 || f.op == 52 || f.op == 55 || f.op == 60 || f.op == 63
  }

  /** The size of the access of an aligned opcode. */
  function SizeOf(f: Fields): (n: nat)
    ensures n == 1 || n == 2 || n == 4 || n == 8
  {
    if f.op == 32 || f.op == 36 || f.op == 40 then 1
    else if f.op == 33 || f.op == 37 || f.op == 41 then 2
    else if f.op == 52 || f.op == 55 || f.op == 60 || f.op == 63 then 8
    else 4
  }

  predicate IsUnaligned(f: Fields) {
    f.op == 26 || f.op == 27 || f.op == 34 || f.op == 38 || f.op == 42 || 44 <= f.op <= 46
  }

  predicate IsStore(f: Fields) {
    40 <= f.op <= 46 || f.op == 56 || f.op == 60 || f.op == 63
  }

  predicate IsLinked(f: Fields) {
    f.op == 48 || f.op == 52
  }

  predicate IsConditionalStore(f: Fields) {
    f.op == 56 || f.op == 60
  }

  /** What an aligned load makes of the bytes it read. */
  function Extended(f: Fields, v: nat): Word64 {
    Low64(if f.op == 32 then SignedByte(v) else if f.op == 33 then SignedHalf(v)
          else if f.op == 35 || f.op == 48 then Word(Low(v)) else v)
  }

  function AlignedLoad(s: Cpu64, f: Fields, address: Word64): Access<Word64> {
    match Load(s, address, SizeOf(f))
    case None => Access(AddressFault, s.mem, s.reservation, None)
    case Some(v) =>
      Access(Ok, s.mem, if IsLinked(f) then Some(Reservation(address, SizeOf(f))) else s.reservation, Some((f.rt, Extended(f, v))))
  }

  /** SC and SCD store when their address is linked with their size, and say so in their register. */
  function StoreConditional(s: Cpu64, f: Fields, address: Word64, b: Word64): Access<Word64> {
    if s.reservation != Some(Reservation(address, SizeOf(f))) then Access(Ok, s.mem, None, Some((f.rt, 0)))
    else
      var stored := Store(s.(reservation := None), address, SizeOf(f), b);
      if stored.status == Ok then stored.(write := Some((f.rt, 1))) else stored
  }

  /** The accesses to the part of a doubleword, or of a word, on one side of an address. */
  function Unaligned(s: Cpu64, f: Fields, address: Word64, b: Word64): Access<Word64> {
    var bytes := if f.op == 26 || f.op == 27 || f.op == 44 || f.op == 45 then 8 else 4;
    var left := f.op == 26 || f.op == 34 || f.op == 42 || f.op == 44;
    var offset := if bytes == 8 then address % 8 else address % 4;
    var size := if left == s.big then bytes - offset else offset + 1;
    var at := if left == s.big then address else address - offset;
    var shift := if left then bytes - size else 0;
    if IsStore(f) then Store(s, at, size, Down(b, 8 * shift))
    else
      match Load(s, at, size)
      case None => Access(AddressFault, s.mem, s.reservation, None)
      case Some(v) =>
        var merged := WithField(b, 8 * shift, 8 * size, v);
        Access(Ok, s.mem, s.reservation, Some((f.rt, if bytes == 4 then Word(Low(merged)) else Low64(merged))))
  }

  function Address(f: Fields, a: Word64): Word64 {
    Low64(a + Immediate(f))
  }

  function Accesses(s: Cpu64, f: Fields, a: Word64, b: Word64): Access<Word64> {
    var address := Address(f, a);
    if IsUnaligned(f) then Unaligned(s, f, address, b)
    else if !Aligned(address, SizeOf(f)) then Access(AddressFault, s.mem, s.reservation, None)
    else if !IsStore(f) then AlignedLoad(s, f, address)
    else if IsConditionalStore(f) then StoreConditional(s, f, address, b)
    else Store(s, address, SizeOf(f), b)
  }

  lemma AccessWritesTarget(s: Cpu64, f: Fields, a: Word64, b: Word64)
    ensures var w := Accesses(s, f, a, b).write; w.Some? ==> w.value.0 == f.rt
  {
    hide Load, Assemble, WithField, Down, Extended, Split;
  }

  // ----------------------------------------------------------------------
  // One step
  // ----------------------------------------------------------------------

  function NextPc(s: Cpu64): Word64 {
    if s.delayed then s.target else Low64(s.pc + 4)
  }

  /** The registers after an instruction that falls through. */
  function Retire(s: Cpu64, write: Option<(nat, Word64)>): (t: Cpu64)
    requires Valid(s) && (write.Some? ==> write.value.0 < 32)
    ensures Valid(t)
  {
    s.(gpr := Written(s.gpr, 0, write), pc := NextPc(s), delayed := false)
  }

  function FollowBranch(s: Cpu64, br: Branch<Word64>): (r: (Cpu64, Status))
    requires Valid(s) && (br.link.Some? ==> br.link.value < 32)
    ensures Valid(r.0)
  {
    if s.delayed then (s, UnsupportedInstruction)
    else
      var t := s.(gpr := Written(s.gpr, 0, if br.link.Some? then Some((br.link.value, Low64(s.pc + 8))) else None));
      if br.likely && !br.taken then (t.(pc := Low64(s.pc + 8)), Ok)
      else (t.(pc := Low64(s.pc + 4), delayed := true, target := br.target), Ok)
  }

  function FinishAccess(s: Cpu64, x: Access<Word64>): (r: (Cpu64, Status))
    requires Valid(s) && (x.write.Some? ==> x.write.value.0 < 32)
    ensures Valid(r.0)
  {
    var t := s.(mem := x.mem, reservation := x.reservation);
    if x.status != Ok then (t, x.status) else (Retire(t, x.write), Ok)
  }

  function FinishAlu(s: Cpu64, x: Alu<Word64>): (r: (Cpu64, Status))
    requires Valid(s) && (x.Write? ==> x.register < 32)
    ensures Valid(r.0)
  {
    match x
    case Write(r, v) => (Retire(s, Some((r, v))), Ok)
    case WriteHiLo(hi, lo) => (Retire(s.(hi := hi, lo := lo), None), Ok)
    case Nothing => (Retire(s, None), Ok)
    case Refused => (s, UnsupportedInstruction)
  }

  lemma OperateWritesTarget(f: Fields, a: Word64, b: Word64, hi: Word64, lo: Word64)
    requires f.Valid()
    ensures var x := Operate(f, a, b, hi, lo); x.Write? ==> x.register < 32
  {
    hide Left32, Left64, Down, RotateRight32, RotateRight64, ShiftSigned64, Bits64, Field, WithField, SwapBytes, Quotient, Remainder, LeadingZeros64,
      SignedHalf, SignedByte, Word, Low64, WideMultiply.SignedHigh, WideMultiply.MultiplyHigh;
  }

  function Execute(s: Cpu64, f: Fields): (r: (Cpu64, Status))
    requires Valid(s) && f.Valid()
    ensures Valid(r.0)
  {
    var a, b := Reg(s, f.rs), Reg(s, f.rt);
    if IsBreak(f) then
      if s.debugTraps then (Retire(s, None), Breakpoint) else (Retire(s, None).(halted := true), Halted)
    else if IsJump(f) then FollowBranch(s, Jump(f, a, s.pc))
    else if IsConditional(f) then FollowBranch(s, Conditional(f, a, b, s.pc))
    else if IsAccess(f) then
      AccessWritesTarget(s, f, a, b);
      FinishAccess(s, Accesses(s, f, a, b))
    else
      OperateWritesTarget(f, a, b, s.hi, s.lo);
      FinishAlu(s, Operate(f, a, b, s.hi, s.lo))
  }

  /** The instruction at pc, as the decoder accepts it. */
  function FetchInstruction(s: Cpu64, decodes: Word32 -> bool): (Status, Word32) {
    if s.pc % 4 != 0 || !Holds(s.mem, s.pc, 4) then (AddressFault, 0)
    else
      var raw := Low(Assemble(ReadBytes(s.mem, s.pc, 4), s.big, 4));
      if decodes(raw) then (Ok, raw) else (DecodeError, raw)
  }

  /** xxemul_mips64_step, without a Linux process behind it. */
  function Step(s: Cpu64, decodes: Word32 -> bool): (r: (Cpu64, Status))
    requires Valid(s)
    ensures Valid(r.0)
  {
    var (status, raw) := FetchInstruction(s, decodes);
    if status != Ok then (s, status) else Execute(s, FieldsOf(raw))
  }
}

/** The 32-bit MIPS core: one step (src/xxemul_mips.c, lines 10-285). */
module Mips32 {
  import opened Arithmetic
  import opened Wrappers
  import opened GuestMemory
  import opened MipsWords

  datatype Cpu32 = Cpu32(
    gpr: seq<Word32>, hi: Word32, lo: Word32, pc: Word32,
    delayed: bool, target: Word32,
    reservation: Option<Reservation>,
    mem: Memory, big: bool, debugTraps: bool, halted: bool)

  predicate Valid(s: Cpu32) {
    |s.gpr| == 32
  }

  function Reg(s: Cpu32, r: nat): Word32
    requires Valid(s) && r < 32
  {
    Read(s.gpr, 0, r)
  }

  function Immediate(f: Fields): Word32 {
    Low(SignedHalf(f.imm))
  }

  // ----------------------------------------------------------------------
  // Arithmetic
  // ----------------------------------------------------------------------

  /** A result of ADD, ADDI or SUB that does not fit. */
  predicate Overflows(result: int) {
    result < -W31 || result > W31 - 1
  }

  function Special(f: Fields, a: Word32, b: Word32, hi: Word32, lo: Word32): Alu<Word32>
    requires f.Valid()
  {
    match f.fn
    case 0 => Write(f.rd, Left32(b, f.sa))
    case 2 => Write(f.rd, if f.rs == 1 then RotateRight32(b, f.sa) else Down(b, f.sa))
    case 3 => Write(f.rd, ShiftSigned32(b, f.sa))
    case 4 => Write(f.rd, Left32(b, a % 32))
    case 6 => Write(f.rd, if f.sa == 1 then RotateRight32(b, a) else Down(b, a % 32))
    case 7 => Write(f.rd, ShiftSigned32(b, a))
    case 10 => if b == 0 then Write(f.rd, a) else Nothing
    case 11 => if b != 0 then Write(f.rd, a) else Nothing
    case 15 => Nothing
    case 16 => Write(f.rd, hi)
    case 17 => WriteHiLo(a, lo)
    case 18 => Write(f.rd, lo)
    case 19 => WriteHiLo(hi, a)
    case 24 => Doubleword(Signed32(a) * Signed32(b))
    case 25 => Doubleword(a * b)
    case 26 => DivideSigned(a, b)
    case 27 => DivideUnsigned(a, b)
    case 32 => Checked(f.rd, Signed32(a) + Signed32(b))
    case 34 => Checked(f.rd, Signed32(a) - Signed32(b))
    case 33 => Write(f.rd, Low(a + b))
    case 35 => Write(f.rd, Low(a - b))
    case 36 => Write(f.rd, Bits32(And, a, b))
    case 37 => Write(f.rd, Bits32(Or, a, b))
    case 38 => Write(f.rd, Bits32(Xor, a, b))
    case 39 => Write(f.rd, Not32(Bits32(Or, a, b)))
    case 42 => Write(f.rd, Bit(Signed32(a) < Signed32(b)))
    case 43 => Write(f.rd, Bit(a < b))
    case _ => Refused
  }

  /** HI and LO hold the two words of a product. */
  function Doubleword(product: int): Alu<Word32> {
    WriteHiLo(Low64(product) / W32, Low(product))
  }

  function Checked(r: nat, result: int): Alu<Word32> {
    if Overflows(result) then Refused else Write(r, Low(result))
  }

  function DivideSigned(a: Word32, b: Word32): Alu<Word32> {
    if b == 0 then WriteHiLo(a, if Signed32(a) < 0 then 1 else W32 - 1)
    else if a == W31 && b == W32 - 1 then WriteHiLo(0, a)
    else WriteHiLo(Low(Remainder(Signed32(a), Signed32(b))), Low(Quotient(Signed32(a), Signed32(b))))
  }

  function DivideUnsigned(a: Word32, b: Word32): Alu<Word32> {
    if b == 0 then WriteHiLo(a, W32 - 1) else WriteHiLo(Low(a % b), Low(a / b))
  }

  function Immediates(f: Fields, a: Word32): Alu<Word32>
    requires f.Valid()
  {
    match f.op
    case 8 => Checked(f.rt, Signed32(a) + SignedHalf(f.imm))
    case 9 => Write(f.rt, Low(a + Immediate(f)))
    case 10 => Write(f.rt, Bit(Signed32(a) < SignedHalf(f.imm)))
    case 11 => Write(f.rt, Bit(a < Immediate(f)))
    case 12 => Write(f.rt, Bits32(And, a, f.imm))
    case 13 => Write(f.rt, Bits32(Or, a, f.imm))
    case 14 => Write(f.rt, Bits32(Xor, a, f.imm))
    case _ => Write(f.rt, Low(f.imm * W16))
  }

  /** MADD, MADDU, MSUB and MSUBU wrap around at 64 bits. */
  function Accumulate(f: Fields, a: Word32, b: Word32, hi: Word32, lo: Word32): Alu<Word32> {
    var product := if HasBit(f.fn, 1) then a * b else Signed32(a) * Signed32(b);
    Doubleword(hi * W32 + lo + if HasBit(f.fn, 4) then -product else product)
  }

  function Special2(f: Fields, a: Word32, b: Word32, hi: Word32, lo: Word32): Alu<Word32> {
    match f.fn
    case 0 => Accumulate(f, a, b, hi, lo)
    case 1 => Accumulate(f, a, b, hi, lo)
    case 4 => Accumulate(f, a, b, hi, lo)
    case 5 => Accumulate(f, a, b, hi, lo)
    case 2 => Write(f.rd, Low(a * b))
    case 32 => Write(f.rd, LeadingZeros32(a, 32))
    case 33 => Write(f.rd, LeadingZeros32(Not32(a), 32))
    case _ => Refused
  }

  function Special3(f: Fields, a: Word32, b: Word32): Alu<Word32>
    requires f.Valid()
  {
    match f.fn
    case 0 => if f.sa + f.rd + 1 > 32 then Refused else Write(f.rt, Low(Field(a, f.sa, f.rd + 1)))
    case 4 => if f.rd < f.sa then Refused else Write(f.rt, Low(WithField(b, f.sa, f.rd - f.sa + 1, a)))
    case 32 =>
      (match f.sa
       case 2 => Write(f.rd, SwapBytes(b))
       case 16 => Write(f.rd, Low(SignedByte(b)))
       case 24 => Write(f.rd, Low(SignedHalf(b)))
       case _ => Refused)
    case _ => Refused
  }

  /** Every instruction that is no branch, break or access. */
  function Operate(f: Fields, a: Word32, b: Word32, hi: Word32, lo: Word32): Alu<Word32>
    requires f.Valid()
  {
    if f.op == 0 then Special(f, a, b, hi, lo)
    else if f.op == 1 then if f.rt == 31 then Nothing else Refused
    else if 8 <= f.op <= 15 then Immediates(f, a)
    else if f.op == 28 then Special2(f, a, b, hi, lo)
    else if f.op == 31 then Special3(f, a, b)
    else if f.op == 47 || f.op == 51 then Nothing
    else Refused
  }

  // ----------------------------------------------------------------------
  // Branches
  // ----------------------------------------------------------------------

  function Jump(f: Fields, a: Word32, pc: Word32): Branch<Word32>
    requires f.Valid()
  {
    if f.op == 0 then Branch(true, a, false, if f.fn == 9 then Some(f.rd) else None)
    else
      Branch(true, Low(pc + 4) / 0x1000_0000 * 0x1000_0000 + f.raw % 0x400_0000 * 4, false, if f.op == 3 then Some(31) else None)
  }

  predicate Taken(f: Fields, a: Word32, b: Word32) {
    if f.op == 1 then (if HasBit(f.rt, 1) then Signed32(a) >= 0 else Signed32(a) < 0)
    else if f.op == 4 || f.op == 20 then a == b
    else if f.op == 5 || f.op == 21 then a != b
    else if f.op == 6 || f.op == 22 then Signed32(a) <= 0
    else Signed32(a) > 0
  }

  function Conditional(f: Fields, a: Word32, b: Word32, pc: Word32): Branch<Word32> {
    var taken := Taken(f, a, b);
    Branch(taken, Low(if taken then pc + 4 + SignedHalf(f.imm) * 4 else pc + 8), IsLikely(f),
           if f.op == 1 && HasBit(f.rt, 16) then Some(31) else None)
  }

  // ----------------------------------------------------------------------
  // Loads and stores
  // ----------------------------------------------------------------------

  /** mips_load */
  function Load(s: Cpu32, address: Word32, size: nat): Option<nat>
    requires 0 < size <= 4
  {
    if address + size > W32 || !Holds(s.mem, address, size) then None
    else Some(Assemble(ReadBytes(s.mem, address, size), s.big, size))
  }

  /** mips_store; a store that reaches memory ends any reservation. */
  function Store(s: Cpu32, address: Word32, size: nat, v: nat): Access<Word32>
    requires 0 < size <= 4
  {
    if address + size > W32 then Access(AddressFault, s.mem, s.reservation, None)
    else if !Holds(s.mem, address, size) then Access(AddressFault, s.mem, None, None)
    else Access(Ok, WriteBytes(s.mem, address, Split(v, size, s.big)), None, None)
  }

  /** The size of the access of an aligned opcode. */
  function SizeOf(f: Fields): (n: nat)
    ensures n == 1 || n == 2 || n == 4
  {
    if f.op == 32 || f.op == 36 || f.op == 40 then 1 else if f.op == 33 || f.op == 37 || f.op == 41 then 2 else 4
  }

  predicate IsUnaligned(f: Fields) {
    f.op == 34 || f.op == 38 || f.op == 42 || f.op == 46
  }

  predicate IsStore(f: Fields) {
    f.op >= 40 && f.op != 48
  }

  predicate IsLinked(f: Fields) {
    f.op == 48
  }

  predicate IsConditionalStore(f: Fields) {
    f.op == 56
  }

  /** What an aligned load makes of the bytes it read. */
  function Extended(f: Fields, v: nat): Word32 {
    Low(if f.op == 32 then SignedByte(v) else if f.op == 33 then SignedHalf(v) else v)
  }

  function AlignedLoad(s: Cpu32, f: Fields, address: Word32): Access<Word32> {
    match Load(s, address, SizeOf(f))
    case None => Access(AddressFault, s.mem, s.reservation, None)
    case Some(v) =>
      Access(Ok, s.mem, if IsLinked(f) then Some(Reservation(address, 4)) else s.reservation, Some((f.rt, Extended(f, v))))
  }

  /** SC stores when its address is linked, and says so in its register. */
  function StoreConditional(s: Cpu32, f: Fields, address: Word32, b: Word32): Access<Word32> {
    if s.reservation != Some(Reservation(address, 4)) then Access(Ok, s.mem, None, Some((f.rt, 0)))
    else
      var stored := Store(s.(reservation := None), address, 4, b);
      if stored.status == Ok then stored.(write := Some((f.rt, 1))) else stored
  }

  /** LWL, LWR, SWL and SWR touch the part of a word on one side of an address. */
  function Unaligned(s: Cpu32, f: Fields, address: Word32, b: Word32): Access<Word32> {
    var left := f.op == 34 || f.op == 42;
    var offset := address % 4;
    var size := if left == s.big then 4 - offset else offset + 1;
    var at := if left == s.big then address else address / 4 * 4;
    var shift := if left then 4 - size else 0;
    if IsStore(f) then Store(s, at, size, Down(b, 8 * shift))
    else
      match Load(s, at, size)
      case None => Access(AddressFault, s.mem, s.reservation, None)
      case Some(v) => Access(Ok, s.mem, s.reservation, Some((f.rt, Low(WithField(b, 8 * shift, 8 * size, v)))))
  }

  function Address(f: Fields, a: Word32): Word32 {
    Low(a + Immediate(f))
  }

  function Accesses(s: Cpu32, f: Fields, a: Word32, b: Word32): Access<Word32> {
    var address := Address(f, a);
    if IsUnaligned(f) then Unaligned(s, f, address, b)
    else if !Aligned(address, SizeOf(f)) then Access(AddressFault, s.mem, s.reservation, None)
    else if !IsStore(f) then AlignedLoad(s, f, address)
    else if IsConditionalStore(f) then StoreConditional(s, f, address, b)
    else Store(s, address, SizeOf(f), b)
  }

  lemma AccessWritesTarget(s: Cpu32, f: Fields, a: Word32, b: Word32)
    ensures var w := Accesses(s, f, a, b).write; w.Some? ==> w.value.0 == f.rt
  {
    hide Load, Assemble, WithField, Down, Extended, Split;
  }

  // ----------------------------------------------------------------------
  // One step
  // ----------------------------------------------------------------------

  function NextPc(s: Cpu32): Word32 {
    if s.delayed then s.target else Low(s.pc + 4)
  }

  /** The registers after an instruction that falls through. */
  function Retire(s: Cpu32, write: Option<(nat, Word32)>): (t: Cpu32)
    requires Valid(s) && (write.Some? ==> write.value.0 < 32)
    ensures Valid(t)
  {
    s.(gpr := Written(s.gpr, 0, write), pc := NextPc(s), delayed := false)
  }

  function FollowBranch(s: Cpu32, br: Branch<Word32>): (r: (Cpu32, Status))
    requires Valid(s) && (br.link.Some? ==> br.link.value < 32)
    ensures Valid(r.0)
  {
    if s.delayed then (s, UnsupportedInstruction)
    else
      var t := s.(gpr := Written(s.gpr, 0, if br.link.Some? then Some((br.link.value, Low(s.pc + 8))) else None));
      if br.likely && !br.taken then (t.(pc := Low(s.pc + 8)), Ok)
      else (t.(pc := Low(s.pc + 4), delayed := true, target := br.target), Ok)
  }

  function FinishAccess(s: Cpu32, x: Access<Word32>): (r: (Cpu32, Status))
    requires Valid(s) && (x.write.Some? ==> x.write.value.0 < 32)
    ensures Valid(r.0)
  {
    var t := s.(mem := x.mem, reservation := x.reservation);
    if x.status != Ok then (t, x.status) else (Retire(t, x.write), Ok)
  }

  function FinishAlu(s: Cpu32, x: Alu<Word32>): (r: (Cpu32, Status))
    requires Valid(s) && (x.Write? ==> x.register < 32)
    ensures Valid(r.0)
  {
    match x
    case Write(r, v) => (Retire(s, Some((r, v))), Ok)
    case WriteHiLo(hi, lo) => (Retire(s.(hi := hi, lo := lo), None), Ok)
    case Nothing => (Retire(s, None), Ok)
    case Refused => (s, UnsupportedInstruction)
  }

  lemma OperateWritesTarget(f: Fields, a: Word32, b: Word32, hi: Word32, lo: Word32)
    requires f.Valid()
    ensures var x := Operate(f, a, b, hi, lo); x.Write? ==> x.register < 32
  {
    hide Left32, Down, RotateRight32, ShiftSigned32, Bits32, Field, WithField, SwapBytes, Quotient, Remainder, LeadingZeros32, SignedHalf, SignedByte;
  }

  function Execute(s: Cpu32, f: Fields): (r: (Cpu32, Status))
    requires Valid(s) && f.Valid()
    ensures Valid(r.0)
  {
    var a, b := Reg(s, f.rs), Reg(s, f.rt);
    if IsBreak(f) then
      if s.debugTraps then (Retire(s, None), Breakpoint) else (Retire(s, None).(halted := true), Halted)
    else if IsJump(f) then FollowBranch(s, Jump(f, a, s.pc))
    else if IsConditional(f) then FollowBranch(s, Conditional(f, a, b, s.pc))
    else if IsWordAccess(f) then
      AccessWritesTarget(s, f, a, b);
      FinishAccess(s, Accesses(s, f, a, b))
    else
      OperateWritesTarget(f, a, b, s.hi, s.lo);
      FinishAlu(s, Operate(f, a, b, s.hi, s.lo))
  }

  /** The instruction at pc, as the decoder accepts it. */
  function FetchInstruction(s: Cpu32, decodes: Word32 -> bool): (Status, Word32) {
    if s.pc % 4 != 0 || !Holds(s.mem, s.pc, 4) then (AddressFault, 0)
    else
      var raw := Low(Assemble(ReadBytes(s.mem, s.pc, 4), s.big, 4));
      if decodes(raw) then (Ok, raw) else (DecodeError, raw)
  }

  /** xxemul_mips_step, without a Linux process behind it. */
  function Step(s: Cpu32, decodes: Word32 -> bool): (r: (Cpu32, Status))
    requires Valid(s)
    ensures Valid(r.0)
  {
    var (status, raw) := FetchInstruction(s, decodes);
    if status != Ok then (s, status) else Execute(s, FieldsOf(raw))
  }
}

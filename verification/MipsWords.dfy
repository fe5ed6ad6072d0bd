/**
  Words of the two MIPS cores (src/xxemul_mips.c, lines 55-72;
  src/xxemul_mips64.c, lines 48-72) as integers below a power of two.  A 64-bit
  register that holds a 32-bit value holds its sign extension.  A mask of low
  bits is a remainder, and a shift a product or quotient with a power of two.
*/
module MipsWords {
  import opened Arithmetic
  import opened Wrappers
  import opened GuestMemory

  const W16 := 0x1_0000
  const W31 := 0x8000_0000
  const W32 := 0x1_0000_0000
  const W63 := 0x8000_0000_0000_0000
  const W64 := 0x1_0000_0000_0000_0000

  type Word32 = v: nat | v < 0x1_0000_0000
  type Word64 = v: nat | v < 0x1_0000_0000_0000_0000

  function Low(v: int): Word32 { v % W32 }
  function Low64(v: int): Word64 { v % W64 }
  function Signed32(v: Word32): int { if v < W31 then v else v - W32 }
  function Signed64(v: Word64): int { if v < W63 then v else v - W64 }

  /** m64_word */
  function Word(v: Word32): Word64 {
    if v < W31 then v else v + (W64 - W32)
  }

  /** A 16-bit immediate as a number. */
  function SignedHalf(v: nat): int {
    if v % W16 < 0x8000 then v % W16 else v % W16 - W16
  }

  function SignedByte(v: nat): int {
    if v % 0x100 < 0x80 then v % 0x100 else v % 0x100 - 0x100
  }

  function Bit(c: bool): (b: nat)
    ensures b < 2
  {
    if c then 1 else 0
  }

  predicate HasBit(v: nat, weight: nat)
    requires weight > 0
  {
    v / weight % 2 == 1
  }

  // --- Bitwise operations --------------------------------------------------------

  datatype Bitwise = And | Or | Xor

  function OneBit(op: Bitwise, a: nat, b: nat): (r: nat)
    ensures r < 2 && (a % 2 == 0 && b % 2 == 0 ==> r == 0)
  {
    match op
    case And => if a % 2 == 1 && b % 2 == 1 then 1 else 0
    case Or => if a % 2 == 1 || b % 2 == 1 then 1 else 0
    case Xor => if a % 2 != b % 2 then 1 else 0
  }

  function Bits(op: Bitwise, a: nat, b: nat): nat {
    if a == 0 && b == 0 then 0 else OneBit(op, a, b) + 2 * Bits(op, a / 2, b / 2)
  }

  lemma {:induction false} BitsBound(op: Bitwise, a: nat, b: nat, n: nat)
    requires a < Pow2(n) && b < Pow2(n)
    ensures Bits(op, a, b) < Pow2(n)
  {
    if n > 0 {
      BitsBound(op, a / 2, b / 2, n - 1);
    }
  }

  function Bits32(op: Bitwise, a: Word32, b: Word32): Word32 {
    Pow2Words();
    BitsBound(op, a, b, 32);
    Bits(op, a, b)
  }

  function Bits64(op: Bitwise, a: Word64, b: Word64): Word64 {
    Pow2Words();
    BitsBound(op, a, b, 64);
    Bits(op, a, b)
  }

  function Not32(a: Word32): Word32 { W32 - 1 - a }
  function Not64(a: Word64): Word64 { W64 - 1 - a }

  // --- Shifts and fields ---------------------------------------------------------

  function Up(v: nat, n: nat): nat { v * Pow2(n) }

  function LowBits(v: nat, n: nat): (r: nat)
    ensures r < Pow2(n)
  {
    v % Pow2(n)
  }

  function Left32(v: Word32, n: nat): Word32 { Low(Up(v, n)) }
  function Left64(v: Word64, n: nat): Word64 { Low64(Up(v, n)) }

  function Down(v: nat, n: nat): (r: nat)
    ensures r <= v
  {
    NaturalQuotient(v, Pow2(n));
    v / Pow2(n)
  }

  /** mips_ror, m64_ror_word */
  function RotateRight32(v: Word32, n: nat): Word32 {
    var s := n % 32;
    if s == 0 then v else Low(Down(v, s) + Left32(v, 32 - s))
  }

  /** m64_ror */
  function RotateRight64(v: Word64, n: nat): Word64 {
    var s := n % 64;
    if s == 0 then v else Low64(Down(v, s) + Left64(v, 64 - s))
  }

  /** mips_sar: the vacated bits of a negative value are ones. */
  function ShiftSigned32(v: Word32, n: nat): Word32 {
    var s := n % 32;
    if s != 0 && v >= W31 then Low(Down(v, s) + (W32 - Pow2(32 - s))) else Down(v, s)
  }

  /** m64_sar */
  function ShiftSigned64(v: Word64, n: nat): Word64 {
    var s := n % 64;
    if s != 0 && v >= W63 then Low64(Down(v, s) + (W64 - Pow2(64 - s))) else Down(v, s)
  }

  /** The bits of v from a position on. */
  function Field(v: nat, position: nat, bits: nat): (r: nat)
    ensures r < Pow2(bits)
  {
    LowBits(Down(v, position), bits)
  }

  /** v with such a field replaced by the low bits of another value. */
  function WithField(v: nat, position: nat, bits: nat, field: nat): nat {
    Up(Down(v, position + bits), position + bits) + Up(LowBits(field, bits), position) + LowBits(v, position)
  }

  /** The bytes of each half exchanged. */
  function SwapBytes(v: nat): (r: nat)
    ensures r < W32
  {
    v / 0x100_0000 % 0x100 * 0x1_0000 + v / 0x1_0000 % 0x100 * 0x100_0000 + v / 0x100 % 0x100 + v % 0x100 * 0x100
  }

  // --- Counting zeros ------------------------------------------------------------

  /** The loop of CLZ: at most `left` zeros from bit 31 down. */
  function LeadingZeros32(v: Word32, left: nat): (n: nat)
    ensures n <= left
    decreases left
  {
    if left == 0 || v >= W31 then 0 else 1 + LeadingZeros32(Low(2 * v), left - 1)
  }

  /** The same in a 64-bit value, from the bit of a weight down. */
  function LeadingZeros64(v: Word64, weight: nat, left: nat): (n: nat)
    requires weight > 0
    ensures n <= left
    decreases left
  {
    if left == 0 || HasBit(v, weight) then 0 else 1 + LeadingZeros64(Low64(2 * v), weight, left - 1)
  }

  // --- Bytes in memory -----------------------------------------------------------

  /** Which byte of a value of a size the i-th byte in memory is, from the low end. */
  function Significance(size: nat, i: nat, big: bool): nat
    requires i < size
  {
    if big then size - 1 - i else i
  }

  /** The value of the first k bytes of a load. */
  function Assemble(b: seq<byte>, big: bool, k: nat): nat
    requires k <= |b|
  {
    if k == 0 then 0 else Assemble(b, big, k - 1) + b[k - 1] * Pow256(Significance(|b|, k - 1, big))
  }

  function ByteOf(v: nat, place: nat): byte {
    v / Pow256(place) % 0x100
  }

  /** The bytes a store of a size writes. */
  function Split(v: nat, size: nat, big: bool): (b: seq<byte>)
    ensures |b| == size
  {
    seq(size, i requires 0 <= i < size => ByteOf(v, Significance(size, i, big)))
  }

  // ----------------------------------------------------------------------
  // Instructions
  // ----------------------------------------------------------------------

  datatype Fields = Fields(raw: Word32, op: nat, rs: nat, rt: nat, rd: nat, sa: nat, fn: nat, imm: nat) {
    predicate Valid() {
      op < 64 && rs < 32 && rt < 32 && rd < 32 && sa < 32 && fn < 64 && imm < 0x1_0000
    }
  }

  function FieldsOf(i: Word32): (f: Fields)
    ensures f.Valid()
  {
    Fields(i, i / 0x400_0000, i / 0x20_0000 % 32, i / 0x1_0000 % 32, i / 0x800 % 32, i / 0x40 % 32, i % 64, i % 0x1_0000)
  }

  /** A linked address and its size. */
  datatype Reservation = Reservation(address: nat, size: nat)

  /** What an instruction that is no branch and no access does. */
  datatype Alu<T> = Write(register: nat, value: T) | WriteHiLo(hi: T, lo: T) | Nothing | Refused

  /** A branch: where it goes, whether its delay slot may be skipped, and the register that gets the return address. */
  datatype Branch<T> = Branch(taken: bool, target: T, likely: bool, link: Option<nat>)

  /** The outcome of a load or a store; when it fails memory and registers are as before. */
  datatype Access<T> = Access(status: Status, mem: Memory, reservation: Option<Reservation>, write: Option<(nat, T)>)

  // --- Which instructions the cores share ----------------------------------------

  predicate IsBreak(f: Fields) {
    f.op == 0 && f.fn == 13
  }

  predicate IsJump(f: Fields) {
    (f.op == 0 && (f.fn == 8 || f.fn == 9)) || f.op == 2 || f.op == 3
  }

  /** BLTZ, BGEZ and their likely and linking forms. */
  predicate IsSignBranch(f: Fields) {
    f.op == 1 && (f.rt <= 3 || 16 <= f.rt <= 19)
  }

  predicate IsConditional(f: Fields) {
    IsSignBranch(f) || 4 <= f.op <= 7 || 20 <= f.op <= 23
  }

  predicate IsLikely(f: Fields) {
    if f.op == 1 then HasBit(f.rt, 2) else f.op >= 20
  }

  /** Loads, stores and their linked and unaligned forms, of words and less. */
  predicate IsWordAccess(f: Fields) {
    32 <= f.op <= 38 || 40 <= f.op <= 43 || f.op == 46 || f.op == 48 || f.op == 56
  }

  predicate Aligned(address: nat, size: nat) {
    if size == 8 then address % 8 == 0 else if size == 4 then address % 4 == 0 else if size == 2 then address % 2 == 0 else true
  }

  // --- Registers -----------------------------------------------------------------

  /** Register 0 reads as zero. */
  function Read<T>(g: seq<T>, zero: T, r: nat): T
    requires |g| == 32 && r < 32
  {
    if r == 0 then zero else g[r]
  }

  function Written<T>(g: seq<T>, zero: T, write: Option<(nat, T)>): (h: seq<T>)
    requires |g| == 32 && (write.Some? ==> write.value.0 < 32)
    ensures |h| == 32
  {
    if write.Some? then g[write.value.0 := write.value.1][0 := zero] else g[0 := zero]
  }
}

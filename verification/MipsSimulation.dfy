/**
  The 64-bit MIPS core simulates the 32-bit one under sign extension
  (src/xxemul_mips.c, lines 74-285; src/xxemul_mips64.c, lines 74-299).
*/
module MipsSimulation {
  import opened Arithmetic
  import opened Wrappers
  import opened GuestMemory
  import opened MipsWords
  import opened MipsExtension
  import M32 = Mips32
  import M64 = Mips64

  // ----------------------------------------------------------------------
  // Arithmetic
  // ----------------------------------------------------------------------

  /** The 64-bit core does the same to the sign extensions. */
  predicate Matches(x: Alu<Word32>, y: Alu<Word64>) {
    match x
    case Write(r, v) => y == Write(r, Word(v))
    case WriteHiLo(hi, lo) => y == WriteHiLo(Word(hi), Word(lo))
    case Nothing => y == Nothing
    case Refused => y == Refused
  }

  /** The 32-bit core has the instruction: with zero operands nothing overflows, so only unknown ones are refused. */
  predicate Known(f: Fields)
    requires f.Valid()
  {
    M32.Operate(f, 0, 0, 0, 0) != Refused
  }

  /** EXT of all 32 bits of a register, the one word instruction whose result the 64-bit core leaves zero-extended. */
  predicate IsFullExtract(f: Fields) {
    f.op == 31 && f.fn == 0 && f.sa == 0 && f.rd == 31
  }

  lemma SpecialAgrees(f: Fields, a: Word32, b: Word32, hi: Word32, lo: Word32)
    requires f.Valid() && M32.Special(f, 0, 0, 0, 0) != Refused
    ensures Matches(M32.Special(f, a, b, hi, lo), M64.Special(f, Word(a), Word(b), Word(hi), Word(lo)))
  {
    hide Left32, Down, RotateRight32, ShiftSigned32, ShiftSigned64, Bits32, Bits64, Quotient, Remainder, Word, Low, M64.SpecialDoubleword;
    LowOfWord(a);
    LowOfWord(b);
    WordOrder(a, b);
    WordOrder(b, a);
    WordModulo(a);
    SmallWords(0);
    SmallWords(1);
    if f.fn == 3 {
      WordSar(b, f.sa);
    } else if f.fn == 7 {
      WordSar(b, a % 32);
      SarModulo(b, a);
    } else if f.fn == 36 {
      WordBits(And, a, b);
    } else if f.fn == 37 || f.fn == 39 {
      WordBits(Or, a, b);
      WordNot(Bits32(Or, a, b));
    } else if f.fn == 38 {
      WordBits(Xor, a, b);
    } else if f.fn == 10 || f.fn == 11 {
      ZeroWord(b);
    }
  }

  lemma SmallWords(v: Word32)
    ensures v < W31 ==> Word(v) == v
    ensures Word(W32 - 1) == W64 - 1
  {
  }

  lemma ZeroWord(v: Word32)
    ensures Word(v) == 0 <==> v == 0
  {
  }

  lemma WordModulo(a: Word32)
    ensures Word(a) % 32 == a % 32
  {
  }

  lemma SarModulo(v: Word32, n: nat)
    ensures ShiftSigned32(v, n % 32) == ShiftSigned32(v, n)
  {
    assert n % 32 % 32 == n % 32;
  }

  lemma ImmediatesAgree(f: Fields, a: Word32)
    requires f.Valid() && 8 <= f.op <= 15
    ensures Matches(M32.Immediates(f, a), M64.Immediates(f, Word(a)))
  {
    hide Bits32, Bits64, Word;
    LowOfWord(a);
    WordOrder(a, Low(SignedHalf(f.imm)));
    WordOfNumber(SignedHalf(f.imm));
    SmallWords(f.imm);
    SmallWords(0);
    SmallWords(1);
    WordBits(And, a, f.imm);
    WordBits(Or, a, f.imm);
    WordBits(Xor, a, f.imm);
  }

  lemma Special2Agrees(f: Fields, a: Word32, b: Word32, hi: Word32, lo: Word32)
    requires M32.Special2(f, 0, 0, 0, 0) != Refused
    ensures Matches(M32.Special2(f, a, b, hi, lo), M64.Special2(f, Word(a), Word(b), Word(hi), Word(lo)))
  {
    hide Word, Low, LeadingZeros32, LeadingZeros64, HasBit;
    LowOfWord(a);
    LowOfWord(b);
    LowOfWord(hi);
    LowOfWord(lo);
    if f.fn == 2 {
      WordProduct(a, b);
    } else if f.fn == 32 {
      ZerosAgree(a, 32);
      LowOfSmall(a);
      SmallWords(LeadingZeros32(a, 32));
    } else if f.fn == 33 {
      WordNot(a);
      ZerosAgree(Not32(a), 32);
      LowOfSmall(Not32(a));
      SmallWords(LeadingZeros32(Not32(a), 32));
    }
  }

  lemma LowOfSmall(v: Word32)
    ensures Low(v) == v
  {
  }

  lemma Special3Agrees(f: Fields, a: Word32, b: Word32)
    requires f.Valid() && f.op == 31 && M32.Special3(f, 0, 0) != Refused && !IsFullExtract(f)
    ensures Matches(M32.Special3(f, a, b), M64.Special3(f, Word(a), Word(b)))
  {
    hide Word, Low, Field, WithField, SwapBytes, SignedByte, SignedHalf;
    LowOfWord(b);
    if f.fn == 0 {
      ExtractAgrees(f, a);
    } else if f.fn == 4 {
      InsertAgrees(a, b, f.sa, f.rd - f.sa + 1);
    } else {
      BytesAgree(b);
    }
  }

  lemma ExtractAgrees(f: Fields, a: Word32)
    requires f.Valid() && f.fn == 0 && f.sa + f.rd < 32 && !(f.sa == 0 && f.rd == 31)
    ensures Matches(Write(f.rt, Low(Field(a, f.sa, f.rd + 1))), M64.Extract(f, Word(a)))
  {
    hide Field, Word;
    var k := WordParts(a);
    FieldOfSum(a, k, f.sa, f.rd + 1);
    PowBelow(f.rd + 1);
    SmallWords(Field(a, f.sa, f.rd + 1));
  }

  lemma {:induction false} PowBelow(n: nat)
    requires n < 32
    ensures Pow2(n) <= W31
    decreases 32 - n
  {
    if n < 31 {
      PowBelow(n + 1);
    } else {
      Pow2Words();
      Pow2Step(32);
    }
  }

  lemma InsertAgrees(a: Word32, b: Word32, position: nat, bits: nat)
    requires position + bits <= 32
    ensures Low(WithField(Word(b), position, bits, Word(a))) == Low(WithField(b, position, bits, a))
  {
    hide WithField, Word;
    var k := WordParts(b);
    var j := WordParts(a);
    WithFieldOfSum(b, k, position, bits, a, j);
  }

  lemma BytesAgree(b: Word32)
    ensures Low64(SignedByte(Word(b))) == Word(Low(SignedByte(b)))
    ensures Low64(SignedHalf(Word(b))) == Word(Low(SignedHalf(b)))
  {
    assert Word(b) % 0x100 == b % 0x100 && Word(b) % W16 == b % W16;
    WordOfNumber(SignedByte(b));
    WordOfNumber(SignedHalf(b));
  }

  /** The one exception, exactly: extracting a whole register agrees if and only if its sign bit is clear. */
  lemma FullExtractExactly(f: Fields, a: Word32, b: Word32)
    requires f.Valid() && IsFullExtract(f)
    ensures Matches(M32.Special3(f, a, b), M64.Special3(f, Word(a), Word(b))) <==> a < W31
  {
    var k := WordParts(a);
    FieldOfSum(a, k, 0, 32);
    Pow2Words();
    assert Pow2(0) == 1;
    assert Field(a, 0, 32) == a;
    SmallWords(a);
  }

  /** Every instruction that is no branch, break or access. */
  lemma OperateAgrees(f: Fields, a: Word32, b: Word32, hi: Word32, lo: Word32)
    requires f.Valid() && Known(f) && (IsFullExtract(f) ==> a < W31)
    ensures Matches(M32.Operate(f, a, b, hi, lo), M64.Operate(f, Word(a), Word(b), Word(hi), Word(lo)))
  {
    hide Word, M32.Special, M64.Special, M32.Immediates, M64.Immediates, M32.Special2, M64.Special2, M32.Special3, M64.Special3;
    if f.op == 0 {
      SpecialAgrees(f, a, b, hi, lo);
    } else if 8 <= f.op <= 15 {
      ImmediatesAgree(f, a);
    } else if f.op == 28 {
      Special2Agrees(f, a, b, hi, lo);
    } else if f.op == 31 {
      if IsFullExtract(f) {
        FullExtractExactly(f, a, b);
      } else {
        Special3Agrees(f, a, b);
      }
    }
  }

  // ----------------------------------------------------------------------
  // Branches
  // ----------------------------------------------------------------------

  predicate BranchMatches(x: Branch<Word32>, y: Branch<Word64>) {
    y == Branch(x.taken, Word(x.target), x.likely, x.link)
  }

  lemma JumpAgrees(f: Fields, a: Word32, pc: Word32)
    requires f.Valid() && pc + 8 < W31
    ensures BranchMatches(M32.Jump(f, a, pc), M64.Jump(f, Word(a), Word(pc)))
    ensures M32.Jump(f, a, pc).link.Some? ==> M32.Jump(f, a, pc).link.value < 32
  {
    hide Word;
    SmallWords(pc);
    if f.op != 0 {
      JumpTarget(pc + 4, f.raw);
    }
  }

  lemma JumpTarget(pc: nat, raw: Word32)
    requires pc < W31
    ensures pc / 0x1000_0000 * 0x1000_0000 + raw % 0x400_0000 * 4 < W31
    ensures Low(pc) == pc == Low64(pc)
    ensures var t := pc / 0x1000_0000 * 0x1000_0000 + raw % 0x400_0000 * 4; Word(t) == t
  {
    assert pc / 0x1000_0000 <= 7;
  }

  lemma ConditionalAgrees(f: Fields, a: Word32, b: Word32, pc: Word32)
    requires f.Valid() && pc + 8 < W31 && pc + 4 + SignedHalf(f.imm) * 4 < W31
    ensures BranchMatches(M32.Conditional(f, a, b, pc), M64.Conditional(f, Word(a), Word(b), Word(pc)))
    ensures M32.Conditional(f, a, b, pc).link.Some? ==> M32.Conditional(f, a, b, pc).link.value < 32
  {
    hide Word, Low, Low64, Signed32, Signed64, HasBit, SignedHalf;
    SmallWords(pc);
    WordOrder(a, b);
    var target := if M32.Taken(f, a, b) then pc + 4 + SignedHalf(f.imm) * 4 else pc + 8;
    HalfRange(f.imm);
    WordOfNumber(target);
  }

  lemma HalfRange(v: nat)
    ensures -0x8000 <= SignedHalf(v) < 0x8000
  {
  }

  // ----------------------------------------------------------------------
  // Loads and stores
  // ----------------------------------------------------------------------

  predicate AccessMatches(x: Access<Word32>, y: Access<Word64>) {
    && y.status == x.status && y.mem == x.mem && y.reservation == x.reservation
    && y.write == match x.write
                  case None => None
                  case Some((r, v)) => Some((r, Word(v)))
  }

  /** The states as loads and stores see them. */
  predicate SameMemory(s: M32.Cpu32, t: M64.Cpu64) {
    s.mem == t.mem && s.big == t.big && s.reservation == t.reservation
  }

  lemma ScaledByte(b: byte, p: nat)
    ensures b * p <= 0xff * p
  {
  }

  lemma {:induction false} AssembleBound(b: seq<byte>, big: bool, k: nat)
    requires k <= |b| && !big
    ensures Assemble(b, big, k) < Pow256(k)
  {
    if k > 0 {
      AssembleBound(b, big, k - 1);
      ScaledByte(b[k - 1], Pow256(k - 1));
      assert Pow256(k) == 0x100 * Pow256(k - 1);
    }
  }

  /** Big-endian bytes fill a value from the top. */
  lemma {:induction false} AssembleTop(b: seq<byte>, k: nat)
    requires k <= |b|
    ensures Assemble(b, true, k) + Pow256(|b| - k) <= Pow256(|b|)
  {
    if k > 0 {
      AssembleTop(b, k - 1);
      assert Pow256(|b| - (k - 1)) == 0x100 * Pow256(|b| - k);
      ScaledByte(b[k - 1], Pow256(|b| - k));
    }
  }

  lemma LoadBound(b: seq<byte>, big: bool)
    requires |b| <= 4
    ensures Assemble(b, big, |b|) < W32
    ensures |b| <= 2 ==> Assemble(b, big, |b|) < W16
  {
    if big {
      AssembleTop(b, |b|);
    } else {
      AssembleBound(b, big, |b|);
    }
    assert Pow256(0) == 1 && Pow256(1) == 0x100 && Pow256(2) == W16 && Pow256(3) == 0x100_0000 && Pow256(4) == W32;
  }

  lemma LoadAgrees(s: M32.Cpu32, t: M64.Cpu64, address: Word32, size: nat)
    requires SameMemory(s, t) && address < W31 && 0 < size <= 4
    ensures M64.Load(t, address, size) == M32.Load(s, address, size)
    ensures var v := M32.Load(s, address, size);
            v.Some? ==> v.value < W32 && (size <= 2 ==> v.value < W16)
  {
    if Holds(s.mem, address, size) {
      LoadBound(ReadBytes(s.mem, address, size), s.big);
    }
  }

  /** The bytes of a shifted word and of its shifted sign extension. */
  lemma SplitAgrees(v: Word32, shift: nat, size: nat, big: bool)
    requires shift + size <= 4
    ensures Split(Down(Word(v), 8 * shift), size, big) == Split(Down(v, 8 * shift), size, big)
  {
    hide Word, Down;
    var k := WordParts(v);
    forall i | 0 <= i < size
      ensures ByteOf(Down(Word(v), 8 * shift), Significance(size, i, big)) == ByteOf(Down(v, 8 * shift), Significance(size, i, big))
    {
      DownOfSum(v, k, 8 * shift);
      ByteOfSum(Down(v, 8 * shift), k, 4 - shift, Significance(size, i, big));
    }
  }

  /** Bytes below a multiple of 2^(8 n) do not see it. */
  lemma ByteOfSum(v: nat, k: nat, n: nat, place: nat)
    requires place < n <= 4
    ensures ByteOf(v + k * Pow2(8 * n), place) == ByteOf(v, place)
  {
    hide Pow2, Pow256;
    var rest := 8 * (n - place - 1);
    var p, q := Pow256(place), Pow2(rest);
    Pow256IsPow2(place);
    Pow2Words();
    Pow2Sum(8, rest);
    Pow2Sum(8 * place, 8 + rest);
    assert 8 * place + (8 + rest) == 8 * n;
    MultipleOfByte(v, k, p, q);
  }

  lemma {:induction false} Pow256IsPow2(n: nat)
    ensures Pow256(n) == Pow2(8 * n)
  {
    if n > 0 {
      Pow256IsPow2(n - 1);
      Pow2Sum(8, 8 * (n - 1));
      Pow2Words();
    }
  }

  /** What a load makes of its bytes. */
  lemma ExtendedAgrees(f: Fields, v: nat)
    requires v < W32 && (M32.SizeOf(f) <= 2 ==> v < W16) && (f.op == 32 || f.op == 33 || 35 <= f.op <= 37 || f.op == 48)
    ensures M64.Extended(f, v) == Word(M32.Extended(f, v))
  {
    if f.op == 32 {
      WordOfNumber(SignedByte(v));
    } else if f.op == 33 {
      WordOfNumber(SignedHalf(v));
    }
  }

  lemma AlignedLoadAgrees(s: M32.Cpu32, t: M64.Cpu64, f: Fields, address: Word32)
    requires SameMemory(s, t) && address < W31 && (f.op == 32 || f.op == 33 || 35 <= f.op <= 37 || f.op == 48)
    ensures AccessMatches(M32.AlignedLoad(s, f, address), M64.AlignedLoad(t, f, address))
  {
    hide M32.Load, M64.Load, M32.Extended, M64.Extended;
    LoadAgrees(s, t, address, M32.SizeOf(f));
    var v := M32.Load(s, address, M32.SizeOf(f));
    if v.Some? {
      ExtendedAgrees(f, v.value);
    }
  }

  lemma StoreAgrees(s: M32.Cpu32, t: M64.Cpu64, address: Word32, size: nat, v: nat, w: nat)
    requires SameMemory(s, t) && address < W31 && 0 < size <= 4 && Split(v, size, s.big) == Split(w, size, s.big)
    ensures AccessMatches(M32.Store(s, address, size, v), M64.Store(t, address, size, w))
    ensures M32.Store(s, address, size, v).write == None
  {
    hide Split;
  }

  lemma StoreWordAgrees(s: M32.Cpu32, t: M64.Cpu64, address: Word32, size: nat, shift: nat, b: Word32)
    requires SameMemory(s, t) && address < W31 && 0 < size && shift + size <= 4
    ensures AccessMatches(M32.Store(s, address, size, Down(b, 8 * shift)), M64.Store(t, address, size, Down(Word(b), 8 * shift)))
    ensures shift == 0 ==> AccessMatches(M32.Store(s, address, size, b), M64.Store(t, address, size, Word(b)))
  {
    hide Split, M32.Store, M64.Store, Down, Word;
    SplitAgrees(b, shift, size, s.big);
    DownZero(b);
    DownZero(Word(b));
    StoreAgrees(s, t, address, size, Down(b, 8 * shift), Down(Word(b), 8 * shift));
  }

  lemma ConditionalStoreAgrees(s: M32.Cpu32, t: M64.Cpu64, f: Fields, address: Word32, b: Word32)
    requires SameMemory(s, t) && address < W31 && f.op == 56
    ensures AccessMatches(M32.StoreConditional(s, f, address, b), M64.StoreConditional(t, f, address, Word(b)))
  {
    hide M32.Store, M64.Store, Word;
    SmallWords(0);
    SmallWords(1);
    StoreWordAgrees(s.(reservation := None), t.(reservation := None), address, 4, 0, b);
  }

  lemma UnalignedAgrees(s: M32.Cpu32, t: M64.Cpu64, f: Fields, address: Word32, b: Word32)
    requires SameMemory(s, t) && address < W31 && M32.IsUnaligned(f)
    ensures AccessMatches(M32.Unaligned(s, f, address, b), M64.Unaligned(t, f, address, Word(b)))
  {
    hide M32.Load, M64.Load, M32.Store, M64.Store, Down, WithField, Word;
    var left := f.op == 34 || f.op == 42;
    var offset := address % 4;
    var size := if left == s.big then 4 - offset else offset + 1;
    var at := if left == s.big then address else address - offset;
    var shift := if left then 4 - size else 0;
    assert address / 4 * 4 == address - offset;
    if M32.IsStore(f) {
      StoreWordAgrees(s, t, at, size, shift, b);
    } else {
      LoadAgrees(s, t, at, size);
      var v := M32.Load(s, at, size);
      if v.Some? {
        MergeAgrees(b, 8 * shift, 8 * size, v.value);
      }
    }
  }

  lemma MergeAgrees(b: Word32, position: nat, bits: nat, v: nat)
    requires position + bits <= 32
    ensures Word(Low(WithField(Word(b), position, bits, v))) == Word(Low(WithField(b, position, bits, v)))
  {
    hide WithField, Word;
    var k := WordParts(b);
    WithFieldOfSum(b, k, position, bits, v, 0);
  }

  /** Loads and stores at effective addresses in the low 2 GiB. */
  lemma AccessesAgree(s: M32.Cpu32, t: M64.Cpu64, f: Fields, a: Word32, b: Word32)
    requires f.Valid() && SameMemory(s, t) && IsWordAccess(f) && M64.Address(f, Word(a)) < W31
    ensures AccessMatches(M32.Accesses(s, f, a, b), M64.Accesses(t, f, Word(a), Word(b)))
  {
    hide M32.AlignedLoad, M64.AlignedLoad, M32.StoreConditional, M64.StoreConditional, M32.Unaligned, M64.Unaligned, M32.Store, M64.Store, Word,
      M32.Address, M64.Address;
    AddressAgrees(f, a);
    var address := M32.Address(f, a);
    if M32.IsUnaligned(f) {
      UnalignedAgrees(s, t, f, address, b);
    } else if Aligned(address, M32.SizeOf(f)) {
      if !M32.IsStore(f) {
        AlignedLoadAgrees(s, t, f, address);
      } else if f.op == 56 {
        ConditionalStoreAgrees(s, t, f, address, b);
      } else {
        StoreWordAgrees(s, t, address, M32.SizeOf(f), 0, b);
      }
    }
  }

  lemma AddressAgrees(f: Fields, a: Word32)
    requires M64.Address(f, Word(a)) < W31
    ensures M32.Address(f, a) == M64.Address(f, Word(a))
  {
    hide SignedHalf, Low, Low64, Word;
    HalfRange(f.imm);
    AddReduced(a, SignedHalf(f.imm));
    AddReduced(Word(a), SignedHalf(f.imm));
    LowAddress(a, SignedHalf(f.imm));
  }

  /** Adding a reduced number is adding the number. */
  lemma AddReduced(v: int, s: int)
    ensures Low(v + Low(s)) == Low(v + s) && Low64(v + Low64(s)) == Low64(v + s)
  {
    ModuloOf(v + s, -(s / W32), W32);
    ModuloOf(v + s, -(s / W64), W64);
    assert v + s + -(s / W32) * W32 == v + s % W32;
    assert v + s + -(s / W64) * W64 == v + s % W64;
  }

  lemma LowAddress(a: Word32, s: int)
    requires -0x8000 <= s < 0x8000 && Low64(Word(a) + s) < W31
    ensures Low(a + s) == Low64(Word(a) + s)
  {
    if a < W31 {
      ModuloUnique(a + s, if a + s < 0 then -1 else 0, if a + s < 0 then a + s + W64 else a + s, W64);
    } else {
      var x := a + (W64 - W32) + s;
      ModuloUnique(x, if x < W64 then 0 else 1, if x < W64 then x else x - W64, W64);
    }
  }

  // ----------------------------------------------------------------------
  // The simulation
  // ----------------------------------------------------------------------

  predicate Registers(g: seq<Word32>, h: seq<Word64>) {
    |g| == 32 && |h| == 32 && forall r | 0 <= r < 32 :: h[r] == Word(g[r])
  }

  /** The 64-bit state is the sign extension of the 32-bit one. */
  predicate Extends(s: M32.Cpu32, t: M64.Cpu64) {
    && M32.Valid(s) && M64.Valid(t) && Registers(s.gpr, t.gpr) && t.hi == Word(s.hi) && t.lo == Word(s.lo)
    && t.pc == Word(s.pc) && t.delayed == s.delayed && (s.delayed ==> t.target == Word(s.target))
    && SameMemory(s, t) && t.debugTraps == s.debugTraps && t.halted == s.halted
  }

  /** Program counter, branch target and effective address stay in the low 2 GiB. */
  predicate StaysLow(s: M32.Cpu32, f: Fields)
    requires M32.Valid(s) && f.Valid()
  {
    && s.pc + 8 < W31
    && (IsConditional(f) ==> s.pc + 4 + SignedHalf(f.imm) * 4 < W31)
    && (IsWordAccess(f) ==> M64.Address(f, Word(M32.Reg(s, f.rs))) < W31)
  }

  lemma WrittenAgrees(g: seq<Word32>, h: seq<Word64>, write: Option<(nat, Word32)>, wide: Option<(nat, Word64)>)
    requires Registers(g, h) && (write.Some? ==> write.value.0 < 32)
    requires wide == match write
                     case None => None
                     case Some((r, v)) => Some((r, Word(v)))
    ensures Registers(Written(g, 0, write), Written(h, 0, wide))
  {
    hide Word;
    SmallWords(0);
  }

  lemma ReadAgrees(s: M32.Cpu32, t: M64.Cpu64, r: nat)
    requires Extends(s, t) && r < 32
    ensures M64.Reg(t, r) == Word(M32.Reg(s, r))
  {
    hide Word;
    SmallWords(0);
  }

  lemma RetireAgrees(s: M32.Cpu32, t: M64.Cpu64, write: Option<(nat, Word32)>, wide: Option<(nat, Word64)>)
    requires Extends(s, t) && (write.Some? ==> write.value.0 < 32) && s.pc + 8 < W31
    requires wide == match write
                     case None => None
                     case Some((r, v)) => Some((r, Word(v)))
    ensures Extends(M32.Retire(s, write), M64.Retire(t, wide))
  {
    hide Word, Registers;
    SmallWords(s.pc);
    SmallWords(s.pc + 4);
    assert Low(s.pc + 4) == s.pc + 4 == Low64(s.pc + 4);
    WrittenAgrees(s.gpr, t.gpr, write, wide);
  }

  lemma FollowAgrees(s: M32.Cpu32, t: M64.Cpu64, x: Branch<Word32>, y: Branch<Word64>)
    requires Extends(s, t) && BranchMatches(x, y) && (x.link.Some? ==> x.link.value < 32) && s.pc + 8 < W31
    ensures M64.FollowBranch(t, y).1 == M32.FollowBranch(s, x).1
    ensures Extends(M32.FollowBranch(s, x).0, M64.FollowBranch(t, y).0)
  {
    hide Word, Registers, Written;
    SmallWords(s.pc);
    SmallWords(s.pc + 4);
    SmallWords(s.pc + 8);
    assert Low(s.pc + 4) == s.pc + 4 == Low64(s.pc + 4) && Low(s.pc + 8) == s.pc + 8 == Low64(s.pc + 8);
    if !s.delayed {
      var link := if x.link.Some? then Some((x.link.value, Low(s.pc + 8))) else None;
      var wide := if x.link.Some? then Some((x.link.value, Low64(s.pc + 8))) else None;
      WrittenAgrees(s.gpr, t.gpr, link, wide);
    }
  }

  lemma FinishAluAgrees(s: M32.Cpu32, t: M64.Cpu64, x: Alu<Word32>, y: Alu<Word64>)
    requires Extends(s, t) && Matches(x, y) && (x.Write? ==> x.register < 32) && s.pc + 8 < W31
    ensures M64.FinishAlu(t, y).1 == M32.FinishAlu(s, x).1 && Extends(M32.FinishAlu(s, x).0, M64.FinishAlu(t, y).0)
  {
    hide Word, Registers, M32.Retire, M64.Retire;
    match x
    case Write(r, v) => RetireAgrees(s, t, Some((r, v)), Some((r, Word(v))));
    case WriteHiLo(hi, lo) => RetireAgrees(s.(hi := hi, lo := lo), t.(hi := Word(hi), lo := Word(lo)), None, None);
    case Nothing => RetireAgrees(s, t, None, None);
    case Refused =>
  }

  lemma FinishAccessAgrees(s: M32.Cpu32, t: M64.Cpu64, x: Access<Word32>, y: Access<Word64>)
    requires Extends(s, t) && AccessMatches(x, y) && (x.write.Some? ==> x.write.value.0 < 32) && s.pc + 8 < W31
    ensures M64.FinishAccess(t, y).1 == M32.FinishAccess(s, x).1 && Extends(M32.FinishAccess(s, x).0, M64.FinishAccess(t, y).0)
  {
    hide Word, Registers, M32.Retire, M64.Retire;
    var u, w := s.(mem := x.mem, reservation := x.reservation), t.(mem := y.mem, reservation := y.reservation);
    RetireAgrees(u, w, x.write, y.write);
  }

  /** The instructions the 32-bit core knows. */
  predicate Shared(f: Fields)
    requires f.Valid()
  {
    IsBreak(f) || IsJump(f) || IsConditional(f) || IsWordAccess(f) || Known(f)
  }

  lemma KnownIsNoAccess(f: Fields)
    requires f.Valid() && Known(f)
    ensures M64.IsAccess(f) ==> IsWordAccess(f)
  {
    hide M32.Special, M32.Immediates, M32.Special2, M32.Special3;
  }

  lemma ExecutesAlike(s: M32.Cpu32, t: M64.Cpu64, f: Fields)
    requires f.Valid() && Extends(s, t) && StaysLow(s, f) && Shared(f)
    requires IsFullExtract(f) ==> M32.Reg(s, f.rs) < W31
    ensures M64.Execute(t, f).1 == M32.Execute(s, f).1
    ensures Extends(M32.Execute(s, f).0, M64.Execute(t, f).0)
  {
    hide Word, Registers, M32.Retire, M64.Retire, M32.FollowBranch, M64.FollowBranch, M32.FinishAlu, M64.FinishAlu,
      M32.FinishAccess, M64.FinishAccess, M32.Jump, M64.Jump, M32.Conditional, M64.Conditional, M32.Accesses, M64.Accesses,
      M32.Operate, M64.Operate, M32.Reg, M64.Reg, M64.Address;
    var a, b := M32.Reg(s, f.rs), M32.Reg(s, f.rt);
    ReadAgrees(s, t, f.rs);
    ReadAgrees(s, t, f.rt);
    if IsBreak(f) {
      RetireAgrees(s, t, None, None);
    } else if IsJump(f) {
      JumpAgrees(f, a, s.pc);
      FollowAgrees(s, t, M32.Jump(f, a, s.pc), M64.Jump(f, Word(a), Word(s.pc)));
    } else if IsConditional(f) {
      ConditionalAgrees(f, a, b, s.pc);
      FollowAgrees(s, t, M32.Conditional(f, a, b, s.pc), M64.Conditional(f, Word(a), Word(b), Word(s.pc)));
    } else if IsWordAccess(f) {
      AccessesAgree(s, t, f, a, b);
      M32.AccessWritesTarget(s, f, a, b);
      FinishAccessAgrees(s, t, M32.Accesses(s, f, a, b), M64.Accesses(t, f, Word(a), Word(b)));
    } else {
      KnownIsNoAccess(f);
      OperateAgrees(f, a, b, s.hi, s.lo);
      M32.OperateWritesTarget(f, a, b, s.hi, s.lo);
      FinishAluAgrees(s, t, M32.Operate(f, a, b, s.hi, s.lo), M64.Operate(f, Word(a), Word(b), Word(s.hi), Word(s.lo)));
    }
  }

  /** Both cores fetch the same instruction, or fail alike. */
  lemma FetchesAlike(s: M32.Cpu32, t: M64.Cpu64, decodes32: Word32 -> bool, decodes64: Word32 -> bool)
    requires Extends(s, t) && s.pc + 8 < W31
    requires M32.FetchInstruction(s, decodes32).0 == Ok ==> decodes64(M32.FetchInstruction(s, decodes32).1)
    ensures var (status, raw) := M32.FetchInstruction(s, decodes32);
            if status == DecodeError then true
            else (status == Ok || status == AddressFault) && M64.FetchInstruction(t, decodes64) == (status, raw)
  {
    SmallWords(s.pc);
  }

  /** What the simulation asks of a step of the 32-bit core. */
  predicate Admissible(s: M32.Cpu32, decodes32: Word32 -> bool, decodes64: Word32 -> bool)
    requires M32.Valid(s)
  {
    var (status, raw) := M32.FetchInstruction(s, decodes32);
    && s.pc + 8 < W31 && status != DecodeError
    && (status == Ok ==>
          var f := FieldsOf(raw);
          decodes64(raw) && StaysLow(s, f) && Shared(f) && (IsFullExtract(f) ==> M32.Reg(s, f.rs) < W31))
  }

  /**
    Simulation.  If the 64-bit state is the sign extension of the 32-bit one,
    any instruction the 32-bit core knows gives the same status, success or
    failure, in both and re-establishes the relation, registers, HI and LO, the
    delay slot, the reservation and memory included.  The program counter, branch
    targets and effective addresses stay in the low 2 GiB, the 64-bit decoder
    accepts what the 32-bit one does, and the operand of a full-width EXT is not
    negative.
  */
  lemma StepsAlike(s: M32.Cpu32, t: M64.Cpu64, decodes32: Word32 -> bool, decodes64: Word32 -> bool)
    requires Extends(s, t) && Admissible(s, decodes32, decodes64)
    ensures M64.Step(t, decodes64).1 == M32.Step(s, decodes32).1
    ensures Extends(M32.Step(s, decodes32).0, M64.Step(t, decodes64).0)
  {
    hide M32.FetchInstruction, M64.FetchInstruction, M32.Execute, M64.Execute, Registers, Word, FieldsOf, Shared, StaysLow;
    FetchesAlike(s, t, decodes32, decodes64);
    var (status, raw) := M32.FetchInstruction(s, decodes32);
    if status == Ok {
      ExecutesAlike(s, t, FieldsOf(raw));
    }
  }

  /** A run goes on while steps succeed. */
  function Run32(s: M32.Cpu32, decodes: Word32 -> bool, n: nat): (r: (M32.Cpu32, Status))
    requires M32.Valid(s)
    ensures M32.Valid(r.0)
    decreases n
  {
    if n == 0 then (s, Ok)
    else
      var (t, status) := M32.Step(s, decodes);
      if status == Ok then Run32(t, decodes, n - 1) else (t, status)
  }

  function Run64(s: M64.Cpu64, decodes: Word32 -> bool, n: nat): (r: (M64.Cpu64, Status))
    requires M64.Valid(s)
    ensures M64.Valid(r.0)
    decreases n
  {
    if n == 0 then (s, Ok)
    else
      var (t, status) := M64.Step(s, decodes);
      if status == Ok then Run64(t, decodes, n - 1) else (t, status)
  }

  /** Whole runs of the 32-bit core are runs of the 64-bit one. */
  lemma {:induction false} RunsAlike(s: M32.Cpu32, t: M64.Cpu64, decodes32: Word32 -> bool, decodes64: Word32 -> bool, n: nat)
    requires Extends(s, t)
    requires forall i | 0 <= i < n :: Run32(s, decodes32, i).1 == Ok ==> Admissible(Run32(s, decodes32, i).0, decodes32, decodes64)
    ensures Run64(t, decodes64, n).1 == Run32(s, decodes32, n).1
    ensures Extends(Run32(s, decodes32, n).0, Run64(t, decodes64, n).0)
    decreases n
  {
    hide M32.Step, M64.Step, Admissible, Extends, M32.Valid;
    ExtendsValid(s, t);
    if n > 0 {
      assert Run32(s, decodes32, 0) == (s, Ok);
      StepsAlike(s, t, decodes32, decodes64);
      var (u, status) := M32.Step(s, decodes32);
      if status == Ok {
        forall i | 0 <= i < n - 1
          ensures Run32(u, decodes32, i) == Run32(s, decodes32, i + 1)
        {
        }
        RunsAlike(u, M64.Step(t, decodes64).0, decodes32, decodes64, n - 1);
      }
    }
  }

  lemma ExtendsValid(s: M32.Cpu32, t: M64.Cpu64)
    requires Extends(s, t)
    ensures M32.Valid(s) && M64.Valid(t)
  {
  }
}

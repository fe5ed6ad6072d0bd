/**
  The unaligned accesses of the 32-bit MIPS core work in pairs: LWL and LWR load,
  and SWL and SWR store, the word at any address in either byte order
  (src/xxemul_mips.c, lines 23-53 and 245-259).
*/
module MipsUnaligned {
  import opened Arithmetic
  import opened Wrappers
  import opened GuestMemory
  import opened MipsWords
  import opened MipsExtension
  import opened MipsSimulation
  import opened Mips32

  // ----------------------------------------------------------------------
  // Values of adjacent bytes
  // ----------------------------------------------------------------------

  lemma Scale(a: nat, v: nat, p: nat, q: nat)
    ensures (a + v * p) * q == a * q + v * (p * q)
  {
    assert v * p * q == v * (p * q);
  }

  /** The bytes of x come first, so in big-endian order they are the high ones. */
  lemma {:induction false} BigPrefix(x: seq<byte>, y: seq<byte>, k: nat)
    requires k <= |x|
    ensures Assemble(x + y, true, k) == Assemble(x, true, k) * Pow256(|y|)
    decreases k
  {
    if k > 0 {
      BigPrefix(x, y, k - 1);
      Pow256Sum(|x| - k, |y|);
      Scale(Assemble(x, true, k - 1), x[k - 1], Pow256(|x| - k), Pow256(|y|));
    }
  }

  lemma {:induction false} BigRest(x: seq<byte>, y: seq<byte>, k: nat)
    requires k <= |y|
    ensures Assemble(x + y, true, |x| + k) == Assemble(x, true, |x|) * Pow256(|y|) + Assemble(y, true, k)
    decreases k
  {
    if k > 0 {
      BigRest(x, y, k - 1);
    } else {
      BigPrefix(x, y, |x|);
    }
  }

  lemma {:induction false} LittlePrefix(x: seq<byte>, y: seq<byte>, k: nat)
    requires k <= |x|
    ensures Assemble(x + y, false, k) == Assemble(x, false, k)
    decreases k
  {
    if k > 0 {
      LittlePrefix(x, y, k - 1);
    }
  }

  lemma {:induction false} LittleRest(x: seq<byte>, y: seq<byte>, k: nat)
    requires k <= |y|
    ensures Assemble(x + y, false, |x| + k) == Assemble(x, false, |x|) + Assemble(y, false, k) * Pow256(|x|)
    decreases k
  {
    if k > 0 {
      LittleRest(x, y, k - 1);
      Pow256Sum(k - 1, |x|);
      Scale(Assemble(y, false, k - 1), y[k - 1], Pow256(k - 1), Pow256(|x|));
    } else {
      LittlePrefix(x, y, |x|);
    }
  }

  /** The value of two runs of bytes: the significant one scaled by the size of the other. */
  lemma ValueOfRuns(x: seq<byte>, y: seq<byte>, big: bool)
    ensures var vx, vy := Assemble(x, big, |x|), Assemble(y, big, |y|);
            Assemble(x + y, big, |x| + |y|) == if big then vx * Pow256(|y|) + vy else vx + vy * Pow256(|x|)
  {
    hide Assemble;
    if big {
      BigRest(x, y, |y|);
    } else {
      LittleRest(x, y, |y|);
    }
  }

  lemma ValueFits(b: seq<byte>, big: bool)
    ensures Assemble(b, big, |b|) < Pow256(|b|)
  {
    if big {
      AssembleTop(b, |b|);
    } else {
      AssembleBound(b, big, |b|);
    }
  }

  // ----------------------------------------------------------------------
  // Merging two parts of a word
  // ----------------------------------------------------------------------

  /** Filling the high part of a word and then the low part leaves nothing of what was there. */
  lemma FillBoth(b: Word32, high: nat, low: nat, n: nat)
    requires n <= 4 && high < Pow256(4 - n) && low < Pow256(n)
    ensures var first := Low(WithField(b, 8 * n, 8 * (4 - n), high));
            Low(WithField(first, 0, 8 * n, low)) == high * Pow256(n) + low
    ensures var first := Low(WithField(b, 0, 8 * n, low));
            Low(WithField(first, 8 * n, 8 * (4 - n), high)) == high * Pow256(n) + low
  {
    Pow256IsPow2(n);
    Pow256IsPow2(4 - n);
    PowWithin(8 * n);
    Pow2Words();
    assert 32 - 8 * n == 8 * (4 - n);
    FillParts(b, high, low, 8 * n, Pow2(8 * n), Pow2(8 * (4 - n)));
  }

  lemma FillParts(b: Word32, high: nat, low: nat, n: nat, p: nat, q: nat)
    requires n <= 32 && p == Pow2(n) && q == Pow2(32 - n) && p * q == W32 && high < q && low < p
    ensures var first := Low(WithField(b, n, 32 - n, high)); Low(WithField(first, 0, n, low)) == high * p + low
    ensures var first := Low(WithField(b, 0, n, low)); Low(WithField(first, n, 32 - n, high)) == high * p + low
  {
    hide WithField, Low, Pow2;
    WordBelow(high, low, p, q);
    FillDown(b, high, low, n, p, q);
    FillUp(b, high, low, n, p, q);
  }

  lemma FillDown(b: Word32, high: nat, low: nat, n: nat, p: nat, q: nat)
    requires n <= 32 && p == Pow2(n) && q == Pow2(32 - n) && p * q == W32 && high < q && low < p
    ensures var first := Low(WithField(b, n, 32 - n, high)); WithField(first, 0, n, low) == high * p + low
  {
    hide WithField, Low, Pow2;
    TopField(b, high, n, p, q);
    WordBelow(high, b % p, p, q);
    BottomField(high * p + b % p, low, n, p, high, b % p);
  }

  lemma FillUp(b: Word32, high: nat, low: nat, n: nat, p: nat, q: nat)
    requires n <= 32 && p == Pow2(n) && q == Pow2(32 - n) && p * q == W32 && high < q && low < p
    ensures var first := Low(WithField(b, 0, n, low)); WithField(first, n, 32 - n, high) == high * p + low
  {
    hide WithField, Low, Pow2;
    NaturalQuotient(b, p);
    QuotientBelow(b, p, q);
    BottomField(b, low, n, p, b / p, b % p);
    var below := b / p * p + low;
    WordBelow(b / p, low, p, q);
    TopField(below, high, n, p, q);
    ModuloUnique(below, b / p, low, p);
  }

  lemma QuotientBelow(b: nat, p: nat, q: nat)
    requires p > 0 && b < p * q
    ensures b / p < q
  {
    NaturalQuotient(b, p);
    Cancel(b / p, q, p);
  }

  lemma Cancel(a: int, b: int, p: int)
    requires a * p < b * p && p > 0
    ensures a < b
  {
    assert a >= b ==> (a - b) * p >= 0;
    assert (a - b) * p == a * p - b * p;
  }

  lemma WordBelow(high: nat, low: nat, p: nat, q: nat)
    requires high < q && low < p && p * q == W32
    ensures high * p + low < W32 && Low(high * p + low) == high * p + low
  {
    assert (high + 1) * p <= q * p;
  }

  /** The field from a position to the top of a word. */
  lemma TopField(b: Word32, high: nat, n: nat, p: nat, q: nat)
    requires n <= 32 && p == Pow2(n) && q == Pow2(32 - n) && p * q == W32 && high < q
    ensures WithField(b, n, 32 - n, high) == high * p + b % p
  {
    Pow2Words();
    ModuloUnique(high, 0, high, q);
    assert Down(b, 32) == 0;
  }

  /** The field at the bottom. */
  lemma BottomField(b: nat, low: nat, n: nat, p: nat, high: nat, rest: nat)
    requires p == Pow2(n) && low < p && b == high * p + rest && rest < p
    ensures WithField(b, 0, n, low) == high * p + low
  {
    assert Pow2(0) == 1;
    ModuloUnique(low, 0, low, p);
    ModuloUnique(b, high, rest, p);
  }

  // ----------------------------------------------------------------------
  // LWL and LWR
  // ----------------------------------------------------------------------

  /** LWL, LWR, SWL or SWR of register rt. */
  function Op(op: nat, rt: nat): Fields {
    Fields(0, op, 0, rt, 0, 0, 0, 0)
  }

  /** Where a word of four bytes at an address is split by the word boundary in or after it. */
  function FirstPart(address: Word32): (n: nat)
    ensures 0 < n <= 4
  {
    4 - address % 4
  }

  /** The pair a compiler emits: the part at the address itself, and the part at address + 3. */
  function LoadPair(s: Cpu32, rt: nat, address: Word32, b: Word32): Option<Word32>
    requires address + 3 < W32
  {
    var first := Unaligned(s, Op(if s.big then 34 else 38, rt), address, b).write;
    if first.None? then None
    else
      var second := Unaligned(s, Op(if s.big then 38 else 34, rt), address + 3, first.value.1).write;
      if second.None? then None else Some(second.value.1)
  }

  lemma Slices(m: Memory, address: nat, n: nat)
    requires Holds(m, address, 4) && n <= 4
    ensures ReadBytes(m, address, 4) == ReadBytes(m, address, n) + ReadBytes(m, address + n, 4 - n)
  {
  }

  /** The two halves of the pair, by the byte order and the offset of the address. */
  lemma PairParts(s: Cpu32, rt: nat, address: Word32, b: Word32)
    requires address + 4 <= W32 && Holds(s.mem, address, 4) && address % 4 != 0
    ensures var n := FirstPart(address);
            var v := Assemble(ReadBytes(s.mem, address, n), s.big, n);
            var w := Assemble(ReadBytes(s.mem, address + n, 4 - n), s.big, 4 - n);
            var first := if s.big then Low(WithField(b, 8 * (4 - n), 8 * n, v)) else Low(WithField(b, 0, 8 * n, v));
            LoadPair(s, rt, address, b)
            == Some(if s.big then Low(WithField(first, 0, 8 * (4 - n), w)) else Low(WithField(first, 8 * n, 8 * (4 - n), w)))
  {
    hide WithField, Assemble;
    SecondPart(address);
  }

  lemma SecondPart(address: nat)
    requires address % 4 != 0
    ensures (address + 3) % 4 == address % 4 - 1 && (address + 3) / 4 * 4 == address + 4 - address % 4
  {
  }

  /** At an aligned address each half loads the whole word. */
  lemma AlignedPair(s: Cpu32, rt: nat, address: Word32, b: Word32)
    requires address + 4 <= W32 && Holds(s.mem, address, 4) && address % 4 == 0
    ensures var v := Assemble(ReadBytes(s.mem, address, 4), s.big, 4);
            LoadPair(s, rt, address, b) == Some(Low(WithField(Low(WithField(b, 0, 32, v)), 0, 32, v)))
  {
    hide WithField, Assemble;
    assert (address + 3) % 4 == 3 && (address + 3) / 4 * 4 == address;
  }

  lemma LoadUnaligned(s: Cpu32, rt: nat, address: Word32, b: Word32)
    requires address + 4 <= W32 && Holds(s.mem, address, 4) && address % 4 != 0
    ensures LoadPair(s, rt, address, b) == Some(Low(Assemble(ReadBytes(s.mem, address, 4), s.big, 4)))
  {
    hide WithField, Assemble, LoadPair, Unaligned, Pow256, Low;
    var n := FirstPart(address);
    var bytes := ReadBytes(s.mem, address, 4);
    var x, y := ReadBytes(s.mem, address, n), ReadBytes(s.mem, address + n, 4 - n);
    assert |bytes| == 4 && |x| == n && |y| == 4 - n;
    hide ReadBytes;
    Slices(s.mem, address, n);
    ValueOfRuns(x, y, s.big);
    ValueFits(x, s.big);
    ValueFits(y, s.big);
    PairParts(s, rt, address, b);
    if s.big {
      FillBoth(b, Assemble(x, true, n), Assemble(y, true, 4 - n), 4 - n);
    } else {
      FillBoth(b, Assemble(y, false, 4 - n), Assemble(x, false, n), n);
    }
    LoadBound(bytes, s.big);
    LowOfSmall(Assemble(bytes, s.big, 4));
  }

  lemma LoadAligned(s: Cpu32, rt: nat, address: Word32, b: Word32)
    requires address + 4 <= W32 && Holds(s.mem, address, 4) && address % 4 == 0
    ensures LoadPair(s, rt, address, b) == Some(Low(Assemble(ReadBytes(s.mem, address, 4), s.big, 4)))
  {
    hide WithField, Assemble, LoadPair, Unaligned;
    var bytes := ReadBytes(s.mem, address, 4);
    var v := Assemble(bytes, s.big, 4);
    AlignedPair(s, rt, address, b);
    LoadBound(bytes, s.big);
    LowOfSmall(v);
    WholeWord(b, v);
    WholeWord(Low(WithField(b, 0, 32, v)), v);
  }

  /** LWL and LWR together load the four bytes at any address, aligned or not, in either byte order. */
  lemma LoadPairIsWord(s: Cpu32, rt: nat, address: Word32, b: Word32)
    requires address + 4 <= W32 && Holds(s.mem, address, 4)
    ensures LoadPair(s, rt, address, b) == Some(Low(Assemble(ReadBytes(s.mem, address, 4), s.big, 4)))
  {
    hide LoadPair, Assemble, ReadBytes, Low;
    if address % 4 != 0 {
      LoadUnaligned(s, rt, address, b);
    } else {
      LoadAligned(s, rt, address, b);
    }
  }

  lemma WholeWord(b: Word32, v: Word32)
    ensures Low(WithField(b, 0, 32, v)) == v
  {
    Pow2Words();
    assert Pow2(0) == 1 && Down(b, 32) == 0;
  }

  // ----------------------------------------------------------------------
  // SWL and SWR
  // ----------------------------------------------------------------------

  function StorePair(s: Cpu32, rt: nat, address: Word32, b: Word32): (Memory, Status)
    requires address + 3 < W32
  {
    var first := Unaligned(s, Op(if s.big then 42 else 46, rt), address, b);
    if first.status != Ok then (first.mem, first.status)
    else
      var second := Unaligned(s.(mem := first.mem), Op(if s.big then 46 else 42, rt), address + 3, b);
      (second.mem, second.status)
  }

  lemma WriteAgain(m: Memory, address: nat, x: seq<byte>)
    requires Holds(m, address, |x|)
    ensures WriteBytes(WriteBytes(m, address, x), address, x) == WriteBytes(m, address, x)
  {
    assert WriteBytes(WriteBytes(m, address, x), address, x).bytes == WriteBytes(m, address, x).bytes;
  }

  /** Bytes of a value shifted down are its higher bytes. */
  lemma ByteOfDown(v: nat, n: nat, place: nat)
    ensures ByteOf(Down(v, 8 * n), place) == ByteOf(v, n + place)
  {
    Pow256IsPow2(n);
    Pow256Sum(n, place);
    DivideTwice(v, Pow256(n), Pow256(place));
  }

  lemma DivideTwice(v: nat, p: nat, q: nat)
    requires p > 0 && q > 0
    ensures v / p / q == v / (p * q)
  {
    var a, low := v / p, v % p;
    var c, high := a / q, a % q;
    NaturalQuotient(v, p);
    NaturalQuotient(a, q);
    Combine(c, q, high, p, low);
    ModuloUnique(v, c, high * p + low, p * q);
  }

  lemma Combine(c: nat, q: nat, high: nat, p: nat, low: nat)
    requires high < q && low < p
    ensures (c * q + high) * p + low == c * (p * q) + (high * p + low)
    ensures 0 <= high * p + low < p * q
  {
    assert c * q * p == c * (p * q);
    assert (high + 1) * p <= q * p;
  }

  /** The bytes of a word, from the first or the second part of the pair. */
  lemma SplitParts(b: Word32, n: nat, big: bool)
    requires 0 < n < 4
    ensures Split(Down(b, if big then 8 * (4 - n) else 0), n, big) + Split(Down(b, if big then 0 else 8 * n), 4 - n, big)
            == Split(b, 4, big)
  {
    hide Down, ByteOf;
    var x := Split(Down(b, if big then 8 * (4 - n) else 0), n, big);
    var y := Split(Down(b, if big then 0 else 8 * n), 4 - n, big);
    forall i | 0 <= i < 4
      ensures (x + y)[i] == Split(b, 4, big)[i]
    {
      if i < n {
        ByteOfDown(b, if big then 4 - n else 0, Significance(n, i, big));
      } else {
        ByteOfDown(b, if big then 0 else n, Significance(4 - n, i - n, big));
      }
    }
  }

  lemma StoreParts(s: Cpu32, rt: nat, address: Word32, b: Word32)
    requires address + 4 <= W32 && Holds(s.mem, address, 4) && address % 4 != 0
    ensures var n := FirstPart(address);
            var x := Split(Down(b, if s.big then 8 * (4 - n) else 0), n, s.big);
            var y := Split(Down(b, if s.big then 0 else 8 * n), 4 - n, s.big);
            StorePair(s, rt, address, b) == (WriteBytes(WriteBytes(s.mem, address, x), address + n, y), Ok)
  {
    hide Split, Down;
    SecondPart(address);
  }

  lemma StoreAligned(s: Cpu32, rt: nat, address: Word32, b: Word32)
    requires address + 4 <= W32 && Holds(s.mem, address, 4) && address % 4 == 0
    ensures var x := Split(Down(b, 0), 4, s.big);
            StorePair(s, rt, address, b) == (WriteBytes(WriteBytes(s.mem, address, x), address, x), Ok)
  {
    hide Split, Down;
    assert (address + 3) % 4 == 3 && (address + 3) / 4 * 4 == address;
  }

  /** SWL and SWR together store a word at any address, aligned or not, in either byte order. */
  lemma StorePairIsWord(s: Cpu32, rt: nat, address: Word32, b: Word32)
    requires address + 4 <= W32 && Holds(s.mem, address, 4)
    ensures StorePair(s, rt, address, b) == (WriteBytes(s.mem, address, Split(b, 4, s.big)), Ok)
  {
    hide Split, Down, StorePair;
    if address % 4 != 0 {
      var n := FirstPart(address);
      StoreParts(s, rt, address, b);
      SplitParts(b, n, s.big);
      WriteTwice(s.mem, address, Split(Down(b, if s.big then 8 * (4 - n) else 0), n, s.big),
                 Split(Down(b, if s.big then 0 else 8 * n), 4 - n, s.big));
    } else {
      StoreAligned(s, rt, address, b);
      DownZero(b);
      WriteAgain(s.mem, address, Split(b, 4, s.big));
    }
  }

  /** What the pair stores, the other pair loads. */
  lemma PairsRoundTrip(s: Cpu32, rt: nat, address: Word32, b: Word32, other: Word32)
    requires address + 4 <= W32 && Holds(s.mem, address, 4)
    ensures LoadPair(s.(mem := StorePair(s, rt, address, b).0), rt, address, other) == Some(b)
  {
    hide Split, Assemble, LoadPair, StorePair;
    StorePairIsWord(s, rt, address, b);
    var m := WriteBytes(s.mem, address, Split(b, 4, s.big));
    LoadPairIsWord(s.(mem := m), rt, address, other);
    assert ReadBytes(m, address, 4) == Split(b, 4, s.big);
    AssembleOfSplit(b, s.big);
  }

  lemma AssembleFour(t: seq<byte>, big: bool)
    requires |t| == 4
    ensures Assemble(t, big, 4)
            == t[0] * Pow256(Significance(4, 0, big)) + t[1] * Pow256(Significance(4, 1, big))
               + t[2] * Pow256(Significance(4, 2, big)) + t[3] * Pow256(Significance(4, 3, big))
  {
    hide Pow256, Significance;
    assert Assemble(t, big, 0) == 0;
    assert Assemble(t, big, 1) == t[0] * Pow256(Significance(4, 0, big));
    assert Assemble(t, big, 2) == Assemble(t, big, 1) + t[1] * Pow256(Significance(4, 1, big));
    assert Assemble(t, big, 3) == Assemble(t, big, 2) + t[2] * Pow256(Significance(4, 2, big));
    assert Assemble(t, big, 4) == Assemble(t, big, 3) + t[3] * Pow256(Significance(4, 3, big));
  }

  lemma Powers()
    ensures Pow256(0) == 1 && Pow256(1) == 0x100 && Pow256(2) == W16 && Pow256(3) == 0x100_0000
  {
  }

  lemma SplitBytes(b: Word32, big: bool, i: nat)
    requires i < 4
    ensures Split(b, 4, big)[i] == b / Pow256(Significance(4, i, big)) % 0x100
  {
    hide Pow256, Significance;
  }

  lemma Places(big: bool)
    ensures Significance(4, 0, big) == (if big then 3 else 0) && Significance(4, 1, big) == (if big then 2 else 1)
    ensures Significance(4, 2, big) == (if big then 1 else 2) && Significance(4, 3, big) == (if big then 0 else 3)
  {
  }

  lemma AssembleOfSplit(b: Word32, big: bool)
    ensures Low(Assemble(Split(b, 4, big), big, 4)) == b
  {
    hide Pow256, Assemble, Split, Significance, Low;
    var t := Split(b, 4, big);
    AssembleFour(t, big);
    Powers();
    Places(big);
    SplitBytes(b, big, 0);
    SplitBytes(b, big, 1);
    SplitBytes(b, big, 2);
    SplitBytes(b, big, 3);
    LowOfSmall(b);
    BytesOfWord(b);
  }

  lemma BytesOfWord(b: Word32)
    ensures b == b / 1 % 0x100 + b / 0x100 % 0x100 * 0x100 + b / W16 % 0x100 * W16 + b / 0x100_0000 % 0x100 * 0x100_0000
  {
    NextByte(b, 1);
    NextByte(b, 0x100);
    NextByte(b, W16);
    NextByte(b, 0x100_0000);
    assert b / W32 == 0;
  }

  /** The byte at p, and the bytes above. */
  lemma NextByte(b: nat, p: nat)
    requires p > 0
    ensures b / p == b / (p * 0x100) * 0x100 + b / p % 0x100
  {
    DivideTwice(b, p, 0x100);
    NaturalQuotient(b / p, 0x100);
  }
}

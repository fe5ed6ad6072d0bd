/**
  What repeated string instructions do to memory without paging and with the A20
  gate open, in segments or flat (src/xxemul_x86.c, lines 90-112, 168-219, 992-1011
  and 1720-1901): MOVS copies a block, STOS fills one, SCAS and CMPS compare up to
  the first element that ends the search.
*/
module X86StringMeaning {
  import opened Arithmetic
  import opened Wrappers
  import opened GuestMemory
  import opened X86Paging
  import opened X86Gates
  import opened X86Strings

  predicate SizeOk(i: Instruction) {
    i.size == 1 || i.size == 2 || i.size == 4 || i.size == 8
  }

  // ----------------------------------------------------------------------
  // Blocks
  // ----------------------------------------------------------------------

  /** The offset of an element, in the order of the run. */
  function Offset(e: Setting, i: Instruction, pointer: nat, k: nat): int {
    pointer % Offsets(e, i) + k * Delta(e, i)
  }

  /** No offset of the first n elements wraps around. */
  predicate NoWrap(e: Setting, i: Instruction, pointer: nat, n: nat) {
    n > 0 ==> 0 <= Offset(e, i, pointer, n - 1) < Offsets(e, i)
  }

  /** The linear address of offset 0. */
  function SegmentBase(e: Setting, g: SegmentRegister): nat {
    if !e.dos then 0 else if g.cache.valid then g.cache.base else g.selector * 0x10
  }

  /** An element at this offset lies in its segment, and its bytes at consecutive addresses. */
  predicate Located(e: Setting, i: Instruction, g: SegmentRegister, offset: int) {
    && offset >= 0
    && Locate(e, g, offset, i.size) == Some(SegmentBase(e, g) + offset)
    && (e.dos ==> SegmentBase(e, g) + offset + i.size <= TWO_32)
  }

  /** The lowest address of n > 0 elements. */
  function Lowest(e: Setting, i: Instruction, g: SegmentRegister, pointer: nat, n: nat): int
    requires n > 0
  {
    SegmentBase(e, g) + if e.backward then Offset(e, i, pointer, n - 1) else Offset(e, i, pointer, 0)
  }

  /** n elements are in their segment, and the memory they take is in the region. */
  ghost predicate InMemory(e: Setting, i: Instruction, m: Memory, g: SegmentRegister, pointer: nat, n: nat) {
    && NoWrap(e, i, pointer, n)
    && (n > 0 ==> Lowest(e, i, g, pointer, n) >= 0 && Holds(m, Lowest(e, i, g, pointer, n), n * i.size))
    && AllLocated(e, i, g, pointer, n)
  }

  ghost predicate AllLocated(e: Setting, i: Instruction, g: SegmentRegister, pointer: nat, n: nat) {
    forall k: nat | k < n :: Located(e, i, g, Offset(e, i, pointer, k))
  }

  // ----------------------------------------------------------------------
  // Accesses
  // ----------------------------------------------------------------------

  /** Linear addresses are physical. */
  predicate Plain(e: Setting) {
    !e.dos || (!e.control.paging && e.control.a20)
  }

  lemma {:induction false} PlainRead(c: Control, s: Cpu, address: nat, size: nat, got: nat)
    requires !c.paging && c.a20 && address + size <= TWO_32 && Holds(s.mem, address, size) && got <= size
    ensures ReadChunks(c, s, address, size, ReadBytes(s.mem, address, got)) == Reading(s, Ok, ReadBytes(s.mem, address, size))
    decreases size - got
  {
    hide ReadBytes, Linear, Translate;
    ReadLength(s.mem, address, got);
    if got < size {
      var n := Chunk(Linear(address, got), size - got);
      PlainAddress(c, s, address, size, got, false);
      ReadTwice(s.mem, address, got, n);
      PlainRead(c, s, address, size, got + n);
    }
  }

  lemma ReadLength(m: Memory, address: nat, size: nat)
    requires Holds(m, address, size)
    ensures |ReadBytes(m, address, size)| == size
  {
  }

  lemma PlainAddress(c: Control, s: Cpu, address: nat, size: nat, i: nat, writing: bool)
    requires !c.paging && c.a20 && address + size <= TWO_32 && i < size
    ensures Linear(address, i) == address + i && Translate(c, s, Linear(address, i), writing) == (s, Frame(address + i))
  {
    assert (address + i) / PAGE * PAGE + (address + i) % PAGE == address + i;
  }

  lemma {:induction false} PlainPreflight(c: Control, s: Cpu, address: nat, size: nat, done: nat)
    requires !c.paging && c.a20 && address + size <= TWO_32 && Holds(s.mem, address, size) && done <= size
    ensures Preflight(c, s, address, size, done) == (s, Ok)
    decreases size - done
  {
    if done < size {
      PlainAddress(c, s, address, size, done, true);
      PlainPreflight(c, s, address, size, done + Chunk(Linear(address, done), size - done));
    }
  }

  lemma {:induction false} PlainWrite(c: Control, s: Cpu, address: nat, data: seq<byte>, done: nat)
    requires !c.paging && c.a20 && address + |data| <= TWO_32 && Holds(s.mem, address, |data|) && done <= |data|
    ensures WriteChunks(c, s.(mem := WriteBytes(s.mem, address, data[..done])), address, data, done)
            == (s.(mem := WriteBytes(s.mem, address, data)), Ok)
    decreases |data| - done
  {
    hide WriteBytes;
    if done < |data| {
      var n := Chunk(Linear(address, done), |data| - done);
      var t := s.(mem := WriteBytes(s.mem, address, data[..done]));
      PlainAddress(c, t, address, |data|, done, true);
      WriteTwice(s.mem, address, data[..done], data[done..done + n]);
      assert data[..done] + data[done..done + n] == data[..done + n];
      PlainWrite(c, s, address, data, done + n);
    } else {
      assert data[..done] == data;
    }
  }

  lemma LoadsPlain(e: Setting, s: Cpu, address: nat, size: nat)
    requires Plain(e) && Holds(s.mem, address, size) && (e.dos ==> address + size <= TWO_32)
    ensures Load(e, s, address, size) == Done(s, LittleEndian(ReadBytes(s.mem, address, size)))
  {
    hide LittleEndian, ReadChunks;
    if e.dos {
      PlainRead(e.control, s, address, size, 0);
      assert ReadBytes(s.mem, address, 0) == [];
    }
  }

  lemma StoresPlain(e: Setting, s: Cpu, address: nat, size: nat, v: nat)
    requires Plain(e) && Holds(s.mem, address, size) && (e.dos ==> address + size <= TWO_32)
    ensures Store(e, s, address, size, v) == (s.(mem := WriteBytes(s.mem, address, Bytes(size, v))), Ok)
  {
    hide Bytes, WriteChunks, Preflight;
    if e.dos {
      var data := Bytes(size, v);
      PlainPreflight(e.control, s, address, size, 0);
      PlainWrite(e.control, s, address, data, 0);
      NothingWritten(s.mem, address);
      assert data[..0] == [];
    }
  }

  lemma NothingWritten(m: Memory, address: nat)
    requires Holds(m, address, 0)
    ensures WriteBytes(m, address, []) == m
  {
    assert WriteBytes(m, address, []).bytes == m.bytes;
  }

  // ----------------------------------------------------------------------
  // The elements of a block
  // ----------------------------------------------------------------------

  lemma Between(d: int, k: nat, n: nat, p: int, m: int)
    requires k < n && 0 <= p < m && 0 <= p + (n - 1) * d < m
    ensures 0 <= p + k * d < m
  {
    Multiples(k, n - 1 - k, d);
    assert k + (n - 1 - k) == n - 1;
  }

  lemma Multiples(a: nat, b: nat, d: int)
    ensures (a + b) * d == a * d + b * d
    ensures if d >= 0 then a * d >= 0 && b * d >= 0 else a * d <= 0 && b * d <= 0
  {
  }

  /** A pointer after one element, when another follows. */
  lemma NextOffset(e: Setting, i: Instruction, pointer: nat, n: nat)
    requires n > 1 && NoWrap(e, i, pointer, n)
    ensures Moved(e, i, pointer) % Offsets(e, i) == pointer % Offsets(e, i) + Delta(e, i)
    ensures NoWrap(e, i, Moved(e, i, pointer), n - 1)
  {
    hide Offsets, Delta, High, Wrapped;
    var m, d := Offsets(e, i), Delta(e, i);
    var next := pointer % m + d;
    Between(d, 1, n, pointer % m, m);
    ModuloUnique(next, 0, next, m);
    assert Wrapped(next, m) == next by { WrappedSmall(next, m); }
    HighAndLow(pointer, next, m);
    assert next + (n - 2) * d == pointer % m + (n - 1) * d;
  }

  lemma WrappedSmall(v: int, m: nat)
    requires 0 <= v < m
    ensures Wrapped(v, m) == v
  {
    ModuloUnique(v, 0, v, m);
  }

  /** The element a pointer names is in its segment and in the region. */
  predicate InReach(e: Setting, i: Instruction, m: Memory, g: SegmentRegister, pointer: nat) {
    Located(e, i, g, pointer % Offsets(e, i)) && Holds(m, SegmentBase(e, g) + pointer % Offsets(e, i), i.size)
  }

  /** The first element's place in its block, and the block of the others. */
  lemma BlockParts(e: Setting, i: Instruction, m: Memory, g: SegmentRegister, pointer: nat, n: nat)
    requires n > 0 && InMemory(e, i, m, g, pointer, n)
    ensures var first, low := SegmentBase(e, g) + pointer % Offsets(e, i), Lowest(e, i, g, pointer, n);
            && Holds(m, first, i.size) && InReach(e, i, m, g, pointer)
            && (if e.backward then first == low + (n - 1) * i.size else first == low)
            && (n > 1 ==> Lowest(e, i, g, Moved(e, i, pointer), n - 1) == if e.backward then low else low + i.size)
            && InMemory(e, i, m, g, Moved(e, i, pointer), n - 1)
  {
    hide Offsets, Moved, Holds, Located, SegmentBase, AllLocated;
    Extent(e, i, n);
    LowestIs(e, i, g, pointer, n);
    FirstLocated(e, i, g, pointer, n);
    HoldsPart(m, Lowest(e, i, g, pointer, n), n * i.size, if e.backward then (n - 1) * i.size else 0, i.size);
    if n > 1 {
      NextOffset(e, i, pointer, n);
      Extent(e, i, n - 1);
      LowestIs(e, i, g, Moved(e, i, pointer), n - 1);
      HoldsPart(m, Lowest(e, i, g, pointer, n), n * i.size, if e.backward then 0 else i.size, (n - 1) * i.size);
      LaterLocated(e, i, g, pointer, n);
    }
  }

  lemma FirstLocated(e: Setting, i: Instruction, g: SegmentRegister, pointer: nat, n: nat)
    requires n > 0 && AllLocated(e, i, g, pointer, n)
    ensures Located(e, i, g, pointer % Offsets(e, i)) && AllLocated(e, i, g, Moved(e, i, pointer), 0)
  {
    hide Offsets, Located, Moved;
    FirstOffset(e, i, pointer);
    assert Located(e, i, g, Offset(e, i, pointer, 0));
  }

  lemma LaterLocated(e: Setting, i: Instruction, g: SegmentRegister, pointer: nat, n: nat)
    requires n > 1 && NoWrap(e, i, pointer, n) && AllLocated(e, i, g, pointer, n)
    ensures AllLocated(e, i, g, Moved(e, i, pointer), n - 1)
  {
    hide Offsets, Located, Moved, Offset;
    LaterOffsets(e, i, pointer, n);
    forall k: nat | k < n - 1
      ensures Located(e, i, g, Offset(e, i, Moved(e, i, pointer), k))
    {
      assert Located(e, i, g, Offset(e, i, pointer, k + 1));
    }
  }

  lemma FirstOffset(e: Setting, i: Instruction, pointer: nat)
    ensures Offset(e, i, pointer, 0) == pointer % Offsets(e, i)
  {
    hide Offsets, Delta;
  }

  /** The bytes from the first to the last element. */
  lemma Extent(e: Setting, i: Instruction, n: nat)
    requires n > 0
    ensures n * i.size == (n - 1) * i.size + i.size && (n - 1) * i.size >= 0
    ensures (n - 1) * Delta(e, i) == if e.backward then -((n - 1) * i.size) else (n - 1) * i.size
  {
    Negations(n - 1, i.size);
  }

  lemma LowestIs(e: Setting, i: Instruction, g: SegmentRegister, pointer: nat, n: nat)
    requires n > 0
    ensures Lowest(e, i, g, pointer, n)
            == SegmentBase(e, g) + pointer % Offsets(e, i) - if e.backward then (n - 1) * i.size else 0
  {
    hide Offsets, SegmentBase;
    Extent(e, i, n);
  }

  lemma HoldsPart(m: Memory, address: nat, size: nat, from: nat, part: nat)
    requires Holds(m, address, size) && from + part <= size
    ensures Holds(m, address + from, part)
  {
  }

  /** The bytes of a block of n elements. */
  ghost function Block(e: Setting, i: Instruction, m: Memory, g: SegmentRegister, pointer: nat, n: nat): (b: seq<byte>)
    requires InMemory(e, i, m, g, pointer, n)
    ensures |b| == n * i.size
  {
    if n == 0 then [] else ReadBytes(m, Lowest(e, i, g, pointer, n), n * i.size)
  }

  /** m with a block of n elements replaced. */
  ghost function WithBlock(e: Setting, i: Instruction, m: Memory, g: SegmentRegister, pointer: nat, n: nat, data: seq<byte>): Memory
    requires InMemory(e, i, m, g, pointer, n) && |data| == n * i.size
  {
    if n == 0 then m else WriteBytes(m, Lowest(e, i, g, pointer, n), data)
  }

  // ----------------------------------------------------------------------
  // MOVS and STOS
  // ----------------------------------------------------------------------

  lemma BytesOfLoaded(m: Memory, address: nat, size: nat)
    requires Holds(m, address, size)
    ensures Bytes(size, LittleEndian(ReadBytes(m, address, size))) == ReadBytes(m, address, size)
  {
    hide Pow256, LittleEndian;
    var b := ReadBytes(m, address, size);
    forall k | 0 <= k < size
      ensures Bytes(size, LittleEndian(b))[k] == b[k]
    {
      BytesOfLittleEndian(b, k);
    }
  }

  /** The bytes that one MOVS or STOS stores. */
  function StoredBytes(e: Setting, i: Instruction, s: Machine): (b: seq<byte>)
    requires i.op.Movs? ==> InReach(e, i, s.cpu.mem, e.source, s.rsi)
    ensures |b| == i.size
  {
    if i.op.Movs? then ReadBytes(s.cpu.mem, SegmentBase(e, e.source) + s.rsi % Offsets(e, i), i.size) else Bytes(i.size, Accumulator(i, s))
  }

  /** One element of a MOVS or STOS. */
  lemma StoresElement(e: Setting, i: Instruction, s: Machine)
    requires Plain(e) && (i.op.Movs? || i.op.Stos?)
    requires i.op.Movs? ==> InReach(e, i, s.cpu.mem, e.source, s.rsi)
    requires InReach(e, i, s.cpu.mem, e.es, s.rdi)
    ensures Element(e, i, s) == Completed(Advanced(e, i,
              s.(cpu := s.cpu.(mem := WriteBytes(s.cpu.mem, SegmentBase(e, e.es) + s.rdi % Offsets(e, i), StoredBytes(e, i, s))))))
  {
    hide Offsets, LittleEndian, Moved, ReadBytes, WriteBytes, Load, Store, Locate, SegmentBase, Plain;
    var to := SegmentBase(e, e.es) + s.rdi % Offsets(e, i);
    if i.op.Movs? {
      var from := SegmentBase(e, e.source) + s.rsi % Offsets(e, i);
      LoadsPlain(e, s.cpu, from, i.size);
      BytesOfLoaded(s.cpu.mem, from, i.size);
      StoresPlain(e, s.cpu, to, i.size, LittleEndian(ReadBytes(s.cpu.mem, from, i.size)));
    } else {
      StoresPlain(e, s.cpu, to, i.size, Accumulator(i, s));
    }
  }

  function Fill(b: seq<byte>, n: nat): (f: seq<byte>)
    ensures |f| == n * |b|
  {
    if n == 0 then [] else b + Fill(b, n - 1)
  }

  lemma {:induction false} FillEnds(b: seq<byte>, n: nat)
    ensures b + Fill(b, n) == Fill(b, n) + b
  {
    if n > 0 {
      FillEnds(b, n - 1);
      assert (b + Fill(b, n - 1)) + b == b + (Fill(b, n - 1) + b);
    }
  }

  /** Copying in this direction never reads a byte that an earlier element has replaced. */
  predicate InOrder(e: Setting, i: Instruction, s: Machine, n: nat)
    requires n > 0
  {
    var source, destination := Lowest(e, i, e.source, s.rsi, n), Lowest(e, i, e.es, s.rdi, n);
    if e.backward then source <= destination || destination + n * i.size <= source
    else destination <= source || source + n * i.size <= destination
  }

  /** What n elements of a MOVS or STOS are to store. */
  ghost predicate Storable(e: Setting, i: Instruction, s: Machine, n: nat) {
    && Plain(e) && (i.op.Movs? || i.op.Stos?)
    && InMemory(e, i, s.cpu.mem, e.es, s.rdi, n)
    && (i.op.Movs? ==> InMemory(e, i, s.cpu.mem, e.source, s.rsi, n) && (n > 0 ==> InOrder(e, i, s, n)))
  }

  ghost function Stored(e: Setting, i: Instruction, s: Machine, n: nat): (b: seq<byte>)
    requires Storable(e, i, s, n)
    ensures |b| == n * i.size
  {
    if i.op.Movs? then Block(e, i, s.cpu.mem, e.source, s.rsi, n) else Fill(Bytes(i.size, Accumulator(i, s)), n)
  }

  /** A block is its first element and the block of the others. */
  lemma BlockStep(e: Setting, i: Instruction, m: Memory, g: SegmentRegister, pointer: nat, n: nat)
    requires n > 0 && InMemory(e, i, m, g, pointer, n)
    ensures var first := SegmentBase(e, g) + pointer % Offsets(e, i);
            && Holds(m, first, i.size) && InMemory(e, i, m, g, Moved(e, i, pointer), n - 1)
            && var x, rest := ReadBytes(m, first, i.size), Block(e, i, m, g, Moved(e, i, pointer), n - 1);
               Block(e, i, m, g, pointer, n) == if e.backward then rest + x else x + rest
  {
    hide Offsets, Moved, Lowest, NoWrap, AllLocated, InReach, SegmentBase;
    BlockParts(e, i, m, g, pointer, n);
    Extent(e, i, n);
    if e.backward {
      ReadTwice(m, Lowest(e, i, g, pointer, n), (n - 1) * i.size, i.size);
    } else {
      ReadTwice(m, Lowest(e, i, g, pointer, n), i.size, (n - 1) * i.size);
    }
  }

  lemma BlockHeld(e: Setting, i: Instruction, m: Memory, g: SegmentRegister, pointer: nat, n: nat)
    requires n > 0 && InMemory(e, i, m, g, pointer, n)
    ensures Lowest(e, i, g, pointer, n) >= 0 && Holds(m, Lowest(e, i, g, pointer, n), n * i.size)
  {
  }

  lemma SameRegionKeeps(e: Setting, i: Instruction, m: Memory, o: Memory, g: SegmentRegister, pointer: nat, n: nat)
    requires m.base == o.base && |m.bytes| == |o.bytes| && InMemory(e, i, m, g, pointer, n)
    ensures InMemory(e, i, o, g, pointer, n)
  {
    hide NoWrap, Lowest, AllLocated;
  }

  lemma WithBlockStep(e: Setting, i: Instruction, m: Memory, g: SegmentRegister, pointer: nat, n: nat, x: seq<byte>, rest: seq<byte>)
    requires n > 0 && InMemory(e, i, m, g, pointer, n) && |x| == i.size && |rest| == (n - 1) * i.size
    ensures var first := SegmentBase(e, g) + pointer % Offsets(e, i);
            && Holds(m, first, i.size)
            && InMemory(e, i, WriteBytes(m, first, x), g, Moved(e, i, pointer), n - 1)
            && |x| + |rest| == n * i.size
            && WithBlock(e, i, WriteBytes(m, first, x), g, Moved(e, i, pointer), n - 1, rest)
               == WithBlock(e, i, m, g, pointer, n, if e.backward then rest + x else x + rest)
  {
    hide Offsets, Moved, Lowest, InMemory, InReach, SegmentBase, WriteBytes, Holds;
    BlockParts(e, i, m, g, pointer, n);
    BlockHeld(e, i, m, g, pointer, n);
    Extent(e, i, n);
    var low := Lowest(e, i, g, pointer, n);
    var first := SegmentBase(e, g) + pointer % Offsets(e, i);
    SameRegionKeeps(e, i, m, WriteBytes(m, first, x), g, Moved(e, i, pointer), n - 1);
    if e.backward {
      WriteBelow(m, low, rest, x);
    } else {
      WriteTwice(m, low, x, rest);
    }
    if n == 1 {
      assert rest == [] && rest + x == x && x + rest == x;
    }
  }

  /** Nothing that the first element of a copy replaces is read later. */
  lemma SourceSpared(e: Setting, i: Instruction, s: Machine, n: nat, x: seq<byte>)
    requires n > 1 && i.op.Movs? && Storable(e, i, s, n) && |x| == i.size
    ensures var first := SegmentBase(e, e.es) + s.rdi % Offsets(e, i);
            && Holds(s.cpu.mem, first, i.size)
            && InMemory(e, i, s.cpu.mem, e.source, Moved(e, i, s.rsi), n - 1)
            && InMemory(e, i, WriteBytes(s.cpu.mem, first, x), e.source, Moved(e, i, s.rsi), n - 1)
            && Block(e, i, WriteBytes(s.cpu.mem, first, x), e.source, Moved(e, i, s.rsi), n - 1)
               == Block(e, i, s.cpu.mem, e.source, Moved(e, i, s.rsi), n - 1)
  {
    hide Offsets, Moved, Lowest, InMemory, InReach, SegmentBase, WriteBytes, Holds, Plain, ReadBytes;
    var m := s.cpu.mem;
    BlockParts(e, i, m, e.es, s.rdi, n);
    BlockParts(e, i, m, e.source, s.rsi, n);
    BlockHeld(e, i, m, e.source, Moved(e, i, s.rsi), n - 1);
    Extent(e, i, n);
    var first := SegmentBase(e, e.es) + s.rdi % Offsets(e, i);
    SameRegionKeeps(e, i, m, WriteBytes(m, first, x), e.source, Moved(e, i, s.rsi), n - 1);
    ReadElsewhere(m, first, x, Lowest(e, i, e.source, Moved(e, i, s.rsi), n - 1), (n - 1) * i.size);
  }

  lemma InOrderLater(e: Setting, i: Instruction, s: Machine, n: nat, u: Machine)
    requires n > 1 && i.op.Movs? && Storable(e, i, s, n)
    requires u.rdi == Moved(e, i, s.rdi) && u.rsi == Moved(e, i, s.rsi)
    ensures InOrder(e, i, u, n - 1)
  {
    hide Offsets, Moved, Lowest, InMemory, InReach, SegmentBase, Holds, Plain;
    BlockParts(e, i, s.cpu.mem, e.es, s.rdi, n);
    BlockParts(e, i, s.cpu.mem, e.source, s.rsi, n);
    Extent(e, i, n);
  }

  /** Storing the first element leaves the rest as it was to be stored. */
  lemma StoredRest(e: Setting, i: Instruction, s: Machine, n: nat, u: Machine)
    requires n > 0 && Storable(e, i, s, n)
    requires i.op.Movs? ==> InReach(e, i, s.cpu.mem, e.source, s.rsi)
    requires InReach(e, i, s.cpu.mem, e.es, s.rdi)
    requires u.cpu.mem == WriteBytes(s.cpu.mem, SegmentBase(e, e.es) + s.rdi % Offsets(e, i), StoredBytes(e, i, s)) && u.rax == s.rax
    requires u.rdi == Moved(e, i, s.rdi) && u.rsi == if i.op.Movs? then Moved(e, i, s.rsi) else s.rsi
    ensures Storable(e, i, u, n - 1)
    ensures var x, rest := StoredBytes(e, i, s), Stored(e, i, u, n - 1);
            Stored(e, i, s, n) == if e.backward then rest + x else x + rest
  {
    hide Offsets, Moved, Lowest, InMemory, InReach, SegmentBase, WriteBytes, Holds, Plain, Bytes, InOrder, ReadBytes, Block, Fill;
    var x := StoredBytes(e, i, s);
    BlockParts(e, i, s.cpu.mem, e.es, s.rdi, n);
    SameRegionKeeps(e, i, s.cpu.mem, u.cpu.mem, e.es, u.rdi, n - 1);
    if i.op.Movs? {
      BlockStep(e, i, s.cpu.mem, e.source, s.rsi, n);
      SameRegionKeeps(e, i, s.cpu.mem, u.cpu.mem, e.source, u.rsi, n - 1);
      if n > 1 {
        SourceSpared(e, i, s, n, x);
        InOrderLater(e, i, s, n, u);
      } else {
        NoBlock(e, i, s.cpu.mem, e.source, u.rsi);
        NoBlock(e, i, u.cpu.mem, e.source, u.rsi);
      }
    } else {
      FillStep(Bytes(i.size, Accumulator(i, s)), n);
    }
  }

  lemma NoBlock(e: Setting, i: Instruction, m: Memory, g: SegmentRegister, pointer: nat)
    requires InMemory(e, i, m, g, pointer, 0)
    ensures Block(e, i, m, g, pointer, 0) == []
  {
  }

  lemma FillStep(b: seq<byte>, n: nat)
    requires n > 0
    ensures Fill(b, n) == b + Fill(b, n - 1) && Fill(b, n) == Fill(b, n - 1) + b
  {
    FillEnds(b, n - 1);
  }

  /** The machine after n elements of MOVS or STOS but for its memory: what the pointers and the count say is in ElementsMove. */
  predicate OnlyMoved(s: Machine, m: Memory, t: Machine) {
    t == s.(cpu := s.cpu.(mem := m), rcx := t.rcx, rsi := t.rsi, rdi := t.rdi)
  }

  /** The first element of a MOVS or STOS, and what is left of the instruction. */
  lemma StoresFirst(e: Setting, i: Instruction, s: Machine, n: nat) returns (u: Machine)
    requires Repeats(i) && n > 0 && n == Count(e, i, s) && Storable(e, i, s, n)
    ensures Count(e, i, u) == n - 1 && OneByOne(e, i, s) == OneByOne(e, i, u)
    ensures InReach(e, i, s.cpu.mem, e.es, s.rdi) && (i.op.Movs? ==> InReach(e, i, s.cpu.mem, e.source, s.rsi))
    ensures OnlyMoved(s, WriteBytes(s.cpu.mem, SegmentBase(e, e.es) + s.rdi % Offsets(e, i), StoredBytes(e, i, s)), u)
    ensures u.rdi == Moved(e, i, s.rdi) && u.rsi == if i.op.Movs? then Moved(e, i, s.rsi) else s.rsi
  {
    hide Offsets, Moved, Lowest, NoWrap, Element, InOrder, AllLocated, SegmentBase, Plain, StoredBytes, InMemory, WriteBytes, InReach;
    BlockParts(e, i, s.cpu.mem, e.es, s.rdi, n);
    if i.op.Movs? {
      BlockParts(e, i, s.cpu.mem, e.source, s.rsi, n);
    }
    assert InReach(e, i, s.cpu.mem, e.es, s.rdi);
    StoresElement(e, i, s);
    CountBelow(e, i, s);
    CountOf(e, i, Element(e, i, s).m, n - 1);
    u := WithCount(e, i, Element(e, i, s).m, n - 1);
    if n == 1 {
      EmptyRun(e, i, u);
    }
  }

  lemma EmptyRun(e: Setting, i: Instruction, s: Machine)
    requires Repeats(i) && Count(e, i, s) == 0
    ensures OneByOne(e, i, s) == Completed(s)
  {
  }

  lemma {:induction false} StoresInOrder(e: Setting, i: Instruction, s: Machine, n: nat)
    requires Repeats(i) && n == Count(e, i, s) && Storable(e, i, s, n)
    ensures var r := OneByOne(e, i, s);
            r.Completed? && OnlyMoved(s, WithBlock(e, i, s.cpu.mem, e.es, s.rdi, n, Stored(e, i, s, n)), r.m)
    decreases n
  {
    hide Offsets, Moved, Lowest, InMemory, InReach, InOrder, SegmentBase, Plain, Bytes, Block, Stored, StoredBytes, OneByOne, WithBlock, WriteBytes, Count;
    if n == 0 {
      EmptyRun(e, i, s);
      NothingReplaced(e, i, s.cpu.mem, e.es, s.rdi, Stored(e, i, s, 0));
    } else {
      var u := StoresFirst(e, i, s, n);
      StoredRest(e, i, s, n, u);
      StoresInOrder(e, i, u, n - 1);
      WithBlockStep(e, i, s.cpu.mem, e.es, s.rdi, n, StoredBytes(e, i, s), Stored(e, i, u, n - 1));
    }
  }

  lemma NothingReplaced(e: Setting, i: Instruction, m: Memory, g: SegmentRegister, pointer: nat, data: seq<byte>)
    requires InMemory(e, i, m, g, pointer, 0) && data == []
    ensures WithBlock(e, i, m, g, pointer, 0, data) == m
  {
  }

  /**
    REP MOVS copies the block at the source pointer to the destination pointer,
    and REP STOS fills the block with the accumulator, whole, whatever the
    direction and however many chunks the instruction takes; nothing else in
    memory changes.
  */
  lemma RepeatedStoreIsBlock(e: Setting, i: Instruction, s: Machine)
    requires Repeats(i) && Storable(e, i, s, Count(e, i, s))
    ensures var n, r := Count(e, i, s), Repeated(e, i, s);
            r.Completed? && OnlyMoved(s, WithBlock(e, i, s.cpu.mem, e.es, s.rdi, n, Stored(e, i, s, n)), r.m)
  {
    hide Repeated, OneByOne, Stored, WithBlock;
    ChunkingIsInvisible(e, i, s);
    StoresInOrder(e, i, s, Count(e, i, s));
  }

  // ----------------------------------------------------------------------
  // CMPS and SCAS
  // ----------------------------------------------------------------------

  function Signed(v: nat, sign: nat): int {
    if v < sign then v else v - 2 * sign
  }

  /** The flags f decide equality and both orders; the adjust flag is the borrow of the low digit. */
  predicate Decides(f: Status6, left: nat, right: nat, sign: nat) {
    && f.carry == (left < right) && f.zero == (left == right)
    && (f.sign != f.overflow) == (Signed(left, sign) < Signed(right, sign))
    && f.overflow == !(-(sign as int) <= Signed(left, sign) - Signed(right, sign) < sign)
    && f.adjust == (left % 0x10 < right % 0x10)
  }

  lemma SubFlagsDecide(left: nat, right: nat, sign: nat)
    requires sign > 0 && sign % 0x10 == 0 && left < 2 * sign && right < 2 * sign
    ensures Decides(SubFlags(left, right, sign), left, right, sign)
  {
    hide EvenParity, HasBit, Signed;
    var d: nat := if left < right then left + 2 * sign - right else left - right;
    ModuloUnique(left - right, if left < right then -1 else 0, d, 2 * sign);
    TopBit(left, sign);
    TopBit(right, sign);
    TopBit(d, sign);
    AdjustIsBorrow(left, right, d, if left < right then sign / 0x10 else 0);
    SignedOrder(left, right, d, sign);
  }

  lemma SignedOrder(left: nat, right: nat, d: nat, sign: nat)
    requires left < 2 * sign && right < 2 * sign && d == left - right + if left < right then 2 * sign else 0
    ensures var overflow := (left >= sign) != (right >= sign) && (left >= sign) != (d >= sign);
            && ((d >= sign) != overflow) == (Signed(left, sign) < Signed(right, sign))
            && overflow == !(-(sign as int) <= Signed(left, sign) - Signed(right, sign) < sign)
  {
  }

  lemma TopBit(v: nat, sign: nat)
    requires sign > 0 && v < 2 * sign
    ensures HasBit(v, sign) == (v >= sign)
  {
    ModuloUnique(v, if v >= sign then 1 else 0, if v >= sign then v - sign else v, sign);
  }

  lemma AdjustIsBorrow(left: nat, right: nat, result: nat, k: nat)
    requires result == left - right + 0x20 * k
    ensures (left / 0x10 + right / 0x10 + result / 0x10) % 2 == 1 <==> left % 0x10 < right % 0x10
  {
  }

  /** The value at an address, if it is in the region. */
  function ValueAt(m: Memory, address: int, size: nat): nat {
    if address >= 0 && Holds(m, address, size) then LittleEndian(ReadBytes(m, address, size)) else 0
  }

  /** The operands of the comparison of the k-th element. */
  function LeftOf(e: Setting, i: Instruction, s: Machine, k: nat): nat {
    if i.op.Cmps? then ValueAt(s.cpu.mem, SegmentBase(e, e.source) + Offset(e, i, s.rsi, k), i.size) else Accumulator(i, s)
  }

  function RightOf(e: Setting, i: Instruction, s: Machine, k: nat): nat {
    ValueAt(s.cpu.mem, SegmentBase(e, e.es) + Offset(e, i, s.rdi, k), i.size)
  }

  /** REP goes on while the elements are equal, REPNE while they differ. */
  predicate GoesOn(e: Setting, i: Instruction, s: Machine, k: nat) {
    !(i.rep && LeftOf(e, i, s, k) != RightOf(e, i, s, k)) && !(i.repne && LeftOf(e, i, s, k) == RightOf(e, i, s, k))
  }

  ghost predicate Comparable(e: Setting, i: Instruction, s: Machine, n: nat) {
    && Plain(e) && Compares(i) && SizeOk(i)
    && InMemory(e, i, s.cpu.mem, e.es, s.rdi, n) && (i.op.Cmps? ==> InMemory(e, i, s.cpu.mem, e.source, s.rsi, n))
  }

  function FlagsAt(e: Setting, i: Instruction, s: Machine, k: nat): Status6 {
    SubFlags(LeftOf(e, i, s, k), RightOf(e, i, s, k), SignWeight(i.size))
  }

  lemma ComparesElement(e: Setting, i: Instruction, s: Machine, n: nat)
    requires n > 0 && Comparable(e, i, s, n)
    ensures Element(e, i, s) == Completed(Advanced(e, i, s.(status := FlagsAt(e, i, s, 0))))
  {
    hide Offsets, LittleEndian, Moved, ReadBytes, Lowest, NoWrap, SubFlags, Load, Locate, SegmentBase, Plain;
    BlockParts(e, i, s.cpu.mem, e.es, s.rdi, n);
    FirstOffset(e, i, s.rdi);
    LoadsPlain(e, s.cpu, SegmentBase(e, e.es) + s.rdi % Offsets(e, i), i.size);
    if i.op.Cmps? {
      BlockParts(e, i, s.cpu.mem, e.source, s.rsi, n);
      FirstOffset(e, i, s.rsi);
      LoadsPlain(e, s.cpu, SegmentBase(e, e.source) + s.rsi % Offsets(e, i), i.size);
    }
  }

  lemma SignOfSize(i: Instruction)
    requires SizeOk(i)
    ensures 2 * SignWeight(i.size) == Pow256(i.size) && SignWeight(i.size) % 0x10 == 0
  {
    hide Pow256;
    var p := Pow256(i.size - 1);
    Pow256Next(i.size);
    ModuloUnique(0x80 * p, 8 * p, 0, 0x10);
  }

  lemma ValueFits(m: Memory, address: int, size: nat)
    ensures ValueAt(m, address, size) < Pow256(size)
  {
    hide Pow256, LittleEndian;
    if address >= 0 && Holds(m, address, size) {
      LittleEndianBelow(ReadBytes(m, address, size));
    }
  }

  lemma ZeroDecides(e: Setting, i: Instruction, s: Machine, k: nat)
    requires SizeOk(i) && Compares(i)
    ensures FlagsAt(e, i, s, k).zero == (LeftOf(e, i, s, k) == RightOf(e, i, s, k))
  {
    hide Offset, ValueAt, SubFlags;
    SignOfSize(i);
    ValueFits(s.cpu.mem, SegmentBase(e, e.source) + Offset(e, i, s.rsi, k), i.size);
    ValueFits(s.cpu.mem, SegmentBase(e, e.es) + Offset(e, i, s.rdi, k), i.size);
    SubFlagsDecide(LeftOf(e, i, s, k), RightOf(e, i, s, k), SignWeight(i.size));
  }

  /** The operands of later elements, seen after the first. */
  lemma LaterOperands(e: Setting, i: Instruction, s: Machine, n: nat, u: Machine)
    requires n > 1 && Comparable(e, i, s, n) && u.cpu == s.cpu && u.rax == s.rax
    requires u.rdi == Moved(e, i, s.rdi) && u.rsi == if i.op.Cmps? then Moved(e, i, s.rsi) else s.rsi
    ensures Comparable(e, i, u, n - 1)
    ensures forall k: nat :: LeftOf(e, i, u, k) == LeftOf(e, i, s, k + 1) && RightOf(e, i, u, k) == RightOf(e, i, s, k + 1)
  {
    hide Offsets, Moved, ValueAt, Lowest, NoWrap;
    BlockParts(e, i, s.cpu.mem, e.es, s.rdi, n);
    LaterOffsets(e, i, s.rdi, n);
    if i.op.Cmps? {
      BlockParts(e, i, s.cpu.mem, e.source, s.rsi, n);
      LaterOffsets(e, i, s.rsi, n);
    }
  }

  lemma LaterOffsets(e: Setting, i: Instruction, pointer: nat, n: nat)
    requires n > 1 && NoWrap(e, i, pointer, n)
    ensures forall k: nat :: Offset(e, i, Moved(e, i, pointer), k) == Offset(e, i, pointer, k + 1)
  {
    hide Offsets, Moved, Delta;
    NextOffset(e, i, pointer, n);
    forall k: nat
      ensures Offset(e, i, Moved(e, i, pointer), k) == Offset(e, i, pointer, k + 1)
    {
      assert (k + 1) * Delta(e, i) == k * Delta(e, i) + Delta(e, i);
    }
  }

  /** What a search that looked at k of n elements found. */
  predicate Found(e: Setting, i: Instruction, s: Machine, n: nat, k: nat, t: Machine) {
    && k <= n && Count(e, i, t) == n - k
    && t == s.(status := if k == 0 then s.status else FlagsAt(e, i, s, k - 1), rcx := t.rcx, rsi := t.rsi, rdi := t.rdi)
    && (forall j: nat | j < k - 1 :: GoesOn(e, i, s, j))
    && (k < n ==> k > 0 && !GoesOn(e, i, s, k - 1))
  }

  /** The first `reach` elements can be compared, and the search goes no further. */
  ghost predicate Searchable(e: Setting, i: Instruction, s: Machine, reach: nat) {
    && reach <= Count(e, i, s) && Comparable(e, i, s, reach)
    && (reach == Count(e, i, s) || exists j: nat :: j < reach && !GoesOn(e, i, s, j))
  }

  lemma {:induction false} SearchesInOrder(e: Setting, i: Instruction, s: Machine, n: nat, reach: nat) returns (k: nat)
    requires Repeats(i) && n == Count(e, i, s) && Searchable(e, i, s, reach)
    ensures var r := OneByOne(e, i, s); r.Completed? && Found(e, i, s, n, k, r.m)
    decreases n
  {
    hide Offsets, Moved, Lowest, NoWrap, Element, LeftOf, RightOf, SubFlags, InMemory, SignWeight, Plain, High;
    k := 0;
    if n > 0 {
      ComparesElement(e, i, s, reach);
      ZeroDecides(e, i, s, 0);
      var u := WithCount(e, i, Element(e, i, s).m, n - 1);
      CountBelow(e, i, s);
      CountOf(e, i, Element(e, i, s).m, n - 1);
      if n > 1 && GoesOn(e, i, s, 0) {
        LaterOperands(e, i, s, reach, u);
        EndsLater(e, i, s, reach, u);
        var later := SearchesInOrder(e, i, u, n - 1, reach - 1);
        k := later + 1;
        FoundLater(e, i, s, n, u, later, OneByOne(e, i, u).m);
      } else {
        k := 1;
      }
    }
  }

  lemma EndsLater(e: Setting, i: Instruction, s: Machine, reach: nat, u: Machine)
    requires reach > 0 && GoesOn(e, i, s, 0)
    requires forall k: nat :: LeftOf(e, i, u, k) == LeftOf(e, i, s, k + 1) && RightOf(e, i, u, k) == RightOf(e, i, s, k + 1)
    ensures (exists j: nat :: j < reach && !GoesOn(e, i, s, j)) ==> exists j: nat :: j < reach - 1 && !GoesOn(e, i, u, j)
  {
    hide LeftOf, RightOf;
    if j: nat :| j < reach && !GoesOn(e, i, s, j) {
      assert LeftOf(e, i, u, j - 1) == LeftOf(e, i, s, j - 1 + 1);
      assert !GoesOn(e, i, u, j - 1);
    }
  }

  lemma FoundLater(e: Setting, i: Instruction, s: Machine, n: nat, u: Machine, k: nat, t: Machine)
    requires n > 1 && GoesOn(e, i, s, 0) && Found(e, i, u, n - 1, k, t)
    requires u == s.(status := FlagsAt(e, i, s, 0), rcx := u.rcx, rsi := u.rsi, rdi := u.rdi)
    requires forall k: nat :: LeftOf(e, i, u, k) == LeftOf(e, i, s, k + 1) && RightOf(e, i, u, k) == RightOf(e, i, s, k + 1)
    ensures Found(e, i, s, n, k + 1, t)
  {
    hide LeftOf, RightOf, SubFlags, Offsets;
    forall j: nat | j < k
      ensures GoesOn(e, i, s, j)
    {
      if j > 0 {
        assert GoesOn(e, i, u, j - 1);
        assert LeftOf(e, i, u, j - 1) == LeftOf(e, i, s, j);
      }
    }
    if k > 0 {
      assert LeftOf(e, i, u, k - 1) == LeftOf(e, i, s, k);
    }
  }

  /**
    A repeated SCAS or CMPS stops after the first element that ends the search,
    with the flags of that comparison and the count of the elements it did not
    look at; memory and every other register are as they were.  Only the elements
    up to there need to be in memory, whatever the count.
  */
  lemma RepeatedCompareFindsFirst(e: Setting, i: Instruction, s: Machine, reach: nat) returns (k: nat)
    requires Repeats(i) && Searchable(e, i, s, reach)
    ensures var r := Repeated(e, i, s); r.Completed? && Found(e, i, s, Count(e, i, s), k, r.m)
  {
    hide Repeated, OneByOne, Found;
    ChunkingIsInvisible(e, i, s);
    k := SearchesInOrder(e, i, s, Count(e, i, s), reach);
  }
}

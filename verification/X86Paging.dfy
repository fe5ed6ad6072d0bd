/**
  Guest memory of the x86 core in DOS mode: the A20 gate, two-level paging with
  accessed and dirty updates, and guest reads and writes that may cross pages
  (src/xxemul_x86.c, lines 114-219).  Sections 4.3 and 4.8 of volume 3A of the
  Intel SDM.

  Words are integers below a power of two; a bit test is a quotient's parity,
  and a bit the original ORs into an entry is added where it is clear.
*/
module X86Paging {
  import opened Wrappers
  import opened GuestMemory

  const PAGE := 0x1000
  const TWO_32 := 0x1_0000_0000
  const ACCESSED := 0x20
  const DIRTY := 0x40

  /** CR0.PG, CR0.WP, the A20 gate of port 92h, CR3, and whether CS has a nonzero privilege level. */
  datatype Control = Control(paging: bool, writeProtect: bool, a20: bool, cr3: nat, user: bool)

  /** What a guest access may change. */
  datatype Cpu = Cpu(mem: Memory, cr2: nat, pending: nat)

  // ----------------------------------------------------------------------
  // Entries
  // ----------------------------------------------------------------------

  /** The little-endian word at an address. */
  function Word(m: Memory, address: nat): (w: nat)
    requires Holds(m, address, 4)
    ensures w < TWO_32
  {
    WordOf(At(m, address), At(m, address + 1), At(m, address + 2), At(m, address + 3))
  }

  function WordOf(b0: nat, b1: nat, b2: nat, b3: nat): nat {
    b0 + 0x100 * b1 + 0x1_0000 * b2 + 0x100_0000 * b3
  }

  // ----------------------------------------------------------------------
  // The page walk
  // ----------------------------------------------------------------------

  predicate IsPresent(e: nat) { e % 2 == 1 }
  predicate IsWritable(e: nat) { e / 2 % 2 == 1 }
  predicate IsAccessed(e: nat) { e / ACCESSED % 2 == 1 }
  predicate IsDirty(e: nat) { e / DIRTY % 2 == 1 }
  predicate IsLarge(e: nat) { e / 0x80 % 2 == 1 }
  predicate Above1M(address: nat) { address / 0x10_0000 % 2 == 1 }

  function PageBase(e: nat): nat {
    e / PAGE * PAGE
  }

  /** xxemul_x86_dos_a20: with the gate closed bit 20 of every physical address is clear. */
  function A20(c: Control, address: nat): nat {
    if c.a20 || !Above1M(address) then address else address - 0x10_0000
  }

  datatype Walk =
    | Flat(frame: nat)
    | Mapped(directory: nat, table: nat, frame: nat)
    | NotPresent
    | WriteProtected
    | Unreadable
    | LargePage

  predicate Translates(w: Walk) {
    w.Flat? || w.Mapped?
  }

  function DirectoryEntry(c: Control, page: nat): nat {
    A20(c, PageBase(c.cr3) + page / 0x400 % 0x400 * 4)
  }

  function TableEntry(c: Control, pde: nat, page: nat): nat {
    A20(c, PageBase(pde) + page % 0x400 * 4)
  }

  /** What the tables say of one page, before any of them is updated. */
  function WalkPage(c: Control, m: Memory, page: nat, writing: bool): Walk {
    if !c.paging then Flat(A20(c, page * PAGE))
    else
      var directory := DirectoryEntry(c, page);
      if !Holds(m, directory, 4) then Unreadable
      else
        var pde := Word(m, directory);
        if !IsPresent(pde) then NotPresent
        else if IsLarge(pde) then LargePage
        else WalkTable(c, m, page, writing, directory, pde)
  }

  /** The second half of a walk, under a present directory entry. */
  function WalkTable(c: Control, m: Memory, page: nat, writing: bool, directory: nat, pde: nat): Walk {
    var table := TableEntry(c, pde, page);
    if !Holds(m, table, 4) then Unreadable
    else
      var pte := Word(m, table);
      if !IsPresent(pte) then NotPresent
      else if writing && c.writeProtect && !(IsWritable(pde) && IsWritable(pte)) then WriteProtected
      else Mapped(directory, table, A20(c, PageBase(pte)))
  }

  function WithAccessed(b: byte): byte {
    if IsAccessed(b) then b else b + ACCESSED
  }

  function WithDirty(b: byte): byte {
    if IsDirty(b) then b else b + DIRTY
  }

  /** The low byte of an entry with its accessed bit, and for a write its dirty bit, set. */
  function Marked(b: byte, dirty: bool): byte {
    if dirty then WithDirty(WithAccessed(b)) else WithAccessed(b)
  }

  function Mark(m: Memory, address: nat, dirty: bool): (r: Memory)
    requires Holds(m, address, 4)
    ensures r.base == m.base && |r.bytes| == |m.bytes|
  {
    Poke(m, address, Marked(At(m, address), dirty))
  }

  /** The memory after the walk of one page has updated its entries. */
  function Touch(m: Memory, w: Walk, writing: bool): (r: Memory)
    requires w.Mapped? ==> Holds(m, w.directory, 4) && Holds(m, w.table, 4)
    ensures r.base == m.base && |r.bytes| == |m.bytes|
  {
    if w.Mapped? then Mark(Mark(m, w.directory, false), w.table, writing) else m
  }

  datatype Translation = Frame(physical: nat) | Faulted(status: Status)

  function FaultCode(c: Control, present: bool, writing: bool): nat {
    (if present then 1 else 0) + (if writing then 2 else 0) + (if c.user then 4 else 0)
  }

  /** xxemul_x86_dos_translate */
  function Translate(c: Control, s: Cpu, linear: nat, writing: bool): (Cpu, Translation) {
    var w := WalkPage(c, s.mem, linear / PAGE, writing);
    match w
    case Flat(frame) => (s, Frame(frame + linear % PAGE))
    case Mapped(_, _, frame) => (s.(mem := Touch(s.mem, w, writing)), Frame(frame + linear % PAGE))
    case NotPresent => (s.(pending := FaultCode(c, false, writing), cr2 := linear), Faulted(AddressFault))
    case WriteProtected => (s.(pending := FaultCode(c, true, writing), cr2 := linear), Faulted(AddressFault))
    case Unreadable => (s.(cr2 := linear), Faulted(AddressFault))
    case LargePage => (s, Faulted(UnsupportedInstruction))
  }

  // ----------------------------------------------------------------------
  // Guest accesses, chunk by chunk
  // ----------------------------------------------------------------------

  function Linear(address: nat, i: nat): (l: nat)
    ensures l < TWO_32
  {
    (address + i) % TWO_32
  }

  /** The bytes left in the page of a linear address, at most `left`. */
  function Chunk(linear: nat, left: nat): (n: nat)
    ensures n <= left && linear % PAGE + n <= PAGE
    ensures left > 0 ==> n > 0
  {
    if PAGE - linear % PAGE > left then left else PAGE - linear % PAGE
  }

  function Preflight(c: Control, s: Cpu, address: nat, size: nat, checked: nat): (Cpu, Status)
    requires checked <= size
    decreases size - checked
  {
    if checked == size then (s, Ok)
    else
      var linear := Linear(address, checked);
      var n := Chunk(linear, size - checked);
      match Translate(c, s, linear, true)
      case (t, Faulted(status)) => (t, status)
      case (t, Frame(physical)) =>
        if Holds(t.mem, physical, 1) && Holds(t.mem, physical + n - 1, 1) then Preflight(c, t, address, size, checked + n)
        else (t.(cr2 := linear), AddressFault)
  }

  /** One turn of the write loop: a part of the data that stays in one page. */
  function WritePart(c: Control, s: Cpu, linear: nat, part: seq<byte>): (Cpu, Status) {
    match Translate(c, s, linear, true)
    case (t, Faulted(status)) => (t, status)
    case (t, Frame(physical)) =>
      if Holds(t.mem, physical, |part|) then (t.(mem := WriteBytes(t.mem, physical, part)), Ok)
      else (t.(cr2 := linear), AddressFault)
  }

  function WriteChunks(c: Control, s: Cpu, address: nat, data: seq<byte>, done: nat): (Cpu, Status)
    requires done <= |data|
    decreases |data| - done
  {
    if done == |data| then (s, Ok)
    else
      var linear := Linear(address, done);
      var n := Chunk(linear, |data| - done);
      var (t, status) := WritePart(c, s, linear, data[done..done + n]);
      if status != Ok then (t, status) else WriteChunks(c, t, address, data, done + n)
  }

  predicate Crosses(address: nat, size: nat) {
    size != 0 && Linear(address, 0) / PAGE != Linear(address, size - 1) / PAGE
  }

  /** xxemul_x86_guest_memory_tracked, writing */
  function GuestWrite(c: Control, s: Cpu, address: nat, data: seq<byte>): (Cpu, Status) {
    if Crosses(address, |data|) then
      match Preflight(c, s, address, |data|, 0)
      case (t, status) => if status != Ok then (t, status) else WriteChunks(c, t, address, data, 0)
    else WriteChunks(c, s, address, data, 0)
  }

  datatype Reading = Reading(cpu: Cpu, status: Status, data: seq<byte>)

  /** xxemul_x86_guest_memory_tracked, reading; got is what earlier chunks delivered. */
  function ReadChunks(c: Control, s: Cpu, address: nat, size: nat, got: seq<byte>): (r: Reading)
    requires |got| <= size
    decreases size - |got|
    ensures r.status == Ok ==> |r.data| == size
  {
    if |got| == size then Reading(s, Ok, got)
    else
      var linear := Linear(address, |got|);
      var n := Chunk(linear, size - |got|);
      match Translate(c, s, linear, false)
      case (t, Faulted(status)) => Reading(t, status, got)
      case (t, Frame(physical)) =>
        if Holds(t.mem, physical, n) then ReadChunks(c, t, address, size, got + ReadBytes(t.mem, physical, n))
        else Reading(t.(cr2 := linear), AddressFault, got)
  }

  function GuestRead(c: Control, s: Cpu, address: nat, size: nat): (r: Reading)
    ensures r.status == Ok ==> |r.data| == size
  {
    ReadChunks(c, s, address, size, [])
  }

  // ----------------------------------------------------------------------
  // Accessed and dirty bits never matter to a walk
  // ----------------------------------------------------------------------

  predicate SameButAD(b: byte, d: byte) {
    b % ACCESSED == d % ACCESSED && b / 0x80 == d / 0x80
  }

  /** n differs from m in accessed and dirty bits of aligned words only. */
  predicate OnlyAD(m: Memory, n: Memory) {
    && m.base == n.base && |m.bytes| == |n.bytes|
    && forall i | 0 <= i < |m.bytes| :: m.bytes[i] == n.bytes[i] || ((m.base + i) % 4 == 0 && SameButAD(m.bytes[i], n.bytes[i]))
  }

  lemma OnlyADTransitive(a: Memory, b: Memory, d: Memory)
    requires OnlyAD(a, b) && OnlyAD(b, d)
    ensures OnlyAD(a, d)
  {
  }

  lemma EntriesAligned(c: Control, pde: nat, page: nat)
    ensures DirectoryEntry(c, page) % 4 == 0 && TableEntry(c, pde, page) % 4 == 0
  {
    EntryAligned(c, c.cr3 / PAGE, page / 0x400 % 0x400);
    EntryAligned(c, pde / PAGE, page % 0x400);
  }

  lemma EntryAligned(c: Control, frame: nat, index: nat)
    ensures A20(c, frame * PAGE + index * 4) % 4 == 0
  {
    var words := frame * 0x400 + index;
    assert frame * PAGE + index * 4 == 4 * words;
    assert 4 * words - 0x10_0000 == 4 * (words - 0x4_0000);
  }

  /** The parts of an entry a walk reads: present, writable, large, and the frame. */
  predicate SameEntry(e: nat, f: nat) {
    && IsPresent(e) == IsPresent(f) && IsWritable(e) == IsWritable(f) && IsLarge(e) == IsLarge(f)
    && PageBase(e) == PageBase(f)
  }

  lemma WordsAgree(m: Memory, n: Memory, address: nat)
    requires OnlyAD(m, n) && address % 4 == 0 && Holds(m, address, 4)
    ensures SameEntry(Word(m, address), Word(n, address))
  {
    var i := address - m.base;
    assert m.base + i == address;
    assert m.bytes[i + 1] == n.bytes[i + 1] && m.bytes[i + 2] == n.bytes[i + 2] && m.bytes[i + 3] == n.bytes[i + 3];
    var b1: nat, b2: nat, b3: nat := m.bytes[i + 1], m.bytes[i + 2], m.bytes[i + 3];
    var rest := b1 + 0x100 * b2 + 0x1_0000 * b3;
    EntryOfBytes(m.bytes[i], n.bytes[i], rest);
    assert Word(m, address) == m.bytes[i] + 0x100 * rest && Word(n, address) == n.bytes[i] + 0x100 * rest;
  }

  lemma EntryOfBytes(b: byte, d: byte, rest: nat)
    requires b == d || SameButAD(b, d)
    ensures SameEntry(b + 0x100 * rest, d + 0x100 * rest)
  {
    EntryParts(b, rest);
    EntryParts(d, rest);
    LowParts(b, d);
  }

  lemma LowParts(b: byte, d: byte)
    requires b == d || SameButAD(b, d)
    ensures IsPresent(b) == IsPresent(d) && IsWritable(b) == IsWritable(d) && IsLarge(b) == IsLarge(d)
  {
    LowOf32(b);
    LowOf32(d);
  }

  lemma LowOf32(b: byte)
    ensures IsPresent(b) == IsPresent(b % ACCESSED) && IsWritable(b) == IsWritable(b % ACCESSED)
  {
    var q: nat, r: nat := b / ACCESSED, b % ACCESSED;
    assert b == 2 * (0x10 * q) + r;
    assert b / 2 == 0x10 * q + r / 2;
  }

  lemma EntryParts(b: byte, rest: nat)
    ensures var e := b + 0x100 * rest;
            && IsPresent(e) == IsPresent(b) && IsWritable(e) == IsWritable(b) && IsLarge(e) == IsLarge(b)
            && PageBase(e) == rest / 0x10 * PAGE
  {
    var e := b + 0x100 * rest;
    assert e / 2 == b / 2 + 0x80 * rest;
    assert e / 0x80 == b / 0x80 + 2 * rest;
    assert e / PAGE == rest / 0x10;
  }

  /** A walk gives the same answer in memories that differ in accessed and dirty bits. */
  lemma WalksAgree(c: Control, m: Memory, n: Memory, page: nat, writing: bool)
    requires OnlyAD(m, n)
    ensures WalkPage(c, m, page, writing) == WalkPage(c, n, page, writing)
  {
    if c.paging {
      var directory := DirectoryEntry(c, page);
      if Holds(m, directory, 4) {
        var pde := Word(m, directory);
        EntriesAligned(c, pde, page);
        WordsAgree(m, n, directory);
        assert TableEntry(c, pde, page) == TableEntry(c, Word(n, directory), page);
        if Holds(m, TableEntry(c, pde, page), 4) {
          WordsAgree(m, n, TableEntry(c, pde, page));
        }
      }
    }
  }

  lemma MarkIsOnlyAD(m: Memory, address: nat, dirty: bool)
    requires Holds(m, address, 4) && address % 4 == 0
    ensures OnlyAD(m, Mark(m, address, dirty))
  {
  }

  lemma TouchIsOnlyAD(c: Control, m: Memory, page: nat, writing: bool)
    ensures var w := WalkPage(c, m, page, writing);
            && (w.Mapped? ==> Holds(m, w.directory, 4) && Holds(m, w.table, 4))
            && OnlyAD(m, Touch(m, w, writing))
  {
    var w := WalkPage(c, m, page, writing);
    if w.Mapped? {
      EntriesAligned(c, Word(m, w.directory), page);
      MarkIsOnlyAD(m, w.directory, false);
      MarkIsOnlyAD(Mark(m, w.directory, false), w.table, writing);
      OnlyADTransitive(m, Mark(m, w.directory, false), Touch(m, w, writing));
    }
  }

  lemma SameAgrees(m: Memory)
    ensures OnlyAD(m, m)
  {
  }

  /**
    The updates of one translation never change the outcome or the frame of
    any translation.
  */
  lemma UpdatesNeverMatter(c: Control, s: Cpu, linear: nat, writing: bool, other: nat, otherWriting: bool)
    ensures var (t, _) := Translate(c, s, linear, writing);
            && OnlyAD(s.mem, t.mem)
            && WalkPage(c, t.mem, other / PAGE, otherWriting) == WalkPage(c, s.mem, other / PAGE, otherWriting)
            && Translate(c, t, other, otherWriting).1 == Translate(c, s, other, otherWriting).1
  {
    hide WalkPage, OnlyAD, Mark;
    TouchIsOnlyAD(c, s.mem, linear / PAGE, writing);
    SameAgrees(s.mem);
    var (t, _) := Translate(c, s, linear, writing);
    WalksAgree(c, s.mem, t.mem, other / PAGE, otherWriting);
  }
}

/**
  The emulator object as guest memory accesses change it: the methods behind the
  functions of X86Paging (src/xxemul.c, lines 36-54 and 331-441; src/xxemul_x86.c,
  lines 114-219).
*/
module X86Guest {
  import opened Wrappers
  import opened GuestMemory
  import opened X86Paging
  import opened X86GuestWrites

  // ----------------------------------------------------------------------
  // Entries as bytes
  // ----------------------------------------------------------------------

  lemma FourBytes(bytes: seq<byte>)
    requires |bytes| == 4
    ensures LittleEndian(bytes) == WordOf(bytes[0], bytes[1], bytes[2], bytes[3])
  {
    assert bytes[..3][..2] == bytes[..2] && bytes[..2][..1] == bytes[..1] && bytes[..1][..0] == [];
    assert Pow256(1) == 0x100 && Pow256(2) == 0x1_0000 && Pow256(3) == 0x100_0000;
    assert LittleEndian(bytes[..1]) == bytes[0];
    assert LittleEndian(bytes[..2]) == WordOf(bytes[0], bytes[1], 0, 0);
    assert LittleEndian(bytes[..3]) == WordOf(bytes[0], bytes[1], bytes[2], 0);
  }

  /** The bytes of an entry whose low byte alone changed. */
  lemma EntryBytes(b: byte, b1: byte, b2: byte, b3: byte)
    ensures var rest: nat := b1 + 0x100 * b2 + 0x1_0000 * b3;
            var e := b + 0x100 * rest;
            && (e / Pow256(0)) % 0x100 == b && (e / Pow256(1)) % 0x100 == b1
            && (e / Pow256(2)) % 0x100 == b2 && (e / Pow256(3)) % 0x100 == b3
  {
    var rest: nat := b1 + 0x100 * b2 + 0x1_0000 * b3;
    var e := b + 0x100 * rest;
    assert Pow256(1) == 0x100 && Pow256(2) == 0x1_0000 && Pow256(3) == 0x100_0000;
    assert e / 0x100 == rest;
    assert e / 0x1_0000 == b2 + 0x100 * b3;
    assert e / 0x100_0000 == b3;
  }

  class Guest {
    const regionAddress: nat
    const regionData: array<byte>
    var control: Control
    var cr2: nat
    var pendingPageFault: nat

    ghost function Mem(): Memory
      reads regionData
    {
      Memory(regionAddress, regionData[..])
    }

    ghost function State(): Cpu
      reads this, regionData
    {
      Cpu(Mem(), cr2, pendingPageFault)
    }

    constructor (regionAddress: nat, data: seq<byte>, control: Control)
      ensures State() == Cpu(Memory(regionAddress, data), 0, 0) && this.control == control
      ensures fresh(regionData)
    {
      this.regionAddress := regionAddress;
      this.regionData := new byte[|data|](i requires 0 <= i < |data| => data[i]);
      this.control, cr2, pendingPageFault := control, 0, 0;
    }

    method Contains(address: nat, size: nat) returns (inside: bool, offset: nat)
      ensures inside <==> Holds(Mem(), address, size)
      ensures inside ==> offset == address - regionAddress
    {
      if address < regionAddress {
        return false, 0;
      }
      var relative := address - regionAddress;
      if relative > regionData.Length {
        return false, 0;
      }
      if size > regionData.Length - relative {
        return false, 0;
      }
      return true, relative;
    }

    method ReadMemory(address: nat, size: nat) returns (status: Status, data: seq<byte>)
      ensures status == if size == 0 || Holds(Mem(), address, size) then Ok else AddressFault
      ensures status == Ok ==> data == if size == 0 then [] else ReadBytes(Mem(), address, size)
    {
      if size == 0 {
        return Ok, [];
      }
      var inside, offset := Contains(address, size);
      if !inside {
        return AddressFault, [];
      }
      return Ok, regionData[offset..offset + size];
    }

    method WriteMemory(address: nat, data: seq<byte>) returns (status: Status)
      requires data != []
      modifies regionData
      ensures status == if Holds(old(Mem()), address, |data|) then Ok else AddressFault
      ensures Mem() == if status == Ok then WriteBytes(old(Mem()), address, data) else old(Mem())
    {
      var inside, offset := Contains(address, |data|);
      if !inside {
        return AddressFault;
      }
      forall i | 0 <= i < |data| {
        regionData[offset + i] := data[i];
      }
      assert regionData[..] == WriteBytes(old(Mem()), address, data).bytes;
      return Ok;
    }

    method LoadInteger(address: nat, size: nat) returns (status: Status, value: nat)
      requires 0 < size <= 8
      ensures status == if Holds(Mem(), address, size) then Ok else AddressFault
      ensures status == Ok ==> value == LittleEndian(ReadBytes(Mem(), address, size))
    {
      var data;
      status, data := ReadMemory(address, size);
      if status != Ok {
        return status, 0;
      }
      value := 0;
      for index := 0 to size
        invariant value == LittleEndian(data[..index])
      {
        assert data[..index + 1][..index] == data[..index];
        value := value + data[index] * Pow256(index);
      }
      assert data[..size] == data;
    }

    /** A 32-bit entry. */
    method LoadWord(address: nat) returns (status: Status, value: nat)
      ensures status == if Holds(Mem(), address, 4) then Ok else AddressFault
      ensures status == Ok ==> value == Word(Mem(), address)
    {
      status, value := LoadInteger(address, 4);
      if status == Ok {
        FourBytes(ReadBytes(Mem(), address, 4));
      }
    }

    method StoreInteger(address: nat, size: nat, value: nat) returns (status: Status)
      requires 0 < size <= 8
      modifies regionData
      ensures status == if Holds(old(Mem()), address, size) then Ok else AddressFault
      ensures Mem() == if status == Ok then WriteBytes(old(Mem()), address, seq(size, i requires 0 <= i < size => (value / Pow256(i)) % 0x100)) else old(Mem())
    {
      var data: seq<byte> := [];
      for index := 0 to size
        invariant |data| == index
        invariant forall i | 0 <= i < index :: data[i] == (value / Pow256(i)) % 0x100
      {
        data := data + [(value / Pow256(index)) % 0x100];
      }
      assert data == seq(size, i requires 0 <= i < size => (value / Pow256(i)) % 0x100);
      status := WriteMemory(address, data);
    }

    /** Store an entry again with a new low byte. */
    method StoreEntry(address: nat, entry: nat, ghost low: byte) returns (status: Status)
      requires Holds(Mem(), address, 4)
      requires entry == Word(Mem(), address) - At(Mem(), address) + low
      modifies regionData
      ensures status == Ok
      ensures Mem() == Poke(old(Mem()), address, low)
    {
      ghost var m := Mem();
      EntryBytes(low, At(m, address + 1), At(m, address + 2), At(m, address + 3));
      status := StoreInteger(address, 4, entry);
      assert Mem().bytes == Poke(m, address, low).bytes;
    }

    method Gate(address: nat) returns (physical: nat)
      ensures physical == A20(control, address)
    {
      physical := if control.a20 || !Above1M(address) then address else address - 0x10_0000;
    }

    /** The first half of xxemul_x86_dos_translate's checks: a present directory entry that names a table. */
    method LoadDirectoryEntry(linear: nat, writing: bool) returns (status: Status, directory: nat, pde: nat)
      requires control.paging && linear < TWO_32
      modifies this
      ensures control == old(control)
      ensures status == Ok ==>
                && State() == old(State())
                && directory == DirectoryEntry(control, linear / PAGE)
                && Holds(Mem(), directory, 4) && pde == Word(Mem(), directory)
                && WalkPage(control, Mem(), linear / PAGE, writing) == WalkTable(control, Mem(), linear / PAGE, writing, directory, pde)
      ensures status != Ok ==> Translate(control, old(State()), linear, writing) == (State(), Faulted(status))
    {
      var page := linear / PAGE;
      directory := Gate(PageBase(control.cr3) + page / 0x400 % 0x400 * 4);
      status, pde := LoadWord(directory);
      if status != Ok {
        cr2 := linear;
        return;
      }
      if !IsPresent(pde) {
        pendingPageFault, cr2 := FaultCode(control, false, writing), linear;
        status := AddressFault;
        return;
      }
      if IsLarge(pde) {
        status := UnsupportedInstruction;
      }
    }

    /** The second half: a present table entry that allows the access. */
    method LoadTableEntry(linear: nat, writing: bool, directory: nat, pde: nat) returns (status: Status, table: nat, pte: nat)
      requires control.paging && linear < TWO_32
      requires WalkPage(control, Mem(), linear / PAGE, writing) == WalkTable(control, Mem(), linear / PAGE, writing, directory, pde)
      modifies this
      ensures control == old(control)
      ensures status == Ok ==>
                && State() == old(State())
                && table == TableEntry(control, pde, linear / PAGE)
                && Holds(Mem(), table, 4) && pte == Word(Mem(), table)
                && WalkPage(control, Mem(), linear / PAGE, writing) == Mapped(directory, table, A20(control, PageBase(pte)))
      ensures status != Ok ==> Translate(control, old(State()), linear, writing) == (State(), Faulted(status))
    {
      pte := 0;
      table := Gate(PageBase(pde) + linear / PAGE % 0x400 * 4);
      status, pte := LoadWord(table);
      if status != Ok {
        cr2 := linear;
        return;
      }
      if !IsPresent(pte) {
        pendingPageFault, cr2 := FaultCode(control, false, writing), linear;
        status := AddressFault;
        return;
      }
      if writing && control.writeProtect && !(IsWritable(pde) && IsWritable(pte)) {
        pendingPageFault, cr2 := FaultCode(control, true, writing), linear;
        status := AddressFault;
      }
    }

    /** xxemul_x86_dos_translate; after the loads neither store can fail. */
    method TranslateLinear(linear: nat, writing: bool) returns (status: Status, physical: nat)
      requires linear < TWO_32
      modifies this, regionData
      ensures control == old(control)
      ensures var (t, f) := Translate(control, old(State()), linear, writing);
              && State() == t
              && (f.Frame? ==> status == Ok && physical == f.physical)
              && (f.Faulted? ==> status == f.status && status != Ok)
    {
      if !control.paging {
        GateKeepsOffset(control, linear / PAGE, linear % PAGE);
        physical := Gate(linear);
        return Ok, physical;
      }
      status, physical := TranslatePaged(linear, writing);
    }

    method TranslatePaged(linear: nat, writing: bool) returns (status: Status, physical: nat)
      requires control.paging && linear < TWO_32
      modifies this, regionData
      ensures control == old(control)
      ensures var (t, f) := Translate(control, old(State()), linear, writing);
              && State() == t
              && (f.Frame? ==> status == Ok && physical == f.physical)
              && (f.Faulted? ==> status == f.status && status != Ok)
    {
      hide Mark, A20, WalkPage, Word;
      var directory, table, pde, pte;
      status, directory, pde := LoadDirectoryEntry(linear, writing);
      if status != Ok {
        return status, 0;
      }
      status, table, pte := LoadTableEntry(linear, writing, directory, pde);
      if status != Ok {
        return status, 0;
      }
      EntriesApart(control, pde, linear / PAGE);
      MarkEntries(directory, table, pde, pte, writing);
      GateKeepsOffset(control, pte / PAGE, linear % PAGE);
      physical := Gate(PageBase(pte) + linear % PAGE);
    }

    method MarkEntries(directory: nat, table: nat, pde: nat, pte: nat, writing: bool)
      requires Holds(Mem(), directory, 4) && Holds(Mem(), table, 4)
      requires pde == Word(Mem(), directory) && pte == Word(Mem(), table)
      requires directory != table ==> !(table <= directory < table + 4)
      modifies regionData
      ensures Mem() == Mark(Mark(old(Mem()), directory, false), table, writing)
    {
      ghost var m := Mem();
      MarkEntry(directory, pde, false, At(m, directory));
      SecondEntry(m, directory, table);
      MarkEntry(table, pte, writing, At(m, table));
    }

    /** The checking loop of a write that crosses pages: every page is translated, and its ends are read. */
    method PreflightPages(address: nat, size: nat) returns (status: Status)
      modifies this, regionData
      ensures control == old(control)
      ensures (State(), status) == Preflight(control, old(State()), address, size, 0)
    {
      hide Translate, Linear, Chunk;
      var checked := 0;
      ghost var start := State();
      while checked < size
        invariant checked <= size && control == old(control)
        invariant Preflight(control, State(), address, size, checked) == Preflight(control, start, address, size, 0)
      {
        var linear := Linear(address, checked);
        var chunk := Chunk(linear, size - checked);
        var physical;
        status, physical := TranslateLinear(linear, true);
        if status != Ok {
          return;
        }
        var probe;
        status, probe := ReadMemory(physical, 1);
        if status == Ok {
          status, probe := ReadMemory(physical + chunk - 1, 1);
        }
        if status != Ok {
          cr2 := linear;
          return;
        }
        checked := checked + chunk;
      }
      status := Ok;
    }

    method WritePartOf(linear: nat, part: seq<byte>) returns (status: Status)
      requires linear < TWO_32 && part != []
      modifies this, regionData
      ensures control == old(control)
      ensures (State(), status) == WritePart(control, old(State()), linear, part)
    {
      var physical;
      status, physical := TranslateLinear(linear, true);
      if status != Ok {
        return;
      }
      status := WriteMemory(physical, part);
      if status != Ok {
        cr2 := linear;
      }
    }

    method WritePages(address: nat, data: seq<byte>) returns (status: Status)
      modifies this, regionData
      ensures control == old(control)
      ensures (State(), status) == WriteChunks(control, old(State()), address, data, 0)
    {
      var done := 0;
      ghost var start := State();
      while done < |data|
        invariant done <= |data| && control == old(control)
        invariant WriteChunks(control, State(), address, data, done) == WriteChunks(control, start, address, data, 0)
      {
        var linear := Linear(address, done);
        var chunk := Chunk(linear, |data| - done);
        status := WritePartOf(linear, data[done..done + chunk]);
        if status != Ok {
          return;
        }
        done := done + chunk;
      }
      status := Ok;
    }

    /** xxemul_x86_guest_memory_tracked, writing */
    method WriteGuest(address: nat, data: seq<byte>) returns (status: Status)
      modifies this, regionData
      ensures control == old(control)
      ensures (State(), status) == GuestWrite(control, old(State()), address, data)
    {
      if data != [] && address % TWO_32 / PAGE != (address + |data| - 1) % TWO_32 / PAGE {
        status := PreflightPages(address, |data|);
        if status != Ok {
          return;
        }
      }
      status := WritePages(address, data);
    }

    /** xxemul_x86_guest_memory_tracked, reading */
    method ReadGuest(address: nat, size: nat) returns (status: Status, data: seq<byte>)
      modifies this, regionData
      ensures control == old(control)
      ensures Reading(State(), status, data) == GuestRead(control, old(State()), address, size)
    {
      data := [];
      ghost var start := State();
      while |data| < size
        invariant |data| <= size && control == old(control)
        invariant ReadChunks(control, State(), address, size, data) == ReadChunks(control, start, address, size, [])
        decreases size - |data|
      {
        var linear := Linear(address, |data|);
        var chunk := Chunk(linear, size - |data|);
        var physical;
        status, physical := TranslateLinear(linear, false);
        if status != Ok {
          return;
        }
        var part;
        status, part := ReadMemory(physical, chunk);
        if status != Ok {
          cr2 := linear;
          return;
        }
        data := data + part;
      }
      status := Ok;
    }

    /**
      Set the accessed bit of an entry, and for a write the dirty bit, if they
      are clear in the copy of the entry that was loaded.  That copy may be out
      of date in its accessed bit, when a table is its own directory.
    */
    method MarkEntry(address: nat, entry: nat, dirty: bool, ghost low: byte)
      requires Holds(Mem(), address, 4)
      requires entry == Word(Mem(), address) - At(Mem(), address) + low
      requires At(Mem(), address) == low || At(Mem(), address) == Marked(low, false)
      modifies regionData
      ensures Mem() == Mark(old(Mem()), address, dirty)
    {
      ghost var m := Mem();
      EntryOfLow(low, At(m, address + 1), At(m, address + 2), At(m, address + 3));
      MarkedAfter(low, dirty);
      MarkedAfter(low, false);
      var accessed := if IsAccessed(entry) then entry else entry + ACCESSED;
      var marked := if !dirty || IsDirty(entry) then accessed else accessed + DIRTY;
      if marked != entry {
        var stored := StoreEntry(address, marked, Marked(low, dirty));
      } else {
        assert Mem().bytes == Mark(m, address, dirty).bytes;
      }
    }
  }

  /** The two entries of a walk are one word, or two disjoint ones. */
  lemma EntriesApart(c: Control, pde: nat, page: nat)
    ensures var directory, table := DirectoryEntry(c, page), TableEntry(c, pde, page);
            directory != table ==> !(table <= directory < table + 4)
  {
    EntriesAligned(c, pde, page);
    var directory, table := DirectoryEntry(c, page), TableEntry(c, pde, page);
    assert directory == directory / 4 * 4 && table == table / 4 * 4;
  }

  /** Marking the directory entry leaves the table entry as loaded, but for an accessed bit. */
  lemma SecondEntry(m: Memory, directory: nat, table: nat)
    requires Holds(m, directory, 4) && Holds(m, table, 4)
    requires directory != table ==> !(table <= directory < table + 4)
    ensures var n := Mark(m, directory, false);
            && Word(m, table) == Word(n, table) - At(n, table) + At(m, table)
            && (At(n, table) == At(m, table) || At(n, table) == Marked(At(m, table), false))
  {
    if directory != table {
      WordElsewhere(m, directory, Marked(At(m, directory), false), table);
    }
  }

  /** The low byte of an entry holds its accessed and dirty bits. */
  lemma EntryOfLow(b: byte, b1: byte, b2: byte, b3: byte)
    ensures IsAccessed(WordOf(b, b1, b2, b3)) == IsAccessed(b)
    ensures IsDirty(WordOf(b, b1, b2, b3)) == IsDirty(b)
  {
    var rest: nat := b1 + 0x100 * b2 + 0x1_0000 * b3;
    var e := b + 0x100 * rest;
    assert e == WordOf(b, b1, b2, b3);
    assert e / ACCESSED == b / ACCESSED + 8 * rest;
    assert e / DIRTY == b / DIRTY + 4 * rest;
  }

  /** Marking a byte that is already accessed is marking it. */
  lemma MarkedAfter(b: byte, dirty: bool)
    ensures Marked(Marked(b, false), dirty) == Marked(b, dirty)
    ensures Marked(b, dirty) == b + (if IsAccessed(b) then 0 else ACCESSED) + (if dirty && !IsDirty(b) then DIRTY else 0)
  {
    BitsOf(b);
  }

  /** The A20 gate does not touch an offset within a page. */
  lemma GateKeepsOffset(c: Control, frame: nat, offset: nat)
    requires offset < PAGE
    ensures A20(c, frame * PAGE + offset) == A20(c, frame * PAGE) + offset
  {
    assert (frame * PAGE + offset) / 0x10_0000 == frame / 0x100;
    assert (frame * PAGE) / 0x10_0000 == frame / 0x100;
  }
}

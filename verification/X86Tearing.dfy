/**
  When a guest write that crosses pages is all-or-nothing, exactly
  (src/xxemul_x86.c, lines 168-219).  The preflight settles every translation
  before the first byte is stored, but the chunks are translated again one by
  one, and a chunk may be stored over the entries of a later one.
*/
module X86Tearing {
  import opened Arithmetic
  import opened Wrappers
  import opened GuestMemory
  import opened X86Paging
  import opened X86GuestWrites
  import opened X86ReadBack

  // ----------------------------------------------------------------------
  // Memory in which whole words may have been cleared
  // ----------------------------------------------------------------------

  /** The aligned word is as in m but for accessed and dirty bits, or it is no present entry. */
  predicate KeptOrCleared(m: Memory, n: Memory, a: nat)
    requires Holds(m, a, 4) && Holds(n, a, 4)
  {
    !IsPresent(Word(n, a)) || SameEntry(Word(m, a), Word(n, a))
  }

  predicate SameRegion(m: Memory, n: Memory) {
    m.base == n.base && |m.bytes| == |n.bytes|
  }

  ghost predicate Frayed(m: Memory, n: Memory) {
    SameRegion(m, n) && forall a: nat | a % 4 == 0 && Holds(m, a, 4) :: KeptOrCleared(m, n, a)
  }

  /** An entry that is not present any more. */
  predicate Cleared(n: Memory, e: nat) {
    Holds(n, e, 4) && !IsPresent(Word(n, e))
  }

  lemma SameIsFrayed(m: Memory, n: Memory)
    requires OnlyAD(m, n)
    ensures Frayed(m, n)
  {
    forall a: nat | a % 4 == 0 && Holds(m, a, 4)
      ensures KeptOrCleared(m, n, a)
    {
      WordsAgree(m, n, a);
    }
  }

  lemma UpdatesKeepFrayed(m: Memory, n: Memory, o: Memory)
    requires Frayed(m, n) && OnlyAD(n, o)
    ensures Frayed(m, o)
  {
    forall a: nat | a % 4 == 0 && Holds(m, a, 4)
      ensures KeptOrCleared(m, o, a)
    {
      assert KeptOrCleared(m, n, a);
      WordsAgree(n, o, a);
    }
  }

  lemma UpdatesKeepCleared(n: Memory, o: Memory, e: nat)
    requires OnlyAD(n, o) && e % 4 == 0 && Cleared(n, e)
    ensures Cleared(o, e)
  {
    WordsAgree(n, o, e);
  }

  function Zeros(n: nat): (z: seq<byte>)
    ensures |z| == n && forall i | 0 <= i < n :: z[i] == 0
  {
    seq(n, i => 0)
  }

  /** Storing zeros over whole words clears those and keeps the others. */
  lemma ZerosAt(n: Memory, p: nat, size: nat, a: nat)
    requires p % 4 == 0 && size % 4 == 0 && Holds(n, p, size) && a % 4 == 0 && Holds(n, a, 4)
    ensures Word(WriteBytes(n, p, Zeros(size)), a) == if p <= a < p + size then 0 else Word(n, a)
  {
    hide Word, WriteBytes;
    WholeWords(a, p, size);
    WordWritten(n, p, Zeros(size), a);
  }

  lemma ZerosKeepFrayed(m: Memory, n: Memory, p: nat, size: nat)
    requires Frayed(m, n) && p % 4 == 0 && size % 4 == 0 && Holds(n, p, size)
    ensures Frayed(m, WriteBytes(n, p, Zeros(size)))
  {
    hide Word, WriteBytes, PageBase;
    var o := WriteBytes(n, p, Zeros(size));
    forall a: nat | a % 4 == 0 && Holds(m, a, 4)
      ensures KeptOrCleared(m, o, a)
    {
      ZerosAt(n, p, size, a);
      assert KeptOrCleared(m, n, a);
    }
  }

  lemma ZerosClear(n: Memory, p: nat, size: nat, e: nat)
    requires p % 4 == 0 && size % 4 == 0 && Holds(n, p, size) && e % 4 == 0 && Holds(n, e, 4)
    requires p <= e < p + size || Cleared(n, e)
    ensures Cleared(WriteBytes(n, p, Zeros(size)), e)
  {
    hide Word, WriteBytes;
    ZerosAt(n, p, size, e);
  }

  lemma WholeWords(a: nat, p: nat, size: nat)
    requires a % 4 == 0 && p % 4 == 0 && size % 4 == 0
    ensures p <= a < p + size ==> a + 4 <= p + size
    ensures a < p ==> a + 4 <= p
  {
  }

  lemma WordWritten(n: Memory, p: nat, data: seq<byte>, a: nat)
    requires Holds(n, p, |data|) && Holds(n, a, 4)
    ensures p <= a && a + 4 <= p + |data| ==>
              Word(WriteBytes(n, p, data), a) == WordOf(data[a - p], data[a - p + 1], data[a - p + 2], data[a - p + 3])
    ensures a + 4 <= p || p + |data| <= a ==> Word(WriteBytes(n, p, data), a) == Word(n, a)
  {
    hide WriteBytes, At, WordOf;
    ByteWritten(n, p, data, a);
    ByteWritten(n, p, data, a + 1);
    ByteWritten(n, p, data, a + 2);
    ByteWritten(n, p, data, a + 3);
  }

  lemma ByteWritten(n: Memory, p: nat, data: seq<byte>, a: nat)
    requires Holds(n, p, |data|) && Holds(n, a, 1)
    ensures At(WriteBytes(n, p, data), a) == if p <= a < p + |data| then data[a - p] else At(n, a)
  {
  }

  // ----------------------------------------------------------------------
  // Walks through such memory
  // ----------------------------------------------------------------------

  /** A walk finds what it found in m, or an entry that is not present. */
  lemma WalkFrayed(c: Control, m: Memory, n: Memory, page: nat)
    requires Frayed(m, n) && Translates(WalkPage(c, m, page, true))
    ensures WalkPage(c, n, page, true) == WalkPage(c, m, page, true) || !Translates(WalkPage(c, n, page, true))
  {
    hide Word;
    var w := WalkPage(c, m, page, true);
    if w.Mapped? {
      EntriesAligned(c, Word(m, w.directory), page);
      assert KeptOrCleared(m, n, w.directory) && KeptOrCleared(m, n, w.table);
    }
  }

  /** When one of its entries has been cleared it finds none. */
  lemma WalkCut(c: Control, m: Memory, n: Memory, page: nat, e: nat)
    requires Frayed(m, n) && WalkPage(c, m, page, true).Mapped? && Cleared(n, e)
    requires var w := WalkPage(c, m, page, true); e == w.directory || e == w.table
    ensures !Translates(WalkPage(c, n, page, true))
  {
    hide Word;
    var w := WalkPage(c, m, page, true);
    EntriesAligned(c, Word(m, w.directory), page);
    assert KeptOrCleared(m, n, w.directory);
  }

  // ----------------------------------------------------------------------
  // A write that fails has stored something
  // ----------------------------------------------------------------------

  /** The turn of the write loop at `done`. */
  function Turn(c: Control, s: Cpu, address: nat, data: seq<byte>, done: nat): (Cpu, Status)
    requires done < |data|
  {
    WritePart(c, s, Linear(address, done), data[done..done + Chunk(Linear(address, done), |data| - done)])
  }

  lemma WriteTurn(c: Control, s: Cpu, address: nat, data: seq<byte>, done: nat)
    requires done < |data|
    ensures var (t, status) := Turn(c, s, address, data, done);
            WriteChunks(c, s, address, data, done)
            == if status != Ok then (t, status)
               else WriteChunks(c, t, address, data, done + Chunk(Linear(address, done), |data| - done))
  {
    hide WritePart;
  }

  /** In a memory that agrees with the first, the turn of a writable chunk does not fail. */
  lemma TurnSucceeds(c: Control, m: Memory, s: Cpu, address: nat, data: seq<byte>, done: nat)
    requires done < |data| && AllWritable(c, m, address, |data|) && OnlyAD(m, s.mem)
    ensures Turn(c, s, address, data, done).1 == Ok
  {
    hide Preflight, OnlyAD, WalkPage;
    var n := Chunk(Linear(address, done), |data| - done);
    PreflightTurn(c, m, s, address, |data|, done);
    var (t, f) := Translate(c, s, Linear(address, done), true);
    HeldEnds(t.mem, f.physical, n);
  }

  lemma HeldEnds(m: Memory, a: nat, n: nat)
    requires n > 0 && Holds(m, a, 1) && Holds(m, a + n - 1, 1)
    ensures Holds(m, a, n)
  {
  }

  lemma FailedTurnKeepsMemory(c: Control, s: Cpu, address: nat, data: seq<byte>, done: nat)
    requires done < |data| && Turn(c, s, address, data, done).1 != Ok
    ensures OnlyAD(s.mem, Turn(c, s, address, data, done).0.mem)
  {
    hide WalkPage, OnlyAD, Touch;
    TouchIsOnlyAD(c, s.mem, Linear(address, done) / PAGE, true);
    SameAgrees(s.mem);
  }

  lemma AgreementIsSymmetric(m: Memory, n: Memory)
    requires OnlyAD(m, n)
    ensures OnlyAD(n, m)
  {
  }

  /** When the loop fails though every byte was writable, it has changed more than accessed and dirty bits. */
  lemma {:induction false} FailureIsTorn(c: Control, m: Memory, s: Cpu, address: nat, data: seq<byte>, done: nat)
    requires done <= |data| && AllWritable(c, m, address, |data|)
    requires WriteChunks(c, s, address, data, done).1 != Ok
    ensures !OnlyAD(m, WriteChunks(c, s, address, data, done).0.mem)
    decreases |data| - done
  {
    hide Turn, OnlyAD, AllWritable, WritePart, Linear, Chunk;
    WriteTurn(c, s, address, data, done);
    var (t, status) := Turn(c, s, address, data, done);
    if status == Ok {
      FailureIsTorn(c, m, t, address, data, done + Chunk(Linear(address, done), |data| - done));
    } else {
      FailedTurnKeepsMemory(c, s, address, data, done);
      if OnlyAD(m, t.mem) {
        AgreementIsSymmetric(s.mem, t.mem);
        OnlyADTransitive(m, t.mem, s.mem);
        TurnSucceeds(c, m, s, address, data, done);
      }
    }
  }

  // ----------------------------------------------------------------------
  // Zeros over the entry of a later page
  // ----------------------------------------------------------------------

  /** Byte i of the write is the first of an entry that translates byte j, in a later page. */
  predicate Cuts(c: Control, m: Memory, address: nat, size: nat, i: nat, j: nat) {
    && i < size && j < size && Later(address, i, j)
    && var w := WalkOf(c, m, address, j);
       w.Mapped? && (Place(c, m, address, i) == w.directory || Place(c, m, address, i) == w.table)
  }

  /** The turn at `done`, when it succeeds in a frayed memory and another chunk follows. */
  lemma TurnOfZeros(c: Control, m: Memory, s: Cpu, address: nat, size: nat, done: nat)
    requires address % 4 == 0 && done < size && AllWritable(c, m, address, size) && Frayed(m, s.mem)
    requires done % 4 == 0 && Turn(c, s, address, Zeros(size), done).1 == Ok
    requires Chunk(Linear(address, done), size - done) < size - done
    ensures var n := Chunk(Linear(address, done), size - done);
            var marked := Translate(c, s, Linear(address, done), true).0.mem;
            var p := Place(c, m, address, done);
            && n % 4 == 0 && (done + n) % 4 == 0 && p % 4 == 0 && Holds(marked, p, n)
            && OnlyAD(s.mem, marked) && Frayed(m, marked)
            && Turn(c, s, address, Zeros(size), done).0.mem == WriteBytes(marked, p, Zeros(n))
            && forall i | done <= i < done + n :: Place(c, m, address, i) == p + (i - done)
  {
    hide WalkPage, OnlyAD, Mark, Frayed, AllWritable, Linear, Chunk;
    var n := Chunk(Linear(address, done), size - done);
    var l := Linear(address, done);
    var (t, f) := Translate(c, s, l, true);
    TouchIsOnlyAD(c, s.mem, l / PAGE, true);
    UpdatesKeepFrayed(m, s.mem, t.mem);
    FirstOfChunk(c, m, s, address, size, done);
    assert Zeros(size)[done..done + n] == Zeros(n);
    ChunkEndsPage(address, done, size - done);
    WordsToPage(address, done, n);
    PlaceAligned(c, m, address, size, done);
    forall i | done <= i < done + n
      ensures Place(c, m, address, i) == f.physical + (i - done)
    {
      ChunkPlaces(c, m, address, done, n, i - done);
    }
  }

  /** It keeps the memory frayed, and clears e if e is one of its words, or was cleared before. */
  lemma TurnCuts(c: Control, m: Memory, s: Cpu, address: nat, size: nat, done: nat, i: nat)
    requires address % 4 == 0 && done < size && AllWritable(c, m, address, size) && Frayed(m, s.mem)
    requires done % 4 == 0 && Turn(c, s, address, Zeros(size), done).1 == Ok
    requires Chunk(Linear(address, done), size - done) < size - done
    requires var e := Place(c, m, address, i); e % 4 == 0 && Holds(m, e, 4) && (i < done ==> Cleared(s.mem, e))
    ensures var end := done + Chunk(Linear(address, done), size - done);
            var t := Turn(c, s, address, Zeros(size), done).0;
            && end % 4 == 0 && Frayed(m, t.mem) && (i < end ==> Cleared(t.mem, Place(c, m, address, i)))
  {
    var n := Chunk(Linear(address, done), size - done);
    var e := Place(c, m, address, i);
    var marked := Translate(c, s, Linear(address, done), true).0.mem;
    hide WalkPage, OnlyAD, Cleared, AllWritable, Linear, Chunk, Turn, Place, Translate, KeptOrCleared;
    TurnOfZeros(c, m, s, address, size, done);
    ZerosKeepFrayed(m, marked, Place(c, m, address, done), n);
    if i < done {
      UpdatesKeepCleared(s.mem, marked, e);
    }
    if i < done + n {
      ZerosClear(marked, Place(c, m, address, done), n, e);
    }
  }

  lemma WordsToPage(address: nat, done: nat, n: nat)
    requires address % 4 == 0 && done % 4 == 0 && (address + done + n) % PAGE == 0
    ensures n % 4 == 0 && (done + n) % 4 == 0
  {
    SameInWord(address + done + n, 0);
    Fours(address, done, n);
  }

  lemma Fours(a: nat, b: nat, c: nat)
    requires a % 4 == 0 && b % 4 == 0 && (a + b + c) % 4 == 0
    ensures c % 4 == 0 && (b + c) % 4 == 0
  {
  }

  lemma PlaceAligned(c: Control, m: Memory, address: nat, size: nat, i: nat)
    requires i < size && AllWritable(c, m, address, size) && address % 4 == 0 && i % 4 == 0
    ensures Place(c, m, address, i) % 4 == 0
  {
    hide Place, Writable;
    assert Writable(c, m, address, i);
    PlaceOffset(c, m, address, i);
    SameInWord(Place(c, m, address, i), address + i);
  }

  lemma SameInWord(a: nat, b: nat)
    requires a % PAGE == b % PAGE
    ensures a % 4 == b % 4
  {
    ReduceTwice(a, 0x400, 4);
    ReduceTwice(b, 0x400, 4);
  }

  /** A translation that succeeds in a frayed memory gives the place it gave before. */
  lemma FirstOfChunk(c: Control, m: Memory, s: Cpu, address: nat, size: nat, done: nat)
    requires done < size && AllWritable(c, m, address, size) && Frayed(m, s.mem)
    requires Translate(c, s, Linear(address, done), true).1.Frame?
    ensures Translate(c, s, Linear(address, done), true).1.physical == Place(c, m, address, done)
    ensures Translates(WalkOf(c, m, address, done))
  {
    hide WalkPage, OnlyAD, Touch, Frayed;
    assert Writable(c, m, address, done);
    WalkFrayed(c, m, s.mem, Linear(address, done) / PAGE);
  }

  /** Zeros over the entry of a later page stop the write at that page, or before. */
  lemma {:induction false} ZerosStop(c: Control, m: Memory, s: Cpu, address: nat, size: nat, done: nat, i: nat, j: nat)
    requires address % 4 == 0 && AllWritable(c, m, address, size) && Frayed(m, s.mem) && Cuts(c, m, address, size, i, j)
    requires done <= j < size && done % 4 == 0 && Place(c, m, address, i) % 4 == 0 && Holds(m, Place(c, m, address, i), 4)
    requires i < done ==> Cleared(s.mem, Place(c, m, address, i))
    ensures WriteChunks(c, s, address, Zeros(size), done).1 != Ok
    decreases size - done
  {
    hide Turn, Frayed, Cleared, AllWritable, Linear, Chunk, Cuts, Place;
    var n := Chunk(Linear(address, done), size - done);
    WriteTurn(c, s, address, Zeros(size), done);
    if Turn(c, s, address, Zeros(size), done).1 == Ok {
      if j < done + n {
        CutTurnFails(c, m, s, address, size, done, i, j);
      } else {
        TurnCuts(c, m, s, address, size, done, i);
        ZerosStop(c, m, Turn(c, s, address, Zeros(size), done).0, address, size, done + n, i, j);
      }
    }
  }

  /** The turn of the page whose entry has been cleared. */
  lemma CutTurnFails(c: Control, m: Memory, s: Cpu, address: nat, size: nat, done: nat, i: nat, j: nat)
    requires Frayed(m, s.mem) && Cuts(c, m, address, size, i, j)
    requires done <= j < done + Chunk(Linear(address, done), size - done)
    requires i < done ==> Cleared(s.mem, Place(c, m, address, i))
    ensures Turn(c, s, address, Zeros(size), done).1 != Ok
  {
    hide WalkPage, OnlyAD, Touch, Frayed, Cleared, Place;
    SameChunk(address, size, done, i, j);
    WalkCut(c, m, s.mem, Linear(address, j) / PAGE, Place(c, m, address, i));
  }

  lemma SameChunk(address: nat, size: nat, done: nat, i: nat, j: nat)
    requires done < size && done <= j < done + Chunk(Linear(address, done), size - done)
    ensures Linear(address, j) / PAGE == Linear(address, done) / PAGE
    ensures Later(address, i, j) ==> i < done
  {
    var n := Chunk(Linear(address, done), size - done);
    hide Chunk, Linear;
    ChunkIsOnePage(address, done, n, j - done);
    PageOffset(address, done);
    SamePage(address + done, j - done);
    NoLaterPage(address + done, address + i);
  }

  lemma SamePage(a: nat, d: nat)
    requires a % PAGE + d < PAGE
    ensures (a + d) / PAGE == a / PAGE
  {
    ModuloUnique(a + d, a / PAGE, a % PAGE + d, PAGE);
  }

  lemma NoLaterPage(a: nat, b: nat)
    ensures b / PAGE < a / PAGE ==> b < a
  {
  }

  // ----------------------------------------------------------------------
  // The condition is exact
  // ----------------------------------------------------------------------

  /** A byte in an aligned word, and the first byte of the word. */
  lemma EntryByte(c: Control, m: Memory, address: nat, size: nat, k: nat, e: nat) returns (i: nat)
    requires address % 4 == 0 && AllWritable(c, m, address, size) && k < size
    requires e % 4 == 0 && e <= Place(c, m, address, k) < e + 4
    ensures i <= k && (address + i) / PAGE == (address + k) / PAGE && Place(c, m, address, i) == e
  {
    hide Place, AllWritable, WalkOf, WalkPage, Translates, Linear;
    var d := Place(c, m, address, k) - e;
    assert d <= k && (address + (k - d)) / PAGE == (address + k) / PAGE && (address + (k - d)) % PAGE + (d + 1) <= PAGE by {
      Offsets(c, m, address, size, k);
      WordOfOffset(address, k, Place(c, m, address, k), d);
    }
    i := k - d;
    PlacesInPage(c, m, address, size, i, k);
  }

  lemma PlacesInPage(c: Control, m: Memory, address: nat, size: nat, i: nat, k: nat)
    requires AllWritable(c, m, address, size) && i <= k < size
    requires (address + i) % PAGE + (k - i + 1) <= PAGE
    ensures Place(c, m, address, k) == Place(c, m, address, i) + (k - i)
  {
    hide Place, AllWritable, WalkPage;
    PageOffset(address, i);
    PlaceTranslates(c, m, address, size, i);
    ChunkPlaces(c, m, address, i, k - i + 1, k - i);
  }

  lemma Offsets(c: Control, m: Memory, address: nat, size: nat, k: nat)
    requires AllWritable(c, m, address, size) && k < size
    ensures Place(c, m, address, k) % PAGE == (address + k) % PAGE
  {
    hide Place, Writable;
    assert Writable(c, m, address, k);
    PlaceOffset(c, m, address, k);
  }

  lemma PlaceTranslates(c: Control, m: Memory, address: nat, size: nat, k: nat)
    requires AllWritable(c, m, address, size) && k < size
    ensures Translates(WalkOf(c, m, address, k))
  {
    assert Writable(c, m, address, k);
  }

  lemma WordOfOffset(address: nat, k: nat, p: nat, d: nat)
    requires address % 4 == 0 && (address + k) % PAGE == p % PAGE && d < 4 && d <= p && (p - d) % 4 == 0
    ensures d <= k && (address + (k - d)) / PAGE == (address + k) / PAGE && (address + (k - d)) % PAGE + (d + 1) <= PAGE
  {
    SameInWord(address + k, p);
    WordPart(address, k, p, d);
    WithinWord(address + k, d);
  }

  lemma WordPart(a: nat, k: nat, p: nat, d: nat)
    requires a % 4 == 0 && (a + k) % 4 == p % 4 && d < 4 && d <= p && (p - d) % 4 == 0
    ensures d <= k && (a + k) % 4 == d
  {
  }

  lemma WithinWord(a: nat, d: nat)
    requires a % 4 == d
    ensures (a - d) / PAGE == a / PAGE && (a - d) % PAGE + (d + 1) <= PAGE
  {
    var rest := a % PAGE;
    ReduceTwice(a, 0x400, 4);
    assert rest % 4 == d;
    NaturalQuotient(a, PAGE);
    ModuloUnique(a - d, a / PAGE, rest - d, PAGE);
  }

  /** An aligned write that does not spare the entries of a later page covers one of them from its first byte. */
  lemma CoversEntry(c: Control, m: Memory, address: nat, size: nat) returns (i: nat, j: nat)
    requires address % 4 == 0 && AllWritable(c, m, address, size) && !SparesLater(c, m, address, size)
    ensures Cuts(c, m, address, size, i, j)
    ensures Place(c, m, address, i) % 4 == 0 && Holds(m, Place(c, m, address, i), 4)
  {
    hide Place, AllWritable, WalkPage, Later, Linear;
    var k: nat;
    UnsparedByte(c, m, address, size);
    k, j :| k < size && j < size && Later(address, k, j) && Uses(WalkOf(c, m, address, j), Place(c, m, address, k));
    var w := WalkOf(c, m, address, j);
    var a := Place(c, m, address, k);
    WalkEntries(c, m, Linear(address, j) / PAGE);
    i := EntryByte(c, m, address, size, k, if w.directory <= a < w.directory + 4 then w.directory else w.table);
    LaterAlike(address, i, k, j);
  }

  lemma UnsparedByte(c: Control, m: Memory, address: nat, size: nat)
    requires !SparesLater(c, m, address, size)
    ensures exists k: nat, l: nat :: k < size && l < size && Later(address, k, l) && Uses(WalkOf(c, m, address, l), Place(c, m, address, k))
  {
    hide Place, WalkPage, Later, Uses;
  }

  lemma WalkEntries(c: Control, m: Memory, page: nat)
    ensures var w := WalkPage(c, m, page, true);
            w.Mapped? ==> w.directory % 4 == 0 && w.table % 4 == 0 && Holds(m, w.directory, 4) && Holds(m, w.table, 4)
  {
    hide Word;
    EntriesAligned(c, if Holds(m, DirectoryEntry(c, page), 4) then Word(m, DirectoryEntry(c, page)) else 0, page);
  }

  lemma LaterAlike(address: nat, i: nat, k: nat, j: nat)
    requires (address + i) / PAGE == (address + k) / PAGE && Later(address, k, j)
    ensures Later(address, i, j)
  {
  }

  /** A crossing write of zeros whose preflight passes, over the entry of a later page, is torn. */
  lemma ZerosTear(c: Control, s: Cpu, address: nat, size: nat)
    requires address % 4 == 0 && Crosses(address, size)
    requires AllWritable(c, s.mem, address, size) && !SparesLater(c, s.mem, address, size)
    ensures !AllOrNothing(c, s, address, Zeros(size))
  {
    hide Preflight, WriteChunks, Frayed, OnlyAD, AllWritable, SparesLater, Place, Cuts, Crosses;
    var t := Preflight(c, s, address, size, 0).0;
    PreflightSucceedsHere(c, s, address, size);
    PreflightIsOnlyAD(c, s, address, size, 0);
    SameIsFrayed(s.mem, t.mem);
    var i, j := CoversEntry(c, s.mem, address, size);
    CutsWithin(c, s.mem, address, size, i, j);
    ZerosStop(c, s.mem, t, address, size, 0, i, j);
  }

  lemma PreflightSucceedsHere(c: Control, s: Cpu, address: nat, size: nat)
    requires AllWritable(c, s.mem, address, size)
    ensures Preflight(c, s, address, size, 0).1 == Ok
  {
    hide Preflight, AllWritable;
    SameAgrees(s.mem);
    PreflightSucceeds(c, s.mem, s, address, size, 0);
  }

  lemma CutsWithin(c: Control, m: Memory, address: nat, size: nat, i: nat, j: nat)
    requires Cuts(c, m, address, size, i, j)
    ensures i < size && j < size
  {
  }

  /**
    For a write that starts at a multiple of four: whatever the data, it is
    all-or-nothing, if and only if it stays in one page, or some byte is not
    writable, or none of its bytes is in an entry that translates a later page
    of it.
  */
  lemma AllOrNothingExactly(c: Control, s: Cpu, address: nat, size: nat)
    requires size <= TWO_32 - PAGE && address % 4 == 0
    ensures (forall data: seq<byte> | |data| == size :: AllOrNothing(c, s, address, data))
            <==> (Crosses(address, size) && AllWritable(c, s.mem, address, size) ==> SparesLater(c, s.mem, address, size))
  {
    hide AllOrNothing, Crosses, AllWritable, SparesLater;
    if Crosses(address, size) && AllWritable(c, s.mem, address, size) && !SparesLater(c, s.mem, address, size) {
      ZerosTear(c, s, address, size);
    } else {
      forall data: seq<byte> | |data| == size
        ensures AllOrNothing(c, s, address, data)
      {
        WritesAreAllOrNothing(c, s, address, data);
      }
    }
  }

  /** A crossing write of writable bytes that does not succeed has stored some of them. */
  lemma FailedWriteIsTorn(c: Control, s: Cpu, address: nat, data: seq<byte>)
    requires Crosses(address, |data|) && AllWritable(c, s.mem, address, |data|)
    requires GuestWrite(c, s, address, data).1 != Ok
    ensures !OnlyAD(s.mem, GuestWrite(c, s, address, data).0.mem)
  {
    hide Preflight, WriteChunks, OnlyAD, AllWritable, Crosses;
    PreflightSucceedsHere(c, s, address, |data|);
    FailureIsTorn(c, s.mem, Preflight(c, s, address, |data|, 0).0, address, data, 0);
  }
}

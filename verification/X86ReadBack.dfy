/** A guest read after a guest write delivers what was written, through the same page tables. */
module X86ReadBack {
  import opened Arithmetic
  import opened Wrappers
  import opened GuestMemory
  import opened X86Paging
  import opened X86GuestWrites

  lemma FramesArePages(c: Control, m: Memory, page: nat, writing: bool)
    ensures Translates(WalkPage(c, m, page, writing)) ==> WalkPage(c, m, page, writing).frame % PAGE == 0
  {
    var w := WalkPage(c, m, page, writing);
    if w.Flat? {
      FrameOf(c, page);
    } else if w.Mapped? {
      FrameOf(c, Word(m, w.table) / PAGE);
    }
  }

  lemma FrameOf(c: Control, number: nat)
    ensures A20(c, number * PAGE) % PAGE == 0
  {
    ModuloUnique(number * PAGE, number, 0, PAGE);
    ModuloUnique(number * PAGE - 0x10_0000, number - 0x100, 0, PAGE);
  }

  /** Within one page's worth of bytes, no two go to the same place. */
  lemma PlacesDistinct(c: Control, m: Memory, address: nat, i: nat, j: nat)
    requires i < j < i + PAGE && Writable(c, m, address, i) && Writable(c, m, address, j)
    ensures Place(c, m, address, i) != Place(c, m, address, j)
  {
    PlaceOffset(c, m, address, i);
    PlaceOffset(c, m, address, j);
    OffsetsDiffer(address + i, address + j);
  }

  lemma PlaceOffset(c: Control, m: Memory, address: nat, i: nat)
    requires Writable(c, m, address, i)
    ensures Place(c, m, address, i) % PAGE == (address + i) % PAGE
  {
    hide WalkPage;
    FramesArePages(c, m, Linear(address, i) / PAGE, true);
    var frame := WalkOf(c, m, address, i).frame;
    ModuloOf(Linear(address, i) % PAGE, frame / PAGE, PAGE);
    ReduceTwice(address + i, 0x10_0000, PAGE);
  }

  lemma OffsetsDiffer(a: nat, b: nat)
    requires a < b < a + PAGE
    ensures a % PAGE != b % PAGE
  {
  }

  /** Storing at distinct places leaves each byte at its own. */
  lemma {:induction false} StoredAt(m: Memory, places: seq<nat>, data: seq<byte>, n: nat, i: nat)
    requires |places| == |data| && AllHeld(m, places) && i < n <= |data|
    requires forall j, k | 0 <= j < k < |places| :: places[j] != places[k]
    ensures At(StoreBytes(m, places, data, n), places[i]) == data[i]
  {
    assert Holds(m, places[i], 1);
    if i < n - 1 {
      assert places[i] != places[n - 1];
      StoredAt(m, places, data, n - 1, i);
    }
  }

  /** A page that may be written may be read, at the same frame. */
  lemma ReadWalk(c: Control, m: Memory, page: nat)
    requires Translates(WalkPage(c, m, page, true))
    ensures WalkPage(c, m, page, false) == WalkPage(c, m, page, true)
  {
  }

  /** t holds the data at its places, ready to be read or written again. */
  predicate HoldsData(c: Control, m: Memory, address: nat, data: seq<byte>) {
    forall i | 0 <= i < |data| :: Ready(c, m, address, i) && At(m, Place(c, m, address, i)) == data[i]
  }

  /** One turn of the read loop. */
  lemma ReadTurn(c: Control, s: Cpu, address: nat, size: nat, got: seq<byte>, part: seq<byte>)
    requires |got| < size && |part| == Chunk(Linear(address, |got|), size - |got|)
    requires var (t, f) := Translate(c, s, Linear(address, |got|), false);
             f.Frame? && Holds(t.mem, f.physical, |part|) && ReadBytes(t.mem, f.physical, |part|) == part
    ensures ReadChunks(c, s, address, size, got)
            == ReadChunks(c, Translate(c, s, Linear(address, |got|), false).0, address, size, got + part)
  {
  }

  lemma {:induction false} ReadDelivers(c: Control, t: Cpu, address: nat, data: seq<byte>, got: nat)
    requires HoldsData(c, t.mem, address, data) && got <= |data|
    ensures ReadChunks(c, t, address, |data|, data[..got]) == Reading(t, Ok, data)
    decreases |data| - got
  {
    hide Translate, Ready, Place, ReadBytes;
    if got == |data| {
      assert data[..got] == data;
    } else {
      var n := Chunk(Linear(address, got), |data| - got);
      ReadPart(c, t, address, data, got, n);
      ReadTurn(c, t, address, |data|, data[..got], data[got..got + n]);
      assert data[..got] + data[got..got + n] == data[..got + n];
      ReadDelivers(c, t, address, data, got + n);
    }
  }

  lemma ReadPart(c: Control, t: Cpu, address: nat, data: seq<byte>, got: nat, n: nat)
    requires HoldsData(c, t.mem, address, data) && got + n <= |data| && n > 0
    requires Linear(address, got) % PAGE + n <= PAGE
    ensures var place := Place(c, t.mem, address, got);
            && Translate(c, t, Linear(address, got), false) == (t, Frame(place))
            && Holds(t.mem, place, n) && ReadBytes(t.mem, place, n) == data[got..got + n]
  {
    hide WalkPage, Settled;
    var place := Place(c, t.mem, address, got);
    assert Ready(c, t.mem, address, got) && Ready(c, t.mem, address, got + (n - 1));
    ReadWalk(c, t.mem, Linear(address, got) / PAGE);
    SettledTouch(t.mem, WalkOf(c, t.mem, address, got), false);
    ChunkPlaces(c, t.mem, address, got, n, n - 1);
    var bytes, part := ReadBytes(t.mem, place, n), data[got..got + n];
    forall k | 0 <= k < n
      ensures bytes[k] == part[k]
    {
      assert Ready(c, t.mem, address, got + k);
      ChunkPlaces(c, t.mem, address, got, n, k);
    }
  }

  /** Every byte is ready at its place, and no place is an entry in use. */
  predicate Stable(c: Control, m: Memory, address: nat, places: seq<nat>) {
    && (forall i | 0 <= i < |places| :: Ready(c, m, address, i) && places[i] == Place(c, m, address, i))
    && (forall i, j | 0 <= i < |places| && 0 <= j < |places| :: !Uses(WalkOf(c, m, address, j), places[i]))
  }

  lemma PokeKeepsStable(c: Control, m: Memory, address: nat, places: seq<nat>, k: nat, value: byte)
    requires Stable(c, m, address, places) && k < |places|
    ensures Holds(m, places[k], 1) && Stable(c, Poke(m, places[k], value), address, places)
  {
    assert Ready(c, m, address, k);
    var n := Poke(m, places[k], value);
    forall i | 0 <= i < |places|
      ensures Ready(c, n, address, i) && WalkOf(c, n, address, i) == WalkOf(c, m, address, i)
    {
      assert Ready(c, m, address, i) && !Uses(WalkOf(c, m, address, i), places[k]);
      PokeKeepsReady(c, m, address, i, places[k], value);
    }
    assert forall i | 0 <= i < |places| :: Place(c, n, address, i) == Place(c, m, address, i);
  }

  lemma {:induction false} StoreKeepsStable(c: Control, m: Memory, address: nat, places: seq<nat>, data: seq<byte>, n: nat)
    requires Stable(c, m, address, places) && |places| == |data| && n <= |data|
    ensures AllHeld(m, places) && Stable(c, StoreBytes(m, places, data, n), address, places)
  {
    assert forall i | 0 <= i < |places| :: Ready(c, m, address, i);
    if n > 0 {
      StoreKeepsStable(c, m, address, places, data, n - 1);
      PokeKeepsStable(c, StoreBytes(m, places, data, n - 1), address, places, n - 1, data[n - 1]);
    }
  }

  lemma ReadyIsStable(c: Control, m: Memory, n: Memory, address: nat, size: nat)
    requires OnlyAD(m, n) && AllWritable(c, m, address, size) && Avoids(c, m, address, size)
    requires forall i | 0 <= i < size :: Ready(c, n, address, i)
    ensures Stable(c, n, address, Places(c, m, address, size))
  {
    var places := Places(c, m, address, size);
    forall i | 0 <= i < size
      ensures WalkOf(c, n, address, i) == WalkOf(c, m, address, i) && places[i] == Place(c, n, address, i)
    {
      WalksAgree(c, m, n, Linear(address, i) / PAGE, true);
      assert Writable(c, m, address, i);
    }
  }

  lemma StableIsSteady(c: Control, m: Memory, address: nat, places: seq<nat>)
    requires Stable(c, m, address, places)
    ensures Steady(c, m, address, places, 0)
  {
    hide Ready, Uses, WalkOf, Later, Place;
  }

  lemma StableHoldsData(c: Control, start: Memory, address: nat, data: seq<byte>)
    requires |data| <= PAGE
    requires Stable(c, start, address, Places(c, start, address, |data|))
    ensures AllHeld(start, Places(c, start, address, |data|))
    ensures HoldsData(c, StoreBytes(start, Places(c, start, address, |data|), data, |data|), address, data)
  {
    var places := Places(c, start, address, |data|);
    StoreKeepsStable(c, start, address, places, data, |data|);
    var m := StoreBytes(start, places, data, |data|);
    forall j, k | 0 <= j < k < |places|
      ensures places[j] != places[k]
    {
      assert Ready(c, start, address, j) && Ready(c, start, address, k);
      PlacesDistinct(c, start, address, j, k);
    }
    forall i | 0 <= i < |data|
      ensures Ready(c, m, address, i) && At(m, Place(c, m, address, i)) == data[i]
    {
      StoredAt(start, places, data, |data|, i);
    }
  }

  /** After a crossing write that succeeds. */
  lemma CrossingWriteHolds(c: Control, s: Cpu, address: nat, data: seq<byte>)
    requires |data| <= PAGE && Crosses(address, |data|) && Avoids(c, s.mem, address, |data|)
    requires GuestWrite(c, s, address, data).1 == Ok
    ensures HoldsData(c, GuestWrite(c, s, address, data).0.mem, address, data)
  {
    var size := |data|;
    var (t, status) := Preflight(c, s, address, size, 0);
    PreflightIsOnlyAD(c, s, address, size, 0);
    PreflightReadies(c, s, address, size, 0);
    ReadyMeansWritable(c, s.mem, t.mem, address, size);
    PlacesAgree(c, s.mem, t.mem, address, size);
    ReadyIsStable(c, s.mem, t.mem, address, size);
    var places := Places(c, t.mem, address, size);
    StoreKeepsStable(c, t.mem, address, places, data, 0);
    StableIsSteady(c, t.mem, address, places);
    ChunksStore(c, t, t.mem, address, places, data, 0);
    StableHoldsData(c, t.mem, address, data);
  }

  /** After a write within one page that succeeds. */
  lemma PageWriteHolds(c: Control, s: Cpu, address: nat, data: seq<byte>)
    requires data != [] && Linear(address, 0) % PAGE + |data| <= PAGE && Avoids(c, s.mem, address, |data|)
    requires WriteChunks(c, s, address, data, 0).1 == Ok
    ensures HoldsData(c, WriteChunks(c, s, address, data, 0).0.mem, address, data)
  {
    OneChunk(c, s, address, data);
    var t := TouchedPageIsStable(c, s, address, data);
    StableHoldsData(c, t.mem, address, data);
  }

  /** The translation of the page leaves it stable, and the store is the bytes one by one. */
  lemma TouchedPageIsStable(c: Control, s: Cpu, address: nat, data: seq<byte>) returns (t: Cpu)
    requires data != [] && Linear(address, 0) % PAGE + |data| <= PAGE && Avoids(c, s.mem, address, |data|)
    requires var (u, f) := Translate(c, s, Linear(address, 0), true); f.Frame? && Holds(u.mem, f.physical, |data|)
    ensures t == Translate(c, s, Linear(address, 0), true).0
    ensures Stable(c, t.mem, address, Places(c, t.mem, address, |data|)) && AllHeld(t.mem, Places(c, t.mem, address, |data|))
    ensures WriteBytes(t.mem, Translate(c, s, Linear(address, 0), true).1.physical, data)
            == StoreBytes(t.mem, Places(c, t.mem, address, |data|), data, |data|)
  {
    hide WalkPage, Translate, OnlyAD, Stable, Settled;
    var size := |data|;
    t := Translate(c, s, Linear(address, 0), true).0;
    var physical := Translate(c, s, Linear(address, 0), true).1.physical;
    ChunkReady(c, s, address, 0, size);
    PageIsWritable(c, s, address, size);
    PlacesAgree(c, s.mem, t.mem, address, size);
    ReadyIsStable(c, s.mem, t.mem, address, size);
    var places := Places(c, t.mem, address, size);
    StoreKeepsStable(c, t.mem, address, places, data, 0);
    RunIsHeld(t.mem, places, 0, size);
    WriteIsPokes(t.mem, places, data, 0, size);
    assert data[0..size] == data;
  }

  /**
    Read-back.  A successful guest write of at most a page, whose destination
    avoids the entries that translate it, can be read back: the read succeeds,
    delivers the bytes written, and changes nothing at all.
  */
  lemma ReadsBack(c: Control, s: Cpu, address: nat, data: seq<byte>)
    requires |data| <= PAGE && Avoids(c, s.mem, address, |data|)
    requires GuestWrite(c, s, address, data).1 == Ok
    ensures var t := GuestWrite(c, s, address, data).0;
            && HoldsData(c, t.mem, address, data)
            && GuestRead(c, t, address, |data|) == Reading(t, Ok, data)
  {
    var t := GuestWrite(c, s, address, data).0;
    if data != [] {
      if Crosses(address, |data|) {
        CrossingWriteHolds(c, s, address, data);
      } else {
        OnePage(address, |data|);
        PageWriteHolds(c, s, address, data);
      }
    }
    ReadDelivers(c, t, address, data, 0);
    assert data[..0] == [];
  }
}

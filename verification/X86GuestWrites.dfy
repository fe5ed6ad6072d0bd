/**
  Guest writes that cross pages are all-or-nothing (src/xxemul_x86.c, lines
  163-219): the preflight translates and probes every page before the first
  byte is stored.
*/
module X86GuestWrites {
  import opened Arithmetic
  import opened Wrappers
  import opened GuestMemory
  import opened X86Paging

  function WalkOf(c: Control, m: Memory, address: nat, i: nat): Walk {
    WalkPage(c, m, Linear(address, i) / PAGE, true)
  }

  predicate Writable(c: Control, m: Memory, address: nat, i: nat) {
    Translates(WalkOf(c, m, address, i)) && Holds(m, Place(c, m, address, i), 1)
  }

  /** Where byte i of a write goes, if it goes anywhere. */
  function Place(c: Control, m: Memory, address: nat, i: nat): nat {
    var w := WalkOf(c, m, address, i);
    if Translates(w) then w.frame + Linear(address, i) % PAGE else 0
  }

  predicate AllWritable(c: Control, m: Memory, address: nat, size: nat) {
    forall i | 0 <= i < size :: Writable(c, m, address, i)
  }

  /** The places of a write, each byte translated on its own. */
  function Places(c: Control, m: Memory, address: nat, size: nat): (places: seq<nat>)
    ensures |places| == size && forall i | 0 <= i < size :: places[i] == Place(c, m, address, i)
  {
    seq(size, i requires 0 <= i < size => Place(c, m, address, i))
  }

  /** A physical byte that the walk reads, or marks. */
  predicate Uses(w: Walk, a: nat) {
    w.Mapped? && (w.directory <= a < w.directory + 4 || w.table <= a < w.table + 4)
  }

  /** The bytes of the write are none of the entries that translate it. */
  predicate Avoids(c: Control, m: Memory, address: nat, size: nat) {
    forall i, j | 0 <= i < size && 0 <= j < size && Translates(WalkOf(c, m, address, i)) ::
      !Uses(WalkOf(c, m, address, j), Place(c, m, address, i))
  }

  /** Byte j of a write at an address lies in a later page than byte i. */
  predicate Later(address: nat, i: nat, j: nat) {
    (address + i) / PAGE < (address + j) / PAGE
  }

  /** No byte of the write is in an entry that translates a later page of it. */
  predicate SparesLater(c: Control, m: Memory, address: nat, size: nat) {
    forall i, j | 0 <= i < size && 0 <= j < size && Later(address, i, j) && Translates(WalkOf(c, m, address, i)) ::
      !Uses(WalkOf(c, m, address, j), Place(c, m, address, i))
  }

  lemma AvoidsSpares(c: Control, m: Memory, address: nat, size: nat)
    requires Avoids(c, m, address, size)
    ensures SparesLater(c, m, address, size)
  {
    hide WalkOf, Place, Uses, Later;
  }

  predicate AllHeld(m: Memory, places: seq<nat>) {
    forall i | 0 <= i < |places| :: Holds(m, places[i], 1)
  }

  /** The write as its first n single bytes, one after another. */
  function StoreBytes(m: Memory, places: seq<nat>, data: seq<byte>, n: nat): (r: Memory)
    requires |places| == |data| && n <= |data| && AllHeld(m, places)
    ensures r.base == m.base && |r.bytes| == |m.bytes|
  {
    if n == 0 then m else Poke(StoreBytes(m, places, data, n - 1), places[n - 1], data[n - 1])
  }

  // ----------------------------------------------------------------------
  // Chunks
  // ----------------------------------------------------------------------

  /** The bytes of one chunk are neighbours in one page. */
  lemma ChunkIsOnePage(address: nat, i: nat, n: nat, k: nat)
    requires Linear(address, i) % PAGE + n <= PAGE && k < n
    ensures Linear(address, i + k) == Linear(address, i) + k
    ensures Linear(address, i + k) / PAGE == Linear(address, i) / PAGE
    ensures Linear(address, i + k) % PAGE == Linear(address, i) % PAGE + k
  {
    var l := Linear(address, i);
    assert l / PAGE <= TWO_32 / PAGE - 1;
    assert l + k < TWO_32;
  }

  lemma ChunkPlaces(c: Control, m: Memory, address: nat, i: nat, n: nat, k: nat)
    requires Linear(address, i) % PAGE + n <= PAGE && k < n
    ensures WalkOf(c, m, address, i + k) == WalkOf(c, m, address, i)
    ensures Translates(WalkOf(c, m, address, i)) ==> Place(c, m, address, i + k) == Place(c, m, address, i) + k
  {
    ChunkIsOnePage(address, i, n, k);
  }

  /** Places i to i + n are neighbours. */
  predicate Consecutive(places: seq<nat>, i: nat, n: nat)
    requires i + n <= |places|
  {
    forall k | i <= k < i + n :: places[k] == places[i] + (k - i)
  }

  lemma RunIsHeld(m: Memory, places: seq<nat>, i: nat, n: nat)
    requires i + n <= |places| && n > 0 && Consecutive(places, i, n)
    requires AllHeld(m, places)
    ensures Holds(m, places[i], n)
  {
    var last: nat := i + n - 1;
    assert places[last] == places[i] + (last - i) && Holds(m, places[last], 1) && Holds(m, places[i], 1);
  }

  /** What storing a run of n bytes one by one makes of one physical byte. */
  lemma {:induction false} RunAt(m: Memory, places: seq<nat>, data: seq<byte>, i: nat, n: nat, a: nat)
    requires |places| == |data| && i + n <= |data| && 0 < n && AllHeld(m, places)
    requires Consecutive(places, i, n) && Holds(m, a, 1)
    ensures At(StoreBytes(m, places, data, i + n), a)
            == if places[i] <= a < places[i] + n then data[i + (a - places[i])] else At(StoreBytes(m, places, data, i), a)
  {
    var last: nat := i + n - 1;
    assert places[last] == places[i] + (last - i);
    if n > 1 {
      RunAt(m, places, data, i, n - 1, a);
    }
  }

  /** A run of bytes stored at once, or one by one. */
  lemma WriteIsPokes(m: Memory, places: seq<nat>, data: seq<byte>, i: nat, n: nat)
    requires |places| == |data| && i + n <= |data| && n > 0 && AllHeld(m, places)
    requires Consecutive(places, i, n) && Holds(m, places[i], n)
    ensures WriteBytes(StoreBytes(m, places, data, i), places[i], data[i..i + n]) == StoreBytes(m, places, data, i + n)
  {
    var before, after := StoreBytes(m, places, data, i), StoreBytes(m, places, data, i + n);
    var written := WriteBytes(before, places[i], data[i..i + n]);
    forall k | 0 <= k < |m.bytes|
      ensures written.bytes[k] == after.bytes[k]
    {
      RunAt(m, places, data, i, n, m.base + k);
    }
  }

  // ----------------------------------------------------------------------
  // Settled walks: their bits are set, so translating again changes nothing
  // ----------------------------------------------------------------------

  predicate Settled(m: Memory, w: Walk) {
    w.Mapped? ==>
      && Holds(m, w.directory, 4) && Holds(m, w.table, 4)
      && Marked(At(m, w.directory), false) == At(m, w.directory)
      && Marked(At(m, w.table), true) == At(m, w.table)
  }

  lemma SettledTouch(m: Memory, w: Walk, writing: bool)
    requires Settled(m, w)
    ensures Touch(m, w, writing) == m
  {
    if w.Mapped? {
      MarkedTwice(At(m, w.table), true, writing);
      assert Mark(m, w.directory, false).bytes == m.bytes;
      assert Mark(m, w.table, writing).bytes == m.bytes;
    }
  }

  lemma BitsOf(b: byte)
    ensures IsAccessed(WithAccessed(b)) && IsDirty(WithDirty(b))
    ensures IsDirty(WithAccessed(b)) == IsDirty(b)
    ensures IsAccessed(WithDirty(b)) == IsAccessed(b)
  {
  }

  /** A byte with its bits set keeps them, and gains none, whatever is set again. */
  lemma MarkedTwice(b: byte, dirty: bool, again: bool)
    ensures Marked(b, dirty) == b && (again ==> dirty) ==> Marked(b, again) == b
    ensures Marked(b, dirty) == b ==> Marked(Marked(b, again), dirty) == Marked(b, again)
    ensures Marked(Marked(b, dirty), false) == Marked(b, dirty)
    ensures Marked(Marked(b, dirty), dirty) == Marked(b, dirty)
  {
    BitsOf(b);
    BitsOf(WithAccessed(b));
  }

  lemma MarkKeepsSettled(m: Memory, w: Walk, a: nat, dirty: bool)
    requires Settled(m, w) && Holds(m, a, 4)
    ensures Settled(Mark(m, a, dirty), w)
  {
    if w.Mapped? {
      MarkedTwice(At(m, w.directory), false, dirty);
      MarkedTwice(At(m, w.table), true, dirty);
    }
  }

  lemma TouchKeepsSettled(m: Memory, w: Walk, v: Walk, writing: bool)
    requires Settled(m, w) && (v.Mapped? ==> Holds(m, v.directory, 4) && Holds(m, v.table, 4))
    ensures Settled(Touch(m, v, writing), w)
  {
    if v.Mapped? {
      MarkKeepsSettled(m, w, v.directory, false);
      MarkKeepsSettled(Mark(m, v.directory, false), w, v.table, writing);
    }
  }

  lemma TouchSettles(m: Memory, w: Walk)
    requires w.Mapped? ==> Holds(m, w.directory, 4) && Holds(m, w.table, 4)
    ensures Settled(Touch(m, w, true), w)
  {
    if w.Mapped? {
      var d, t := At(m, w.directory), At(m, w.table);
      MarkedTwice(d, false, true);
      MarkedTwice(Marked(d, false), true, true);
      MarkedTwice(t, true, true);
    }
  }

  // ----------------------------------------------------------------------
  // Preflight
  // ----------------------------------------------------------------------

  predicate Ready(c: Control, m: Memory, address: nat, i: nat) {
    Writable(c, m, address, i) && Settled(m, WalkOf(c, m, address, i))
  }

  lemma TouchKeepsReady(c: Control, m: Memory, address: nat, i: nat, page: nat)
    requires Ready(c, m, address, i)
    ensures var w := WalkPage(c, m, page, true);
            && (w.Mapped? ==> Holds(m, w.directory, 4) && Holds(m, w.table, 4))
            && Ready(c, Touch(m, w, true), address, i)
  {
    hide WalkPage, OnlyAD, Settled;
    TouchIsOnlyAD(c, m, page, true);
    var w := WalkPage(c, m, page, true);
    WalksAgree(c, m, Touch(m, w, true), Linear(address, i) / PAGE, true);
    TouchKeepsSettled(m, WalkOf(c, m, address, i), w, true);
  }

  /** The chunk that a successful turn of the preflight has checked. */
  lemma ChunkReady(c: Control, s: Cpu, address: nat, i: nat, n: nat)
    requires n > 0 && Linear(address, i) % PAGE + n <= PAGE
    requires var (t, f) := Translate(c, s, Linear(address, i), true);
             f.Frame? && Holds(t.mem, f.physical, 1) && Holds(t.mem, f.physical + n - 1, 1)
    ensures var (t, f) := Translate(c, s, Linear(address, i), true);
            forall k | i <= k < i + n :: Ready(c, t.mem, address, k)
  {
    var (t, f) := Translate(c, s, Linear(address, i), true);
    var w := WalkOf(c, s.mem, address, i);
    TouchIsOnlyAD(c, s.mem, Linear(address, i) / PAGE, true);
    WalksAgree(c, s.mem, t.mem, Linear(address, i) / PAGE, true);
    TouchSettles(s.mem, w);
    forall k | i <= k < i + n
      ensures Ready(c, t.mem, address, k)
    {
      ChunkPlaces(c, t.mem, address, i, n, k - i);
    }
  }

  lemma {:induction false} PreflightKeepsReady(c: Control, s: Cpu, address: nat, size: nat, checked: nat, i: nat)
    requires checked <= size && Ready(c, s.mem, address, i)
    ensures Ready(c, Preflight(c, s, address, size, checked).0.mem, address, i)
    decreases size - checked
  {
    hide Ready, WalkPage, Mark, Chunk, Linear;
    if checked < size {
      var linear := Linear(address, checked);
      var n := Chunk(linear, size - checked);
      TouchKeepsReady(c, s.mem, address, i, linear / PAGE);
      var (t, f) := Translate(c, s, linear, true);
      if f.Frame? && Holds(t.mem, f.physical, 1) && Holds(t.mem, f.physical + n - 1, 1) {
        PreflightKeepsReady(c, t, address, size, checked + n, i);
      }
    }
  }

  lemma {:induction false} PreflightIsOnlyAD(c: Control, s: Cpu, address: nat, size: nat, checked: nat)
    requires checked <= size
    ensures OnlyAD(s.mem, Preflight(c, s, address, size, checked).0.mem)
    ensures var (t, status) := Preflight(c, s, address, size, checked);
            status == Ok ==> t.cr2 == s.cr2 && t.pending == s.pending
    decreases size - checked
  {
    hide OnlyAD, WalkPage, Mark, Chunk, Linear;
    SameAgrees(s.mem);
    if checked < size {
      var linear := Linear(address, checked);
      var n := Chunk(linear, size - checked);
      TouchIsOnlyAD(c, s.mem, linear / PAGE, true);
      var (t, f) := Translate(c, s, linear, true);
      if f.Frame? && Holds(t.mem, f.physical, 1) && Holds(t.mem, f.physical + n - 1, 1) {
        PreflightIsOnlyAD(c, t, address, size, checked + n);
        OnlyADTransitive(s.mem, t.mem, Preflight(c, t, address, size, checked + n).0.mem);
      }
    }
  }

  lemma ChunkStaysReady(c: Control, t: Cpu, address: nat, size: nat, from: nat, next: nat)
    requires next <= size && forall i | from <= i < next :: Ready(c, t.mem, address, i)
    ensures var later := Preflight(c, t, address, size, next).0.mem;
            forall i | from <= i < next :: Ready(c, later, address, i)
  {
    var later := Preflight(c, t, address, size, next).0.mem;
    forall i | from <= i < next
      ensures Ready(c, later, address, i)
    {
      PreflightKeepsReady(c, t, address, size, next, i);
    }
  }

  /** A preflight that succeeds leaves every byte ready. */
  lemma {:induction false} PreflightReadies(c: Control, s: Cpu, address: nat, size: nat, checked: nat)
    requires checked <= size && Preflight(c, s, address, size, checked).1 == Ok
    ensures forall i | checked <= i < size :: Ready(c, Preflight(c, s, address, size, checked).0.mem, address, i)
    decreases size - checked
  {
    if checked < size {
      var linear := Linear(address, checked);
      var n := Chunk(linear, size - checked);
      var (t, f) := Translate(c, s, linear, true);
      PreflightReadies(c, t, address, size, checked + n);
      ChunkReady(c, s, address, checked, n);
      ChunkStaysReady(c, t, address, size, checked, checked + n);
    }
  }

  /** A chunk whose first and last bytes are writable passes its turn of the preflight. */
  lemma ChunkProbes(c: Control, s: Cpu, address: nat, i: nat, n: nat)
    requires n > 0 && Linear(address, i) % PAGE + n <= PAGE
    requires Writable(c, s.mem, address, i) && Writable(c, s.mem, address, i + (n - 1))
    ensures var (t, f) := Translate(c, s, Linear(address, i), true);
            f.Frame? && Holds(t.mem, f.physical, 1) && Holds(t.mem, f.physical + n - 1, 1)
  {
    ChunkPlaces(c, s.mem, address, i, n, n - 1);
    TouchIsOnlyAD(c, s.mem, Linear(address, i) / PAGE, true);
  }

  /** A turn of the preflight, over bytes that are writable, goes on in a memory that agrees. */
  lemma PreflightTurn(c: Control, m: Memory, s: Cpu, address: nat, size: nat, checked: nat)
    requires checked < size && OnlyAD(m, s.mem) && AllWritable(c, m, address, size)
    ensures var n := Chunk(Linear(address, checked), size - checked);
            var (t, f) := Translate(c, s, Linear(address, checked), true);
            && f.Frame? && Holds(t.mem, f.physical, 1) && Holds(t.mem, f.physical + n - 1, 1)
            && OnlyAD(m, t.mem)
  {
    var linear := Linear(address, checked);
    var n := Chunk(linear, size - checked);
    WritableAgrees(c, m, s.mem, address, checked, size);
    WritableAgrees(c, m, s.mem, address, checked + (n - 1), size);
    ChunkProbes(c, s, address, checked, n);
    TouchIsOnlyAD(c, s.mem, linear / PAGE, true);
    OnlyADTransitive(m, s.mem, Translate(c, s, linear, true).0.mem);
  }

  /** A preflight fails only where some byte is not writable. */
  lemma {:induction false} PreflightSucceeds(c: Control, m: Memory, s: Cpu, address: nat, size: nat, checked: nat)
    requires checked <= size && OnlyAD(m, s.mem) && AllWritable(c, m, address, size)
    ensures Preflight(c, s, address, size, checked).1 == Ok
    decreases size - checked
  {
    if checked < size {
      PreflightTurn(c, m, s, address, size, checked);
      var n := Chunk(Linear(address, checked), size - checked);
      PreflightSucceeds(c, m, Translate(c, s, Linear(address, checked), true).0, address, size, checked + n);
    }
  }

  lemma WritableAgrees(c: Control, m: Memory, n: Memory, address: nat, i: nat, size: nat)
    requires OnlyAD(m, n) && AllWritable(c, m, address, size) && i < size
    ensures Writable(c, n, address, i)
  {
    assert Writable(c, m, address, i);
    WalksAgree(c, m, n, Linear(address, i) / PAGE, true);
  }

  // ----------------------------------------------------------------------
  // The write proper
  // ----------------------------------------------------------------------

  lemma WordElsewhere(m: Memory, a: nat, value: byte, entry: nat)
    requires Holds(m, a, 1) && Holds(m, entry, 4) && !(entry <= a < entry + 4)
    ensures Word(Poke(m, a, value), entry) == Word(m, entry) && At(Poke(m, a, value), entry) == At(m, entry)
  {
  }

  /** A store outside the entries of a walk does not change it. */
  lemma PokeElsewhere(c: Control, m: Memory, a: nat, value: byte, page: nat)
    requires Holds(m, a, 1) && Translates(WalkPage(c, m, page, true)) && !Uses(WalkPage(c, m, page, true), a)
    requires Settled(m, WalkPage(c, m, page, true))
    ensures WalkPage(c, Poke(m, a, value), page, true) == WalkPage(c, m, page, true)
    ensures Settled(Poke(m, a, value), WalkPage(c, m, page, true))
  {
    var w := WalkPage(c, m, page, true);
    if w.Mapped? {
      WordElsewhere(m, a, value, w.directory);
      WordElsewhere(m, a, value, w.table);
    }
  }

  lemma PokeKeepsReady(c: Control, m: Memory, address: nat, i: nat, a: nat, value: byte)
    requires Ready(c, m, address, i) && Holds(m, a, 1) && !Uses(WalkOf(c, m, address, i), a)
    ensures WalkOf(c, Poke(m, a, value), address, i) == WalkOf(c, m, address, i)
    ensures Ready(c, Poke(m, a, value), address, i)
  {
    PokeElsewhere(c, m, a, value, Linear(address, i) / PAGE);
  }

  /** From byte `from` on, every byte is ready at its place, and no place is in an entry that translates a later page. */
  predicate Steady(c: Control, m: Memory, address: nat, places: seq<nat>, from: nat) {
    && (forall i | from <= i < |places| :: Ready(c, m, address, i) && places[i] == Place(c, m, address, i))
    && (forall i, j | from <= i < |places| && from <= j < |places| && Later(address, i, j) :: !Uses(WalkOf(c, m, address, j), places[i]))
  }

  /** Storing bytes outside the entries of byte j leaves it ready. */
  lemma {:induction false} StoresSpare(c: Control, start: Memory, address: nat, places: seq<nat>, data: seq<byte>, done: nat, k: nat, j: nat)
    requires |places| == |data| && done <= k <= |data| && AllHeld(start, places)
    requires var m := StoreBytes(start, places, data, done);
             Ready(c, m, address, j) && forall i | done <= i < k :: !Uses(WalkOf(c, m, address, j), places[i])
    ensures var m, n := StoreBytes(start, places, data, done), StoreBytes(start, places, data, k);
            Ready(c, n, address, j) && WalkOf(c, n, address, j) == WalkOf(c, m, address, j)
    decreases k
  {
    hide Ready, Uses, WalkOf;
    if done < k {
      StoresSpare(c, start, address, places, data, done, k - 1, j);
      var n := StoreBytes(start, places, data, k - 1);
      assert Holds(start, places[k - 1], 1);
      PokeKeepsReady(c, n, address, j, places[k - 1], data[k - 1]);
    }
  }

  /** A chunk that does not end the write ends its page. */
  lemma ChunkEndsPage(address: nat, done: nat, left: nat)
    requires Chunk(Linear(address, done), left) < left
    ensures (address + done + Chunk(Linear(address, done), left)) % PAGE == 0
  {
    PageOffset(address, done);
    EndOfPage(address + done);
  }

  lemma PageOffset(address: nat, i: nat)
    ensures Linear(address, i) % PAGE == (address + i) % PAGE
  {
  }

  lemma EndOfPage(a: nat)
    ensures (a + (PAGE - a % PAGE)) % PAGE == 0
  {
  }

  lemma EarlierPage(a: nat, b: nat, c: nat)
    requires a < b <= c && b % PAGE == 0
    ensures a / PAGE < c / PAGE
  {
    assert b == b / PAGE * PAGE;
    assert c / PAGE >= b / PAGE;
  }

  /** The bytes of a chunk all come before those of later chunks, in earlier pages. */
  lemma ChunkIsEarlier(address: nat, size: nat, done: nat, i: nat, j: nat)
    requires done < size
    requires var end := done + Chunk(Linear(address, done), size - done); done <= i < end <= j < size
    ensures Later(address, i, j)
  {
    hide Chunk, Linear;
    var end := done + Chunk(Linear(address, done), size - done);
    ChunkEndsPage(address, done, size - done);
    EarlierPage(address + i, address + end, address + j);
  }

  /** After a chunk the rest of the write is steady. */
  lemma ChunkKeepsSteady(c: Control, start: Memory, address: nat, places: seq<nat>, data: seq<byte>, done: nat)
    requires |places| == |data| && done < |data| && AllHeld(start, places)
    requires Steady(c, StoreBytes(start, places, data, done), address, places, done)
    ensures var end := done + Chunk(Linear(address, done), |data| - done);
            Steady(c, StoreBytes(start, places, data, end), address, places, end)
  {
    hide Ready, Uses, WalkOf, Later, Chunk;
    var end := done + Chunk(Linear(address, done), |data| - done);
    var m, n := StoreBytes(start, places, data, done), StoreBytes(start, places, data, end);
    forall j | end <= j < |places|
      ensures Ready(c, n, address, j) && WalkOf(c, n, address, j) == WalkOf(c, m, address, j)
    {
      forall i | done <= i < end
        ensures !Uses(WalkOf(c, m, address, j), places[i])
      {
        ChunkIsEarlier(address, |data|, done, i, j);
      }
      StoresSpare(c, start, address, places, data, done, end, j);
    }
  }

  /** The next chunk of a steady write goes to its places, and its translation changes nothing. */
  lemma SteadyChunk(c: Control, s: Cpu, address: nat, places: seq<nat>, done: nat, n: nat)
    requires Steady(c, s.mem, address, places, done) && done + n <= |places| && n > 0
    requires Linear(address, done) % PAGE + n <= PAGE
    ensures Translate(c, s, Linear(address, done), true) == (s, Frame(places[done]))
    ensures Consecutive(places, done, n)
  {
    assert Ready(c, s.mem, address, done);
    SettledTouch(s.mem, WalkOf(c, s.mem, address, done), true);
    forall k | done <= k < done + n
      ensures places[k] == places[done] + (k - done)
    {
      assert Ready(c, s.mem, address, k);
      ChunkPlaces(c, s.mem, address, done, n, k - done);
    }
  }

  /** On steady memory the chunk loop stores every byte, and nothing else. */
  lemma {:induction false} ChunksStore(c: Control, s: Cpu, start: Memory, address: nat, places: seq<nat>, data: seq<byte>, done: nat)
    requires |places| == |data| && done <= |data| && AllHeld(start, places)
    requires s.mem == StoreBytes(start, places, data, done) && Steady(c, s.mem, address, places, done)
    ensures WriteChunks(c, s, address, data, done) == (s.(mem := StoreBytes(start, places, data, |data|)), Ok)
    decreases |data| - done
  {
    hide Steady, Translate, StoreBytes, Linear;
    if done < |data| {
      var n := Chunk(Linear(address, done), |data| - done);
      ChunkKeepsSteady(c, start, address, places, data, done);
      SteadyChunk(c, s, address, places, done, n);
      RunIsHeld(start, places, done, n);
      WriteIsPokes(start, places, data, done, n);
      ChunksStore(c, s.(mem := StoreBytes(start, places, data, done + n)), start, address, places, data, done + n);
    }
  }

  // ----------------------------------------------------------------------
  // All or nothing
  // ----------------------------------------------------------------------

  /** The places do not depend on accessed and dirty bits. */
  lemma PlacesAgree(c: Control, m: Memory, n: Memory, address: nat, size: nat)
    requires OnlyAD(m, n) && AllWritable(c, m, address, size)
    ensures AllWritable(c, n, address, size) && Places(c, n, address, size) == Places(c, m, address, size)
  {
    forall i | 0 <= i < size
      ensures WalkOf(c, n, address, i) == WalkOf(c, m, address, i) && Writable(c, n, address, i)
    {
      WalksAgree(c, m, n, Linear(address, i) / PAGE, true);
      assert Writable(c, m, address, i);
    }
    assert Places(c, n, address, size) == Places(c, m, address, size);
  }

  lemma WalksAgreeAt(c: Control, m: Memory, n: Memory, address: nat, size: nat, i: nat)
    requires OnlyAD(m, n) && AllWritable(c, m, address, size) && i < size
    ensures WalkOf(c, n, address, i) == WalkOf(c, m, address, i) && Translates(WalkOf(c, m, address, i))
    ensures Place(c, n, address, i) == Place(c, m, address, i)
  {
    hide WalkPage, OnlyAD;
    WalksAgree(c, m, n, Linear(address, i) / PAGE, true);
    assert Writable(c, m, address, i);
  }

  lemma ReadyIsSteady(c: Control, m: Memory, n: Memory, address: nat, size: nat)
    requires OnlyAD(m, n) && AllWritable(c, m, address, size) && SparesLater(c, m, address, size)
    requires forall i | 0 <= i < size :: Ready(c, n, address, i)
    ensures Steady(c, n, address, Places(c, m, address, size), 0)
  {
    hide Later, Uses, Ready, OnlyAD, WalkOf, Place, AllWritable, Translates;
    var places := Places(c, m, address, size);
    forall i | 0 <= i < size
      ensures places[i] == Place(c, n, address, i)
    {
      WalksAgreeAt(c, m, n, address, size, i);
    }
    forall i, j | 0 <= i < size && 0 <= j < size && Later(address, i, j)
      ensures !Uses(WalkOf(c, n, address, j), places[i])
    {
      WalksAgreeAt(c, m, n, address, size, i);
      WalksAgreeAt(c, m, n, address, size, j);
    }
  }

  lemma ReadyMeansWritable(c: Control, m: Memory, n: Memory, address: nat, size: nat)
    requires OnlyAD(m, n) && forall i | 0 <= i < size :: Ready(c, n, address, i)
    ensures AllWritable(c, m, address, size)
  {
    forall i | 0 <= i < size
      ensures Writable(c, m, address, i)
    {
      WalksAgree(c, m, n, Linear(address, i) / PAGE, true);
      assert Ready(c, n, address, i);
    }
  }

  /** Within one page, the interval of a chunk is writable exactly when its ends are. */
  lemma PageIsWritable(c: Control, s: Cpu, address: nat, n: nat)
    requires n > 0 && Linear(address, 0) % PAGE + n <= PAGE
    ensures var (t, f) := Translate(c, s, Linear(address, 0), true);
            && (AllWritable(c, s.mem, address, n) <==> f.Frame? && Holds(t.mem, f.physical, n))
            && (f.Frame? ==> t.cr2 == s.cr2 && t.pending == s.pending && Consecutive(Places(c, s.mem, address, n), 0, n)
                             && Places(c, s.mem, address, n)[0] == f.physical)
            && OnlyAD(s.mem, t.mem)
  {
    var (t, f) := Translate(c, s, Linear(address, 0), true);
    TouchIsOnlyAD(c, s.mem, Linear(address, 0) / PAGE, true);
    forall i | 0 <= i < n
      ensures WalkOf(c, s.mem, address, i) == WalkOf(c, s.mem, address, 0)
      ensures f.Frame? ==> Place(c, s.mem, address, i) == f.physical + i
    {
      ChunkPlaces(c, s.mem, address, 0, n, i);
    }
    if AllWritable(c, s.mem, address, n) {
      assert Writable(c, s.mem, address, 0) && Writable(c, s.mem, address, n - 1);
    }
  }

  /** The chunk loop on one chunk. */
  lemma OneChunk(c: Control, s: Cpu, address: nat, data: seq<byte>)
    requires data != [] && Linear(address, 0) % PAGE + |data| <= PAGE
    ensures var (t, f) := Translate(c, s, Linear(address, 0), true);
            WriteChunks(c, s, address, data, 0)
            == if f.Faulted? then (t, f.status)
               else if Holds(t.mem, f.physical, |data|) then (t.(mem := WriteBytes(t.mem, f.physical, data)), Ok)
               else (t.(cr2 := Linear(address, 0)), AddressFault)
  {
    assert data[0..0 + |data|] == data;
  }

  /** What a chunk writes is every byte of it at its own place. */
  lemma OneChunkStores(c: Control, s: Cpu, address: nat, data: seq<byte>)
    requires data != [] && Linear(address, 0) % PAGE + |data| <= PAGE
    requires AllWritable(c, s.mem, address, |data|)
    ensures var (t, f) := Translate(c, s, Linear(address, 0), true);
            f.Frame? && Holds(t.mem, f.physical, |data|) && Stored(c, s, address, data, t.(mem := WriteBytes(t.mem, f.physical, data)))
  {
    var n := |data|;
    PageIsWritable(c, s, address, n);
    var (t, f) := Translate(c, s, Linear(address, 0), true);
    var places := Places(c, s.mem, address, n);
    forall i | 0 <= i < n
      ensures Holds(t.mem, places[i], 1)
    {
      assert Writable(c, s.mem, address, i);
    }
    RunIsHeld(t.mem, places, 0, n);
    WriteIsPokes(t.mem, places, data, 0, n);
    assert data[0..n] == data;
    StoredWitness(c, s, address, data, t.mem, t.(mem := WriteBytes(t.mem, f.physical, data)));
  }

  /** A write within one page: one translation, then one store. */
  lemma WriteWithinPage(c: Control, s: Cpu, address: nat, data: seq<byte>)
    requires data != [] && Linear(address, 0) % PAGE + |data| <= PAGE
    ensures var (t, status) := WriteChunks(c, s, address, data, 0);
            && (status == Ok <==> AllWritable(c, s.mem, address, |data|))
            && (status != Ok ==> OnlyAD(s.mem, t.mem))
            && (status == Ok ==> Stored(c, s, address, data, t))
  {
    OneChunk(c, s, address, data);
    PageIsWritable(c, s, address, |data|);
    if AllWritable(c, s.mem, address, |data|) {
      OneChunkStores(c, s, address, data);
    }
  }

  /**
    t is s with every byte of data stored at its own place, besides accessed
    and dirty bits that were set before.
  */
  ghost predicate Stored(c: Control, s: Cpu, address: nat, data: seq<byte>, t: Cpu) {
    && AllWritable(c, s.mem, address, |data|)
    && t.cr2 == s.cr2 && t.pending == s.pending
    && exists marked: Memory :: StoredOver(c, s.mem, marked, address, data, t.mem)
  }

  predicate StoredOver(c: Control, m: Memory, marked: Memory, address: nat, data: seq<byte>, n: Memory)
  {
    && OnlyAD(m, marked)
    && AllHeld(marked, Places(c, m, address, |data|))
    && n == StoreBytes(marked, Places(c, m, address, |data|), data, |data|)
  }

  lemma StoredWitness(c: Control, s: Cpu, address: nat, data: seq<byte>, marked: Memory, t: Cpu)
    requires AllWritable(c, s.mem, address, |data|) && OnlyAD(s.mem, marked)
    requires AllHeld(marked, Places(c, s.mem, address, |data|))
    requires t == s.(mem := StoreBytes(marked, Places(c, s.mem, address, |data|), data, |data|))
    ensures Stored(c, s, address, data, t)
  {
    assert StoredOver(c, s.mem, marked, address, data, t.mem);
  }

  lemma OnePage(address: nat, size: nat)
    requires 0 < size <= TWO_32 - PAGE && !Crosses(address, size)
    ensures Linear(address, 0) % PAGE + size <= PAGE
  {
    var l := Linear(address, 0);
    assert Linear(address, size - 1) == if l + size - 1 < TWO_32 then l + size - 1 else l + size - 1 - TWO_32;
  }

  /** A write succeeds exactly when every byte is writable, and then stores them all; otherwise it stores none. */
  ghost predicate AllOrNothing(c: Control, s: Cpu, address: nat, data: seq<byte>) {
    var (t, status) := GuestWrite(c, s, address, data);
    && (status == Ok <==> AllWritable(c, s.mem, address, |data|))
    && (status != Ok ==> OnlyAD(s.mem, t.mem))
    && (status == Ok ==> Stored(c, s, address, data, t))
  }

  lemma CrossingWrite(c: Control, s: Cpu, address: nat, data: seq<byte>)
    requires Crosses(address, |data|)
    requires AllWritable(c, s.mem, address, |data|) ==> SparesLater(c, s.mem, address, |data|)
    ensures AllOrNothing(c, s, address, data)
  {
    hide Ready, Steady, SparesLater, OnlyAD, Linear, Writable, Preflight;
    var size := |data|;
    var (t, status) := Preflight(c, s, address, size, 0);
    PreflightIsOnlyAD(c, s, address, size, 0);
    if status == Ok {
      PreflightReadies(c, s, address, size, 0);
      ReadyMeansWritable(c, s.mem, t.mem, address, size);
      ReadyIsSteady(c, s.mem, t.mem, address, size);
      var places := Places(c, s.mem, address, size);
      PlacesHeld(c, s.mem, t.mem, address, size);
      ChunksStore(c, t, t.mem, address, places, data, 0);
      StoredWitness(c, s, address, data, t.mem, t.(mem := StoreBytes(t.mem, places, data, size)));
    } else if AllWritable(c, s.mem, address, size) {
      PreflightSucceeds(c, s.mem, s, address, size, 0);
    }
  }

  lemma PlacesHeld(c: Control, m: Memory, n: Memory, address: nat, size: nat)
    requires AllWritable(c, m, address, size) && OnlyAD(m, n)
    ensures AllHeld(n, Places(c, m, address, size))
  {
    forall i | 0 <= i < size
      ensures Holds(n, Places(c, m, address, size)[i], 1)
    {
      assert Writable(c, m, address, i);
    }
  }

  /**
    Paged writes are all-or-nothing.  A guest write none of whose bytes is in an
    entry that translates a later page of it succeeds exactly when each of its
    bytes is writable on its own, and then stores every byte at its own
    translation; otherwise it changes accessed and dirty bits, CR2 and the pending
    error code at most.  (A write within one page needs no such condition.)
  */
  lemma WritesAreAllOrNothing(c: Control, s: Cpu, address: nat, data: seq<byte>)
    requires |data| <= TWO_32 - PAGE
    requires Crosses(address, |data|) && AllWritable(c, s.mem, address, |data|) ==> SparesLater(c, s.mem, address, |data|)
    ensures AllOrNothing(c, s, address, data)
  {
    if data == [] {
      StoredWitness(c, s, address, data, s.mem, s);
    } else if Crosses(address, |data|) {
      CrossingWrite(c, s, address, data);
    } else {
      OnePage(address, |data|);
      WriteWithinPage(c, s, address, data);
    }
  }

  // ----------------------------------------------------------------------
  // The condition is needed
  // ----------------------------------------------------------------------

  /**
    Two pages of memory from address 0: a directory whose first entry names the
    second page as a table, and in it the last two entries, which map the table
    itself and the directory.
  */
  predicate Overlapping(m: Memory) {
    m.base == 0 && |m.bytes| == 0x2000 && forall i | 0 <= i < 0x2000 :: m.bytes[i] == OverlapByte(i)
  }

  function OverlapByte(i: nat): byte {
    if i == 0 || i == 0x1ff8 || i == 0x1ffc then 1 else if i == 1 || i == 0x1ff9 then 0x10 else 0
  }

  const PAGED := Control(true, false, true, 0, false)

  lemma OverlapEntries()
    ensures IsPresent(0x1001) && !IsLarge(0x1001) && PageBase(0x1001) == 0x1000
    ensures IsPresent(1) && PageBase(1) == 0 && !IsPresent(0)
    ensures forall page | page == 0x3fe || page == 0x3ff :: DirectoryEntry(PAGED, page) == 0
    ensures TableEntry(PAGED, 0x1001, 0x3fe) == 0x1ff8 && TableEntry(PAGED, 0x1001, 0x3ff) == 0x1ffc
  {
  }

  lemma OverlapWords(m: Memory)
    requires Overlapping(m)
    ensures Holds(m, 0, 4) && Holds(m, 0x1ff8, 4) && Holds(m, 0x1ffc, 4)
    ensures Word(m, 0) == 0x1001 && Word(m, 0x1ff8) == 0x1001 && Word(m, 0x1ffc) == 1
  {
  }

  lemma OverlapWalks(m: Memory, n: Memory)
    requires Overlapping(m) && OnlyAD(m, n)
    ensures WalkPage(PAGED, n, 0x3fe, true) == Mapped(0, 0x1ff8, 0x1000)
    ensures WalkPage(PAGED, n, 0x3ff, true) == Mapped(0, 0x1ffc, 0)
  {
    OverlapEntries();
    OverlapWords(m);
    WalksAgree(PAGED, m, n, 0x3fe, true);
    WalksAgree(PAGED, m, n, 0x3ff, true);
  }

  /** Once its entry is zero the last page is gone. */
  lemma OverlapLost(o: Memory, m: Memory, n: Memory)
    requires Overlapping(o) && OnlyAD(o, m) && n.base == 0 && Holds(n, 0, 4) && Holds(n, 0x1ffc, 4)
    requires Word(n, 0) == Word(m, 0) && Word(n, 0x1ffc) == 0
    ensures WalkPage(PAGED, n, 0x3ff, true) == NotPresent
  {
    OverlapEntries();
    OverlapWords(o);
    WordsAgree(o, m, 0);
    assert TableEntry(PAGED, Word(n, 0), 0x3ff) == TableEntry(PAGED, 0x1001, 0x3ff);
  }

  /** Five bytes across the boundary of the two pages, over the entry that maps the second. */
  predicate Torn(c: Control, m: Memory, address: nat, data: seq<byte>) {
    c == PAGED && Overlapping(m) && address == 0x3feffc && data == [0, 0, 0, 0, 7]
  }

  lemma TornPages(c: Control, m: Memory, n: Memory, address: nat, data: seq<byte>, i: nat)
    requires Torn(c, m, address, data) && OnlyAD(m, n) && i < 5
    ensures Linear(address, i) == 0x3feffc + i
    ensures WalkOf(c, n, address, i) == if i < 4 then Mapped(0, 0x1ff8, 0x1000) else Mapped(0, 0x1ffc, 0)
    ensures Place(c, n, address, i) == if i < 4 then 0x1ffc + i else 0
  {
    hide OnlyAD, Overlapping, WalkPage, Linear;
    OverlapWalks(m, n);
    TornLinear(address, i);
  }

  lemma TornLinear(address: nat, i: nat)
    requires address == 0x3feffc && i < 5
    ensures Linear(address, i) == 0x3feffc + i
    ensures Linear(address, i) / PAGE == (if i < 4 then 0x3fe else 0x3ff) && Linear(address, i) % PAGE == if i < 4 then 0xffc + i else 0
  {
    ModuloUnique(0x3feffc + i, 0, 0x3feffc + i, TWO_32);
    ModuloUnique(0x3feffc + i, if i < 4 then 0x3fe else 0x3ff, if i < 4 then 0xffc + i else 0, PAGE);
  }

  lemma TornIsWritable(c: Control, m: Memory, address: nat, data: seq<byte>)
    requires Torn(c, m, address, data)
    ensures AllWritable(c, m, address, 5) && Crosses(address, 5) && !Avoids(c, m, address, 5)
  {
    forall i | 0 <= i < 5
      ensures Writable(c, m, address, i)
    {
      TornPages(c, m, m, address, data, i);
    }
    TornPages(c, m, m, address, data, 0);
    TornPages(c, m, m, address, data, 4);
    assert Uses(WalkOf(c, m, address, 4), Place(c, m, address, 0));
  }

  lemma TornPokes(o: Memory, m: Memory, n: Memory, data: seq<byte>)
    requires Overlapping(o) && OnlyAD(o, m) && |data| == 5 && data[..4] == [0, 0, 0, 0] && Holds(m, 0x1ffc, 4) && n == WriteBytes(m, 0x1ffc, data[0..4])
    ensures WalkPage(PAGED, n, 0x3ff, true) == NotPresent && At(n, 0x1ffc) == 0
  {
    var zeros := data[0..4];
    assert zeros == [0, 0, 0, 0];
    WrittenAt(m, 0x1ffc, zeros, 0);
    WrittenAt(m, 0x1ffc, zeros, 1);
    WrittenAt(m, 0x1ffc, zeros, 2);
    WrittenAt(m, 0x1ffc, zeros, 3);
    WrittenAt(m, 0x1ffc, zeros, 0x1ffc);
    WrittenAt(m, 0x1ffc, zeros, 0x1ffd);
    WrittenAt(m, 0x1ffc, zeros, 0x1ffe);
    WrittenAt(m, 0x1ffc, zeros, 0x1fff);
    OverlapLost(o, m, n);
  }

  lemma WrittenAt(m: Memory, a: nat, data: seq<byte>, x: nat)
    requires Holds(m, a, |data|) && Holds(m, x, 1)
    ensures At(WriteBytes(m, a, data), x) == if a <= x < a + |data| then data[x - a] else At(m, x)
  {
  }

  lemma ChunkStores(c: Control, s: Cpu, address: nat, data: seq<byte>, done: nat, n: nat, physical: nat)
    requires done < |data| && n == Chunk(Linear(address, done), |data| - done)
    requires Translate(c, s, Linear(address, done), true) == (s, Frame(physical)) && Holds(s.mem, physical, n)
    ensures WriteChunks(c, s, address, data, done)
            == WriteChunks(c, s.(mem := WriteBytes(s.mem, physical, data[done..done + n])), address, data, done + n)
  {
  }

  lemma ChunkFaults(c: Control, s: Cpu, address: nat, data: seq<byte>, done: nat)
    requires done < |data| && Translate(c, s, Linear(address, done), true).1.Faulted?
    ensures var (t, f) := Translate(c, s, Linear(address, done), true);
            WriteChunks(c, s, address, data, done) == (t, f.status)
  {
  }

  lemma TornFirst(c: Control, m: Memory, t: Cpu, address: nat, data: seq<byte>)
    requires Torn(c, m, address, data) && OnlyAD(m, t.mem) && Ready(c, t.mem, address, 0)
    ensures Translate(c, t, Linear(address, 0), true) == (t, Frame(0x1ffc)) && Holds(t.mem, 0x1ffc, 4)
    ensures Chunk(Linear(address, 0), 5) == 4
  {
    TornPages(c, m, t.mem, address, data, 0);
    SettledTouch(t.mem, WalkOf(c, t.mem, address, 0), true);
  }

  lemma TornSecond(c: Control, m: Memory, u: Cpu, address: nat, data: seq<byte>)
    requires Torn(c, m, address, data) && WalkPage(PAGED, u.mem, 0x3ff, true) == NotPresent
    ensures var (v, f) := Translate(c, u, Linear(address, 4), true);
            f == Faulted(AddressFault) && v.mem == u.mem
  {
    assert Linear(address, 4) == 0x3ff000;
    assert Linear(address, 4) / PAGE == 0x3ff;
  }

  /** After the preflight the first chunk erases the entry of the second. */
  lemma SecondChunkFaults(c: Control, m: Memory, t: Cpu, address: nat, data: seq<byte>)
    requires Torn(c, m, address, data) && OnlyAD(m, t.mem) && Ready(c, t.mem, address, 0)
    ensures var (u, status) := WriteChunks(c, t, address, data, 0);
            status == AddressFault && Holds(u.mem, 0x1ffc, 1) && At(u.mem, 0x1ffc) == 0
  {
    TornFirst(c, m, t, address, data);
    var u := t.(mem := WriteBytes(t.mem, 0x1ffc, data[0..4]));
    ChunkStores(c, t, address, data, 0, 4, 0x1ffc);
    TornPokes(m, t.mem, u.mem, data);
    TornSecond(c, m, u, address, data);
    ChunkFaults(c, u, address, data, 4);
  }

  /**
    A write over its own page tables is torn: each of the five bytes is writable
    on its own, but the first four erase the entry that translates the last.
  */
  lemma TornWrite(c: Control, s: Cpu, address: nat, data: seq<byte>)
    requires Torn(c, s.mem, address, data)
    ensures var (t, status) := GuestWrite(c, s, address, data);
            && AllWritable(c, s.mem, address, 5) && !Avoids(c, s.mem, address, 5)
            && status == AddressFault && !OnlyAD(s.mem, t.mem)
  {
    TornIsWritable(c, s.mem, address, data);
    PreflightSucceeds(c, s.mem, s, address, 5, 0);
    PreflightIsOnlyAD(c, s, address, 5, 0);
    PreflightReadies(c, s, address, 5, 0);
    var t := Preflight(c, s, address, 5, 0).0;
    SecondChunkFaults(c, s.mem, t, address, data);
    ErasedIsNotAD(s.mem, WriteChunks(c, t, address, data, 0).0.mem);
  }

  lemma ErasedIsNotAD(m: Memory, n: Memory)
    requires Overlapping(m) && Holds(n, 0x1ffc, 1) && At(n, 0x1ffc) == 0
    ensures !OnlyAD(m, n)
  {
    assert m.bytes[0x1ffc] == 1;
  }
}

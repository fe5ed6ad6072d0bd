/**
  Reads of linear memory whose bytes are known and lie apart from the paging
  entries that translate them: they deliver those bytes and leave them known.
*/
module X86Picture {
  import opened Wrappers
  import opened GuestMemory
  import opened X86Paging
  import opened X86GuestWrites
  import opened X86ReadBack

  function ReadingWalk(c: Control, m: Memory, l: nat): Walk {
    WalkPage(c, m, l / PAGE, false)
  }

  /** The physical address a read of a linear address goes to. */
  function Spot(c: Control, m: Memory, l: nat): nat {
    var w := ReadingWalk(c, m, l);
    if Translates(w) then w.frame + l % PAGE else 0
  }

  /** The byte at a linear address, if a read would deliver it. */
  function Peek(c: Control, m: Memory, l: nat): Option<byte> {
    if Translates(ReadingWalk(c, m, l)) && Holds(m, Spot(c, m, l), 1) then Some(At(m, Spot(c, m, l))) else None
  }

  predicate Shows(c: Control, m: Memory, view: map<nat, byte>) {
    forall l | l in view :: Peek(c, m, l) == Some(view[l])
  }

  /** No byte of the view is part of an entry that translates the view. */
  predicate Apart(c: Control, m: Memory, view: map<nat, byte>) {
    forall k, l | k in view && l in view :: !Uses(ReadingWalk(c, m, k), Spot(c, m, l))
  }

  predicate Pictured(c: Control, m: Memory, view: map<nat, byte>) {
    Shows(c, m, view) && Apart(c, m, view)
  }

  predicate InView(view: map<nat, byte>, address: nat, size: nat) {
    forall i | 0 <= i < size :: Linear(address, i) in view
  }

  function Spelled(view: map<nat, byte>, address: nat, size: nat): (b: seq<byte>)
    requires InView(view, address, size)
    ensures |b| == size && forall i | 0 <= i < size :: b[i] == view[Linear(address, i)]
  {
    seq(size, i requires 0 <= i < size => view[Linear(address, i)])
  }

  lemma TouchKeepsByte(m: Memory, w: Walk, a: nat)
    requires w.Mapped? ==> Holds(m, w.directory, 4) && Holds(m, w.table, 4)
    requires Holds(m, a, 1) && !Uses(w, a)
    ensures At(Touch(m, w, false), a) == At(m, a)
  {
  }

  /** Translating an address of the view keeps the picture. */
  lemma TouchKeepsPicture(c: Control, m: Memory, view: map<nat, byte>, k: nat)
    requires Pictured(c, m, view) && k in view
    ensures var w := ReadingWalk(c, m, k);
            && (w.Mapped? ==> Holds(m, w.directory, 4) && Holds(m, w.table, 4))
            && Pictured(c, Touch(m, w, false), view) && OnlyAD(m, Touch(m, w, false))
  {
    var w := ReadingWalk(c, m, k);
    TouchIsOnlyAD(c, m, k / PAGE, false);
    var n := Touch(m, w, false);
    forall l | l in view
      ensures ReadingWalk(c, n, l) == ReadingWalk(c, m, l) && Spot(c, n, l) == Spot(c, m, l)
      ensures Peek(c, n, l) == Some(view[l])
    {
      WalksAgree(c, m, n, l / PAGE, false);
      assert Peek(c, m, l) == Some(view[l]);
      TouchKeepsByte(m, w, Spot(c, m, l));
    }
  }

  /** One byte of a chunk, which lies in one page. */
  lemma ByteOfChunk(c: Control, m: Memory, view: map<nat, byte>, address: nat, got: nat, n: nat, k: nat)
    requires Shows(c, m, view) && Linear(address, got) % PAGE + n <= PAGE && k < n
    requires Linear(address, got) in view && Linear(address, got + k) in view
    ensures var a := Spot(c, m, Linear(address, got)) + k;
            Holds(m, a, 1) && At(m, a) == view[Linear(address, got + k)]
  {
    ChunkIsOnePage(address, got, n, k);
    assert Peek(c, m, Linear(address, got)).Some?;
    assert Peek(c, m, Linear(address, got + k)) == Some(view[Linear(address, got + k)]);
  }

  lemma SliceOfMemory(m: Memory, a: nat, data: seq<byte>)
    requires data != [] && forall i | a <= i < a + |data| :: Holds(m, i, 1) && At(m, i) == data[i - a]
    ensures Holds(m, a, |data|) && ReadBytes(m, a, |data|) == data
  {
    var last: nat := a + |data| - 1;
    assert Holds(m, last, 1) && Holds(m, a, 1);
    forall k | 0 <= k < |data|
      ensures ReadBytes(m, a, |data|)[k] == data[k]
    {
      var i: nat := a + k;
      assert At(m, i) == data[i - a];
    }
  }

  lemma ChunkOfMemory(c: Control, m: Memory, view: map<nat, byte>, address: nat, size: nat, got: nat, n: nat)
    requires Shows(c, m, view) && InView(view, address, size)
    requires 0 < n && got + n <= size && Linear(address, got) % PAGE + n <= PAGE
    ensures var a := Spot(c, m, Linear(address, got));
            Holds(m, a, n) && ReadBytes(m, a, n) == Spelled(view, address, size)[got..got + n]
  {
    var a := Spot(c, m, Linear(address, got));
    var data := Spelled(view, address, size)[got..got + n];
    assert Linear(address, got) in view;
    forall i | a <= i < a + |data|
      ensures Holds(m, i, 1) && At(m, i) == data[i - a]
    {
      assert Linear(address, got + (i - a)) in view;
      ByteOfChunk(c, m, view, address, got, n, i - a);
    }
    SliceOfMemory(m, a, data);
  }

  /** t is s after reads that kept the picture. */
  predicate Seen(c: Control, s: Cpu, view: map<nat, byte>, t: Cpu) {
    Pictured(c, t.mem, view) && t == s.(mem := t.mem) && OnlyAD(s.mem, t.mem)
  }

  lemma TranslateView(c: Control, s: Cpu, view: map<nat, byte>, l: nat)
    requires Pictured(c, s.mem, view) && l in view
    ensures var (t, f) := Translate(c, s, l, false);
            f == Frame(Spot(c, t.mem, l)) && Seen(c, s, view, t)
  {
    hide WalkPage;
    assert Peek(c, s.mem, l) == Some(view[l]);
    TouchKeepsPicture(c, s.mem, view, l);
    WalksAgree(c, s.mem, Translate(c, s, l, false).0.mem, l / PAGE, false);
  }

  /** One chunk of a read. */
  lemma ChunkOfView(c: Control, s: Cpu, view: map<nat, byte>, address: nat, size: nat, got: nat, n: nat)
    requires Pictured(c, s.mem, view) && InView(view, address, size)
    requires 0 < n && got + n <= size && Linear(address, got) % PAGE + n <= PAGE
    ensures var (t, f) := Translate(c, s, Linear(address, got), false);
            && f.Frame? && Holds(t.mem, f.physical, n) && ReadBytes(t.mem, f.physical, n) == Spelled(view, address, size)[got..got + n]
            && Seen(c, s, view, t)
  {
    assert Linear(address, got) in view;
    TranslateView(c, s, view, Linear(address, got));
    ChunkOfMemory(c, Translate(c, s, Linear(address, got), false).0.mem, view, address, size, got, n);
  }

  predicate Delivers(c: Control, s: Cpu, view: map<nat, byte>, data: seq<byte>, r: Reading) {
    r.status == Ok && r.data == data && Seen(c, s, view, r.cpu)
  }

  lemma DeliversLater(c: Control, s: Cpu, view: map<nat, byte>, t: Cpu, data: seq<byte>, r: Reading)
    requires Seen(c, s, view, t) && Delivers(c, t, view, data, r)
    ensures Delivers(c, s, view, data, r)
  {
    OnlyADTransitive(s.mem, t.mem, r.cpu.mem);
  }

  lemma {:induction false} ChunksOfView(c: Control, s: Cpu, view: map<nat, byte>, address: nat, size: nat, data: seq<byte>, got: seq<byte>)
    requires Pictured(c, s.mem, view) && InView(view, address, size)
    requires data == Spelled(view, address, size) && got <= data
    ensures Delivers(c, s, view, data, ReadChunks(c, s, address, size, got))
    decreases size - |got|
  {
    hide WalkPage;
    if |got| < size {
      var n := Chunk(Linear(address, |got|), size - |got|);
      ChunkOfView(c, s, view, address, size, |got|, n);
      var t := Translate(c, s, Linear(address, |got|), false).0;
      var part := data[|got|..|got| + n];
      ReadTurn(c, s, address, size, got, part);
      ChunksOfView(c, t, view, address, size, data, got + part);
      DeliversLater(c, s, view, t, data, ReadChunks(c, t, address, size, got + part));
    }
  }

  /** A read of known bytes delivers them, and changes accessed bits at most. */
  lemma ReadsView(c: Control, s: Cpu, view: map<nat, byte>, address: nat, size: nat)
    requires Pictured(c, s.mem, view) && InView(view, address, size)
    ensures Delivers(c, s, view, Spelled(view, address, size), GuestRead(c, s, address, size))
  {
    ChunksOfView(c, s, view, address, size, Spelled(view, address, size), []);
  }

  /** Any read changes accessed bits only. */
  lemma {:induction false} ReadIsOnlyAD(c: Control, s: Cpu, address: nat, size: nat, got: seq<byte>)
    requires |got| <= size
    ensures OnlyAD(s.mem, ReadChunks(c, s, address, size, got).cpu.mem)
    decreases size - |got|
  {
    if |got| < size {
      var linear := Linear(address, |got|);
      var n := Chunk(linear, size - |got|);
      TouchIsOnlyAD(c, s.mem, linear / PAGE, false);
      var (t, f) := Translate(c, s, linear, false);
      if f.Frame? && Holds(t.mem, f.physical, n) {
        var more := got + ReadBytes(t.mem, f.physical, n);
        ReadIsOnlyAD(c, t, address, size, more);
        OnlyADTransitive(s.mem, t.mem, ReadChunks(c, t, address, size, more).cpu.mem);
      }
    }
  }

  /** What a write has left in place, a later read sees. */
  lemma HeldDataShows(c: Control, m: Memory, address: nat, data: seq<byte>, i: nat)
    requires HoldsData(c, m, address, data) && i < |data|
    ensures Peek(c, m, Linear(address, i)) == Some(data[i])
  {
    assert Ready(c, m, address, i);
    ReadWalk(c, m, Linear(address, i) / PAGE);
  }
}

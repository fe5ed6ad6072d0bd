/**
  Interrupt gates and IRET undo each other (src/xxemul_x86.c, lines 619-787):
  entering a handler through a 32-bit gate and then executing IRETD, with the
  frame and the descriptors untouched, restores the interrupted state.
*/
module X86RoundTrip {
  import opened Arithmetic
  import opened Wrappers
  import opened GuestMemory
  import opened X86Paging
  import opened X86GuestWrites
  import opened X86ReadBack
  import opened X86Picture
  import opened X86Gates

  // ----------------------------------------------------------------------
  // Words on the stack
  // ----------------------------------------------------------------------

  lemma Word32(v: nat, b: seq<byte>, i: nat)
    requires v < TWO_32 && i + 4 <= |b| && b[i..i + 4] == Put32(v)
    ensures U32(b, i) == v
  {
    var part := b[i..i + 4];
    assert b[i] == part[0] && b[i + 1] == part[1] && b[i + 2] == part[2] && b[i + 3] == part[3];
    assert v / 0x100_0000 % 0x100 == v / 0x100_0000;
    assert v / 0x1_0000 == 0x100 * (v / 0x100_0000) + v / 0x1_0000 % 0x100;
    assert v / 0x100 == 0x100 * (v / 0x1_0000) + v / 0x100 % 0x100;
  }

  /** The three words IRETD pops for any return. */
  lemma FrameWords(b: seq<byte>, was: X86, resume: nat, switched: bool)
    requires resume < TWO_32 && was.cs < TWO_16
    requires 12 <= |b| && ReturnFrame(was, 4, resume, switched)[..12] == b[..12]
    ensures Get(4, b, 0) == resume && Get(4, b, 4) == was.cs && Get(4, b, 8) == was.flags % TWO_32
  {
    var f := b[..12];
    assert b[0..4] == f[0..4] == Put32(resume);
    assert b[4..8] == f[4..8] == Put32(was.cs);
    assert b[8..12] == f[8..12] == Put32(was.flags % TWO_32);
    Word32(resume, b, 0);
    Word32(was.cs, b, 4);
    Word32(was.flags % TWO_32, b, 8);
  }

  lemma OuterWords(was: X86, resume: nat)
    requires was.ss < TWO_16
    ensures var b := ReturnFrame(was, 4, resume, true);
            |b| == 20 && Get(4, b, 12) == was.rsp % TWO_32 && Get(4, b, 16) == was.ss
  {
    var b := ReturnFrame(was, 4, resume, true);
    assert b[12..16] == Put32(was.rsp % TWO_32) && b[16..20] == Put32(was.ss);
    Word32(was.rsp % TWO_32, b, 12);
    Word32(was.ss, b, 16);
  }

  // ----------------------------------------------------------------------
  // IRETD over a known stack
  // ----------------------------------------------------------------------

  /** The view holds a selector's descriptor, and it loads as s. */
  predicate Describes(t: Tables, view: map<nat, byte>, selector: nat, code: bool, s: Segment) {
    var at := DescriptorAddress(t, selector);
    && at.Some? && InView(view, at.value, 8)
    && SegmentOf(Spelled(view, at.value, 8)) == s && Loadable(s, code)
  }

  lemma DecodesView(x: X86, s: Cpu, view: map<nat, byte>, code: bool, selector: nat, segment: Segment)
    requires x.protectedMode && Pictured(x.control, s.mem, view) && Describes(x.tables, view, selector, code, segment)
    ensures var r := DecodeSegment(x, s, code, selector);
            r.Done? && r.value == segment && Seen(x.control, s, view, r.cpu)
  {
    ReadsView(x.control, s, view, DescriptorAddress(x.tables, selector).value, 8);
  }

  lemma FetchesView(x: X86, s: Cpu, view: map<nat, byte>, address: nat, size: nat)
    requires Pictured(x.control, s.mem, view) && InView(view, address, size)
    ensures var r := Read(x, s, address, size);
            r.Done? && r.value == Spelled(view, address, size) && Seen(x.control, s, view, r.cpu)
  {
    ReadsView(x.control, s, view, address, size);
  }

  /** The interrupted code may be returned to. */
  predicate Interrupted(was: X86, resume: nat) {
    && was.protectedMode && was.cs < TWO_16 && was.ss < TWO_16 && resume < TWO_32 && !HasVM(was.flags)
    && (if Conforming(was.csCache) then Dpl(was.csCache) <= Rpl(was.cs) else Dpl(was.csCache) == Rpl(was.cs))
    && resume <= was.csCache.limit
  }

  predicate Switched(was: X86, x: X86) {
    Rpl(x.cs) < Rpl(was.cs)
  }

  /** The stack of x has the frame of was on top, and the view holds it. */
  predicate OnStack(was: X86, x: X86, resume: nat, view: map<nat, byte>) {
    var frame := ReturnFrame(was, 4, resume, Switched(was, x));
    var at := StackAddress(x.ssCache, Masked(x.ssCache, x.rsp), |frame|);
    at.Some? && InView(view, at.value, |frame|) && Spelled(view, at.value, |frame|) == frame
  }

  /** The cached CS of was agrees with its descriptor, and so does SS if it must be reloaded. */
  predicate CachesAgree(was: X86, x: X86, resume: nat, view: map<nat, byte>) {
    && Describes(was.tables, view, was.cs, true, was.csCache)
    && InView(view, (was.csCache.base + resume) % TWO_32, 1)
    && (Switched(was, x) ==>
          && Describes(was.tables, view, was.ss, false, was.ssCache)
          && Rpl(was.ss) == Rpl(was.cs) && Dpl(was.ssCache) == Rpl(was.cs))
  }

  lemma PopReturnStep(x: X86, a: nat, t: Cpu, b: seq<byte>)
    requires !HasNT(x.flags) && !HasVM(x.flags)
    requires StackAddress(x.ssCache, Masked(x.ssCache, x.rsp), 12) == Some(a)
    requires Read(x, x.cpu, a, 12) == Done(t, b) && |b| == 12
    ensures PopReturn(x, 4) == Done(t, Popped(Get(4, b, 0), Get(4, b, 4) % TWO_16, Get(4, b, 8)))
  {
    hide Read, Get, Masked, StackAddress;
  }

  lemma PopsReturn(was: X86, x: X86, resume: nat, view: map<nat, byte>)
    requires Interrupted(was, resume) && OnStack(was, x, resume, view) && Pictured(x.control, x.cpu.mem, view)
    requires !HasNT(x.flags) && !HasVM(x.flags)
    ensures var r := PopReturn(x, 4);
            r.Done? && r.value == Popped(resume, was.cs, was.flags % TWO_32) && Pictured(x.control, r.cpu.mem, view)
  {
    hide GuestRead, WalkPage, Get, HasNT, HasVM;
    var frame := ReturnFrame(was, 4, resume, Switched(was, x));
    assert |frame| == if Switched(was, x) then 20 else 12;
    var a := StackAddress(x.ssCache, Masked(x.ssCache, x.rsp), |frame|).value;
    FetchesView(x, x.cpu, view, a, 12);
    var b := Spelled(view, a, 12);
    assert b == Spelled(view, a, |frame|)[..12];
    FrameWords(b, was, resume, Switched(was, x));
    PopReturnStep(x, a, Read(x, x.cpu, a, 12).cpu, b);
  }

  lemma PopStackStep(x: X86, s: Cpu, cpl: nat, a: nat, t: Cpu, b: seq<byte>, u: Cpu, selector: nat, cache: Segment)
    requires cpl > Rpl(x.cs) && StackAddress(x.ssCache, Masked(x.ssCache, x.rsp), 20) == Some(a)
    requires Read(x, s, a, 20) == Done(t, b) && |b| == 20
    requires Get(4, b, 16) == selector < TWO_16 && Rpl(selector) == cpl == Dpl(cache)
    requires DecodeSegment(x, t, false, selector) == Done(u, cache)
    ensures PopStack(x, s, 4, cpl) == Done(u, Some(Outer(selector, cache, Get(4, b, 12))))
  {
    hide Read, Get, Masked, StackAddress, DecodeSegment, Rpl, Dpl;
  }

  lemma PopsStack(was: X86, x: X86, s: Cpu, resume: nat, view: map<nat, byte>)
    requires Interrupted(was, resume) && OnStack(was, x, resume, view) && Pictured(x.control, s.mem, view)
    requires Rpl(x.cs) <= Rpl(was.cs) && x.protectedMode && x.tables == was.tables && CachesAgree(was, x, resume, view)
    ensures var r := PopStack(x, s, 4, Rpl(was.cs));
            r.Done? && Pictured(x.control, r.cpu.mem, view) && r.value == OuterOf(was, x)
  {
    hide GuestRead, WalkPage, SegmentOf;
    if Switched(was, x) {
      OuterWords(was, resume);
      var b := ReturnFrame(was, 4, resume, true);
      var a := StackAddress(x.ssCache, Masked(x.ssCache, x.rsp), |b|).value;
      FetchesView(x, s, view, a, |b|);
      var t := Read(x, s, a, |b|).cpu;
      DecodesView(x, t, view, false, was.ss, was.ssCache);
      PopStackStep(x, s, Rpl(was.cs), a, t, b, DecodeSegment(x, t, false, was.ss).cpu, was.ss, was.ssCache);
    }
  }

  lemma PopCodeStep(x: X86, s: Cpu, p: Popped, t: Cpu, code: Segment, u: Cpu, b: seq<byte>)
    requires DecodeSegment(x, s, true, p.cs) == Done(t, code)
    requires (if Conforming(code) then Dpl(code) <= Rpl(p.cs) else Dpl(code) == Rpl(p.cs)) && p.offset <= code.limit
    requires Read(x, t, (code.base + p.offset) % TWO_32, 1) == Done(u, b)
    ensures PopCode(x, s, p) == Done(u, code)
  {
    hide Read, DecodeSegment, Conforming, Rpl, Dpl;
  }

  lemma PopsCode(was: X86, x: X86, s: Cpu, resume: nat, view: map<nat, byte>)
    requires Interrupted(was, resume) && Pictured(x.control, s.mem, view)
    requires x.protectedMode && x.tables == was.tables && CachesAgree(was, x, resume, view)
    ensures var r := PopCode(x, s, Popped(resume, was.cs, was.flags % TWO_32));
            r.Done? && r.value == was.csCache && Pictured(x.control, r.cpu.mem, view)
  {
    hide GuestRead, WalkPage, SegmentOf;
    DecodesView(x, s, view, true, was.cs, was.csCache);
    var t := DecodeSegment(x, s, true, was.cs).cpu;
    var a := (was.csCache.base + resume) % TWO_32;
    FetchesView(x, t, view, a, 1);
    PopCodeStep(x, s, Popped(resume, was.cs, was.flags % TWO_32), t, was.csCache, Read(x, t, a, 1).cpu, Read(x, t, a, 1).value);
  }

  /** The outer stack after a switch. */
  function OuterOf(was: X86, x: X86): Option<Outer> {
    if Switched(was, x) then Some(Outer(was.ss, was.ssCache, was.rsp % TWO_32)) else None
  }

  lemma VmOfLowWord(f: nat)
    ensures HasVM(f % TWO_32) == HasVM(f)
  {
    var q: nat, r: nat := f / TWO_32, f % TWO_32;
    assert f / 0x2_0000 == q * 0x8000 + r / 0x2_0000;
    assert q * 0x8000 == 2 * (q * 0x4000);
  }

  /** What IRETD does when the frame and the descriptors are as the gate left them. */
  lemma IretReturns(was: X86, x: X86, resume: nat, view: map<nat, byte>) returns (s: Cpu)
    requires Interrupted(was, resume) && OnStack(was, x, resume, view) && Pictured(x.control, x.cpu.mem, view)
    requires !HasNT(x.flags) && !HasVM(x.flags)
    requires Rpl(x.cs) <= Rpl(was.cs) && x.protectedMode && x.tables == was.tables && CachesAgree(was, x, resume, view)
    ensures ProtectedIret(x, 4)
            == Entering(Returned(x, s, 4, Popped(resume, was.cs, was.flags % TWO_32), OuterOf(was, x), was.csCache), resume)
    ensures Pictured(x.control, s.mem, view)
  {
    var p := Popped(resume, was.cs, was.flags % TWO_32);
    PopsReturn(was, x, resume, view);
    var r := PopReturn(x, 4);
    PopsStack(was, x, r.cpu, resume, view);
    var t := PopStack(x, r.cpu, 4, Rpl(was.cs)).cpu;
    PopsCode(was, x, t, resume, view);
    s := PopCode(x, t, p).cpu;
    VmOfLowWord(was.flags);
  }

  // ----------------------------------------------------------------------
  // What comes back of the flags and the stack pointer
  // ----------------------------------------------------------------------

  /**
    The level of the handler may keep the interrupted IOPL from coming back,
    and above the IOPL the interrupt flag too.
  */
  predicate FlagsSurvive(was: X86, x: X86) {
    || Rpl(x.cs) == 0
    || (IOPL(x.flags) == IOPL(was.flags) && (Rpl(x.cs) > IOPL(x.flags) ==> HasIF(x.flags) == HasIF(was.flags)))
  }

  lemma FlagParts(f: nat)
    ensures IOPL(f) * 0x1000 <= f && (HasIF(f) ==> f >= 0x200)
    ensures forall k: nat | k < 4 :: HasIF(f - IOPL(f) * 0x1000 + k * 0x1000) == HasIF(f)
  {
    IoplPart(f);
    InterruptPart(f);
    hide IOPL, HasIF;
    var low: nat := f - IOPL(f) * 0x1000;
    InterruptBelow(low, IOPL(f));
    forall k: nat | k < 4
      ensures HasIF(low + k * 0x1000) == HasIF(f)
    {
      InterruptBelow(low, k);
    }
  }

  lemma IoplPart(f: nat)
    ensures IOPL(f) * 0x1000 <= f
  {
    NaturalQuotient(f, 0x1000);
    NaturalQuotient(f / 0x1000, 4);
  }

  lemma InterruptPart(f: nat)
    ensures HasIF(f) ==> f >= 0x200
  {
  }

  /** The interrupt flag is below the IOPL. */
  lemma InterruptBelow(low: nat, k: nat)
    ensures HasIF(low + k * 0x1000) == HasIF(low)
  {
    NaturalQuotient(low, 0x200);
    ModuloUnique(low + k * 0x1000, low / 0x200 + 8 * k, low % 0x200, 0x200);
    ModuloOf(low / 0x200, 4 * k, 2);
  }

  lemma ReservedTwice(f: nat, g: int)
    requires f / 2 % 2 == 1 && g >= 0 && (g == f || g >= f + 0x200 || g + 0x200 <= f)
    ensures WithReserved(g) == f <==> g == f
  {
  }

  lemma FlagsRestored(was: X86, x: X86)
    requires was.flags < TWO_32 && was.flags / 2 % 2 == 1
    ensures WithReserved(MergedFlags(x, 4, was.flags % TWO_32)) == was.flags <==> FlagsSurvive(was, x)
  {
    var f := was.flags;
    assert f % TWO_32 == f;
    FlagParts(f);
    hide HasIF, IOPL, WithReserved, Rpl;
    var k := IOPL(x.flags);
    var g := if Rpl(x.cs) != 0 then f - IOPL(f) * 0x1000 + k * 0x1000 else f;
    assert HasIF(g) == HasIF(f);
    ReservedTwice(f, MergedFlags(x, 4, f));
  }

  lemma StackRestored(s: Segment, rsp: nat, size: nat)
    ensures Masked(s, Masked(s, rsp % TWO_32 - size) + size) == Masked(s, rsp)
  {
    var m := if IsBig(s) then TWO_32 else TWO_16;
    var v := rsp % TWO_32 - size;
    assert v == v / m * m + v % m;
    assert rsp == rsp / TWO_32 * TWO_32 + rsp % TWO_32;
    var k := rsp / TWO_32 * (TWO_32 / m);
    assert rsp == v % m + size + (v / m + k) * m;
    SameResidue(rsp, v % m + size, v / m + k, IsBig(s));
  }

  lemma SameResidue(a: int, b: int, k: int, big: bool)
    requires a == b + k * if big then TWO_32 else TWO_16
    ensures big ==> a % TWO_32 == b % TWO_32
    ensures !big ==> a % TWO_16 == b % TWO_16
  {
    if big {
      ModuloOf(b, k, TWO_32);
    } else {
      ModuloOf(b, k, TWO_16);
    }
  }

  // ----------------------------------------------------------------------
  // Before the frame is pushed, memory changes in accessed and dirty bits only
  // ----------------------------------------------------------------------

  lemma ReadKeeps(x: X86, s: Cpu, address: nat, size: nat)
    ensures OnlyAD(s.mem, Read(x, s, address, size).cpu.mem)
  {
    hide WalkPage;
    ReadIsOnlyAD(x.control, s, address, size, []);
  }

  lemma DecodeKeeps(x: X86, s: Cpu, code: bool, selector: nat)
    ensures OnlyAD(s.mem, DecodeSegment(x, s, code, selector).cpu.mem)
  {
    hide Read, SegmentOf, Loadable, OnlyAD;
    assert OnlyAD(s.mem, s.mem) by { SameAgrees(s.mem); }
    if x.protectedMode && DescriptorAddress(x.tables, selector).Some? {
      ReadKeeps(x, s, DescriptorAddress(x.tables, selector).value, 8);
    }
  }

  lemma {:induction false} PreflightWriteKeeps(c: Control, s: Cpu, address: nat, size: nat, done: nat)
    requires done <= size
    ensures OnlyAD(s.mem, PreflightWrite(c, s, address, size, done).0.mem)
    decreases size - done
  {
    hide WalkPage;
    if done < size {
      var linear := Linear(address, done);
      var n := Chunk(linear, size - done);
      TouchIsOnlyAD(c, s.mem, linear / PAGE, true);
      var (t, f) := Translate(c, s, linear, true);
      if f.Frame? && Holds(t.mem, f.physical + n - 1, 1) {
        PreflightWriteKeeps(c, t, address, size, done + n);
        OnlyADTransitive(s.mem, t.mem, PreflightWrite(c, t, address, size, done + n).0.mem);
      }
    }
  }

  lemma FetchGateKeeps(x: X86, vector: nat, hardware: bool)
    ensures OnlyAD(x.cpu.mem, FetchGate(x, vector, hardware).cpu.mem)
  {
    hide Read, OnlyAD, Rpl;
    SameAgrees(x.cpu.mem);
    ReadKeeps(x, x.cpu, x.tables.idtBase + vector * 8, 8);
  }

  lemma EnterCodeKeeps(x: X86, s: Cpu, g: Gate)
    ensures OnlyAD(s.mem, EnterCode(x, s, g).cpu.mem)
  {
    hide Read, OnlyAD, DecodeSegment, Rpl, Dpl, Conforming;
    DecodeKeeps(x, s, true, g.selector);
    var d := DecodeSegment(x, s, true, g.selector);
    if d.Done? {
      var a := (d.value.base + g.offset) % TWO_32;
      ReadKeeps(x, d.cpu, a, 1);
      OnlyADTransitive(s.mem, d.cpu.mem, Read(x, d.cpu, a, 1).cpu.mem);
    }
  }

  lemma EnterStackKeeps(x: X86, s: Cpu, cpl: nat)
    ensures OnlyAD(s.mem, EnterStack(x, s, cpl).cpu.mem)
  {
    hide Read, OnlyAD, DecodeSegment, Rpl, Dpl, Masked;
    SameAgrees(s.mem);
    var a := (x.tables.taskBase + 4 + 8 * cpl) % TWO_32;
    ReadKeeps(x, s, a, 6);
    var r := Read(x, s, a, 6);
    if r.Done? && |r.value| == 6 {
      DecodeKeeps(x, r.cpu, false, U16(r.value, 4));
      OnlyADTransitive(s.mem, r.cpu.mem, DecodeSegment(x, r.cpu, false, U16(r.value, 4)).cpu.mem);
    }
  }

  // ----------------------------------------------------------------------
  // The push
  // ----------------------------------------------------------------------

  lemma AvoidsAgrees(c: Control, m: Memory, n: Memory, address: nat, size: nat)
    requires OnlyAD(m, n) && Avoids(c, m, address, size)
    ensures Avoids(c, n, address, size)
  {
    hide WalkPage;
    forall i | 0 <= i < size
      ensures WalkOf(c, n, address, i) == WalkOf(c, m, address, i) && Place(c, n, address, i) == Place(c, m, address, i)
    {
      WalksAgree(c, m, n, Linear(address, i) / PAGE, true);
    }
  }

  /** Where a frame of a handler's stack pointer starts. */
  function FrameAddress(s: Segment, offset: nat): nat {
    (s.base + offset) % TWO_32
  }

  /** A pushed frame is in memory; one that is refused leaves memory as it was, but for accessed and dirty bits. */
  lemma PushOutcome(x: X86, before: Memory, s: Cpu, stack: Stack, frame: seq<byte>)
    requires OnlyAD(before, s.mem) && |frame| <= 24
    requires var offset := Masked(stack.cache, stack.offset - |frame|);
             Avoids(x.control, before, FrameAddress(stack.cache, offset), |frame|)
    ensures var r := PushFrame(x, s, stack, frame);
            var offset := Masked(stack.cache, stack.offset - |frame|);
            && (r.Failed? ==> OnlyAD(before, r.cpu.mem))
            && (r.Done? ==>
                  && r.value == offset && StackAddress(stack.cache, offset, |frame|).Some?
                  && HoldsData(x.control, r.cpu.mem, FrameAddress(stack.cache, offset), frame))
  {
    hide OnlyAD, Avoids, SparesLater, HoldsData, Masked, Stored, WalkPage, Translate, AllWritable, Linear, Crosses;
    var offset := Masked(stack.cache, stack.offset - |frame|);
    var a := FrameAddress(stack.cache, offset);
    PreflightWriteKeeps(x.control, s, a, |frame|, 0);
    var t := PreflightWrite(x.control, s, a, |frame|, 0).0;
    OnlyADTransitive(before, s.mem, t.mem);
    AvoidsAgrees(x.control, before, t.mem, a, |frame|);
    AvoidsSpares(x.control, t.mem, a, |frame|);
    WritesAreAllOrNothing(x.control, t, a, frame);
    var (u, status) := GuestWrite(x.control, t, a, frame);
    if status == Ok {
      ReadsBack(x.control, t, a, frame);
    } else {
      OnlyADTransitive(before, t.mem, u.mem);
    }
  }

  lemma PrepareKeeps(x: X86, vector: nat, hardware: bool)
    ensures OnlyAD(x.cpu.mem, Prepare(x, vector, hardware).cpu.mem)
  {
    hide OnlyAD, FetchGate, EnterCode, EnterStack;
    FetchGateKeeps(x, vector, hardware);
    var r := FetchGate(x, vector, hardware);
    if r.Done? {
      EnterCodeKeeps(x, r.cpu, r.value);
      var d := EnterCode(x, r.cpu, r.value);
      OnlyADTransitive(x.cpu.mem, r.cpu.mem, d.cpu.mem);
      if d.Done? {
        EnterStackKeeps(x, d.cpu, d.value.1);
        OnlyADTransitive(x.cpu.mem, d.cpu.mem, EnterStack(x, d.cpu, d.value.1).cpu.mem);
      }
    }
  }

  /** The frame of a gate, wherever it goes, is no part of the entries that translate it. */
  predicate FrameAvoidsTables(x: X86, vector: nat, resume: nat, error: Option<nat>) {
    var r := Prepare(x, vector, error.Some?);
    r.Done? ==>
      var frame, stack := FrameOfEntry(x, r.value, resume, error), r.value.stack;
      Avoids(x.control, x.cpu.mem, FrameAddress(stack.cache, Masked(stack.cache, stack.offset - |frame|)), |frame|)
  }

  /**
    A gate that is refused, at whatever stage, leaves every register as it was
    and memory too, but for accessed and dirty bits; one that is entered has its
    frame on the handler's stack.
  */
  lemma GateOutcome(x: X86, vector: nat, resume: nat, error: Option<nat>)
    requires FrameAvoidsTables(x, vector, resume, error)
    ensures var r := InterruptGate(x, vector, resume, error);
            && (r.Refused? ==> OnlyAD(x.cpu.mem, r.cpu.mem))
            && (r.Entering? ==>
                  var e := Prepare(x, vector, error.Some?).value;
                  var frame := FrameOfEntry(x, e, resume, error);
                  && r == Entering(Entered(x, r.x.cpu, e.gate, e.code, e.cpl, e.stack, r.x.rsp), e.gate.offset)
                  && r.x.rsp == Masked(e.stack.cache, e.stack.offset - |frame|)
                  && StackAddress(e.stack.cache, r.x.rsp, |frame|).Some?
                  && HoldsData(x.control, r.x.cpu.mem, FrameAddress(e.stack.cache, r.x.rsp), frame))
  {
    hide OnlyAD, Prepare, PushFrame, Avoids, HoldsData, Masked, StackAddress;
    var r := Prepare(x, vector, error.Some?);
    PrepareKeeps(x, vector, error.Some?);
    if r.Done? {
      PushOutcome(x, x.cpu.mem, r.cpu, r.value.stack, FrameOfEntry(x, r.value, resume, error));
    }
  }

  // ----------------------------------------------------------------------
  // The round trip
  // ----------------------------------------------------------------------

  /** The registers a caller finds consistent between instructions. */
  predicate Settled32(was: X86) {
    && was.flags < TWO_32 && was.flags / 2 % 2 == 1
    && was.mode32 == IsBig(was.csCache) && was.control.user == (Rpl(was.cs) != 0)
  }

  /** x is back at the IRET of a handler entered as `entered`: only what IRET needs is as it was, and an error code has been popped. */
  predicate AtIret(entered: X86, x: X86, error: Option<nat>) {
    && x.cs == entered.cs && x.ss == entered.ss && x.ssCache == entered.ssCache
    && x.tables == entered.tables && x.protectedMode
    && !HasNT(x.flags) && !HasVM(x.flags)
    && Masked(x.ssCache, x.rsp) == entered.rsp + if error.Some? then 4 else 0
  }

  lemma PeekIgnoresUser(c: Control, m: Memory, l: nat, user: bool)
    ensures Peek(c.(user := user), m, l) == Peek(c, m, l)
  {
    hide A20, PageBase, Holds, Word, IsPresent, IsLarge, IsWritable;
    var d, page := c.(user := user), l / PAGE;
    assert forall a: nat :: A20(d, a) == A20(c, a) by { A20IgnoresUser(c, user); }
    assert ReadingWalk(d, m, l) == ReadingWalk(c, m, l);
  }

  lemma A20IgnoresUser(c: Control, user: bool)
    ensures forall a: nat :: A20(c.(user := user), a) == A20(c, a)
  {
  }

  /** A view that the handler found in memory spells the frame. */
  lemma ViewSpells(c: Control, m: Memory, user: bool, view: map<nat, byte>, address: nat, frame: seq<byte>)
    requires HoldsData(c, m, address, frame) && Shows(c.(user := user), m, view) && InView(view, address, |frame|)
    ensures Spelled(view, address, |frame|) == frame
  {
    hide HoldsData, Peek, Linear;
    forall i | 0 <= i < |frame|
      ensures Spelled(view, address, |frame|)[i] == frame[i]
    {
      HeldDataShows(c, m, address, frame, i);
      PeekIgnoresUser(c, m, Linear(address, i), user);
      assert Linear(address, i) in view;
    }
  }

  /** Past an error code, the rest of the frame. */
  lemma ViewPast(s: Segment, offset: nat, k: nat, view: map<nat, byte>, frame: seq<byte>)
    requires k <= |frame| && InView(view, FrameAddress(s, offset), |frame|)
    requires Spelled(view, FrameAddress(s, offset), |frame|) == frame
    ensures InView(view, FrameAddress(s, offset + k), |frame| - k)
    ensures Spelled(view, FrameAddress(s, offset + k), |frame| - k) == frame[k..]
  {
    var a, past := FrameAddress(s, offset), FrameAddress(s, offset + k);
    forall i | 0 <= i < |frame| - k
      ensures Linear(past, i) in view && view[Linear(past, i)] == frame[k..][i]
    {
      LinearPast(s.base + offset, k, i);
      assert Linear(a, k + i) in view && frame[k + i] == view[Linear(a, k + i)];
    }
  }

  lemma LinearPast(a: nat, k: nat, i: nat)
    ensures Linear((a + k) % TWO_32, i) == Linear(a % TWO_32, k + i)
  {
  }

  lemma RplOfEntered(selector: nat, cpl: nat)
    requires cpl < 4
    ensures Rpl(selector / 4 * 4 + cpl) == cpl
  {
  }

  lemma CplOfEntry(x: X86, vector: nat, hardware: bool)
    requires Prepare(x, vector, hardware).Done?
    ensures var e := Prepare(x, vector, hardware).value;
            && e.cpl <= Rpl(x.cs) && e.cpl < 4
            && (e.cpl == Rpl(x.cs) ==> e.stack == Stack(x.ss, x.ssCache, x.rsp % TWO_32))
  {
    hide Read, DecodeSegment, FetchGate, Conforming, U16, U32;
  }

  /** The stack at the IRET has the frame on top. */
  lemma FrameOnStack(was: X86, x: X86, cache: Segment, offset: nat, resume: nat, error: Option<nat>, view: map<nat, byte>)
    requires var frame := GateFrame(was, 4, resume, Switched(was, x), error);
             && x.ssCache == cache && StackAddress(cache, offset, |frame|).Some?
             && InView(view, FrameAddress(cache, offset), |frame|) && Spelled(view, FrameAddress(cache, offset), |frame|) == frame
    requires Masked(x.ssCache, x.rsp) == offset + if error.Some? then 4 else 0
    ensures OnStack(was, x, resume, view)
  {
    hide Linear, Masked, Rpl;
    var frame := GateFrame(was, 4, resume, Switched(was, x), error);
    var k := if error.Some? then 4 else 0;
    ViewPast(cache, offset, k, view, frame);
    assert frame[k..] == ReturnFrame(was, 4, resume, Switched(was, x));
  }

  /** At the IRET the frame is on top of the stack, and the levels and the stack are as the gate chose them. */
  lemma EnteredOnStack(was: X86, vector: nat, resume: nat, error: Option<nat>, x: X86, view: map<nat, byte>)
    requires FrameAvoidsTables(was, vector, resume, error) && InterruptGate(was, vector, resume, error).Entering?
    requires Prepare(was, vector, error.Some?).Done? && Prepare(was, vector, error.Some?).value.gate.width == 4
    requires var entered := InterruptGate(was, vector, resume, error).x;
             && AtIret(entered, x, error) && Shows(entered.control, entered.cpu.mem, view)
             && InView(view, FrameAddress(entered.ssCache, entered.rsp), |FrameOfEntry(was, Prepare(was, vector, error.Some?).value, resume, error)|)
    ensures OnStack(was, x, resume, view) && Rpl(x.cs) <= Rpl(was.cs) && x.tables == was.tables
    ensures !Switched(was, x) ==>
              && x.ss == was.ss && x.ssCache == was.ssCache
              && Masked(x.ssCache, Masked(x.ssCache, x.rsp) + 12) == Masked(was.ssCache, was.rsp)
  {
    hide Prepare, HoldsData, Shows, Linear, Masked, StackAddress, Rpl, HasNT, HasVM, IsBig;
    GateOutcome(was, vector, resume, error);
    var entered := InterruptGate(was, vector, resume, error).x;
    var e := Prepare(was, vector, error.Some?).value;
    CplOfEntry(was, vector, error.Some?);
    RplOfEntered(e.gate.selector, e.cpl);
    var frame := FrameOfEntry(was, e, resume, error);
    ViewSpells(was.control, entered.cpu.mem, entered.control.user, view, FrameAddress(e.stack.cache, entered.rsp), frame);
    FrameOnStack(was, x, e.stack.cache, entered.rsp, resume, error, view);
    StackRestored(was.ssCache, was.rsp, |frame|);
  }

  /**
    Gate and IRET.  Entering a handler through a 32-bit gate and then executing
    IRETD restores CS, the instruction pointer, SS, their caches, the mode and
    the privilege of memory accesses; the stack pointer, modulo the stack mask
    when no stack switch took place; and the flags, exactly when the levels
    allow it, as they always do at ring 0.  The handler may do anything in
    between that leaves the stack, the frame and the descriptors as they were.
  */
  lemma GateThenIret(was: X86, vector: nat, resume: nat, error: Option<nat>, x: X86, view: map<nat, byte>)
    requires FrameAvoidsTables(was, vector, resume, error) && InterruptGate(was, vector, resume, error).Entering?
    requires Prepare(was, vector, error.Some?).Done? && Prepare(was, vector, error.Some?).value.gate.width == 4
    requires Interrupted(was, resume) && Settled32(was)
    requires var entered := InterruptGate(was, vector, resume, error).x;
             && AtIret(entered, x, error)
             && Shows(entered.control, entered.cpu.mem, view) && Pictured(x.control, x.cpu.mem, view)
             && InView(view, FrameAddress(entered.ssCache, entered.rsp), |FrameOfEntry(was, Prepare(was, vector, error.Some?).value, resume, error)|)
    requires CachesAgree(was, x, resume, view)
    ensures var r := ProtectedIret(x, 4);
            && r.Entering? && r.target == resume
            && r.x == x.(
                 cpu := r.x.cpu, control := x.control.(user := was.control.user),
                 cs := was.cs, csCache := was.csCache, ss := was.ss, ssCache := was.ssCache, mode32 := was.mode32,
                 rsp := if Switched(was, x) then was.rsp % TWO_32 else Masked(was.ssCache, was.rsp),
                 flags := r.x.flags)
            && (r.x.flags == was.flags <==> FlagsSurvive(was, x))
  {
    hide InterruptGate, Prepare, Shows, Apart, Masked, OnStack, Rpl, ProtectedIret, Describes, HasNT, HasVM, IsBig,
      Conforming, Dpl, WithReserved, MergedFlags, FlagsSurvive;
    EnteredOnStack(was, vector, resume, error, x, view);
    var s := IretReturns(was, x, resume, view);
    FlagsRestored(was, x);
  }

  // ----------------------------------------------------------------------
  // A handler that does nothing
  // ----------------------------------------------------------------------

  /** Dropping the lowest digit of an odd quotient leaves its halves alone. */
  lemma ClearedAbove(f: nat, p: nat, k: nat)
    requires p > 0 && k > 0 && f / p % 2 == 1
    ensures f >= p && (f - p) / p % 2 == 0 && (f - p) / (p * (2 * k)) == f / (p * (2 * k))
  {
    var q, low := f / p, f % p;
    assert f == q * p + low;
    ModuloUnique(f - p, q - 1, low, p);
    var h, j := q / 2 / k, q / 2 % k;
    assert q == (2 * k) * h + (2 * j + 1);
    var rest := (2 * j + 1) * p + low;
    assert rest < (2 * k) * p by {
      assert (2 * j + 2) * p <= (2 * k) * p;
    }
    assert f == h * (p * (2 * k)) + rest;
    ModuloUnique(f, h, rest, p * (2 * k));
    ModuloUnique(f - p, h, rest - p, p * (2 * k));
  }

  lemma ClearedBelow(f: nat, p: nat, k: nat)
    requires p > 0 && f >= p * (2 * k)
    ensures (f - p * (2 * k)) / p % 2 == f / p % 2
  {
    var q := f / p;
    assert f - p * (2 * k) == (q - 2 * k) * p + f % p;
    ModuloUnique(f - p * (2 * k), q - 2 * k, f % p, p);
  }

  lemma ClearsIF(f: nat)
    ensures var g := WithoutIF(f); !HasIF(g) && IOPL(g) == IOPL(f) && HasVM(g) == HasVM(f)
  {
    if HasIF(f) {
      ClearedAbove(f, 0x200, 4);
      ClearedAbove(f, 0x200, 0x80);
    }
  }

  lemma ClearsTF(f: nat)
    ensures var g := WithoutTF(f); HasIF(g) == HasIF(f) && IOPL(g) == IOPL(f) && HasVM(g) == HasVM(f)
  {
    if HasTF(f) {
      ClearedAbove(f, 0x100, 1);
      ClearedAbove(f, 0x100, 8);
      ClearedAbove(f, 0x100, 0x100);
    }
  }

  lemma IoplBelow(f: nat, k: nat)
    requires f >= 0x4000 * k
    ensures IOPL(f - 0x4000 * k) == IOPL(f)
  {
    assert (f - 0x4000 * k) / 0x1000 == f / 0x1000 - 4 * k;
  }

  lemma ClearsNT(f: nat)
    ensures var g := WithoutNT(f); !HasNT(g) && HasIF(g) == HasIF(f) && IOPL(g) == IOPL(f) && HasVM(g) == HasVM(f)
  {
    if HasNT(f) {
      ClearedAbove(f, 0x4000, 4);
      ClearedBelow(f, 0x200, 0x10);
      IoplBelow(f, 1);
    }
  }

  lemma ClearsRF(f: nat)
    ensures var g := WithoutRF(f); HasNT(g) == HasNT(f) && HasIF(g) == HasIF(f) && IOPL(g) == IOPL(f) && HasVM(g) == HasVM(f)
  {
    if HasRF(f) {
      ClearedAbove(f, 0x1_0000, 1);
      ClearedBelow(f, 0x4000, 2);
      ClearedBelow(f, 0x200, 0x40);
      IoplBelow(f, 4);
    }
  }

  lemma FlagsInHandler(f: nat)
    ensures var g := WithoutRF(WithoutNT(WithoutTF(WithoutIF(f))));
            !HasNT(g) && !HasIF(g) && IOPL(g) == IOPL(f) && HasVM(g) == HasVM(f)
  {
    hide HasIF, HasNT, HasVM, IOPL;
    ClearsIF(f);
    ClearsTF(WithoutIF(f));
    ClearsNT(WithoutTF(WithoutIF(f)));
    ClearsRF(WithoutNT(WithoutTF(WithoutIF(f))));
  }

  /**
    An IRETD that is the first instruction of the handler undoes the gate; only
    a handler outside ring 0 and above the IOPL loses an interrupt flag that was
    set.
  */
  lemma IretUndoesGate(was: X86, vector: nat, resume: nat, view: map<nat, byte>)
    requires FrameAvoidsTables(was, vector, resume, None) && InterruptGate(was, vector, resume, None).Entering?
    requires Prepare(was, vector, false).Done? && Prepare(was, vector, false).value.gate.width == 4
    requires Interrupted(was, resume) && Settled32(was) && was.rsp == Masked(was.ssCache, was.rsp)
    requires var entered := InterruptGate(was, vector, resume, None).x;
             && Pictured(entered.control, entered.cpu.mem, view) && CachesAgree(was, entered, resume, view)
             && InView(view, FrameAddress(entered.ssCache, entered.rsp), |FrameOfEntry(was, Prepare(was, vector, false).value, resume, None)|)
    ensures var entered := InterruptGate(was, vector, resume, None).x;
            var r := ProtectedIret(entered, 4);
            && r.Entering? && r.target == resume && r.x == was.(cpu := r.x.cpu, flags := r.x.flags)
            && (r.x.flags == was.flags
                <==> Rpl(entered.cs) == 0 || Rpl(entered.cs) <= IOPL(was.flags) || !HasIF(was.flags))
  {
    hide Prepare, HoldsData, Apart, Linear, StackAddress, Rpl, ProtectedIret, Describes, HasNT, HasVM, HasIF, IOPL, IsBig,
      Conforming, Dpl, WithReserved, MergedFlags, WithoutIF, WithoutTF, WithoutNT, WithoutRF;
    GateOutcome(was, vector, resume, None);
    FlagsInHandler(was.flags);
    var entered := InterruptGate(was, vector, resume, None).x;
    MaskedTwice(entered.ssCache, Prepare(was, vector, false).value.stack.offset - |FrameOfEntry(was, Prepare(was, vector, false).value, resume, None)|);
    MaskedWord(was.ssCache, was.rsp);
    GateThenIret(was, vector, resume, None, entered, view);
  }

  lemma MaskedTwice(s: Segment, v: int)
    ensures Masked(s, Masked(s, v)) == Masked(s, v)
  {
  }

  lemma MaskedWord(s: Segment, v: nat)
    requires v == Masked(s, v)
    ensures v % TWO_32 == v
  {
  }
}

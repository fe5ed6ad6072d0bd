/**
  The emulator object as interrupt gates and IRET change it: the methods behind
  the functions of X86Gates (src/xxemul_x86.c, lines 289-351 and 547-787).
  Registers are committed only after every access has succeeded.
*/
module X86Machine {
  import opened Wrappers
  import opened GuestMemory
  import opened X86Paging
  import opened X86Guest
  import opened X86Gates

  class Machine {
    const guest: Guest
    var protectedMode: bool
    var tables: Tables
    var cs: nat
    var ss: nat
    var csCache: Segment
    var ssCache: Segment
    var rsp: nat
    var flags: nat
    var mode32: bool

    ghost function State(): X86
      reads this, guest, guest.regionData
    {
      X86(guest.State(), guest.control, protectedMode, tables, cs, ss, csCache, ssCache, rsp, flags, mode32)
    }

    /** The machine is x but for what guest accesses have changed since. */
    ghost predicate Like(x: X86)
      reads this, guest, guest.regionData
    {
      State() == x.(cpu := guest.State())
    }

    ghost function Outcome<T>(status: Status, value: T): Try<T>
      reads guest, guest.regionData
    {
      if status == Ok then Done(guest.State(), value) else Failed(guest.State(), status)
    }

    constructor (guest: Guest, x: X86)
      requires x.cpu == guest.State() && x.control == guest.control
      ensures State() == x && this.guest == guest
    {
      this.guest, protectedMode, tables := guest, x.protectedMode, x.tables;
      cs, ss, csCache, ssCache := x.cs, x.ss, x.csCache, x.ssCache;
      rsp, flags, mode32 := x.rsp, x.flags, x.mode32;
    }

    method Fetch(ghost x: X86, address: nat, size: nat) returns (status: Status, data: seq<byte>)
      requires Like(x)
      modifies guest, guest.regionData
      ensures Like(x) && Read(x, old(guest.State()), address, size) == Outcome(status, data)
    {
      hide GuestRead;
      status, data := guest.ReadGuest(address, size);
    }

    /** xxemul_x86_decode_dos_segment, for CS and SS */
    method Decode(ghost x: X86, code: bool, selector: nat) returns (status: Status, segment: Segment)
      requires Like(x)
      modifies guest, guest.regionData
      ensures Like(x) && DecodeSegment(x, old(guest.State()), code, selector) == Outcome(status, segment)
    {
      hide GuestRead, SegmentOf, Loadable;
      segment := Segment(selector * 0x10, 0xffff, if code then 0x9b else 0x93, 0, true);
      if !protectedMode {
        return Ok, segment;
      }
      var address := DescriptorAddress(tables, selector);
      if address.None? {
        return AddressFault, segment;
      }
      var descriptor;
      status, descriptor := Fetch(x, address.value, 8);
      if status != Ok {
        return;
      }
      segment := SegmentOf(descriptor);
      status := if Loadable(segment, code) then Ok else AddressFault;
    }

    /** xxemul_x86_dos_preflight_write */
    method Preflight(ghost x: X86, address: nat, size: nat) returns (status: Status)
      requires Like(x)
      modifies guest, guest.regionData
      ensures Like(x) && PreflightWrite(x.control, old(guest.State()), address, size, 0) == (guest.State(), status)
    {
      hide Translate, Linear, Chunk;
      var done := 0;
      ghost var start := guest.State();
      while done < size
        invariant done <= size && Like(x)
        invariant PreflightWrite(x.control, guest.State(), address, size, done) == PreflightWrite(x.control, start, address, size, 0)
      {
        var linear := Linear(address, done);
        var chunk := Chunk(linear, size - done);
        var physical;
        status, physical := guest.TranslateLinear(linear, true);
        if status != Ok {
          return;
        }
        var probe;
        status, probe := guest.ReadMemory(physical + chunk - 1, 1);
        if status != Ok {
          return;
        }
        done := done + chunk;
      }
      status := Ok;
    }

    method LoadGate(ghost x: X86, vector: nat, hardware: bool) returns (status: Status, gate: Gate)
      requires Like(x)
      modifies guest, guest.regionData
      ensures Like(x) && FetchGate(x.(cpu := old(guest.State())), vector, hardware) == Outcome(status, gate)
    {
      hide GuestRead, U16, HasVM, Rpl;
      gate := Gate(0, 0, 0);
      if vector * 8 + 7 > tables.idtLimit {
        return AddressFault, gate;
      }
      if HasVM(flags) {
        return UnsupportedInstruction, gate;
      }
      var g;
      status, g := Fetch(x, tables.idtBase + vector * 8, 8);
      if status != Ok {
        return;
      }
      var kind: nat := g[5];
      if kind / 0x80 != 1 || kind / 0x10 % 2 != 0 || kind % 8 != 6 || g[4] != 0 || (!hardware && Rpl(cs) > kind / 0x20 % 4) {
        return AddressFault, gate;
      }
      var width := if kind / 8 % 2 == 1 then 4 else 2;
      if width == 2 && U16(g, 6) != 0 {
        return AddressFault, gate;
      }
      gate := Gate(width, U16(g, 2), U16(g, 0) + U16(g, 6) * TWO_16);
    }

    method LoadCode(ghost x: X86, gate: Gate) returns (status: Status, code: Segment, cpl: nat)
      requires Like(x)
      modifies guest, guest.regionData
      ensures Like(x) && EnterCode(x, old(guest.State()), gate) == Outcome(status, (code, cpl))
    {
      hide GuestRead, DecodeSegment, Rpl, Dpl, Conforming;
      cpl := 0;
      status, code := Decode(x, true, gate.selector);
      if status != Ok {
        return;
      }
      if Dpl(code) > Rpl(cs) || gate.offset > code.limit {
        return AddressFault, code, cpl;
      }
      cpl := if Conforming(code) then Rpl(cs) else Dpl(code);
      var fetched;
      status, fetched := Fetch(x, (code.base + gate.offset) % TWO_32, 1);
    }

    /** The stack of the handler. */
    method LoadStack(ghost x: X86, cpl: nat) returns (status: Status, stack: Stack)
      requires Like(x)
      modifies guest, guest.regionData
      ensures Like(x) && EnterStack(x, old(guest.State()), cpl) == Outcome(status, stack)
    {
      hide GuestRead, DecodeSegment, Rpl, Dpl, U16, U32;
      stack := Stack(ss, ssCache, rsp % TWO_32);
      if cpl >= Rpl(cs) {
        return Ok, stack;
      }
      if tables.taskSelector == 0 || tables.taskLimit < 9 + 8 * cpl {
        return AddressFault, stack;
      }
      var pointer;
      status, pointer := Fetch(x, (tables.taskBase + 4 + 8 * cpl) % TWO_32, 6);
      if status != Ok {
        return;
      }
      var selector := U16(pointer, 4);
      var cache;
      status, cache := Decode(x, false, selector);
      if status != Ok {
        return;
      }
      if Rpl(selector) != cpl || Dpl(cache) != cpl {
        return AddressFault, stack;
      }
      stack := Stack(selector, cache, U32(pointer, 0));
    }

    /** Preflight, then store the frame below the stack pointer. */
    method Push(ghost x: X86, stack: Stack, frame: seq<byte>) returns (status: Status, offset: nat)
      requires Like(x)
      modifies guest, guest.regionData
      ensures Like(x) && PushFrame(x, old(guest.State()), stack, frame) == Outcome(status, offset)
    {
      hide GuestWrite, Masked, StackAddress;
      offset := Masked(stack.cache, stack.offset - |frame|);
      var address := StackAddress(stack.cache, offset, |frame|);
      if address.None? {
        return AddressFault, offset;
      }
      status := Preflight(x, address.value, |frame|);
      if status != Ok {
        return;
      }
      status := guest.WriteGuest(address.value, frame);
    }

    method PrepareGate(ghost x: X86, vector: nat, hardware: bool) returns (status: Status, entry: Entry)
      requires Like(x) && x.cpu == guest.State()
      modifies guest, guest.regionData
      ensures Like(x) && Prepare(x, vector, hardware) == Outcome(status, entry)
    {
      hide FetchGate, EnterCode, EnterStack;
      entry := Entry(Gate(0, 0, 0), csCache, 0, Stack(ss, ssCache, 0));
      var gate, code, cpl, stack;
      status, gate := LoadGate(x, vector, hardware);
      if status != Ok {
        return;
      }
      status, code, cpl := LoadCode(x, gate);
      if status != Ok {
        return;
      }
      status, stack := LoadStack(x, cpl);
      if status == Ok {
        entry := Entry(gate, code, cpl, stack);
      }
    }

    /** The registers of a transfer, once nothing can fail. */
    method Commit(selector: nat, code: Segment, stack: Stack, newFlags: nat)
      modifies this, guest
      ensures guest.State() == old(guest.State())
      ensures State() == old(State()).(
                control := old(guest.control).(user := Rpl(selector) != 0),
                ss := stack.selector, ssCache := stack.cache, rsp := stack.offset,
                cs := selector, csCache := code, mode32 := IsBig(code), flags := newFlags)
    {
      ss, ssCache, rsp := stack.selector, stack.cache, stack.offset;
      cs, csCache, mode32 := selector, code, IsBig(code);
      guest.control := guest.control.(user := Rpl(selector) != 0);
      flags := newFlags;
    }

    /**
      xxemul_x86_dos_interrupt_gate.  The registers change only when the gate is
      entered, and then all of them as X86Gates.InterruptGate says.
    */
    method EnterGate(vector: nat, resume: nat, error: Option<nat>) returns (status: Status, target: nat)
      modifies this, guest, guest.regionData
      ensures var r := InterruptGate(old(State()), vector, resume, error);
              if status == Ok then r == Entering(State(), target)
              else r == Refused(guest.State(), status) && State() == old(State()).(cpu := guest.State())
    {
      hide Prepare, PushFrame, IsBig, Rpl, WithoutIF, WithoutTF, WithoutNT, WithoutRF;
      ghost var x := State();
      target := 0;
      var entry, offset;
      status, entry := PrepareGate(x, vector, error.Some?);
      if status != Ok {
        return;
      }
      var width, stack := entry.gate.width, entry.stack;
      var frame := if error.Some? then Put(width, error.value) else [];
      frame := frame + (Put(width, resume) + Put(width, cs) + Put(width, flags % TWO_32)
                        + if entry.cpl < Rpl(cs) then Put(width, rsp % TWO_32) + Put(width, ss) else []);
      assert frame == FrameOfEntry(x, entry, resume, error);
      status, offset := Push(x, stack, frame);
      if status != Ok {
        return;
      }
      Commit(entry.gate.selector / 4 * 4 + entry.cpl, entry.code, stack.(offset := offset),
             WithoutRF(WithoutNT(WithoutTF(WithoutIF(flags)))));
      target := entry.gate.offset;
    }

    method PopFrame(ghost x: X86, width: nat) returns (status: Status, popped: Popped)
      requires Like(x) && x.cpu == guest.State() && (width == 2 || width == 4)
      modifies guest, guest.regionData
      ensures Like(x) && PopReturn(x, width) == Outcome(status, popped)
    {
      hide GuestRead, HasNT, HasVM, Masked, StackAddress, Get;
      popped := Popped(0, 0, 0);
      if HasNT(flags) || HasVM(flags) {
        return UnsupportedInstruction, popped;
      }
      var address := StackAddress(ssCache, Masked(ssCache, rsp), 3 * width);
      if address.None? {
        return AddressFault, popped;
      }
      var b;
      status, b := Fetch(x, address.value, 3 * width);
      if status == Ok {
        popped := Popped(Get(width, b, 0), Get(width, b, width) % TWO_16, Get(width, b, 2 * width));
      }
    }

    method PopOuter(ghost x: X86, width: nat, cpl: nat) returns (status: Status, outer: Option<Outer>)
      requires Like(x) && (width == 2 || width == 4)
      modifies guest, guest.regionData
      ensures Like(x) && PopStack(x, old(guest.State()), width, cpl) == Outcome(status, outer)
    {
      hide GuestRead, DecodeSegment, Rpl, Dpl, Masked, StackAddress, Get;
      outer := None;
      if cpl < Rpl(cs) {
        return AddressFault, outer;
      }
      if cpl == Rpl(cs) {
        return Ok, outer;
      }
      var address := StackAddress(ssCache, Masked(ssCache, rsp), 5 * width);
      if address.None? {
        return AddressFault, outer;
      }
      var b;
      status, b := Fetch(x, address.value, 5 * width);
      if status != Ok {
        return;
      }
      var selector := Get(width, b, 4 * width) % TWO_16;
      var cache;
      status, cache := Decode(x, false, selector);
      if status != Ok {
        return;
      }
      if Rpl(selector) != cpl || Dpl(cache) != cpl {
        return AddressFault, outer;
      }
      outer := Some(Outer(selector, cache, Get(width, b, 3 * width)));
    }

    method PopTarget(ghost x: X86, p: Popped) returns (status: Status, code: Segment)
      requires Like(x)
      modifies guest, guest.regionData
      ensures Like(x) && PopCode(x, old(guest.State()), p) == Outcome(status, code)
    {
      hide GuestRead, DecodeSegment, Rpl, Dpl, Conforming;
      status, code := Decode(x, true, p.cs);
      if status != Ok {
        return;
      }
      if (if Conforming(code) then Dpl(code) > Rpl(p.cs) else Dpl(code) != Rpl(p.cs)) || p.offset > code.limit {
        return AddressFault, code;
      }
      var fetched;
      status, fetched := Fetch(x, (code.base + p.offset) % TWO_32, 1);
    }

    /** The flags IRET may restore. */
    method MergeFlags(ghost x: X86, width: nat, popped: nat) returns (f: nat)
      requires Like(x)
      ensures f == MergedFlags(x, width, popped)
    {
      hide HasIF, IOPL, Rpl;
      f := if width == 2 then popped % TWO_16 + flags / TWO_16 % TWO_16 * TWO_16 else popped;
      if Rpl(cs) != 0 {
        IoplAtMost(f);
        f := f - IOPL(f) * 0x1000 + IOPL(flags) * 0x1000;
      }
      if Rpl(cs) > IOPL(flags) {
        f := WithoutIF(f) + if HasIF(flags) then 0x200 else 0;
      }
    }

    /** xxemul_x86_dos_protected_iret */
    method Iret(width: nat) returns (status: Status, target: nat)
      requires width == 2 || width == 4
      modifies this, guest, guest.regionData
      ensures var r := ProtectedIret(old(State()), width);
              if status == Ok then r == Entering(State(), target)
              else r == Refused(guest.State(), status) && State() == old(State()).(cpu := guest.State())
    {
      hide PopReturn, PopStack, PopCode, MergedFlags, HasVM, IsBig, Rpl, WithReserved, Masked;
      ghost var x := State();
      target := 0;
      var p, outer, code;
      status, p := PopFrame(x, width);
      if status != Ok {
        return;
      }
      status, outer := PopOuter(x, width, Rpl(p.cs));
      if status != Ok {
        return;
      }
      status, code := PopTarget(x, p);
      if status != Ok {
        return;
      }
      if HasVM(if width == 2 then p.flags % TWO_16 + flags / TWO_16 % TWO_16 * TWO_16 else p.flags) {
        return UnsupportedInstruction, 0;
      }
      var f := MergeFlags(x, width, p.flags);
      var stack := if outer.Some? then Stack(outer.value.selector, outer.value.cache, outer.value.offset)
        else Stack(ss, ssCache, Masked(ssCache, Masked(ssCache, rsp) + 3 * width));
      Commit(p.cs, code, stack, WithReserved(f));
      target := p.offset;
    }
  }

  lemma IoplAtMost(f: nat)
    ensures IOPL(f) * 0x1000 <= f
  {
  }
}

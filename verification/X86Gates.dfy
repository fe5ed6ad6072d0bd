/**
  Protected-mode interrupt gates and IRET (src/xxemul_x86.c, lines 255-351,
  409-427, 547-552 and 619-787), after section 6.12.1 of volume 3A of the Intel
  SDM.  The functions thread the guest state through every access, because each
  may set accessed bits or fault.
*/
module X86Gates {
  import opened Wrappers
  import opened GuestMemory
  import opened X86Paging

  const TWO_16 := 0x1_0000

  /** xxemul_x86_segment_cache; flags are the high four bits of byte 6 of a descriptor. */
  datatype Segment = Segment(base: nat, limit: nat, access: nat, flags: nat, valid: bool)

  datatype Tables = Tables(
    gdtBase: nat, gdtLimit: nat,
    idtBase: nat, idtLimit: nat,
    ldtSelector: nat, ldtBase: nat, ldtLimit: nat,
    taskSelector: nat, taskBase: nat, taskLimit: nat)

  /** The part of the emulator that gates and IRET read and change. */
  datatype X86 = X86(
    cpu: Cpu,
    control: Control,
    protectedMode: bool,
    tables: Tables,
    cs: nat, ss: nat,
    csCache: Segment, ssCache: Segment,
    rsp: nat, flags: nat,
    mode32: bool)

  /** A step that may fault on the way; either way it leaves a guest state. */
  datatype Try<T> = Done(cpu: Cpu, value: T) | Failed(cpu: Cpu, status: Status)

  // --- Words ----------------------------------------------------------------

  function U16(b: seq<byte>, i: nat): (v: nat)
    requires i + 2 <= |b|
    ensures v < TWO_16
  {
    WordOf(b[i], b[i + 1], 0, 0)
  }

  function U32(b: seq<byte>, i: nat): (v: nat)
    requires i + 4 <= |b|
    ensures v < TWO_32
  {
    WordOf(b[i], b[i + 1], b[i + 2], b[i + 3])
  }

  function Put16(v: nat): (b: seq<byte>)
    ensures |b| == 2
  {
    [v % 0x100, v / 0x100 % 0x100]
  }

  function Put32(v: nat): (b: seq<byte>)
    ensures |b| == 4
  {
    [v % 0x100, v / 0x100 % 0x100, v / 0x1_0000 % 0x100, v / 0x100_0000 % 0x100]
  }

  function Put(width: nat, v: nat): (b: seq<byte>)
    ensures |b| == if width == 4 then 4 else 2
  {
    if width == 4 then Put32(v) else Put16(v)
  }

  function Get(width: nat, b: seq<byte>, i: nat): nat
    requires width == 2 || width == 4
    requires i + width <= |b|
  {
    if width == 4 then U32(b, i) else U16(b, i)
  }

  // --- Flags ------------------------------------------------------------------

  predicate HasTF(f: nat) { f / 0x100 % 2 == 1 }
  predicate HasIF(f: nat) { f / 0x200 % 2 == 1 }
  predicate HasNT(f: nat) { f / 0x4000 % 2 == 1 }
  predicate HasRF(f: nat) { f / 0x1_0000 % 2 == 1 }
  predicate HasVM(f: nat) { f / 0x2_0000 % 2 == 1 }
  function IOPL(f: nat): (l: nat)
    ensures l < 4
  {
    f / 0x1000 % 4
  }
  function WithoutTF(f: nat): nat { if HasTF(f) then f - 0x100 else f }
  function WithoutIF(f: nat): nat { if HasIF(f) then f - 0x200 else f }
  function WithoutNT(f: nat): nat { if HasNT(f) then f - 0x4000 else f }
  function WithoutRF(f: nat): nat { if HasRF(f) then f - 0x1_0000 else f }
  function WithReserved(f: nat): nat { if f / 2 % 2 == 1 then f else f + 2 }

  // --- Segments ---------------------------------------------------------------

  function Rpl(selector: nat): nat { selector % 4 }
  function Dpl(s: Segment): nat { s.access / 0x20 % 4 }
  predicate Conforming(s: Segment) { s.access / 4 % 2 == 1 }
  predicate IsBig(s: Segment) { s.flags / 4 % 2 == 1 }

  /** The stack pointer wraps at 16 or 32 bits. */
  function Masked(s: Segment, v: int): (r: nat)
    ensures r < TWO_32
  {
    if IsBig(s) then v % TWO_32 else v % TWO_16
  }

  function Read(x: X86, s: Cpu, address: nat, size: nat): Try<seq<byte>> {
    var r := GuestRead(x.control, s, address, size);
    if r.status == Ok then Done(r.cpu, r.data) else Failed(r.cpu, r.status)
  }

  /** Where a selector's descriptor is, if its table has it. */
  function DescriptorAddress(t: Tables, selector: nat): Option<nat> {
    var local := selector / 4 % 2 == 1;
    var index := selector / 8 * 8;
    if local && t.ldtSelector == 0 then None
    else
      var base, limit := if local then t.ldtBase else t.gdtBase, if local then t.ldtLimit else t.gdtLimit;
      if index > limit || limit - index < 7 || selector / 4 == 0 then None else Some((base + index) % TWO_32)
  }

  function SegmentOf(d: seq<byte>): Segment
    requires |d| == 8
  {
    var small := U16(d, 0) + d[6] % 0x10 * TWO_16;
    Segment(
      WordOf(d[2], d[3], d[4], d[7]),
      if d[6] / 0x80 == 1 then small * 0x1000 + 0xfff else small,
      d[5],
      d[6] / 0x10,
      true)
  }

  predicate Loadable(s: Segment, code: bool) {
    && s.access / 0x80 == 1 && s.access / 0x10 % 2 == 1
    && (if code then s.access / 8 % 2 == 1 else s.access / 8 % 2 == 0 && s.access / 2 % 2 == 1)
  }

  /** xxemul_x86_decode_dos_segment for CS and SS */
  function DecodeSegment(x: X86, s: Cpu, code: bool, selector: nat): Try<Segment> {
    if !x.protectedMode then Done(s, Segment(selector * 0x10, 0xffff, if code then 0x9b else 0x93, 0, true))
    else
      match DescriptorAddress(x.tables, selector)
      case None => Failed(s, AddressFault)
      case Some(address) =>
        match Read(x, s, address, 8)
        case Failed(t, status) => Failed(t, status)
        case Done(t, d) =>
          if |d| == 8 && Loadable(SegmentOf(d), code) then Done(t, SegmentOf(d)) else Failed(t, AddressFault)
  }

  /** xxemul_x86_dos_stack_address */
  function StackAddress(s: Segment, offset: nat, size: nat): Option<nat> {
    if !s.valid || s.access == 0 || size == 0 || offset > s.limit || size - 1 > s.limit - offset then None
    else Some((s.base + offset) % TWO_32)
  }

  /** xxemul_x86_dos_preflight_write */
  function PreflightWrite(c: Control, s: Cpu, address: nat, size: nat, done: nat): (Cpu, Status)
    requires done <= size
    decreases size - done
  {
    if done == size then (s, Ok)
    else
      var linear := Linear(address, done);
      var n := Chunk(linear, size - done);
      match Translate(c, s, linear, true)
      case (t, Faulted(status)) => (t, status)
      case (t, Frame(physical)) =>
        if Holds(t.mem, physical + n - 1, 1) then PreflightWrite(c, t, address, size, done + n) else (t, AddressFault)
  }

  // ----------------------------------------------------------------------
  // Interrupt gates
  // ----------------------------------------------------------------------

  datatype Gate = Gate(width: nat, selector: nat, offset: nat)

  function FetchGate(x: X86, vector: nat, hardware: bool): Try<Gate> {
    if vector * 8 + 7 > x.tables.idtLimit then Failed(x.cpu, AddressFault)
    else if HasVM(x.flags) then Failed(x.cpu, UnsupportedInstruction)
    else
      match Read(x, x.cpu, x.tables.idtBase + vector * 8, 8)
      case Failed(t, status) => Failed(t, status)
      case Done(t, g) =>
        if |g| != 8 then Failed(t, AddressFault)
        else
          var kind: nat := g[5];
          var width := if kind / 8 % 2 == 1 then 4 else 2;
          if || kind / 0x80 != 1 || kind / 0x10 % 2 != 0 || kind % 8 != 6 || g[4] != 0
             || (!hardware && Rpl(x.cs) > kind / 0x20 % 4)
             || (width == 2 && U16(g, 6) != 0)
          then Failed(t, AddressFault)
          else Done(t, Gate(width, U16(g, 2), U16(g, 0) + U16(g, 6) * TWO_16))
  }

  /** The handler's code segment and privilege level, after its first byte was fetched. */
  function EnterCode(x: X86, s: Cpu, g: Gate): Try<(Segment, nat)> {
    match DecodeSegment(x, s, true, g.selector)
    case Failed(t, status) => Failed(t, status)
    case Done(t, code) =>
      if Dpl(code) > Rpl(x.cs) || g.offset > code.limit then Failed(t, AddressFault)
      else
        var cpl := if Conforming(code) then Rpl(x.cs) else Dpl(code);
        match Read(x, t, (code.base + g.offset) % TWO_32, 1)
        case Failed(u, status) => Failed(u, status)
        case Done(u, _) => Done(u, (code, cpl))
  }

  datatype Stack = Stack(selector: nat, cache: Segment, offset: nat)

  /** The stack of an inner privilege level, from the task state segment; otherwise the current one. */
  function EnterStack(x: X86, s: Cpu, cpl: nat): Try<Stack> {
    if cpl >= Rpl(x.cs) then Done(s, Stack(x.ss, x.ssCache, x.rsp % TWO_32))
    else if x.tables.taskSelector == 0 || x.tables.taskLimit < 9 + 8 * cpl then Failed(s, AddressFault)
    else
      match Read(x, s, (x.tables.taskBase + 4 + 8 * cpl) % TWO_32, 6)
      case Failed(t, status) => Failed(t, status)
      case Done(t, p) =>
        if |p| != 6 then Failed(t, AddressFault)
        else
          var selector := U16(p, 4);
          match DecodeSegment(x, t, false, selector)
          case Failed(u, status) => Failed(u, status)
          case Done(u, cache) =>
            if Rpl(selector) != cpl || Dpl(cache) != cpl then Failed(u, AddressFault)
            else Done(u, Stack(selector, cache, U32(p, 0)))
  }

  /** What IRET will pop: offset, CS and flags, and for a stack switch the outer stack. */
  function ReturnFrame(x: X86, width: nat, resume: nat, switched: bool): seq<byte> {
    Put(width, resume) + Put(width, x.cs) + Put(width, x.flags % TWO_32)
    + if switched then Put(width, x.rsp % TWO_32) + Put(width, x.ss) else []
  }

  function GateFrame(x: X86, width: nat, resume: nat, switched: bool, error: Option<nat>): seq<byte> {
    (if error.Some? then Put(width, error.value) else []) + ReturnFrame(x, width, resume, switched)
  }

  /** The offset of the frame on the handler's stack, once it is pushed. */
  function PushFrame(x: X86, s: Cpu, stack: Stack, frame: seq<byte>): Try<nat> {
    var offset := Masked(stack.cache, stack.offset - |frame|);
    match StackAddress(stack.cache, offset, |frame|)
    case None => Failed(s, AddressFault)
    case Some(address) =>
      var (t, preflight) := PreflightWrite(x.control, s, address, |frame|, 0);
      if preflight != Ok then Failed(t, preflight)
      else
        var (u, status) := GuestWrite(x.control, t, address, frame);
        if status != Ok then Failed(u, status) else Done(u, offset)
  }

  /** The state in the handler. */
  function Entered(x: X86, s: Cpu, g: Gate, code: Segment, cpl: nat, stack: Stack, offset: nat): X86 {
    var cs := g.selector / 4 * 4 + cpl;
    x.(cpu := s,
       control := x.control.(user := Rpl(cs) != 0),
       ss := stack.selector, ssCache := stack.cache, rsp := offset,
       cs := cs, csCache := code, mode32 := IsBig(code),
       flags := WithoutRF(WithoutNT(WithoutTF(WithoutIF(x.flags)))))
  }

  /** What a gate leads to, before anything is pushed. */
  datatype Entry = Entry(gate: Gate, code: Segment, cpl: nat, stack: Stack)

  function Prepare(x: X86, vector: nat, hardware: bool): Try<Entry> {
    match FetchGate(x, vector, hardware)
    case Failed(s, status) => Failed(s, status)
    case Done(s, g) =>
      match EnterCode(x, s, g)
      case Failed(t, status) => Failed(t, status)
      case Done(t, (code, cpl)) =>
        match EnterStack(x, t, cpl)
        case Failed(u, status) => Failed(u, status)
        case Done(u, stack) => Done(u, Entry(g, code, cpl, stack))
  }

  /** The frame a prepared gate pushes. */
  function FrameOfEntry(x: X86, e: Entry, resume: nat, error: Option<nat>): seq<byte> {
    GateFrame(x, e.gate.width, resume, e.cpl < Rpl(x.cs), error)
  }

  datatype Transfer = Entering(x: X86, target: nat) | Refused(cpu: Cpu, status: Status)

  /**
    xxemul_x86_dos_interrupt_gate; error is the code a hardware fault pushes.
    Nothing but the guest state changes unless the gate is entered.
  */
  function InterruptGate(x: X86, vector: nat, resume: nat, error: Option<nat>): Transfer {
    match Prepare(x, vector, error.Some?)
    case Failed(s, status) => Refused(s, status)
    case Done(s, e) =>
      match PushFrame(x, s, e.stack, FrameOfEntry(x, e, resume, error))
      case Failed(t, status) => Refused(t, status)
      case Done(t, offset) => Entering(Entered(x, t, e.gate, e.code, e.cpl, e.stack, offset), e.gate.offset)
  }

  // ----------------------------------------------------------------------
  // IRET
  // ----------------------------------------------------------------------

  datatype Popped = Popped(offset: nat, cs: nat, flags: nat)
  datatype Outer = Outer(selector: nat, cache: Segment, offset: nat)

  function PopReturn(x: X86, width: nat): Try<Popped>
    requires width == 2 || width == 4
  {
    if HasNT(x.flags) || HasVM(x.flags) then Failed(x.cpu, UnsupportedInstruction)
    else
      match StackAddress(x.ssCache, Masked(x.ssCache, x.rsp), 3 * width)
      case None => Failed(x.cpu, AddressFault)
      case Some(address) =>
        match Read(x, x.cpu, address, 3 * width)
        case Failed(t, status) => Failed(t, status)
        case Done(t, b) =>
          if |b| != 3 * width then Failed(t, AddressFault)
          else Done(t, Popped(Get(width, b, 0), Get(width, b, width) % TWO_16, Get(width, b, 2 * width)))
  }

  /** The outer stack, when the return is to a less privileged level. */
  function PopStack(x: X86, s: Cpu, width: nat, cpl: nat): Try<Option<Outer>>
    requires width == 2 || width == 4
  {
    if cpl < Rpl(x.cs) then Failed(s, AddressFault)
    else if cpl == Rpl(x.cs) then Done(s, None)
    else
      match StackAddress(x.ssCache, Masked(x.ssCache, x.rsp), 5 * width)
      case None => Failed(s, AddressFault)
      case Some(address) =>
        match Read(x, s, address, 5 * width)
        case Failed(t, status) => Failed(t, status)
        case Done(t, b) =>
          if |b| != 5 * width then Failed(t, AddressFault)
          else
            var selector := Get(width, b, 4 * width) % TWO_16;
            match DecodeSegment(x, t, false, selector)
            case Failed(u, status) => Failed(u, status)
            case Done(u, cache) =>
              if Rpl(selector) != cpl || Dpl(cache) != cpl then Failed(u, AddressFault)
              else Done(u, Some(Outer(selector, cache, Get(width, b, 3 * width))))
  }

  /** The interrupted code segment, after the byte at the return offset was fetched. */
  function PopCode(x: X86, s: Cpu, p: Popped): Try<Segment> {
    match DecodeSegment(x, s, true, p.cs)
    case Failed(t, status) => Failed(t, status)
    case Done(t, code) =>
      if (if Conforming(code) then Dpl(code) > Rpl(p.cs) else Dpl(code) != Rpl(p.cs)) || p.offset > code.limit
      then Failed(t, AddressFault)
      else
        match Read(x, t, (code.base + p.offset) % TWO_32, 1)
        case Failed(u, status) => Failed(u, status)
        case Done(u, _) => Done(u, code)
  }

  /** The flags IRET may restore at the handler's privilege level. */
  function MergedFlags(x: X86, width: nat, popped: nat): nat {
    var f := if width == 2 then popped % TWO_16 + x.flags / TWO_16 % TWO_16 * TWO_16 else popped;
    var g := if Rpl(x.cs) != 0 then f - IOPL(f) * 0x1000 + IOPL(x.flags) * 0x1000 else f;
    if Rpl(x.cs) > IOPL(x.flags) then WithoutIF(g) + (if HasIF(x.flags) then 0x200 else 0) else g
  }

  function Returned(x: X86, s: Cpu, width: nat, p: Popped, outer: Option<Outer>, code: Segment): X86 {
    x.(cpu := s,
       control := x.control.(user := Rpl(p.cs) != 0),
       ss := if outer.Some? then outer.value.selector else x.ss,
       ssCache := if outer.Some? then outer.value.cache else x.ssCache,
       rsp := if outer.Some? then outer.value.offset else Masked(x.ssCache, Masked(x.ssCache, x.rsp) + 3 * width),
       cs := p.cs, csCache := code, mode32 := IsBig(code),
       flags := WithReserved(MergedFlags(x, width, p.flags)))
  }

  /** xxemul_x86_dos_protected_iret */
  function ProtectedIret(x: X86, width: nat): Transfer
    requires width == 2 || width == 4
  {
    match PopReturn(x, width)
    case Failed(s, status) => Refused(s, status)
    case Done(s, p) =>
      match PopStack(x, s, width, Rpl(p.cs))
      case Failed(t, status) => Refused(t, status)
      case Done(t, outer) =>
        match PopCode(x, t, p)
        case Failed(u, status) => Refused(u, status)
        case Done(u, code) =>
          var f := if width == 2 then p.flags % TWO_16 + x.flags / TWO_16 % TWO_16 * TWO_16 else p.flags;
          if HasVM(f) then Refused(u, UnsupportedInstruction)
          else Entering(Returned(x, u, width, p, outer, code), p.offset)
  }
}

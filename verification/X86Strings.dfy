/**
  String instructions (src/xxemul_x86.c, lines 90-112, 226-252, 947-963, 992-1011
  and 1720-1901): at most 65536 elements are executed at a time, and the
  instruction then asks to be executed again.
*/
module X86Strings {
  import opened Arithmetic
  import opened Wrappers
  import opened GuestMemory
  import opened X86Paging
  import opened X86Guest
  import opened X86Gates

  const CHUNK := 65536

  datatype Operation = Movs | Stos | Lods | Cmps | Scas
  datatype Mode = Mode16 | Mode32 | Mode64

  /** size is 1, 2, 4 or 8; rep and repne are the two repeat prefixes. */
  datatype Instruction = Instruction(op: Operation, size: nat, addressPrefix: bool, rep: bool, repne: bool)

  datatype SegmentRegister = SegmentRegister(selector: nat, cache: Segment)

  /** What a string instruction reads and does not change. */
  datatype Setting = Setting(dos: bool, mode: Mode, control: Control, source: SegmentRegister, es: SegmentRegister, backward: bool)

  datatype Status6 = Status6(carry: bool, parity: bool, adjust: bool, zero: bool, sign: bool, overflow: bool)

  datatype Machine = Machine(cpu: Cpu, rax: nat, rcx: nat, rsi: nat, rdi: nat, status: Status6)

  predicate Repeats(i: Instruction) { i.rep || i.repne }
  predicate Compares(i: Instruction) { i.op.Cmps? || i.op.Scas? }
  predicate UsesSource(i: Instruction) { i.op.Movs? || i.op.Lods? || i.op.Cmps? }
  predicate UsesDestination(i: Instruction) { !i.op.Lods? }

  function AddressSize(e: Setting, i: Instruction): (n: nat)
    ensures n == 2 || n == 4 || n == 8
  {
    match e.mode
    case Mode16 => if i.addressPrefix then 4 else 2
    case Mode32 => if i.addressPrefix then 2 else 4
    case Mode64 => if i.addressPrefix then 4 else 8
  }

  /** The number of offsets of an address size. */
  function Offsets(e: Setting, i: Instruction): (m: nat)
    ensures m > 0
  {
    Pow256(AddressSize(e, i))
  }

  /** v with its low digits cleared, in base m. */
  function High(v: nat, m: nat): nat
    requires m > 0
  {
    v / m * m
  }

  // ----------------------------------------------------------------------
  // One element
  // ----------------------------------------------------------------------

  /** xxemul_x86_dos_address; without segments an offset is an address. */
  function Locate(e: Setting, s: SegmentRegister, offset: nat, size: nat): Option<nat> {
    if !e.dos then Some(offset)
    else if s.cache.valid then
      if size == 0 || offset > s.cache.limit || size - 1 > s.cache.limit - offset || s.cache.access == 0 then None
      else Some((s.cache.base + offset) % TWO_32)
    else if size == 0 then None
    else Some((s.selector * 0x10 + offset % (if e.mode.Mode16? then TWO_16 else TWO_32)) % TWO_32)
  }

  function Load(e: Setting, s: Cpu, address: nat, size: nat): Try<nat> {
    if e.dos then
      var r := GuestRead(e.control, s, address, size);
      if r.status == Ok then Done(r.cpu, LittleEndian(r.data)) else Failed(r.cpu, r.status)
    else if Holds(s.mem, address, size) then Done(s, LittleEndian(ReadBytes(s.mem, address, size)))
    else Failed(s, AddressFault)
  }

  function Bytes(size: nat, v: nat): (b: seq<byte>)
    ensures |b| == size
  {
    seq(size, k requires 0 <= k < size => v / Pow256(k) % 0x100)
  }

  function Store(e: Setting, s: Cpu, address: nat, size: nat, v: nat): (Cpu, Status) {
    if e.dos then GuestWrite(e.control, s, address, Bytes(size, v))
    else if Holds(s.mem, address, size) then (s.(mem := WriteBytes(s.mem, address, Bytes(size, v))), Ok)
    else (s, AddressFault)
  }

  predicate EvenParity(b: nat) {
    (b % 2 + b / 2 % 2 + b / 4 % 2 + b / 8 % 2 + b / 0x10 % 2 + b / 0x20 % 2 + b / 0x40 % 2 + b / 0x80 % 2) % 2 == 0
  }

  predicate HasBit(v: nat, weight: nat)
    requires weight > 0
  {
    v / weight % 2 == 1
  }

  /** xxemul_x86_set_sub_flags; sign is the weight of the sign bit. */
  function SubFlags(left: nat, right: nat, sign: nat): Status6
    requires sign > 0
  {
    var result := Wrapped(left - right, 2 * sign);
    var l, r, d := HasBit(left, sign), HasBit(right, sign), HasBit(result, sign);
    Status6(
      left < right,
      EvenParity(result % 0x100),
      (left / 0x10 + right / 0x10 + result / 0x10) % 2 == 1,
      result == 0,
      d,
      l != r && l != d)
  }

  function Wrapped(v: int, m: nat): (r: nat)
    requires m > 0
    ensures r < m
  {
    v % m
  }

  /** How far an element moves a pointer; the direction flag says which way. */
  function Delta(e: Setting, i: Instruction): int {
    if e.backward then -(i.size as int) else i.size
  }

  /** A pointer after one element. */
  function Moved(e: Setting, i: Instruction, pointer: nat): nat {
    var m := Offsets(e, i);
    var high := if e.mode.Mode64? && AddressSize(e, i) == 4 then 0 else High(pointer, m);
    high + Wrapped(pointer % m + Delta(e, i), m)
  }

  /** The result of one element, or of the instruction: faulted says that a memory access failed, on its way to the page-fault gate. */
  datatype Outcome = Completed(m: Machine) | Stopped(m: Machine, status: Status, faulted: bool)

  function Accumulator(i: Instruction, s: Machine): nat {
    s.rax % Pow256(i.size)
  }

  function Stores(e: Setting, i: Instruction, s: Machine, destination: nat, v: nat): Outcome {
    var (t, status) := Store(e, s.cpu, destination, i.size, v);
    if status == Ok then Completed(s.(cpu := t)) else Stopped(s.(cpu := t), status, true)
  }

  /** The effect of an element whose operands have been loaded. */
  function Effect(e: Setting, i: Instruction, s: Machine, destination: nat, source: nat, other: nat): Outcome {
    match i.op
    case Movs => Stores(e, i, s, destination, source)
    case Stos => Stores(e, i, s, destination, Accumulator(i, s))
    case Lods =>
      var rax := High(s.rax, Pow256(i.size)) + source;
      Completed(s.(rax := if i.size == 4 && e.mode.Mode64? then rax % TWO_32 else rax))
    case Cmps => Completed(s.(status := SubFlags(source, other, SignWeight(i.size))))
    case Scas => Completed(s.(status := SubFlags(Accumulator(i, s), other, SignWeight(i.size))))
  }

  function SignWeight(size: nat): (w: nat)
    ensures w > 0
  {
    if size == 0 then 1 else 0x80 * Pow256(size - 1)
  }

  /** An element's loads, then its effect. */
  function LoadAndApply(e: Setting, i: Instruction, s: Machine, from: nat, to: nat): Outcome {
    match if UsesSource(i) then Load(e, s.cpu, from, i.size) else Done(s.cpu, 0)
    case Failed(t, status) => Stopped(s.(cpu := t), status, true)
    case Done(t, source) =>
      match if Compares(i) then Load(e, t, to, i.size) else Done(t, 0)
      case Failed(u, status) => Stopped(s.(cpu := u), status, true)
      case Done(u, other) => Effect(e, i, s.(cpu := u), to, source, other)
  }

  function Advanced(e: Setting, i: Instruction, s: Machine): Machine {
    s.(rsi := if UsesSource(i) then Moved(e, i, s.rsi) else s.rsi,
       rdi := if UsesDestination(i) then Moved(e, i, s.rdi) else s.rdi)
  }

  /** One element, without the count. */
  function Element(e: Setting, i: Instruction, s: Machine): Outcome {
    var from := if UsesSource(i) then Locate(e, e.source, s.rsi % Offsets(e, i), i.size) else Some(0);
    var to := if UsesDestination(i) then Locate(e, e.es, s.rdi % Offsets(e, i), i.size) else Some(0);
    if from.None? || to.None? then Stopped(s, AddressFault, false)
    else
      match LoadAndApply(e, i, s, from.value, to.value)
      case Stopped(t, status, faulted) => Stopped(t, status, faulted)
      case Completed(t) => Completed(Advanced(e, i, t))
  }

  // ----------------------------------------------------------------------
  // The instruction
  // ----------------------------------------------------------------------

  function Count(e: Setting, i: Instruction, s: Machine): nat {
    s.rcx % Offsets(e, i)
  }

  function WithCount(e: Setting, i: Instruction, s: Machine, count: nat): Machine {
    s.(rcx := High(s.rcx, Offsets(e, i)) + count % Offsets(e, i))
  }

  /** A repeated comparison ends on the zero flag. */
  predicate Ends(i: Instruction, s: Machine) {
    Compares(i) && ((i.rep && !s.status.zero) || (i.repne && s.status.zero))
  }

  datatype Run = Run(outcome: Outcome, again: bool)

  /** The loop of xxemul_x86_string, with `left` iterations to go; again asks for the instruction to be executed again. */
  function Loop(e: Setting, i: Instruction, s: Machine, count: nat, left: nat): Run
    requires left <= count
    decreases left
  {
    if left == 0 then Run(Completed(s), Repeats(i) && count != 0)
    else
      match Element(e, i, s)
      case Stopped(t, status, faulted) => Run(Stopped(t, status, faulted), false)
      case Completed(t) =>
        if !Repeats(i) then Run(Completed(t), false)
        else
          var u := WithCount(e, i, t, count - 1);
          if count - 1 != 0 && Ends(i, u) then Run(Completed(u), false) else Loop(e, i, u, count - 1, left - 1)
  }

  /** xxemul_x86_string */
  function String(e: Setting, i: Instruction, s: Machine): Run {
    var count := if Repeats(i) then Count(e, i, s) else 1;
    Loop(e, i, s, count, if count > CHUNK then CHUNK else count)
  }

  /** The instruction executed until it stops asking for more. */
  function Repeated(e: Setting, i: Instruction, s: Machine): Outcome
    decreases Count(e, i, s), 0
  {
    var r := String(e, i, s);
    StringDecreases(e, i, s);
    if r.again then Repeated(e, i, r.outcome.m) else r.outcome
  }

  /** The manual's definition: while the count is not zero, one element at a time. */
  function OneByOne(e: Setting, i: Instruction, s: Machine): Outcome
    decreases Count(e, i, s)
  {
    if !Repeats(i) then Element(e, i, s)
    else if Count(e, i, s) == 0 then Completed(s)
    else
      match Element(e, i, s)
      case Stopped(t, status, faulted) => Stopped(t, status, faulted)
      case Completed(t) =>
        var u := WithCount(e, i, t, Count(e, i, s) - 1);
        CountOf(e, i, t, Count(e, i, s) - 1);
        if Ends(i, u) then Completed(u) else OneByOne(e, i, u)
  }

  lemma CountOf(e: Setting, i: Instruction, s: Machine, count: nat)
    requires count < Offsets(e, i)
    ensures Count(e, i, WithCount(e, i, s, count)) == count
  {
    hide Offsets;
    var m := Offsets(e, i);
    ModuloUnique(count, 0, count, m);
    ModuloUnique(s.rcx / m * m + count, s.rcx / m, count, m);
  }

  lemma CountBelow(e: Setting, i: Instruction, s: Machine)
    ensures Count(e, i, s) < Offsets(e, i)
  {
  }

  /** The loop runs the first elements; what is left is the same instruction. */
  lemma {:induction false} LoopIsPrefix(e: Setting, i: Instruction, s: Machine, left: nat)
    requires Repeats(i) && left <= Count(e, i, s)
    ensures var r := Loop(e, i, s, Count(e, i, s), left);
            && (r.again ==> r.outcome.Completed? && Count(e, i, r.outcome.m) == Count(e, i, s) - left)
            && OneByOne(e, i, s) == if r.again then OneByOne(e, i, r.outcome.m) else r.outcome
    decreases left
  {
    hide Element, Offsets, Ends;
    if left > 0 && Element(e, i, s).Completed? {
      var t := Element(e, i, s).m;
      var count := Count(e, i, s) - 1;
      CountBelow(e, i, s);
      CountOf(e, i, t, count);
      var u := WithCount(e, i, t, count);
      if !Ends(i, u) || count == 0 {
        LoopIsPrefix(e, i, u, left - 1);
      }
    }
  }

  lemma StringDecreases(e: Setting, i: Instruction, s: Machine)
    ensures var r := String(e, i, s);
            r.again ==> r.outcome.Completed? && Count(e, i, r.outcome.m) < Count(e, i, s)
  {
    hide Element, Offsets;
    if Repeats(i) {
      LoopIsPrefix(e, i, s, if Count(e, i, s) > CHUNK then CHUNK else Count(e, i, s));
    }
  }

  /**
    Chunking is invisible: for every count, direction, address size and early
    exit, executing the instruction until it stops asking for more is executing
    it one element at a time.
  */
  lemma {:induction false} ChunkingIsInvisible(e: Setting, i: Instruction, s: Machine)
    ensures Repeated(e, i, s) == OneByOne(e, i, s)
    decreases Count(e, i, s)
  {
    hide Element, Offsets;
    var r := String(e, i, s);
    StringDecreases(e, i, s);
    if Repeats(i) {
      LoopIsPrefix(e, i, s, if Count(e, i, s) > CHUNK then CHUNK else Count(e, i, s));
      if r.again {
        ChunkingIsInvisible(e, i, r.outcome.m);
      }
    }
  }

  // ----------------------------------------------------------------------
  // What a fault leaves behind
  // ----------------------------------------------------------------------

  /** The machine after k elements, if they complete; each takes one off the count. */
  function Elements(e: Setting, i: Instruction, s: Machine, k: nat): Option<Machine>
    decreases k
  {
    if k == 0 then Some(s)
    else if Count(e, i, s) == 0 then None
    else
      match Element(e, i, s)
      case Stopped(_, _, _) => None
      case Completed(t) => Elements(e, i, WithCount(e, i, t, Count(e, i, s) - 1), k - 1)
  }

  /** An element that stops leaves every register and flag as it was. */
  lemma StoppedKeepsRegisters(e: Setting, i: Instruction, s: Machine)
    ensures var r := Element(e, i, s);
            r.Stopped? ==> r.m == s.(cpu := r.m.cpu)
  {
    hide Load, Store, Locate, Offsets, High, SubFlags;
  }

  lemma CompletedAdvances(e: Setting, i: Instruction, s: Machine)
    ensures var r := Element(e, i, s);
            r.Completed? ==> r.m.rsi == Advanced(e, i, s).rsi && r.m.rdi == Advanced(e, i, s).rdi && r.m.rcx == s.rcx
  {
    hide Load, Store, Locate, Offsets, High, SubFlags, Moved;
  }

  /**
    A repeated instruction is some number of whole elements: all of them, or as
    many as a comparison allows, or those before the element that stops it,
    whose registers then show exactly the completed ones.
  */
  lemma {:induction false} RunIsElements(e: Setting, i: Instruction, s: Machine) returns (k: nat)
    requires Repeats(i)
    ensures k <= Count(e, i, s) && Elements(e, i, s, k).Some?
    ensures var u := Elements(e, i, s, k).value;
            match OneByOne(e, i, s)
            case Completed(t) => t == u && (k == Count(e, i, s) || Ends(i, t))
            case Stopped(t, status, faulted) =>
              k < Count(e, i, s) && Element(e, i, u) == Stopped(t, status, faulted) && t == u.(cpu := t.cpu)
    decreases Count(e, i, s)
  {
    hide Element, Offsets, Ends;
    k := 0;
    if Count(e, i, s) != 0 {
      StoppedKeepsRegisters(e, i, s);
      if Element(e, i, s).Completed? {
        var u := WithCount(e, i, Element(e, i, s).m, Count(e, i, s) - 1);
        CountBelow(e, i, s);
        CountOf(e, i, Element(e, i, s).m, Count(e, i, s) - 1);
        if !Ends(i, u) {
          k := RunIsElements(e, i, u);
        }
        k := k + 1;
      }
    }
  }

  /** A pointer after k elements. */
  function MovedTimes(e: Setting, i: Instruction, pointer: nat, k: nat): nat {
    var m := Offsets(e, i);
    if k == 0 then pointer
    else
      (if e.mode.Mode64? && AddressSize(e, i) == 4 then 0 else High(pointer, m))
      + Wrapped(pointer % m + k * Delta(e, i), m)
  }

  lemma HighAndLow(v: nat, r: nat, m: nat)
    requires r < m
    ensures High(High(v, m) + r, m) == High(v, m) && (High(v, m) + r) % m == r
    ensures High(r, m) == 0 && r % m == r
  {
    ModuloUnique(v / m * m + r, v / m, r, m);
    ModuloUnique(r, 0, r, m);
  }

  lemma WrapTwice(a: int, d: int, m: nat)
    requires m > 0
    ensures Wrapped(Wrapped(a, m) + d, m) == Wrapped(a + d, m)
  {
    assert a + d == a % m + d + a / m * m;
    ModuloOf(a % m + d, a / m, m);
  }

  lemma MovedOnce(e: Setting, i: Instruction, pointer: nat, k: nat)
    ensures MovedTimes(e, i, Moved(e, i, pointer), k) == MovedTimes(e, i, pointer, k + 1)
  {
    hide Offsets, High, Wrapped, AddressSize, Delta;
    var m := Offsets(e, i);
    var d := Delta(e, i);
    var a := pointer % m;
    var moved := Moved(e, i, pointer);
    HighAndLow(pointer, Wrapped(a + d, m), m);
    assert moved % m == Wrapped(a + d, m);
    assert a + (k + 1) * d == a + d + k * d;
    WrapTwice(a + d, k * d, m);
  }

  /** The count and the pointers after k elements, wrapping within the address size. */
  lemma {:induction false} ElementsMove(e: Setting, i: Instruction, s: Machine, k: nat)
    requires Elements(e, i, s, k).Some?
    ensures k <= Count(e, i, s)
    ensures var u := Elements(e, i, s, k).value;
            && Count(e, i, u) == Count(e, i, s) - k && High(u.rcx, Offsets(e, i)) == High(s.rcx, Offsets(e, i))
            && u.rsi == (if UsesSource(i) then MovedTimes(e, i, s.rsi, k) else s.rsi)
            && u.rdi == (if UsesDestination(i) then MovedTimes(e, i, s.rdi, k) else s.rdi)
    decreases k
  {
    hide Element, Offsets, High, Moved;
    if k > 0 {
      var t := Element(e, i, s).m;
      var count := Count(e, i, s) - 1;
      CountBelow(e, i, s);
      CountOf(e, i, t, count);
      CompletedAdvances(e, i, s);
      HighAndLow(s.rcx, count, Offsets(e, i));
      HighAndLow(0, count, Offsets(e, i));
      MovedOnce(e, i, s.rsi, k - 1);
      MovedOnce(e, i, s.rdi, k - 1);
      ElementsMove(e, i, WithCount(e, i, t, count), k - 1);
    }
  }
}

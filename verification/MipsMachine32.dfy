/** The emulator object as the 32-bit MIPS core changes it (src/xxemul_mips.c, lines 23-53 and 74-285). */
module MipsMachine32 {
  import opened Wrappers
  import opened GuestMemory
  import opened MipsWords
  import Core = Mips32
  import X86Guest

  class Machine {
    const guest: X86Guest.Guest
    const big: bool
    const debugTraps: bool
    var gpr: seq<Word32>
    var hi: Word32
    var lo: Word32
    var pc: Word32
    var delayPending: bool
    var branchTarget: Word32
    var reservation: Option<Reservation>
    var halted: bool

    ghost function State(): Core.Cpu32
      reads this, guest.regionData
    {
      Core.Cpu32(gpr, hi, lo, pc, delayPending, branchTarget, reservation, guest.Mem(), big, debugTraps, halted)
    }

    constructor (guest: X86Guest.Guest, s: Core.Cpu32)
      requires s.mem == guest.Mem()
      ensures State() == s && this.guest == guest
    {
      this.guest, big, debugTraps := guest, s.big, s.debugTraps;
      gpr, hi, lo, pc := s.gpr, s.hi, s.lo, s.pc;
      delayPending, branchTarget, reservation, halted := s.delayed, s.target, s.reservation, s.halted;
    }

    /** mips_load */
    method LoadValue(address: Word32, size: nat) returns (status: Status, value: nat)
      requires 0 < size <= 4
      ensures match Core.Load(State(), address, size)
              case None => status == AddressFault
              case Some(v) => status == Ok && value == v
    {
      hide Pow256, Significance;
      value := 0;
      if address + size > W32 {
        return AddressFault, value;
      }
      var bytes;
      status, bytes := guest.ReadMemory(address, size);
      if status != Ok {
        return;
      }
      for i := 0 to size
        invariant value == Assemble(bytes, big, i)
      {
        value := value + bytes[i] * Pow256(Significance(size, i, big));
      }
    }

    /** mips_store */
    method StoreValue(address: Word32, size: nat, value: nat) returns (status: Status)
      requires 0 < size <= 4
      modifies this`reservation, guest.regionData
      ensures var x := Core.Store(old(State()), address, size, value);
              status == x.status && State() == old(State()).(mem := x.mem, reservation := x.reservation)
    {
      if address + size > W32 {
        return AddressFault;
      }
      var bytes: seq<byte> := [];
      for i := 0 to size
        invariant |bytes| == i
        invariant forall k | 0 <= k < i :: bytes[k] == ByteOf(value, Significance(size, k, big))
      {
        bytes := bytes + [ByteOf(value, Significance(size, i, big))];
      }
      assert bytes == Split(value, size, big);
      reservation := None;
      status := guest.WriteMemory(address, bytes);
    }

    /** LL remembers its address. */
    method LoadAligned(f: Fields, address: Word32) returns (status: Status, write: Option<(nat, Word32)>)
      modifies this`reservation
      ensures var x := Core.AlignedLoad(old(State()), f, address);
              status == x.status && write == x.write && x.mem == guest.Mem() && State() == old(State()).(reservation := x.reservation)
    {
      hide Core.Load, Core.Extended;
      write := None;
      var value;
      status, value := LoadValue(address, Core.SizeOf(f));
      if status != Ok {
        return;
      }
      write := Some((f.rt, Core.Extended(f, value)));
      if Core.IsLinked(f) {
        reservation := Some(Reservation(address, 4));
      }
    }

    method StoreIfLinked(f: Fields, address: Word32, b: Word32) returns (status: Status, write: Option<(nat, Word32)>)
      modifies this`reservation, guest.regionData
      ensures var x := Core.StoreConditional(old(State()), f, address, b);
              status == x.status && write == x.write && State() == old(State()).(mem := x.mem, reservation := x.reservation)
    {
      hide Core.Store;
      var reserved := reservation == Some(Reservation(address, 4));
      reservation, write := None, None;
      if reserved {
        status := StoreValue(address, 4, b);
        StoreWritesNothing(old(State()).(reservation := None), address, 4, b);
        if status != Ok {
          return;
        }
      }
      status, write := Ok, Some((f.rt, if reserved then 1 else 0));
    }

    method AccessUnaligned(f: Fields, address: Word32, b: Word32) returns (status: Status, write: Option<(nat, Word32)>)
      requires Core.IsUnaligned(f)
      modifies this`reservation, guest.regionData
      ensures var x := Core.Unaligned(old(State()), f, address, b);
              status == x.status && write == x.write && State() == old(State()).(mem := x.mem, reservation := x.reservation)
    {
      hide Core.Store, Core.Load, WithField, Down;
      var left := f.op == 34 || f.op == 42;
      var offset := address % 4;
      var size := if left == big then 4 - offset else offset + 1;
      var at := if left == big then address else address / 4 * 4;
      var shift := if left then 4 - size else 0;
      write := None;
      if Core.IsStore(f) {
        status := StoreValue(at, size, Down(b, 8 * shift));
        StoreWritesNothing(old(State()), at, size, Down(b, 8 * shift));
        return;
      }
      var value;
      status, value := LoadValue(at, size);
      if status == Ok {
        write := Some((f.rt, Low(WithField(b, 8 * shift, 8 * size, value))));
      }
    }

    method AccessMemory(f: Fields, a: Word32, b: Word32) returns (status: Status, write: Option<(nat, Word32)>)
      modifies this`reservation, guest.regionData
      ensures var x := Core.Accesses(old(State()), f, a, b);
              status == x.status && write == x.write && State() == old(State()).(mem := x.mem, reservation := x.reservation)
    {
      hide Core.Store, Core.Unaligned, Core.AlignedLoad, Core.StoreConditional, Core.Address;
      var address := Core.Address(f, a);
      write := None;
      if Core.IsUnaligned(f) {
        status, write := AccessUnaligned(f, address, b);
      } else if !Aligned(address, Core.SizeOf(f)) {
        status := AddressFault;
      } else if !Core.IsStore(f) {
        status, write := LoadAligned(f, address);
      } else if Core.IsConditionalStore(f) {
        status, write := StoreIfLinked(f, address, b);
      } else {
        status := StoreValue(address, Core.SizeOf(f), b);
        StoreWritesNothing(old(State()), address, Core.SizeOf(f), b);
      }
    }

    /** Commit a register copy and go on. */
    method Commit(r: seq<Word32>, next: Word32, pending: bool)
      requires |r| == 32
      modifies this
      ensures State() == old(State()).(gpr := r[0 := 0], pc := next, delayed := pending)
    {
      gpr, pc, delayPending := r[0 := 0], next, pending;
    }

    method TakeBranch(branch: Branch<Word32>) returns (status: Status)
      requires Core.Valid(State()) && (branch.link.Some? ==> branch.link.value < 32)
      modifies this
      ensures (State(), status) == Core.FollowBranch(old(State()), branch)
    {
      if delayPending {
        return UnsupportedInstruction;
      }
      var r := gpr;
      if branch.link.Some? {
        r := r[branch.link.value := Low(pc + 8)];
      }
      if branch.likely && !branch.taken {
        Commit(r, Low(pc + 8), false);
      } else {
        branchTarget := branch.target;
        Commit(r, Low(pc + 4), true);
      }
      status := Ok;
    }

    method Compute(f: Fields, a: Word32, b: Word32) returns (status: Status)
      requires Core.Valid(State()) && f.Valid()
      modifies this
      ensures (State(), status) == Core.FinishAlu(old(State()), Core.Operate(f, a, b, old(hi), old(lo)))
    {
      hide Core.Operate;
      Core.OperateWritesTarget(f, a, b, hi, lo);
      var next := if delayPending then branchTarget else Low(pc + 4);
      var r, result := gpr, Core.Operate(f, a, b, hi, lo);
      if result == Refused {
        return UnsupportedInstruction;
      }
      match result {
        case Write(register, value) => r := r[register := value];
        case WriteHiLo(high, low) => hi, lo := high, low;
        case Nothing =>
        case Refused =>
      }
      Commit(r, next, false);
      status := Ok;
    }

    method FetchInstruction(decodes: Word32 -> bool) returns (status: Status, raw: Word32)
      ensures (status, raw) == Core.FetchInstruction(State(), decodes)
    {
      raw := 0;
      if pc % 4 != 0 {
        return AddressFault, raw;
      }
      var value;
      status, value := LoadCode();
      if status != Ok {
        return;
      }
      raw := Low(value);
      status := if decodes(raw) then Ok else DecodeError;
    }

    /** The word at pc. */
    method LoadCode() returns (status: Status, value: nat)
      ensures status == if Holds(guest.Mem(), pc, 4) then Ok else AddressFault
      ensures status == Ok ==> value == Assemble(ReadBytes(guest.Mem(), pc, 4), big, 4)
    {
      value := 0;
      var bytes;
      status, bytes := guest.ReadMemory(pc, 4);
      if status != Ok {
        return;
      }
      for i := 0 to 4
        invariant value == Assemble(bytes, big, i)
      {
        value := value + bytes[i] * Pow256(Significance(4, i, big));
      }
    }

    method Execute(f: Fields) returns (status: Status)
      requires Core.Valid(State()) && f.Valid()
      modifies this, guest.regionData
      ensures (State(), status) == Core.Execute(old(State()), f)
    {
      hide Core.Accesses, Core.Operate, Core.Jump, Core.Conditional, Core.FollowBranch, Core.FinishAlu;
      var a, b := Read(gpr, 0, f.rs), Read(gpr, 0, f.rt);
      var next := if delayPending then branchTarget else Low(pc + 4);
      if IsBreak(f) {
        Commit(gpr, next, false);
        if debugTraps {
          return Breakpoint;
        }
        halted := true;
        return Halted;
      }
      if IsJump(f) {
        LinksAreRegisters(f, a, b, pc);
        status := TakeBranch(Core.Jump(f, a, pc));
      } else if IsConditional(f) {
        LinksAreRegisters(f, a, b, pc);
        status := TakeBranch(Core.Conditional(f, a, b, pc));
      } else if IsWordAccess(f) {
        Core.AccessWritesTarget(State(), f, a, b);
        var write;
        status, write := AccessMemory(f, a, b);
        if status == Ok {
          Commit(if write.Some? then gpr[write.value.0 := write.value.1] else gpr, next, false);
        }
      } else {
        status := Compute(f, a, b);
      }
    }

    /** xxemul_mips_step */
    method Step(decodes: Word32 -> bool) returns (status: Status)
      requires Core.Valid(State())
      modifies this, guest.regionData
      ensures (State(), status) == Core.Step(old(State()), decodes)
    {
      hide Core.FetchInstruction, Core.Execute;
      var raw;
      status, raw := FetchInstruction(decodes);
      if status == Ok {
        status := Execute(FieldsOf(raw));
      }
    }

    /** xxemul_write_memory by the host */
    method HostWrite(address: nat, data: seq<byte>) returns (status: Status)
      modifies this`reservation, guest.regionData
      ensures status == if data == [] || Holds(old(guest.Mem()), address, |data|) then Ok else AddressFault
      ensures State() == old(State()).(
                mem := if data != [] && status == Ok then WriteBytes(old(guest.Mem()), address, data) else old(guest.Mem()),
                reservation := if data == [] then old(reservation) else None)
    {
      if data == [] {
        return Ok;
      }
      reservation := None;
      status := guest.WriteMemory(address, data);
    }

    /** xxemul_set_mips_state */
    method SetState(registers: seq<Word32>, high: Word32, low: Word32, address: Word32) returns (status: Status)
      requires |registers| == 32
      modifies this
      ensures status == if address % 4 == 0 then Ok else InvalidArgument
      ensures State() == if status != Ok then old(State()) else old(State()).(
                gpr := registers[0 := 0], hi := high, lo := low, pc := address,
                delayed := old(delayPending) && address == old(pc), reservation := None, halted := false)
    {
      if address % 4 != 0 {
        return InvalidArgument;
      }
      if pc != address {
        delayPending := false;
      }
      gpr, hi, lo, pc := registers[0 := 0], high, low, address;
      reservation, halted := None, false;
      status := Ok;
    }
  }

  lemma StoreWritesNothing(s: Core.Cpu32, address: Word32, size: nat, v: nat)
    requires 0 < size <= 4
    ensures Core.Store(s, address, size, v).write == None
  {
  }

  lemma LinksAreRegisters(f: Fields, a: Word32, b: Word32, pc: Word32)
    requires f.Valid()
    ensures Core.Jump(f, a, pc).link.Some? ==> Core.Jump(f, a, pc).link.value < 32
    ensures Core.Conditional(f, a, b, pc).link.Some? ==> Core.Conditional(f, a, b, pc).link.value < 32
  {
  }
}

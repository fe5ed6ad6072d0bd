/** The emulator object as string instructions change it (src/xxemul_x86.c, lines 226-252 and 1720-1901). */
module X86StringMachine {
  import opened Wrappers
  import opened GuestMemory
  import opened X86Paging
  import opened X86Guest
  import opened X86Strings
  import X86Gates

  class StringUnit {
    const guest: Guest
    const dos: bool
    const mode: Mode
    const source: SegmentRegister
    const es: SegmentRegister
    var backward: bool
    var rax: nat
    var rcx: nat
    var rsi: nat
    var rdi: nat
    var status: Status6

    ghost function State(): Machine
      reads this, guest, guest.regionData
    {
      Machine(guest.State(), rax, rcx, rsi, rdi, status)
    }

    function Here(): Setting
      reads this, guest
    {
      Setting(dos, mode, guest.control, source, es, backward)
    }

    constructor (guest: Guest, e: Setting, s: Machine)
      requires s.cpu == guest.State() && e.control == guest.control
      ensures State() == s && Here() == e && this.guest == guest
    {
      this.guest, dos, mode, source, es, backward := guest, e.dos, e.mode, e.source, e.es, e.backward;
      rax, rcx, rsi, rdi, status := s.rax, s.rcx, s.rsi, s.rdi, s.status;
    }

    method LoadInteger(address: nat, size: nat) returns (result: Status, value: nat)
      requires 0 < size <= 8
      modifies guest, guest.regionData
      ensures Here() == old(Here())
      ensures Load(Here(), old(guest.State()), address, size)
              == if result == Ok then X86Gates.Done(guest.State(), value) else X86Gates.Failed(guest.State(), result)
    {
      hide GuestRead, Holds;
      value := 0;
      if !dos {
        result, value := guest.LoadInteger(address, size);
        return;
      }
      var data;
      result, data := guest.ReadGuest(address, size);
      if result != Ok {
        return;
      }
      for index := 0 to size
        invariant value == LittleEndian(data[..index])
      {
        assert data[..index + 1][..index] == data[..index];
        value := value + data[index] * Pow256(index);
      }
      assert data[..size] == data;
    }

    method StoreInteger(address: nat, size: nat, value: nat) returns (result: Status)
      requires 0 < size <= 8
      modifies guest, guest.regionData
      ensures Here() == old(Here())
      ensures Store(Here(), old(guest.State()), address, size, value) == (guest.State(), result)
    {
      hide GuestWrite, Holds;
      var data: seq<byte> := [];
      for index := 0 to size
        invariant |data| == index
        invariant forall k | 0 <= k < index :: data[k] == value / Pow256(k) % 0x100
      {
        data := data + [value / Pow256(index) % 0x100];
      }
      assert data == Bytes(size, value);
      if dos {
        result := guest.WriteGuest(address, data);
      } else {
        result := guest.WriteMemory(address, data);
      }
    }

    /** The accesses of one element and their effect, at addresses already checked. */
    method Apply(i: Instruction, from: nat, to: nat) returns (result: Status)
      requires 0 < i.size <= 8
      modifies this`rax, this`status, guest, guest.regionData
      ensures Here() == old(Here())
      ensures LoadAndApply(Here(), i, old(State()), from, to)
              == if result == Ok then Completed(State()) else Stopped(State(), result, true)
    {
      hide Load, Store, SubFlags, High, SignWeight;
      var loaded, other := 0, 0;
      if UsesSource(i) {
        result, loaded := LoadInteger(from, i.size);
        if result != Ok {
          return;
        }
      }
      if Compares(i) {
        result, other := LoadInteger(to, i.size);
        if result != Ok {
          return;
        }
      }
      var accumulator := rax % Pow256(i.size);
      result := Ok;
      match i.op {
        case Movs => result := StoreInteger(to, i.size, loaded);
        case Stos => result := StoreInteger(to, i.size, accumulator);
        case Lods =>
          rax := High(rax, Pow256(i.size)) + loaded;
          if i.size == 4 && mode.Mode64? {
            rax := rax % TWO_32;
          }
        case Cmps => status := SubFlags(loaded, other, SignWeight(i.size));
        case Scas => status := SubFlags(accumulator, other, SignWeight(i.size));
      }
    }

    /** One turn of the loop, but for the count. */
    method Turn(i: Instruction) returns (result: Status, faulted: bool)
      requires 0 < i.size <= 8
      modifies this, guest, guest.regionData
      ensures Here() == old(Here())
      ensures Element(Here(), i, old(State())) == if result == Ok then Completed(State()) else Stopped(State(), result, faulted)
    {
      hide Load, LoadAndApply, Locate, Offsets, Moved;
      var from := if UsesSource(i) then Locate(Here(), source, rsi % Offsets(Here(), i), i.size) else Some(0);
      var to := if UsesDestination(i) then Locate(Here(), es, rdi % Offsets(Here(), i), i.size) else Some(0);
      if from.None? || to.None? {
        return AddressFault, false;
      }
      result := Apply(i, from.value, to.value);
      if result != Ok {
        return result, true;
      }
      if UsesSource(i) {
        rsi := Moved(Here(), i, rsi);
      }
      if UsesDestination(i) {
        rdi := Moved(Here(), i, rdi);
      }
      faulted := false;
    }

    /** A repeated comparison ends on the zero flag. */
    method EndsNow(i: Instruction) returns (ends: bool)
      ensures ends == Ends(i, State())
    {
      ends := Compares(i) && ((i.rep && !status.zero) || (i.repne && status.zero));
    }

    /** xxemul_x86_string; again says that the next instruction is this one. */
    method Execute(i: Instruction) returns (result: Status, faulted: bool, again: bool)
      requires 0 < i.size <= 8
      modifies this, guest, guest.regionData
      ensures Here() == old(Here())
      ensures String(Here(), i, old(State()))
              == Run(if result == Ok then Completed(State()) else Stopped(State(), result, faulted), again)
    {
      hide Element, Offsets, High, Ends, Compares, SubFlags, Moved;
      ghost var e, start := Here(), State();
      var count := if Repeats(i) then rcx % Offsets(Here(), i) else 1;
      var iterations := if count > CHUNK then CHUNK else count;
      var index := 0;
      again, faulted := false, false;
      while index < iterations
        invariant index <= iterations && Here() == e
        invariant !Repeats(i) ==> count == 1 == iterations
        invariant iterations - index <= count
        invariant if !Repeats(i) && index == 1 then String(e, i, start) == Run(Completed(State()), false)
                  else Loop(e, i, State(), count, iterations - index) == String(e, i, start)
      {
        result, faulted := Turn(i);
        if result != Ok {
          return;
        }
        if Repeats(i) {
          count := count - 1;
          rcx := High(rcx, Offsets(Here(), i)) + count % Offsets(Here(), i);
          var ends := EndsNow(i);
          if ends && count != 0 {
            break;
          }
        }
        index := index + 1;
      }
      again := Repeats(i) && count != 0 && index == iterations;
      result := Ok;
    }
  }
}

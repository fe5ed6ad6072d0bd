/** LL/SC on the 32-bit core. */
module MipsReservations32 {
  import opened Wrappers
  import opened GuestMemory
  import opened MipsWords
  import opened MipsReservations
  import opened Mips32

  /** Between steps a host may write memory, or set the register state. */
  datatype Event = Stepped | HostWrite(address: nat, data: seq<byte>) | SetState(gpr: seq<Word32>, hi: Word32, lo: Word32, pc: Word32)

  /** xxemul_write_memory and xxemul_set_mips_state */
  function Next(s: Cpu32, e: Event, decodes: Word32 -> bool): (t: Cpu32)
    requires Valid(s) && (e.SetState? ==> |e.gpr| == 32)
    ensures Valid(t)
  {
    match e
    case Stepped => Step(s, decodes).0
    case HostWrite(address, data) =>
      if data == [] then s
      else if Holds(s.mem, address, |data|) then s.(mem := WriteBytes(s.mem, address, data), reservation := None)
      else s.(reservation := None)
    case SetState(gpr, hi, lo, pc) =>
      if pc % 4 != 0 then s
      else s.(gpr := gpr[0 := 0], hi := hi, lo := lo, pc := pc, delayed := s.delayed && pc == s.pc, reservation := None, halted := false)
  }

  predicate Runs(states: seq<Cpu32>, events: seq<Event>, decodes: Word32 -> bool) {
    && |states| == |events| + 1 && (forall i | 0 <= i < |states| :: Valid(states[i]))
    && forall i | 0 <= i < |events| ::
         (events[i].SetState? ==> |events[i].gpr| == 32) && states[i + 1] == Next(states[i], events[i], decodes)
  }

  /** The access a step makes, if its instruction is one. */
  function AccessOf(s: Cpu32, decodes: Word32 -> bool): Option<Fields>
    requires Valid(s)
  {
    var (status, raw) := FetchInstruction(s, decodes);
    var f := FieldsOf(raw);
    if status == Ok && IsWordAccess(f) then Some(f) else None
  }

  function Target(s: Cpu32, f: Fields): Reservation
    requires Valid(s) && f.Valid()
  {
    Reservation(Address(f, Reg(s, f.rs)), SizeOf(f))
  }

  /** A store or SC that passes its alignment check: no such access can leave the address space. */
  predicate StoresAt(s: Cpu32, f: Fields)
    requires Valid(s) && f.Valid()
  {
    IsStore(f) && (IsUnaligned(f) || Aligned(Target(s, f).address, SizeOf(f)))
  }

  predicate LoadsLinked(s: Cpu32, f: Fields)
    requires Valid(s) && f.Valid()
  {
    IsLinked(f) && Aligned(Target(s, f).address, SizeOf(f)) && Load(s, Target(s, f).address, SizeOf(f)).Some?
  }

  /** What an event does to the reservation, read off the event alone. */
  function EffectOf(s: Cpu32, e: Event, decodes: Word32 -> bool): Effect
    requires Valid(s)
  {
    match e
    case HostWrite(_, data) => if data == [] then Keeps else Ends
    case SetState(_, _, _, pc) => if pc % 4 != 0 then Keeps else Ends
    case Stepped =>
      match AccessOf(s, decodes)
      case None => Keeps
      case Some(f) =>
        AccessIsValid(s, decodes);
        if StoresAt(s, f) then Ends else if LoadsLinked(s, f) then Links(Target(s, f)) else Keeps
  }

  lemma AccessIsValid(s: Cpu32, decodes: Word32 -> bool)
    requires Valid(s)
    ensures AccessOf(s, decodes).Some? ==> AccessOf(s, decodes).value.Valid()
  {
    hide FetchInstruction;
  }

  function ViewOf(s: Cpu32): View {
    View(s.mem, s.reservation)
  }

  /** What the access of a step does to memory and to the reservation. */
  lemma AccessFollows(s: Cpu32, f: Fields)
    requires Valid(s) && f.Valid() && IsWordAccess(f)
    ensures var x := Accesses(s, f, Reg(s, f.rs), Reg(s, f.rt));
            Follows(ViewOf(s), if StoresAt(s, f) then Ends else if LoadsLinked(s, f) then Links(Target(s, f)) else Keeps,
                    View(x.mem, x.reservation))
  {
    hide Load, Split, Assemble, WithField, Down, Extended, Holds;
    var address := Target(s, f).address;
    if IsStore(f) && IsUnaligned(f) {
      UnalignedEnds(s, f, address, Reg(s, f.rt));
    }
  }

  lemma UnalignedEnds(s: Cpu32, f: Fields, address: Word32, b: Word32)
    requires IsUnaligned(f) && IsStore(f)
    ensures Unaligned(s, f, address, b).reservation == None
  {
    hide Split, Down;
    assert address / 4 * 4 + 4 <= W32;
  }

  lemma ElsewhereKeeps(s: Cpu32, f: Fields)
    requires Valid(s) && f.Valid() && !IsWordAccess(f)
    ensures ViewOf(Execute(s, f).0) == ViewOf(s)
  {
    hide Operate, Jump, Conditional, Written, NextPc;
    OperateWritesTarget(f, Reg(s, f.rs), Reg(s, f.rt), s.hi, s.lo);
  }

  lemma AccessView(s: Cpu32, f: Fields)
    requires Valid(s) && f.Valid() && IsWordAccess(f)
    ensures var x := Accesses(s, f, Reg(s, f.rs), Reg(s, f.rt)); ViewOf(Execute(s, f).0) == View(x.mem, x.reservation)
  {
    hide Accesses, Written, NextPc;
    AccessWritesTarget(s, f, Reg(s, f.rs), Reg(s, f.rt));
  }

  /** Every event does to memory and to the reservation what its effect says. */
  lemma EventFollows(s: Cpu32, e: Event, decodes: Word32 -> bool)
    requires Valid(s) && (e.SetState? ==> |e.gpr| == 32)
    ensures Follows(ViewOf(s), EffectOf(s, e, decodes), ViewOf(Next(s, e, decodes)))
  {
    hide FetchInstruction, Execute, Accesses, StoresAt, LoadsLinked;
    if e.Stepped? {
      var (status, raw) := FetchInstruction(s, decodes);
      if status == Ok {
        if IsWordAccess(FieldsOf(raw)) {
          AccessFollows(s, FieldsOf(raw));
          AccessView(s, FieldsOf(raw));
        } else {
          ElsewhereKeeps(s, FieldsOf(raw));
        }
      }
    }
  }

  /** The next step is an SC that will store. */
  predicate StoresConditionally(s: Cpu32, decodes: Word32 -> bool)
    requires Valid(s)
  {
    var f := AccessOf(s, decodes);
    AccessIsValid(s, decodes);
    && f.Some? && IsConditionalStore(f.value) && Aligned(Target(s, f.value).address, SizeOf(f.value))
    && var write := Accesses(s, f.value, Reg(s, f.value.rs), Reg(s, f.value.rt)).write;
       write.Some? && write.value.1 == 1
  }

  lemma UnreservedWritesZero(s: Cpu32, f: Fields, address: Word32, b: Word32)
    requires s.reservation != Some(Reservation(address, 4))
    ensures var write := StoreConditional(s, f, address, b).write; write.Some? && write.value.1 == 0
  {
  }

  lemma ConditionalStoreNeedsReservation(s: Cpu32, f: Fields)
    requires Valid(s) && f.Valid() && IsConditionalStore(f) && Aligned(Target(s, f).address, SizeOf(f))
    requires var write := Accesses(s, f, Reg(s, f.rs), Reg(s, f.rt)).write; write.Some? && write.value.1 == 1
    ensures s.reservation == Some(Target(s, f))
  {
    hide StoreConditional, Store, AlignedLoad, Unaligned;
    if s.reservation != Some(Target(s, f)) {
      UnreservedWritesZero(s, f, Target(s, f).address, Reg(s, f.rt));
    }
  }

  /**
    Atomicity.  However steps, host writes and state writes interleave, an SC
    that stores pairs with an earlier LL of the same address and size, and
    between the two no store, SC, host write or state write took effect and no
    other address was linked: memory is what it was when the LL read it.
  */
  lemma ConditionalStoreIsAtomic(states: seq<Cpu32>, events: seq<Event>, decodes: Word32 -> bool, j: nat) returns (i: nat)
    requires Runs(states, events, decodes) && states[0].reservation == None
    requires j < |events| && events[j].Stepped? && StoresConditionally(states[j], decodes)
    ensures i < j && events[i].Stepped?
    ensures AccessOf(states[j], decodes).Some? && AccessOf(states[j], decodes).value.Valid()
    ensures EffectOf(states[i], events[i], decodes) == Links(Target(states[j], AccessOf(states[j], decodes).value))
    ensures forall k | i < k < j :: EffectOf(states[k], events[k], decodes) == Keeps
    ensures states[i].mem == states[j].mem
  {
    hide AccessOf, Target, StoresAt, LoadsLinked, Accesses, Aligned, Next;
    AccessIsValid(states[j], decodes);
    ConditionalStoreNeedsReservation(states[j], AccessOf(states[j], decodes).value);
    var views := seq(|states|, k requires 0 <= k < |states| => ViewOf(states[k]));
    var effects := seq(|events|, k requires 0 <= k < |events| => EffectOf(states[k], events[k], decodes));
    forall k | 0 <= k < |effects|
      ensures Follows(views[k], effects[k], views[k + 1])
    {
      EventFollows(states[k], events[k], decodes);
    }
    i := ReservationHasLink(views, effects, j);
    assert views[j] == ViewOf(states[j]) && views[i] == ViewOf(states[i]);
    forall k | i < k < j
      ensures EffectOf(states[k], events[k], decodes) == Keeps
    {
      assert effects[k] == Keeps;
    }
    assert effects[i] == EffectOf(states[i], events[i], decodes);
  }

  /** A step that fails leaves everything but the reservation, which a failed store may end. */
  lemma FailedStepChangesNothing(s: Cpu32, decodes: Word32 -> bool)
    requires Valid(s)
    ensures var (t, status) := Step(s, decodes);
            status != Ok && status != Breakpoint && status != Halted ==> t == s.(reservation := t.reservation)
  {
    hide FetchInstruction, Accesses, Operate, Jump, Conditional, Written, NextPc, FieldsOf;
    var (status, raw) := FetchInstruction(s, decodes);
    if status == Ok {
      var f := FieldsOf(raw);
      var a, b := Reg(s, f.rs), Reg(s, f.rt);
      AccessWritesTarget(s, f, a, b);
      OperateWritesTarget(f, a, b, s.hi, s.lo);
      FailedAccessKeepsMemory(s, f, a, b);
    }
  }

  lemma FailedAccessKeepsMemory(s: Cpu32, f: Fields, a: Word32, b: Word32)
    ensures var x := Accesses(s, f, a, b); x.status != Ok ==> x.mem == s.mem
  {
    hide Load, Split, Assemble, WithField, Down, Extended, Holds;
  }
}

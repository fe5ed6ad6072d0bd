# Verified models of the xxemul interpreters

xxemul executes guest programs of several machines over one region of guest
memory. This project models the parts of it in which small mistakes are hard to
see, and proves for all inputs, all runs or all reachable states what those parts
are for:

- **CIL** (`Cil*.dfy`): the exception engine of a method frame, with its stack of
  pending transfers; the mutually recursive interpreter with its budgets; virtual
  dispatch; checked arithmetic and conversions.
- **x86 system layer** (`X86*.dfy`): the A20 gate and two-level paging with
  accessed and dirty updates, guest accesses that cross pages, protected interrupt
  gates and IRET, repeated string instructions, division.
- **MIPS** (`Mips*.dfy`): the 32-bit and the 64-bit core, step by step, the
  simulation of one by the other, load-linked and store-conditional over runs,
  unaligned loads and stores; and the wide products of three cores
  (`WideMultiply.dfy`).
- **DEX** (`Dex*.dfy`): assignability, the superclass check and method lookup.
- **Text** (`Utf16Codec.dfy`, `Utf16Strings.dfy`, `GlobMatch.dfy`): strings indexed
  in UTF-16 units over UTF-8 with lone surrogates, and the wildcard matcher.
- **ARM** (`ArmFlags.dfy`): condition flags against AddWithCarry.

Where the source updates an object in place, the model is a class whose methods
are proved against functions on the object's abstract value (`State()`), and the
properties are lemmas about those functions. `Guest` in `X86Guest.dfy` is the one
memory region; the x86 and MIPS machines share it. Code that only computes is
functions and lemmas. Instruction decoders are parameters or absent: an
instruction arrives as its fields.

Machine words are naturals below a power of two with the wrap-around written out.
The sentinels `SIZE_MAX` and `UINT32_MAX` are `None`.

`dafny verify dfyconfig.toml` checks everything.

## Conditions that turn out to matter

Each of these is a difference from the standard or an assumption that cannot be
dropped; each is proved, with the exact condition under which the code does what is
expected, or with an input for which it does not.

- `conv.ovf.u1` and `conv.ovf.u2` (and their `.un` forms) compare with a 64-bit
  mask, so a value above the target's range passes when it is positive:
  `conv.ovf.u1` of 300 is 44 (`CilArithmetic.CheckedConversionExactly`,
  `CheckedConversionCounterexample`).
- `conv.u8`, and `conv.u` with 64-bit pointers, sign-extend a 32-bit value, also a
  native int with 4-byte pointers (`CilArithmetic.WideningUnsignedExactly`).
- The order of finalizers is innermost first exactly when every finally or fault
  that sits in a sibling handler of another's try block precedes it in the order by
  try length and index; lexical nesting alone does not give that
  (`CilClauses.InnermostFirstExactly`, `OrderCounterexample`). The transfer stack
  discipline needs lexical nesting only (`CilFrameRuns.RunsKeepDiscipline`).
- The full-width EXT of the 64-bit MIPS core zero-extends, so it agrees with the
  32-bit core exactly for values with a clear sign bit
  (`MipsSimulation.FullExtractExactly`).
- IRET restores EFLAGS exactly when the handler runs in ring 0, or IOPL was left
  alone and IF could be changed or need not be (`X86RoundTrip.FlagsRestored`,
  `IretUndoesGate`).
- A page-crossing write with a byte in an entry that translates a later page of it
  can store some bytes and then fault; for writes at multiples of four that is the
  exact condition (`X86Tearing.AllOrNothingExactly`, `X86GuestWrites.TornWrite`).
- rethrow inside a catch handler finds the innermost handler's exception in every
  reachable state exactly when no catch handler holds offset 0 or shares its start
  with a handler around its clause (`CilRethrow.RethrowExactly`, `HandlerAtStart`).
- `glob_match` compares a `*` of the pattern with a `*` of the text as a plain
  character before it treats it as a wildcard; for a given text it is right about all
  patterns exactly when the text has no `*`
  (`GlobMatch.GlobExactly`).
- `String.Concat` joins bytes: when a high surrogate meets a low one the result
  decodes to the right units but is not the encoding `units_to_text` would produce
  (`Utf16Codec.JoinedTextsExactly`).

## Model

| member | source | states |
|---|---|---|
| CilClauses.IsProtected | src/xxemul_dotnet_runtime.c:1116-1127 | A clause protects an offset exactly when its try block holds it, or a handler of a clause with the same try block does |
| CilClauses.FindNextFinally | src/xxemul_dotnet_runtime.c:1128-1148 | The loop selects the least finally or fault, in the order of net_finally_before, that the transfer leaves and has not run; none exactly when none is left |
| CilClauses.BeforeTotal | src/xxemul_dotnet_runtime.c:1128-1134 | net_finally_before is a strict total order on clauses |
| CilClauses.BeforeTransitive | src/xxemul_dotnet_runtime.c:1128-1134 | net_finally_before is transitive |
| CilClauses.FinalizersExact | src/xxemul_dotnet_runtime.c:1116-1189 | The successive selections of a transfer are exactly the finally clauses (and faults, if exceptional) that protect its origin and not its target and in whose own handler the origin does not lie, each once, in strictly increasing order |
| CilClauses.InnermostFirstExactly | src/xxemul_dotnet_runtime.c:1128-1148 | For lexically nested clauses, every transfer runs its finalizers innermost first if and only if a finally in a sibling's handler always precedes that sibling's finally in the order |
| CilClauses.InnermostFirstWhenAlone | src/xxemul_dotnet_runtime.c:1128-1148 | When no finally or fault shares its try block with another clause, each finalizer's try block lies within those of all later ones |
| CilClauses.OrderCounterexample | src/xxemul_dotnet_runtime.c:1128-1148 | Three lexically nested clauses for which a finally runs before the one nested in its sibling catch handler |
| CilUnwind.Frame.constructor | src/xxemul_dotnet_runtime.c:1625-1634 | A new frame has room for one transfer more than there are clauses, none pending and nothing caught |
| CilUnwind.ContinueTransfer | src/xxemul_dotnet_runtime.c:1157-1189 | The in-place step of the top transfer equals the function on the frame's state: next finalizer with an empty stack, or pop and enter the catch, the target, or propagate |
| CilUnwind.BeginTransfer | src/xxemul_dotnet_runtime.c:1190-1212 | Transfers whose handler does not hold the target are abandoned, the new one is pushed if there is room, and continued |
| CilUnwind.DispatchException | src/xxemul_dotnet_runtime.c:1213-1232 | The catch selected is the first shortest one around the offset whose class matches; the exception transfer starts towards it |
| CilUnwind.EhBranch | src/xxemul_dotnet_runtime.c:1233-1250 | A branch or leave is refused exactly when some clause forbids it |
| CilUnwind.EhFallthrough | src/xxemul_dotnet_runtime.c:1251-1266 | Falling through is refused exactly when it enters or leaves a handler, leaves a try block, or enters one with values on the stack |
| CilFrameRuns.ExitedIsNested | src/xxemul_dotnet_runtime.c:1116-1148 | A finalizer that a transfer runs while inside a handler and staying inside it lies strictly within that handler |
| CilFrameRuns.StepKeepsDiscipline | src/xxemul_dotnet_runtime.c:1190-1265 | Every step of a frame keeps the active handlers strictly nested and around the offset |
| CilFrameRuns.RunsKeepDiscipline | src/xxemul_dotnet_runtime.c:1190-1265 | In every reachable state of a frame with lexically nested clauses, the active handlers on the transfer stack are strictly nested and hold the offset |
| CilFrameRuns.ContinuationLimitUnreachable | src/xxemul_dotnet_runtime.c:1190-1200 | In every reachable state the next event leaves room on the transfer stack: the continuation limit failure cannot happen |
| CilFrameRuns.CompletedTransfersRanTheirFinalizers | src/xxemul_dotnet_runtime.c:1157-1189 | Over whole runs, with transfers suspended and abandoned in between, a transfer that completes has run exactly its finalizers, each once, in order |
| CilRethrow.FindRethrow | src/xxemul_dotnet_runtime.c:1503-1512 | The search finds the shortest catch handler around the offset that holds an exception |
| CilRethrow.RethrowFindsInnermost | src/xxemul_dotnet_runtime.c:1503-1512 | When no catch handler holds offset 0 or starts where a handler around its clause starts: in every state reachable from the start, or from a frame standing anywhere, rethrow fails exactly outside catch handlers, and otherwise rethrows what the innermost one caught |
| CilRethrow.RethrowExactly | src/xxemul_dotnet_runtime.c:1503-1512 | For lexically nested clauses that condition is exact: if it fails, some run reaches a state in which rethrow is wrong |
| CilRethrow.HandlerAtStart | src/xxemul_dotnet_runtime.c:1503-1512 | A table net_prepare_code accepts, with a catch handler at offset 0, where rethrow finds nothing though the offset is in the handler |
| CilFrameRuns.SelectionIsInnermost | src/xxemul_dotnet_runtime.c:1213-1232 | For nested clauses the selected catch is the innermost matching one, the first of those on the same try block; none exactly when none matches |
| CilInterpreter.PrepareCode | src/xxemul_dotnet_runtime.c:594-641 | Success means that exactly the offsets the decoder reaches from 0 are boundaries, and every clause is well formed and lies on them |
| CilInterpreter.MarkBoundaries | src/xxemul_dotnet_runtime.c:602-611 | The sweep marks exactly the offsets decoding reaches |
| CilInterpreter.Vm.Initialize | src/xxemul_dotnet_runtime.c:544-581 | Terminates; the type ends initialised or failed for good, a running or finished one is left alone, and every counter and the caller's position is restored |
| CilInterpreter.Vm.StaticFieldInstruction | src/xxemul_dotnet_runtime.c:885-924 | ldsfld and stsfld run the initializer of the owner; they succeed only on a known field whose owner is running or initialised, and restore every counter and the caller's position |
| CilInterpreter.Vm.Execute | src/xxemul_dotnet_runtime.c:1565-1676 | Terminates under (instructions left, uninitialised types, call rank) and restores depth, initialisation depth, frame bytes, stack values and caller on every path, through calls, newobj and static field accesses |
| CilInterpreter.Vm.Admit | src/xxemul_dotnet_runtime.c:1565-1624 | A call is admitted only with the right argument count and with its frame and stack within the configured limits |
| CilInterpreter.Vm.CallMethod | src/xxemul_dotnet_runtime.c:1029-1104 | A call restores all counters on every path and, when it succeeds, the caller's method and offset |
| CilInterpreter.Vm.Construct | src/xxemul_dotnet_runtime.c:1039-1076 | newobj gives back the bytes of its argument copy on every path |
| CilInterpreter.Vm.Recover | src/xxemul_dotnet_runtime.c:1551-1557 | A managed exception in a method with clauses is dispatched as one step of the exception engine, if its object exists; anything else leaves the frame |
| CilInterpreter.Vm.Body | src/xxemul_dotnet_runtime.c:1267-1563 | The loop terminates and keeps every budget; the states of its turns form a run of the exception engine that starts in the frame's state and whose last state is the frame's when the method returns; by the discipline of runs no transfer is then pending |
| CilDispatch.VirtualTarget | src/xxemul_dotnet_runtime.c:1003-1028 | The upward walk with its iteration bound computes the walk along the whole path to the declaring class, and keeps the target when there is none |
| CilDispatch.PathIsShort | src/xxemul_dotnet_runtime.c:1011-1026 | A path to the declaring class visits no class twice, so the iteration bound never cuts it |
| CilDispatch.DispatchRefinesVtable | src/xxemul_dotnet_runtime.c:1003-1028 | The upward walk selects the method that filling the slot downward from the declaring class selects, where a newslot method closes the slot |
| CilArithmetic.CheckedArithmeticIsExact | src/xxemul_dotnet_runtime.c:665-741 | add, sub and mul.ovf raise OverflowException exactly when the mathematical result is out of range, and otherwise denote it |
| CilArithmetic.WrapIsCongruent | src/xxemul_dotnet_runtime.c:700-703 | The wrapped sum, difference or product holds the low bits of the exact one, for signed and unsigned readings alike |
| CilArithmetic.DivisionIsExact | src/xxemul_dotnet_runtime.c:704-709 | div and rem fail exactly on a zero divisor and on the minimum by -1, and otherwise truncate: dividend = quotient * divisor + remainder, the remainder small and with the dividend's sign |
| CilArithmetic.CheckedConversionExactly | src/xxemul_dotnet_runtime.c:847-882 | conv.ovf raises exactly when out of range if and only if the target is signed or at least 32 bits wide or the value fits; a value in range is kept |
| CilArithmetic.CheckedConversionCounterexample | src/xxemul_dotnet_runtime.c:851-863 | conv.ovf.u1 of 300 gives 44 |
| CilArithmetic.ConversionWraps | src/xxemul_dotnet_runtime.c:872-883 | conv without checks gives the number of the target congruent to the value |
| CilArithmetic.WideningUnsignedExactly | src/xxemul_dotnet_runtime.c:872-883 | conv.u8 and conv.u to 64 bits zero-extend a 32-bit integer, int32 or native, exactly when it is not negative |
| X86Paging.WalksAgree | src/xxemul_x86.c:119-162 | Memories that differ in accessed and dirty bits only translate alike |
| X86Paging.UpdatesNeverMatter | src/xxemul_x86.c:119-162 | A translation changes at most accessed and dirty bits, and no outcome or frame of any later translation |
| X86GuestWrites.WritesAreAllOrNothing | src/xxemul_x86.c:168-219 | When no byte is in an entry that translates a later page of the write: it succeeds exactly when every byte's place is writable; then all bytes are stored there and nothing else changes but accessed and dirty bits; otherwise only those, CR2 and the pending code change |
| X86Tearing.AllOrNothingExactly | src/xxemul_x86.c:168-219 | For writes at multiples of four that condition is exact: every data of the length is all-or-nothing if and only if the write stays in a page, or some byte is not writable, or no byte is in an entry that translates a later page |
| X86Tearing.FailedWriteIsTorn | src/xxemul_x86.c:168-219 | A crossing write of writable bytes that fails, at any alignment, has changed more than accessed and dirty bits |
| X86GuestWrites.TornWrite | src/xxemul_x86.c:168-219 | A concrete memory in which a crossing write over its own page table faults after storing |
| X86GuestWrites.PreflightReadies | src/xxemul_x86.c:179-198 | After a successful preflight every byte's page translates for writing, with its bits already set |
| X86ReadBack.PlacesDistinct | src/xxemul_x86.c:119-162 | Addresses less than a page apart are stored at different places |
| X86ReadBack.ReadsBack | src/xxemul_x86.c:168-219 | A read after a successful write of up to a page delivers what was written and changes nothing |
| X86Guest.Guest.Contains | src/xxemul.c:36-54 | An access is inside exactly when the region holds all its bytes, and the offset is that of the first |
| X86Guest.Guest.ReadMemory | src/xxemul.c:334-356 | Delivers the region's bytes, or fails exactly when some lie outside |
| X86Guest.Guest.WriteMemory | src/xxemul.c:358-386 | Replaces exactly the addressed bytes, or fails and changes nothing |
| X86Guest.Guest.LoadInteger | src/xxemul.c:413-432 | The value of the bytes in little-endian order |
| X86Guest.Guest.StoreInteger | src/xxemul.c:434-446 | The low bytes of the value, in little-endian order |
| X86Guest.Guest.TranslateLinear | src/xxemul_x86.c:119-162 | The in-place walk equals the walk on values: status, frame, marked entries, CR2 and pending code |
| X86Guest.Guest.PreflightPages | src/xxemul_x86.c:179-198 | The preflight loop equals its recursive definition |
| X86Guest.Guest.WriteGuest | src/xxemul_x86.c:168-219 | The chunk loop with its preflight equals the write on values |
| X86Guest.Guest.ReadGuest | src/xxemul_x86.c:168-219 | The chunk loop equals the read on values |
| X86Picture.ReadsView | src/xxemul_x86.c:168-219 | A read of bytes known to lie apart from their paging entries delivers them and leaves them known |
| X86Machine.Machine.Decode | src/xxemul_x86.c:320-351 | The descriptor fetch and check in place equal the function on values |
| X86Machine.Machine.Preflight | src/xxemul_x86.c:370-389 | The preflight of the frame equals its recursive definition |
| X86Machine.Machine.EnterGate | src/xxemul_x86.c:619-716 | Either the whole entered state, or a refusal that changed no register |
| X86Machine.Machine.Iret | src/xxemul_x86.c:718-787 | Either the whole returned state, or a refusal that changed no register |
| X86RoundTrip.GateOutcome | src/xxemul_x86.c:619-716 | When the frame is apart from the paging entries: a refusal changes only accessed and dirty bits, an entry stores exactly the frame at the new stack top |
| X86RoundTrip.FlagsRestored | src/xxemul_x86.c:718-787 | The flags IRET merges are the interrupted ones if and only if the handler runs in ring 0, or IOPL is unchanged and IF may be changed or is unchanged |
| X86RoundTrip.StackRestored | src/xxemul_x86.c:718-787 | Pushing a frame and popping it restores the stack pointer modulo the stack's mask |
| X86RoundTrip.IretReturns | src/xxemul_x86.c:718-787 | With the frame on the stack and descriptors that agree with the caches, IRETD succeeds and loads exactly what the frame and the descriptors say |
| X86RoundTrip.GateThenIret | src/xxemul_x86.c:619-787 | From a gate entry to an IRETD that finds the frame untouched, with or without a stack switch and error code: CS, IP, SS, mode, privilege and ESP are the interrupted ones, and the flags exactly under the stated condition |
| X86RoundTrip.IretUndoesGate | src/xxemul_x86.c:619-787 | IRETD right after a gate without error code restores the whole interrupted state but accessed bits, and the flags exactly for ring 0, or a ring within IOPL, or IF clear |
| X86Divide.DivideU128 | src/xxemul_x86.c:1371-1386 | The 64 rounds succeed exactly when high < divisor, and then quotient * divisor + remainder is the dividend with remainder < divisor |
| X86Divide.Divide | src/xxemul_x86.c:3791-3890 | DIV and IDIV at every size fail exactly on a zero divisor or a truncated quotient that does not fit, and otherwise give quotient and remainder |
| X86Strings.ChunkingIsInvisible | src/xxemul_x86.c:1821-1901 | Executing the instruction until it stops asking for more equals the loop of one element at a time, for every count, direction, address size and early exit |
| X86Strings.StringDecreases | src/xxemul_x86.c:1821-1901 | An instruction that asks to be executed again has taken elements off the count |
| X86Strings.RunIsElements | src/xxemul_x86.c:1824-1895 | The run is a number of whole elements; when one stops it, RCX, RSI and RDI show exactly the completed ones |
| X86Strings.ElementsMove | src/xxemul_x86.c:1874-1887 | After k elements the count is k less and each pointer has moved k elements, wrapping within the address size |
| X86StringMeaning.RepeatedStoreIsBlock | src/xxemul_x86.c:1720-1901 | Without paging, in segments or flat, REP MOVS replaces the destination block by the source block and REP STOS by copies of the accumulator, in both directions, and nothing else in memory |
| X86StringMeaning.RepeatedCompareFindsFirst | src/xxemul_x86.c:1720-1901 | Without paging, in segments or flat, a repeated SCAS or CMPS stops after the first element that ends the search, with its flags and the count of those not looked at |
| X86StringMeaning.SubFlagsDecide | src/xxemul_x86.c:992-1011 | The flags of a comparison decide equality, the unsigned and the signed order, and the borrow of the low digit |
| X86StringMachine.StringUnit.Execute | src/xxemul_x86.c:1821-1901 | The element loop in place equals its recursive definition, with the state and the fault it leaves |
| X86StringMachine.StringUnit.Turn | src/xxemul_x86.c:1824-1884 | One element in place equals the element on values |
| WideMultiply.MultiplyIsExact | src/xxemul_x86.c:1360-1370 | The two words are the 128-bit product |
| WideMultiply.MultiplyHighIsExact | src/xxemul_arm.c:1241-1252 | The high word of the 128-bit product |
| WideMultiply.SignedHighIsExact | src/xxemul_arm.c:1268-1270 | The corrected high word is that of the signed product |
| MipsSimulation.OperateAgrees | src/xxemul_mips64.c:81-232 | Every arithmetic and logic instruction the 32-bit core accepts gives the sign extension of its results on the 64-bit core |
| MipsSimulation.FullExtractExactly | src/xxemul_mips64.c:223-227 | The full-width EXT agrees exactly when the source's sign bit is clear |
| MipsSimulation.AccessesAgree | src/xxemul_mips64.c:246-298 | Loads, stores, unaligned accesses, LL and SC agree in status, memory, reservation and extended result |
| MipsSimulation.StepsAlike | src/xxemul_mips64.c:74-299 | From sign-extended states, one step of each core gives the same status and sign-extended states again |
| MipsSimulation.RunsAlike | src/xxemul_mips64.c:74-299 | So do runs of any length |
| MipsExtension.WordBits | src/xxemul_mips64.c:49 | AND, OR and XOR commute with sign extension |
| MipsExtension.WordSar | src/xxemul_mips64.c:51-55 | The arithmetic right shift commutes with sign extension |
| MipsExtension.ZerosAgree | src/xxemul_mips64.c:214-219 | Leading zeros of the low word are counted alike |
| MipsReservations.ReservationHasLink | src/xxemul.c:358-386 | In any history, a reservation comes from one LL, with no write, state change or other link after it and memory unchanged since |
| MipsReservations32.EventFollows | src/xxemul_mips.c:233-284 | Every step, host write and state write of the 32-bit core ends, sets or keeps the reservation as its effect says, and keeps memory if it keeps the reservation |
| MipsReservations32.ConditionalStoreIsAtomic | src/xxemul_mips.c:233-284 | In every interleaving, a successful SC has a matching LL since which nothing was written and memory is as it was |
| MipsReservations32.FailedStepChangesNothing | src/xxemul_mips.c:74-285 | A failed step that is no syscall or break leaves registers, pc, delay state and memory as they were |
| MipsReservations64.EventFollows | src/xxemul_mips64.c:246-298 | The same for the 64-bit core |
| MipsReservations64.ConditionalStoreIsAtomic | src/xxemul_mips64.c:246-298 | In every interleaving, a successful SC or SCD has a matching LL or LLD of the same size since which nothing was written |
| MipsReservations64.FailedStepChangesNothing | src/xxemul_mips64.c:74-299 | A failed step that is no syscall or break leaves registers, pc, delay state and memory as they were |
| MipsUnaligned.LoadPairIsWord | src/xxemul_mips.c:245-259 | LWL and LWR together load the four bytes at any address, in either byte order, whatever the register held |
| MipsUnaligned.StorePairIsWord | src/xxemul_mips.c:245-259 | SWL and SWR together store a word at any address, in either byte order, and nothing else |
| MipsUnaligned.PairsRoundTrip | src/xxemul_mips.c:245-259 | What the store pair wrote, the load pair loads |
| MipsMachine32.Machine.LoadValue | src/xxemul_mips.c:23-38 | The byte loop assembles the value in the mode's byte order |
| MipsMachine32.Machine.StoreValue | src/xxemul_mips.c:40-55 | The byte loop stores the value in the mode's byte order and ends the reservation |
| MipsMachine32.Machine.Step | src/xxemul_mips.c:74-285 | The step in place, on a register copy committed at the end, equals the step on values |
| MipsMachine32.Machine.HostWrite | src/xxemul.c:358-386 | A host write that is not empty ends the reservation |
| MipsMachine32.Machine.SetState | src/xxemul.c:505-516 | An aligned pc sets every register, clears the reservation and keeps the delay slot only for the same pc |
| MipsMachine64.Machine.Step | src/xxemul_mips64.c:74-299 | The step in place equals the step on values |
| MipsMachine64.Machine.SetState | src/xxemul.c:527-540 | As for the 32-bit core |
| DexTypes.WithoutHost | src/xxemul_dex_runtime.c:298-358 | Without a callback: Yes exactly for reachable classes and Object, Unknown exactly when unreachable, external, and some external class other than Object is reached |
| DexTypes.ChainIsShort | src/xxemul_dex_runtime.c:677-692 | In an acyclic hierarchy a superclass chain has at most as many steps as there are classes |
| DexVm.Vm.FindClass | src/xxemul_dex_runtime.c:290-296 | The first class with the descriptor |
| DexVm.Vm.NewStamp | src/xxemul_dex_runtime.c:326-330 | The new stamp marks no class, also when the counter wraps around |
| DexVm.Vm.Search | src/xxemul_dex_runtime.c:310-358 | The breadth-first search answers reachability, its worklist never exceeding the number of classes, with cycles or without |
| DexVm.Vm.IsAssignableTo | src/xxemul_dex_runtime.c:310-358 | The whole check, with arrays, missing descriptors and the host's answers |
| DexVm.ClosedUnderPaths | src/xxemul_dex_runtime.c:331-357 | When every queued class has been read, everything reachable has been handled |
| DexVm.Vm.CheckHierarchy | src/xxemul_dex_runtime.c:547-560 | Accepts exactly the hierarchies whose superclass relation is acyclic; the path never exceeds its buffer |
| DexVm.Vm.FindImplementation | src/xxemul_dex_runtime.c:677-692 | In an accepted hierarchy, the bounded walk returns the nearest definition on the full chain, or none when there is none |
| Utf16Codec.RoundTrip | src/xxemul_dotnet_bcl.c:189-262 | Decoding the text of any units, lone surrogates included, gives the units |
| Utf16Codec.DecodeConcat | src/xxemul_dotnet_bcl.c:189-230 | Decoding distributes over concatenation of texts |
| Utf16Codec.SlicesKeepUnits | src/xxemul_dotnet_bcl.c:1777-1803 | Substring(0, k) and Substring(k) concatenated have the original units, also when k splits a pair |
| Utf16Codec.ConcatIsCanonical | src/xxemul_dotnet_bcl.c:1653-1695 | Concatenated texts are the text of the concatenated units exactly when no pair meets at the seam |
| Utf16Codec.JoinedTextsExactly | src/xxemul_dotnet_bcl.c:1653-1695 | Any number of joined texts have the joined units, take two bytes more than their text for each pair that meets at a seam, and so are their text exactly when none does |
| Utf16Strings.Concat | src/xxemul_dotnet_bcl.c:1653-1695 | The buffer grown item by item holds the joined bytes and a terminator, and the limit is reported exactly when they do not fit |
| Utf16Codec.LengthIsUnits | src/xxemul_dotnet_bcl.c:1804-1812 | The byte count of get_Length is the number of decoded units |
| Utf16Strings.Utf16Units | src/xxemul_dotnet_bcl.c:189-230 | The buffer filled by index holds the decoded units, or decoding fails exactly when the text is malformed |
| Utf16Strings.UnitsToText | src/xxemul_dotnet_bcl.c:231-262 | The buffer, never overrun, holds the encoding of the units |
| Utf16Strings.SubstringOf | src/xxemul_dotnet_bcl.c:1777-1803 | The units asked for, or an exception exactly when start or length is out of range |
| Utf16Strings.GetLength | src/xxemul_dotnet_bcl.c:1804-1812 | The loop counts the decoded units |
| GlobMatch.GlobMatches | src/xxemul_dotnet_bcl.c:928-947 | The single-backtrack loop terminates and equals its recursive form |
| GlobMatch.GlobIsMatch | src/xxemul_dotnet_bcl.c:928-947 | For a text without a star, the loop answers what the wildcards mean |
| GlobMatch.GlobExactly | src/xxemul_dotnet_bcl.c:928-947 | The loop is right for all patterns if and only if the text has no star |
| GlobMatch.StarInTextFails | src/xxemul_dotnet_bcl.c:928-947 | For every text with a star, a pattern that matches and is refused |
| ArmFlags.AddIsAddWithCarry | src/xxemul_arm.c:504-520 | The result and flags of ADD are AddWithCarry's |
| ArmFlags.SubIsAddWithCarry | src/xxemul_arm.c:522-538 | The result and flags of SUB and CMP are AddWithCarry's of the complement and carry 1 |
| ArmFlags.AdcIsAddWithCarry | src/xxemul_arm.c:724-797 | The result and flags of ADC are AddWithCarry's |
| ArmFlags.SbcIsAddWithCarry | src/xxemul_arm.c:724-797 | The result and flags of SBC and RSC are AddWithCarry's of the complement |
| ArmFlags.CompareDecides | src/xxemul_arm.c:462-487 | After CMP every condition code decides the order or property it is named for |
| ArmFlags.ChainedAddition | src/xxemul_arm.c:724-797 | ADDS then ADCS over any number of words is the addition of the numbers, C the final carry |
| ArmFlags.ChainedSubtraction | src/xxemul_arm.c:724-797 | SUBS then SBCS over any number of words is the subtraction, C the absence of a borrow |
| ArmFlags.ChainedCompareDecides | src/xxemul_arm.c:724-797 | After a chained subtraction the codes decide the unsigned and signed order of the whole numbers |
| ArmFlags.ProcessorState.SetAddFlags | src/xxemul_arm.c:504-520 | The flags set in place, and that they are AddWithCarry's for the sum |
| ArmFlags.ProcessorState.SetSubFlags | src/xxemul_arm.c:522-538 | The flags set in place, and that they are AddWithCarry's for the difference |
| ArmFlags.ProcessorState.AddOrSubtract | src/xxemul_arm.c:724-797 | ADC, SBC and RSC in place give AddWithCarry's result, and its flags exactly when asked to |

## Left out

- Instruction decoding: the decoders of the interpreters are functions that this
  model takes as given; MIPS decoders are predicates on the instruction word.
- What the data instructions of CIL compute: in `CilInterpreter` their effect on the
  evaluation stack and the exception they raise are chosen freely; arithmetic and
  conversions are modelled on their own in `CilArithmetic`. Of the values of static
  fields the model keeps none, of their access the run of the type initializer.
- Host callbacks, intrinsics, hooks, traces and diagnostics, except the answers of
  the assignability callback of the DEX machine.
- Allocation failure and the accounting of native bytes; the cached result of
  `net_prepare_code` is computed anew for each call.
- Floating point, bitwise CIL operations and shifts, and SIMD.
- Heap objects, fields and arrays of the CIL and DEX machines.
- x86 instructions other than DIV, IDIV, string instructions, gates and IRET; task
  switches and returns to virtual-8086 mode, which the modelled IRET refuses too.
- Delivery of a page fault to its gate after a string element faults: the model
  says that the fault path is taken and with which registers.
- Linux system calls: SYSCALL of the MIPS cores is refused, as without a process.
- The 64-bit instructions that the 32-bit MIPS core lacks are part of the step but
  have no property of their own beyond those of reservations and failed steps.
- WritesAreAllOrNothing: for writes of at most 2^32 - 4096 bytes, because a longer
  one covers some linear address twice.
- AllOrNothingExactly: for writes at multiples of four; at other addresses the
  condition is sufficient, but storing part of an entry need not make it unusable.
- RethrowExactly: over runs from the start of the method and from frames that stand
  anywhere in it; from the start alone the condition is sufficient, but an offset
  that no run reaches would do no harm.
- ReadsBack: for at most a page, because pages further apart may share a frame.
- GateThenIret: for 32-bit gates, with the frame in memory apart from the paging entries.
- RepeatedStoreIsBlock: for machines without paging and with the A20 gate open, blocks
  inside their segment and the region, and a direction in which no element is read
  after it was replaced.
- RepeatedCompareFindsFirst: for machines without paging and with the A20 gate open,
  and elements inside their segment and the region as far as the search goes.

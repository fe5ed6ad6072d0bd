/**
  The mutually recursive interpreter of src/xxemul_dotnet_runtime.c, lines
  544-641, 1029-1104, 1267-1563 and 1565-1676: net_execute, net_body, net_call and
  net_initialize, with the budgets they keep.

  Every instruction that can run other code or move control is modelled: calls,
  newobj, static field accesses, which run type initializers, branches, leave,
  endfinally, throw, rethrow and ret.  Of the others only what they may touch is
  fixed: their effect on the evaluation stack, whether they fail and whether the
  failure is a managed exception are chosen nondeterministically, so the contracts
  hold whatever they compute.  Host callbacks are absent.
*/
module CilInterpreter {
  import opened Wrappers
  import opened CilClauses
  import opened CilUnwind
  import opened CilFrameRuns
  import opened CilRethrow

  const SIZE_MAX := 0xFFFF_FFFF_FFFF_FFFF
  const VALUE_BYTES := 16
  const TRANSFER_BYTES := 48
  const REFERENCE_BYTES := 4

  datatype CallKind = PlainCall | VirtualCall | NewObject

  datatype Operation =
    | Data
    | StaticField(token: nat)
    | Call(kind: CallKind, token: nat)
    | Return
    | Branch(destination: int)
    | LeaveTo(destination: int)
    | EndFinallyOp
    | Throw
    | Rethrow

  datatype Instruction = Instruction(size: nat, operation: Operation)

  datatype Method = Method(
    code: seq<Option<Instruction>>,
    clauses: Clauses,
    parameterCount: nat,
    hasThis: bool,
    localCount: nat,
    maxStack: nat,
    owner: nat,
    isConstructor: bool,
    isTypeInitializer: bool,
    returnsVoid: bool,
    supported: bool,
    executable: bool,
    hasHandlers: bool)

  datatype TypeDef = TypeDef(token: nat, extendsToken: nat)

  /** tokens resolves methods, and fields gives the owner of each local static field that ldsfld and stsfld accept. */
  datatype Program = Program(methods: seq<Method>, methodDefCount: nat, types: seq<TypeDef>, tokens: map<nat, nat>, fields: map<nat, nat>)

  function FirstTypeFrom(types: seq<TypeDef>, token: nat, i: nat): (r: Option<nat>)
    requires i <= |types|
    ensures r.Some? ==> i <= r.value < |types| && types[r.value].token == token
    decreases |types| - i
  {
    if i == |types| then None else if types[i].token == token then Some(i) else FirstTypeFrom(types, token, i + 1)
  }

  function FirstType(types: seq<TypeDef>, token: nat): (r: Option<nat>)
    ensures r.Some? ==> r.value < |types| && types[r.value].token == token
  {
    FirstTypeFrom(types, token, 0)
  }

  predicate ProgramOk(p: Program) {
    && p.methodDefCount <= |p.methods|
    && forall t | t in p.tokens :: p.tokens[t] < |p.methods|
  }

  datatype Config = Config(maxInstructions: nat, maxCallDepth: nat, maxFrameBytes: nat, maxStackValues: nat)

  function ArgumentCount(m: Method): nat {
    m.parameterCount + if m.hasThis then 1 else 0
  }

  /** The bytes net_execute reserves, when they fit a size_t. */
  function FrameBytes(m: Method): Option<nat> {
    var slots := ArgumentCount(m) + m.localCount + m.maxStack;
    if slots > SIZE_MAX / VALUE_BYTES then None
    else
      var extra := if m.clauses == [] then 0 else (|m.clauses| + 1) * TRANSFER_BYTES + |m.clauses| * REFERENCE_BYTES;
      if slots * VALUE_BYTES + extra > SIZE_MAX then None else Some(slots * VALUE_BYTES + extra)
  }

  // ----------------------------------------------------------------------
  // net_prepare_code
  // ----------------------------------------------------------------------

  /** pc is the start of an instruction of a linear sweep from the beginning. */
  ghost predicate Boundary(code: seq<Option<Instruction>>, pc: nat) {
    exists n: nat :: SweepAt(code, n) == Some(pc)
  }

  /** The offset of the n-th instruction of the sweep, while it decodes. */
  function SweepAt(code: seq<Option<Instruction>>, n: nat): Option<nat> {
    if n == 0 then Some(0)
    else match SweepAt(code, n - 1)
      case None => None
      case Some(pc) =>
        if pc < |code| && code[pc].Some? && code[pc].value.size > 0 then Some(pc + code[pc].value.size) else None
  }

  predicate ClauseFits(c: Clause, boundaries: seq<bool>) {
    var size := |boundaries|;
    var tryEnd := c.tryBlock.start + c.tryBlock.length;
    var handlerEnd := c.handler.start + c.handler.length;
    && ClauseOk(c)
    && tryEnd <= size && handlerEnd <= size
    && boundaries[c.tryBlock.start] && boundaries[c.handler.start]
    && (tryEnd < size ==> boundaries[tryEnd])
    && (handlerEnd < size ==> boundaries[handlerEnd])
  }

  method PrepareCode(m: Method) returns (status: Status, boundaries: seq<bool>)
    ensures |boundaries| == |m.code|
    ensures forall pc | 0 <= pc < |m.code| && boundaries[pc] :: Boundary(m.code, pc)
    ensures status == Ok ==> forall i | 0 <= i < |m.clauses| :: ClauseFits(m.clauses[i], boundaries)
    ensures status == Ok ==> forall pc | 0 <= pc < |m.code| :: Boundary(m.code, pc) ==> boundaries[pc]
  {
    status, boundaries := MarkBoundaries(m.code);
    if status != Ok {
      return;
    }
    for i := 0 to |m.clauses|
      invariant forall j | 0 <= j < i :: ClauseFits(m.clauses[j], boundaries)
    {
      var c := m.clauses[i];
      var tryEnd := c.tryBlock.start + c.tryBlock.length;
      var handlerEnd := c.handler.start + c.handler.length;
      if || c.tryBlock.length == 0 || c.handler.length == 0 || tryEnd > |m.code| || handlerEnd > |m.code|
         || !boundaries[c.tryBlock.start] || !boundaries[c.handler.start]
         || (tryEnd < |m.code| && !boundaries[tryEnd])
         || (handlerEnd < |m.code| && !boundaries[handlerEnd])
         || (c.tryBlock.start < handlerEnd && c.handler.start < tryEnd)
      {
        return InvalidImage, boundaries;
      }
      if c.flags == FILTER {
        return UnsupportedInstruction, boundaries;
      }
      if c.flags != CATCH && c.flags != FINALLY && c.flags != FAULT {
        return UnsupportedInstruction, boundaries;
      }
    }
  }

  method MarkBoundaries(code: seq<Option<Instruction>>) returns (status: Status, boundaries: seq<bool>)
    ensures |boundaries| == |code|
    ensures forall pc | 0 <= pc < |code| && boundaries[pc] :: Boundary(code, pc)
    ensures status == Ok ==> forall pc | 0 <= pc < |code| :: Boundary(code, pc) ==> boundaries[pc]
  {
    var marks := new bool[|code|](_ => false);
    var pc: nat := 0;
    ghost var n: nat := 0;
    while pc < |code|
      invariant SweepAt(code, n) == Some(pc)
      invariant forall p | 0 <= p < |code| && marks[p] :: Boundary(code, p)
      invariant forall k: nat | k < n :: MarkedAt(code, marks[..], k)
      decreases |code| - pc
    {
      var instruction := code[pc];
      if instruction.None? || instruction.value.size == 0 {
        return DecodeError, marks[..];
      }
      ghost var before := marks[..];
      assert Boundary(code, pc);
      marks[pc] := true;
      assert marks[..] == before[pc := true];
      assert forall k: nat | k < n :: MarkedAt(code, before, k) ==> MarkedAt(code, marks[..], k);
      assert MarkedAt(code, marks[..], n);
      pc := pc + instruction.value.size;
      n := n + 1;
    }
    boundaries := marks[..];
    forall p | 0 <= p < |code| && Boundary(code, p)
      ensures boundaries[p]
    {
      var k: nat :| SweepAt(code, k) == Some(p);
      if n < k {
        SweepStops(code, n, k);
      }
      assert MarkedAt(code, boundaries, k);
    }
    status := Ok;
  }

  predicate MarkedAt(code: seq<Option<Instruction>>, marks: seq<bool>, k: nat) {
    match SweepAt(code, k)
    case None => false
    case Some(pc) => pc < |marks| && marks[pc]
  }

  /** Once past the end, the sweep has no further offsets. */
  lemma {:induction false} SweepStops(code: seq<Option<Instruction>>, n: nat, k: nat)
    requires n < k && SweepAt(code, n).Some? && SweepAt(code, n).value >= |code|
    ensures SweepAt(code, k).None?
  {
    if k > n + 1 {
      SweepStops(code, n, k - 1);
    }
  }

  // ----------------------------------------------------------------------
  // The machine
  // ----------------------------------------------------------------------

  /** What one turn of the loop of net_body comes to. */
  datatype Turn = Advanced(next: nat) | Transferred(next: nat) | Failing(status: Status) | Returned(status: Status)

  datatype Effect = Done | Refused(status: Status) | Abandoned(status: Status)

  function After(outcome: Effect, following: nat): Turn {
    match outcome
    case Done => Advanced(following)
    case Refused(status) => Failing(status)
    case Abandoned(status) => Returned(status)
  }

  /** No try block or handler is around an offset. */
  predicate Outside(cs: Clauses, at: nat) {
    forall i | 0 <= i < |cs| :: !cs[i].tryBlock.Has(at) && !cs[i].handler.Has(at)
  }

  class Vm {
    const program: Program
    const config: Config
    const signals: Signals
    const classStates: array<nat>
    var depth: nat
    var initializationDepth: nat
    var frameBytes: nat
    var stackValues: nat
    var instructions: nat
    var sharedBudget: Option<nat>
    var callbackCaller: Option<nat>
    var methodIndex: nat
    var pc: nat

    constructor (program: Program, config: Config, sharedBudget: Option<nat>)
      requires ProgramOk(program)
      ensures Valid() && this.program == program && this.config == config
      ensures instructions == 0 && signals.exceptionReference == 0
      ensures forall i | 0 <= i < classStates.Length :: classStates[i] == 0
    {
      this.program, this.config, this.sharedBudget := program, config, sharedBudget;
      signals := new Signals();
      classStates := new nat[|program.types|](_ => 0);
      depth, initializationDepth, frameBytes, stackValues, instructions := 0, 0, 0, 0, 0;
      callbackCaller, methodIndex, pc := None, 0, 0;
    }

    /** Every budget is within its configured limit. */
    ghost predicate Valid()
      reads this, classStates
    {
      && ProgramOk(program)
      && classStates.Length == |program.types|
      && depth <= config.maxCallDepth
      && initializationDepth <= config.maxCallDepth
      && frameBytes <= config.maxFrameBytes
      && stackValues <= config.maxStackValues
      && instructions <= config.maxInstructions
      && (this as object) != signals && (this as object) != classStates && (signals as object) != classStates
    }

    ghost function Uninitialized(): set<nat>
      reads this, classStates
    {
      set i: nat | i < classStates.Length && classStates[i] == 0
    }

    /** The counters every exit path gives back. */
    ghost function Counters(): (nat, nat, nat, nat, Option<nat>)
      reads this
    {
      (depth, initializationDepth, frameBytes, stackValues, callbackCaller)
    }

    /** Types leave the uninitialised state for good, and no started one is started again. */
    twostate predicate Progressed()
      reads this, classStates
    {
      && old(instructions) <= instructions
      && forall i | 0 <= i < classStates.Length && old(classStates[i]) != 0 :: classStates[i] == old(classStates[i])
    }

    // --------------------------------------------------------------------

    method FindType(token: nat) returns (owner: Option<nat>)
      ensures owner == FirstType(program.types, token)
    {
      var i: nat := 0;
      while i < |program.types| && program.types[i].token != token
        invariant i <= |program.types|
        invariant FirstType(program.types, token) == FirstTypeFrom(program.types, token, i)
      {
        i := i + 1;
      }
      return if i == |program.types| then None else Some(i);
    }

    /** net_initialize */
    method Initialize(token: nat) returns (status: Status)
      requires Valid() && signals.exceptionReference == 0
      modifies this, signals, classStates
      ensures Valid() && Counters() == old(Counters()) && Progressed()
      ensures status == Ok ==> signals.exceptionReference == 0
      ensures status == Ok ==> methodIndex == old(methodIndex) && pc == old(pc)
      ensures FirstType(program.types, token).None? ==> status == Ok
      ensures var owner := FirstType(program.types, token);
              owner.Some? ==>
                match old(classStates[owner.value])
                case 0 => if status == Ok then classStates[owner.value] == 2
                          else classStates[owner.value] == 3 || old(initializationDepth) == config.maxCallDepth
                case 1 => status == Ok
                case 2 => status == Ok
                case _ => status == AddressFault
      decreases config.maxInstructions - instructions, Uninitialized(), 1
    {
      var owner := FindType(token);
      if owner.None? || classStates[owner.value] == 2 || classStates[owner.value] == 1 {
        return Ok;
      }
      if classStates[owner.value] != 0 {
        status := AddressFault;
      } else if initializationDepth >= config.maxCallDepth {
        status := LimitReached;
      } else {
        status := StartType(owner.value);
        return;
      }
      signals.Fail(status);
    }

    /** The part of net_initialize in which the type is running: its parent, then its own initializer. */
    method StartType(owner: nat) returns (status: Status)
      requires Valid() && signals.exceptionReference == 0
      requires owner < |program.types| && classStates[owner] == 0 && initializationDepth < config.maxCallDepth
      modifies this, signals, classStates
      ensures Valid() && Counters() == old(Counters()) && Progressed()
      ensures status == Ok ==> signals.exceptionReference == 0 && methodIndex == old(methodIndex) && pc == old(pc)
      ensures classStates[owner] == if status == Ok then 2 else 3
      decreases config.maxInstructions - instructions, Uninitialized(), 0
    {
      status := Ok;
      var callerMethod, callerPc := methodIndex, pc;
      assert owner in Uninitialized();
      initializationDepth := initializationDepth + 1;
      classStates[owner] := 1;
      assert owner !in Uninitialized() && Uninitialized() < old(Uninitialized());
      if program.types[owner].extendsToken != 0 {
        status := Initialize(program.types[owner].extendsToken);
      }
      if status == Ok {
        status := RunTypeInitializer(program.types[owner].token);
      }
      classStates[owner] := if status == Ok then 2 else 3;
      initializationDepth := initializationDepth - 1;
      if status == Ok {
        methodIndex, pc := callerMethod, callerPc;
      }
    }

    /** The first .cctor of a type, if it has one. */
    method RunTypeInitializer(token: nat) returns (status: Status)
      requires Valid() && signals.exceptionReference == 0
      modifies this, signals, classStates
      ensures Valid() && Counters() == old(Counters()) && Progressed()
      ensures status == Ok ==> signals.exceptionReference == 0
      decreases config.maxInstructions - instructions, Uninitialized(), 4
    {
      var i: nat := 0;
      while i < program.methodDefCount && !(program.methods[i].owner == token && program.methods[i].isTypeInitializer)
        invariant i <= program.methodDefCount
      {
        i := i + 1;
      }
      if i == program.methodDefCount {
        return Ok;
      }
      var m := program.methods[i];
      if m.hasThis || m.parameterCount != 0 || !m.returnsVoid {
        signals.Fail(InvalidImage);
        return InvalidImage;
      }
      var ignored: Value;
      status, ignored := Execute(i, 0);
    }

    /** net_execute */
    method Execute(index: nat, argumentCount: nat) returns (status: Status, result: Value)
      requires Valid() && signals.exceptionReference == 0 && index < |program.methods|
      modifies this, signals, classStates
      ensures Valid() && Counters() == old(Counters()) && Progressed()
      ensures status == Ok ==> signals.exceptionReference == 0
      decreases config.maxInstructions - instructions, Uninitialized(), 3
    {
      var m := program.methods[index];
      result := Value(Void, 0);
      methodIndex, pc := index, 0;
      var bytes;
      status, bytes := Admit(m, argumentCount);
      if status != Ok {
        return;
      }
      var frame := new Frame(m.clauses, m.maxStack);
      frameBytes, stackValues, depth := frameBytes + bytes, stackValues + m.maxStack, depth + 1;
      status, result := Enter(index, frame);
      depth, frameBytes, stackValues := depth - 1, frameBytes - bytes, stackValues - m.maxStack;
    }

    /** The checks of net_execute, ending with the budgets of the new frame. */
    method Admit(m: Method, argumentCount: nat) returns (status: Status, bytes: nat)
      requires Valid() && signals.exceptionReference == 0
      modifies signals
      ensures status == Ok ==> signals.exceptionReference == 0
      ensures status == Ok ==> depth < config.maxCallDepth && argumentCount == ArgumentCount(m) && FrameBytes(m) == Some(bytes)
      ensures status == Ok ==> frameBytes + bytes <= config.maxFrameBytes && stackValues + m.maxStack <= config.maxStackValues
    {
      if depth >= config.maxCallDepth {
        signals.Fail(LimitReached);
        return LimitReached, 0;
      }
      if !m.supported {
        signals.Fail(UnsupportedInstruction);
        return UnsupportedInstruction, 0;
      }
      var count := ArgumentCount(m);
      if argumentCount != count {
        signals.Fail(InvalidArgument);
        return InvalidArgument, 0;
      }
      if m.hasThis {
        var receiver := Check();
        if receiver != Ok {
          return receiver, 0;
        }
      }
      if m.hasHandlers && m.clauses == [] {
        signals.Fail(InvalidImage);
        return InvalidImage, 0;
      }
      var size := FrameBytes(m);
      if size.None? {
        signals.Fail(LimitReached);
        return LimitReached, 0;
      }
      bytes := size.value;
      if bytes > config.maxFrameBytes - frameBytes {
        signals.Fail(LimitReached);
        return LimitReached, 0;
      }
      if m.maxStack > config.maxStackValues - stackValues {
        signals.Fail(LimitReached);
        return LimitReached, 0;
      }
      return Ok, bytes;
    }

    /** The part of net_execute between taking the frame's budget and giving it back. */
    method Enter(index: nat, frame: Frame) returns (status: Status, result: Value)
      requires Valid() && signals.exceptionReference == 0 && index < |program.methods|
      requires FreshFrame(index, frame) && Separate(frame)
      modifies this, signals, classStates, frame, frame.stack, frame.transfers, frame.caught
      ensures Valid() && Counters() == old(Counters()) && Progressed()
      ensures status == Ok ==> signals.exceptionReference == 0
      decreases config.maxInstructions - instructions, Uninitialized(), 2
    {
      var m := program.methods[index];
      result := Value(Void, 0);
      status := Check();
      if status == Ok && !m.hasThis && !m.isTypeInitializer {
        status := Initialize(m.owner);
      }
      if status != Ok {
        return;
      }
      if !m.executable {
        signals.Fail(UnsupportedInstruction);
        return UnsupportedInstruction, result;
      }
      var boundaries;
      status, boundaries := PrepareCode(m);
      if status != Ok {
        signals.Fail(status);
        return;
      }
      ghost var ms, es;
      status, result, ms, es := Body(index, frame, boundaries);
    }

    ghost predicate FreshFrame(index: nat, frame: Frame)
      reads this, frame, frame.transfers, frame.caught
      requires index < |program.methods|
    {
      && frame.Valid(program.methods[index].clauses)
      && frame.transferCount == 0 && frame.transfers.Length == |program.methods[index].clauses| + 1
      && forall i | 0 <= i < frame.caught.Length :: frame.caught[i] == 0
    }

    /** What net_call checks of a call's target and arguments before it runs the method; a virtual call then looks for the override. */
    method AdmitCall(frame: Frame, kind: CallKind, target: nat) returns (status: Status, selected: nat)
      requires Valid() && signals.exceptionReference == 0 && target < |program.methods|
      modifies signals
      ensures status == Ok ==> signals.exceptionReference == 0 && selected < |program.methods|
      ensures status == Ok ==> ArgumentCount(program.methods[target]) <= frame.count
      ensures status == Ok && kind != VirtualCall ==> selected == target
    {
      var m := program.methods[target];
      selected := target;
      if frame.count < ArgumentCount(m) || (kind == VirtualCall && !m.hasThis) {
        signals.Fail(DecodeError);
        return DecodeError, selected;
      }
      status := Ok;
      if kind == VirtualCall {
        status := Check();
        selected :| 0 <= selected < |program.methods|;
      }
    }

    /** net_call */
    method CallMethod(frame: Frame, kind: CallKind, token: nat) returns (status: Status)
      requires Valid() && signals.exceptionReference == 0 && methodIndex < |program.methods|
      requires frame.Valid(program.methods[methodIndex].clauses) && Separate(frame)
      modifies this, signals, classStates, frame`count, frame.stack
      ensures Valid() && Counters() == old(Counters()) && Progressed()
      ensures frame.count <= frame.stack.Length
      ensures status == Ok ==> signals.exceptionReference == 0
      ensures status == Ok ==> methodIndex == old(methodIndex) && pc == old(pc)
      decreases config.maxInstructions - instructions, Uninitialized(), 6
    {
      if token !in program.tokens {
        signals.Fail(UnsupportedInstruction);
        return UnsupportedInstruction;
      }
      var target := program.tokens[token];
      if kind == NewObject {
        status := Construct(frame, target);
        return;
      }
      var count, selected := ArgumentCount(program.methods[target]), target;
      status, selected := AdmitCall(frame, kind, target);
      if status == Ok {
        var result;
        status, result := CallTarget(frame, selected, count, count);
        if status == Ok && result.kind != Void {
          status := Push(frame, result);
        }
      }
    }

    /** The call itself, with count arguments, of which those on the caller's stack are taken off it. */
    method CallTarget(frame: Frame, target: nat, count: nat, taken: nat) returns (status: Status, result: Value)
      requires Valid() && signals.exceptionReference == 0 && target < |program.methods|
      requires taken <= frame.count <= frame.stack.Length && Separate(frame)
      modifies this, signals, classStates, frame`count
      ensures Valid() && Counters() == old(Counters()) && Progressed()
      ensures frame.count == old(frame.count) - taken
      ensures status == Ok ==> signals.exceptionReference == 0 && methodIndex == old(methodIndex) && pc == old(pc)
      decreases config.maxInstructions - instructions, Uninitialized(), 4
    {
      var callerMethod, callerPc, previousCaller := methodIndex, pc, callbackCaller;
      callbackCaller := Some(callerMethod);
      status, result := Execute(target, count);
      callbackCaller := previousCaller;
      frame.count := frame.count - taken;
      if status == Ok {
        methodIndex, pc := callerMethod, callerPc;
      }
    }

    /** What newobj checks of a constructor and its arguments; bytes is the size of their copy. */
    method AdmitConstructor(frame: Frame, m: Method) returns (status: Status, bytes: nat)
      requires Valid()
      modifies signals`result
      ensures status == Ok ==> m.isConstructor && m.hasThis && m.returnsVoid
      ensures status == Ok ==> ArgumentCount(m) - 1 <= frame.count && bytes == ArgumentCount(m) * VALUE_BYTES
      ensures status == Ok ==> frameBytes + bytes <= config.maxFrameBytes
    {
      var count := ArgumentCount(m);
      bytes := count * VALUE_BYTES;
      if !m.isConstructor || !m.hasThis || !m.returnsVoid || frame.count < count - 1 {
        status := DecodeError;
      } else if count > SIZE_MAX / VALUE_BYTES || bytes > config.maxFrameBytes - frameBytes {
        status := LimitReached;
      } else {
        return Ok, bytes;
      }
      signals.Fail(status);
    }

    /** The newobj half of net_call: the arguments are copied, and charged to the frame budget for the call. */
    method Construct(frame: Frame, target: nat) returns (status: Status)
      requires Valid() && signals.exceptionReference == 0 && methodIndex < |program.methods| && target < |program.methods|
      requires frame.Valid(program.methods[methodIndex].clauses) && Separate(frame)
      modifies this, signals, classStates, frame`count, frame.stack
      ensures Valid() && Counters() == old(Counters()) && Progressed()
      ensures frame.count <= frame.stack.Length
      ensures status == Ok ==> signals.exceptionReference == 0
      ensures status == Ok ==> methodIndex == old(methodIndex) && pc == old(pc)
      decreases config.maxInstructions - instructions, Uninitialized(), 5
    {
      var m := program.methods[target];
      var count, bytes := ArgumentCount(m), 0;
      status, bytes := AdmitConstructor(frame, m);
      if status == Ok {
        status := Initialize(m.owner);
        if status == Ok {
          status := Check();
        }
        if status == Ok {
          frameBytes := frameBytes + bytes;
          var result;
          status, result := CallTarget(frame, target, count, count - 1);
          frameBytes := frameBytes - bytes;
          if status == Ok {
            status := Push(frame, Value(Object, 1));
          }
        }
      }
    }

    ghost predicate Separate(frame: Frame)
      reads this
    {
      && frame.caught != classStates && (frame.stack as object) != classStates && (frame.transfers as object) != classStates
      && (frame as object) != this && (frame as object) != signals && (frame as object) != classStates
      && (frame.stack as object) != this && (frame.transfers as object) != this && (frame.caught as object) != this
      && (frame.stack as object) != signals && (frame.transfers as object) != signals && (frame.caught as object) != signals
    }

    /** A check whose answer depends on the heap: it passes, fails, or raises. */
    method Check() returns (status: Status)
      requires signals.exceptionReference == 0
      modifies signals
      ensures status == Ok ==> signals.exceptionReference == 0 && signals.result == old(signals.result)
    {
      status := *;
      if status != Ok {
        signals.exceptionReference := *;
        signals.Fail(status);
      }
    }

    method Push(frame: Frame, value: Value) returns (status: Status)
      requires frame.count <= frame.stack.Length && (frame.stack as object) != signals
      modifies signals`result, frame`count, frame.stack
      ensures frame.count <= frame.stack.Length
    {
      if frame.count >= frame.stack.Length {
        signals.Fail(DecodeError);
        return DecodeError;
      }
      frame.stack[frame.count] := value;
      frame.count := frame.count + 1;
      status := Ok;
    }

    /** Any effect an instruction may have on the evaluation stack. */
    method Operate(frame: Frame) returns (outcome: Effect)
      requires signals.exceptionReference == 0 && frame.count <= frame.stack.Length
      requires (frame.stack as object) != signals && (frame.stack as object) != frame
      modifies signals, frame`count, frame.stack
      ensures frame.count <= frame.stack.Length
      ensures outcome.Done? ==> signals.exceptionReference == 0
      ensures !outcome.Done? ==> outcome.status != Ok
    {
      modify frame.stack;
      var count :| 0 <= count <= frame.stack.Length;
      frame.count := count;
      var status := Check();
      if status == Ok {
        return Done;
      }
      var abandoned: bool := *;
      return if abandoned then Abandoned(status) else Refused(status);
    }

    /** ldsfld and stsfld: net_field on a static field, between whose checks and access the owner is initialised. */
    method StaticFieldInstruction(frame: Frame, token: nat) returns (outcome: Effect)
      requires Valid() && signals.exceptionReference == 0 && frame.count <= frame.stack.Length && Separate(frame)
      requires (frame.stack as object) != frame
      modifies this, signals, classStates, frame`count, frame.stack
      ensures Valid() && Counters() == old(Counters()) && Progressed()
      ensures frame.count <= frame.stack.Length
      ensures outcome.Done? ==> signals.exceptionReference == 0 && methodIndex == old(methodIndex) && pc == old(pc)
      ensures !outcome.Done? ==> outcome.status != Ok
      ensures outcome.Done? ==> token in program.fields
      ensures outcome.Done? ==>
                var owner := FirstType(program.types, program.fields[token]);
                owner.Some? ==> classStates[owner.value] == 1 || classStates[owner.value] == 2
      decreases config.maxInstructions - instructions, Uninitialized(), 5
    {
      if token !in program.fields {
        signals.Fail(UnsupportedInstruction);
        return Refused(UnsupportedInstruction);
      }
      outcome := Operate(frame);
      if !outcome.Done? {
        return;
      }
      var status := Initialize(program.fields[token]);
      if status != Ok {
        return Refused(status);
      }
      outcome := Operate(frame);
    }

    /** net_branch */
    method BranchTo(boundaries: seq<bool>, destination: int) returns (status: Status, next: nat)
      modifies signals`result
      ensures status == Ok <==> 0 <= destination < |boundaries| && boundaries[destination]
      ensures status == Ok ==> next == destination && signals.result == old(signals.result)
    {
      if destination < 0 || destination >= |boundaries| || !boundaries[destination] {
        signals.Fail(DecodeError);
        return DecodeError, 0;
      }
      return Ok, destination;
    }

    /** The transfers and caught exceptions of a frame, which only the exception engine changes. */
    ghost function Pending(frame: Frame): (seq<Transfer>, seq<nat>)
      reads frame, frame.transfers, frame.caught
      requires frame.transferCount <= frame.transfers.Length
    {
      (frame.transfers[..frame.transferCount], frame.caught[..])
    }

    /** leave and leave.s */
    method LeaveInstruction(cs: Clauses, frame: Frame, boundaries: seq<bool>, at: nat, destination: int) returns (turn: Turn, ghost event: Event)
      requires Valid() && signals.exceptionReference == 0 && frame.Valid(cs) && Separate(frame)
      requires frame.transfers.Length == |cs| + 1
      modifies signals, frame, frame.stack, frame.transfers, frame.caught
      ensures frame.Valid(cs)
      ensures turn.Transferred? || (turn.Failing? && turn.status != Ok)
      ensures signals.exceptionReference == 0
      ensures turn.Transferred? ==>
                Step(cs, frame.stack.Length, Machine(at, old(frame.State(signals))), event, Machine(turn.next, frame.State(signals)))
    {
      hide Begin;
      event := Leave(0, []);
      var status, next := BranchTo(boundaries, destination);
      if status == Ok {
        status := EhBranch(signals, cs, at, next, true, frame.count);
      }
      if status != Ok {
        return Failing(status), event;
      }
      event := Leave(next, frame.stack[..frame.count]);
      frame.count := 0;
      ghost var before := old(frame.State(signals));
      assert frame.State(signals) == before.(stack := []);
      if cs == [] {
        return Transferred(next), event;
      }
      var flow := BeginTransfer(signals, cs, frame, at, Some(next), None, 0);
      LeavePends(cs, |cs| + 1, frame.stack.Length, before.(stack := []), Fresh(at, Some(next), None, 0));
      if flow.Exit? {
        return Failing(flow.status), event;
      }
      LeaveIsStep(cs, frame.stack.Length, at, before, event, frame.State(signals), flow.pc);
      return Transferred(flow.pc), event;
    }

    /** endfinally */
    method EndFinallyInstruction(cs: Clauses, frame: Frame, at: nat) returns (turn: Turn)
      requires Valid() && signals.exceptionReference == 0 && frame.Valid(cs) && Separate(frame)
      modifies signals, frame, frame.stack, frame.transfers, frame.caught
      ensures frame.Valid(cs)
      ensures turn.Transferred? || turn.Failing? || turn.Returned?
      ensures turn.Transferred? ==>
                Step(cs, frame.stack.Length, Machine(at, old(frame.State(signals))), EndFinally, Machine(turn.next, frame.State(signals)))
      ensures turn.Failing? ==> signals.exceptionReference == 0 && turn.status != Ok
      ensures turn.Returned? ==> turn.status != Ok
    {
      if frame.transferCount == 0 || frame.count != 0 {
        signals.Fail(DecodeError);
        return Failing(DecodeError);
      }
      var active := frame.transfers[frame.transferCount - 1].active;
      if active.None? || !cs[active.value].handler.Has(at) {
        signals.Fail(DecodeError);
        return Failing(DecodeError);
      }
      var flow := ContinueTransfer(signals, cs, frame);
      match flow {
        case Exit(failure) => return Returned(failure);
        case Goto(target) => return Transferred(target);
      }
    }

    /** Conditional and unconditional branches, and switch. */
    method BranchInstruction(cs: Clauses, frame: Frame, boundaries: seq<bool>, at: nat, following: nat, destination: int) returns (turn: Turn)
      requires Valid() && signals.exceptionReference == 0 && frame.Valid(cs) && Separate(frame)
      modifies signals, frame`count, frame.stack
      ensures frame.Valid(cs) && Pending(frame) == old(Pending(frame))
      ensures turn.Advanced? || (turn.Failing? && turn.status != Ok)
      ensures turn.Advanced? ==> signals.exceptionReference == 0
      ensures turn.Advanced? ==> turn.next == following || (turn.next == destination && BranchOk(cs, at, turn.next, false, frame.count))
    {
      var outcome := Operate(frame);
      if !outcome.Done? {
        return Failing(outcome.status);
      }
      var taken: bool := *;
      if !taken {
        return Advanced(following);
      }
      var status, next := BranchTo(boundaries, destination);
      if status == Ok {
        status := EhBranch(signals, cs, at, next, false, frame.count);
      }
      return if status == Ok then Advanced(next) else Failing(status);
    }

    /** ret: not from inside a region, and with exactly the declared result on the stack. */
    method ReturnInstruction(m: Method, frame: Frame, at: nat) returns (turn: Turn, result: Value)
      requires Valid() && signals.exceptionReference == 0 && frame.Valid(m.clauses) && Separate(frame)
      modifies signals
      ensures turn.Returned? || turn.Failing?
      ensures turn.Failing? ==> signals.exceptionReference == 0 && turn.status != Ok
      ensures turn.Returned? ==> Outside(m.clauses, at)
      ensures turn.Returned? && turn.status == Ok ==> signals.exceptionReference == 0 && (result.kind == Void || !m.returnsVoid)
    {
      result := Value(Void, 0);
      for i := 0 to |m.clauses|
        invariant forall j | 0 <= j < i :: !m.clauses[j].tryBlock.Has(at) && !m.clauses[j].handler.Has(at)
      {
        if m.clauses[i].tryBlock.Has(at) || m.clauses[i].handler.Has(at) {
          signals.Fail(DecodeError);
          return Failing(DecodeError), result;
        }
      }
      if frame.count != (if m.returnsVoid then 0 else 1) {
        signals.Fail(DecodeError);
        return Failing(DecodeError), result;
      }
      if m.returnsVoid {
        return Returned(Ok), result;
      }
      var status := Check();
      return Returned(status), frame.stack[0];
    }

    method RethrowInstruction(cs: Clauses, frame: Frame, at: nat) returns (status: Status)
      requires Valid() && frame.Valid(cs) && Separate(frame)
      modifies signals
      ensures status == if RethrowAmong(cs, frame.caught[..], at, |cs|).None? then DecodeError else AddressFault
      ensures status == AddressFault ==> signals.exceptionReference == frame.caught[RethrowAmong(cs, frame.caught[..], at, |cs|).value]
    {
      var caught := FindRethrow(cs, frame, at);
      if caught.None? {
        signals.Fail(DecodeError);
        return DecodeError;
      }
      signals.exceptionReference := frame.caught[caught.value];
      signals.Fail(AddressFault);
      return AddressFault;
    }

    /** instruction_failed: search this frame for a handler of the pending exception, if there is one. */
    method Recover(cs: Clauses, frame: Frame, at: nat, status: Status) returns (turn: Turn, ghost event: Event)
      requires frame.Valid(cs) && Separate(frame) && status != Ok
      requires frame.transfers.Length == |cs| + 1
      modifies signals, frame, frame.stack, frame.transfers, frame.caught
      ensures frame.Valid(cs)
      ensures turn.Returned? || turn.Transferred?
      ensures turn.Transferred? ==> signals.exceptionReference == 0
      ensures turn.Transferred? ==> old(signals.exceptionReference) != 0
      ensures turn.Transferred? ==> forall v: View | v.transfers == old(Pending(frame).0) && v.caught == old(Pending(frame).1) ::
                Step(cs, frame.stack.Length, Machine(at, v), event, Machine(turn.next, frame.State(signals)))
      ensures turn.Returned? ==> turn.status != Ok
    {
      event := EndFinally;
      if signals.exceptionReference == 0 || cs == [] {
        return Returned(status), event;
      }
      var relation := Relation(|cs|);
      event := CilFrameRuns.Event.Raise(signals.exceptionReference, relation, frame.stack[..frame.count], signals.result);
      var objectExists: bool := *;
      var flow := DispatchException(signals, cs, frame, at, objectExists, relation);
      if flow.Exit? {
        return Returned(flow.status), event;
      }
      forall v: View | v.transfers == old(Pending(frame).0) && v.caught == old(Pending(frame).1)
        ensures Step(cs, frame.stack.Length, Machine(at, v), event, Machine(flow.pc, frame.State(signals)))
      {
        assert v.(stack := event.stack, pending := event.exception, result := event.result) == old(frame.State(signals));
      }
      return Transferred(flow.pc), event;
    }

    /** The dispatch on the opcode inside the loop of net_body. */
    method Instruct(m: Method, frame: Frame, boundaries: seq<bool>, at: nat) returns (turn: Turn, result: Value, ghost event: Event)
      requires Valid() && signals.exceptionReference == 0 && methodIndex < |program.methods| && m == program.methods[methodIndex]
      requires frame.Valid(m.clauses) && Separate(frame) && frame.transfers.Length == |m.clauses| + 1
      requires at < |m.code| && m.code[at].Some?
      modifies this, signals, classStates, frame, frame.stack, frame.transfers, frame.caught
      ensures Valid() && Counters() == old(Counters()) && Progressed()
      ensures frame.Valid(m.clauses)
      ensures turn.Returned? && turn.status == Ok ==>
                signals.exceptionReference == 0 && Pending(frame) == old(Pending(frame)) && Outside(m.clauses, at)
      ensures turn.Advanced? || turn.Transferred? ==> signals.exceptionReference == 0
      ensures turn.Advanced? ==> Pending(frame) == old(Pending(frame))
      ensures turn.Failing? ==> turn.status != Ok
      ensures turn.Failing? ==> signals.exceptionReference == 0 || Pending(frame) == old(Pending(frame))
      ensures turn.Transferred? ==>
                Step(m.clauses, frame.stack.Length, Machine(at, old(frame.State(signals))), event, Machine(turn.next, frame.State(signals)))
      decreases config.maxInstructions - instructions, Uninitialized(), 7
    {
      var instruction := m.code[at].value;
      var following := at + instruction.size;
      result, event := Value(Void, 0), EndFinally;
      match instruction.operation {
        case Data =>
          var outcome := Operate(frame);
          turn := After(outcome, following);
        case StaticField(token) =>
          var outcome := StaticFieldInstruction(frame, token);
          turn := After(outcome, following);
        case Call(kind, token) =>
          var status := CallMethod(frame, kind, token);
          turn := if status == Ok then Advanced(following) else Failing(status);
        case Return =>
          turn, result := ReturnInstruction(m, frame, at);
        case Branch(destination) =>
          turn := BranchInstruction(m.clauses, frame, boundaries, at, following, destination);
        case LeaveTo(destination) =>
          turn, event := LeaveInstruction(m.clauses, frame, boundaries, at, destination);
        case EndFinallyOp =>
          turn := EndFinallyInstruction(m.clauses, frame, at);
        case Throw =>
          var status := Raise();
          turn := Failing(status);
        case Rethrow =>
          var status := RethrowInstruction(m.clauses, frame, at);
          turn := Failing(status);
      }
    }

    /** One turn of the loop of net_body: it returns, or makes one step of the frame machine. */
    method TakeTurn(m: Method, frame: Frame, boundaries: seq<bool>, at: nat) returns (turn: Turn, result: Value, ghost event: Event)
      requires Valid() && signals.exceptionReference == 0 && methodIndex < |program.methods| && m == program.methods[methodIndex]
      requires frame.Valid(m.clauses) && Separate(frame) && frame.transfers.Length == |m.clauses| + 1
      requires at < |m.code|
      modifies this, signals, classStates, frame, frame.stack, frame.transfers, frame.caught
      ensures Valid() && Counters() == old(Counters()) && Progressed()
      ensures frame.Valid(m.clauses)
      ensures turn.Returned? || turn.Transferred?
      ensures turn.Returned? && turn.status == Ok ==>
                signals.exceptionReference == 0 && Pending(frame) == old(Pending(frame)) && Outside(m.clauses, at)
      ensures turn.Transferred? ==> signals.exceptionReference == 0 && old(instructions) < instructions
      ensures turn.Transferred? ==>
                Step(m.clauses, frame.stack.Length, Machine(at, old(frame.State(signals))), event, Machine(turn.next, frame.State(signals)))
      decreases config.maxInstructions - instructions, Uninitialized(), 0
    {
      hide Step, Outside, LexicallyNested;
      var cs := m.clauses;
      result, event := Value(Void, 0), EndFinally;
      if instructions >= config.maxInstructions || sharedBudget == Some(0) {
        signals.Fail(LimitReached);
        return Returned(LimitReached), result, event;
      }
      if m.code[at].None? {
        signals.Fail(DecodeError);
        return Returned(DecodeError), result, event;
      }
      instructions := instructions + 1;
      if sharedBudget.Some? {
        sharedBudget := Some(sharedBudget.value - 1);
      }
      ghost var before := frame.State(signals);
      assert before == old(frame.State(signals));
      turn, result, event := Instruct(m, frame, boundaries, at);
      if turn.Failing? {
        turn, event := Recover(cs, frame, at, turn.status);
      } else if turn.Advanced? {
        turn, event := Proceed(cs, frame, at, turn.next, before);
      }
    }

    /** After an ordinary instruction: the fall-through check. */
    method Proceed(cs: Clauses, frame: Frame, at: nat, next: nat, ghost before: View) returns (turn: Turn, ghost event: Event)
      requires signals.exceptionReference == 0 && frame.Valid(cs) && Separate(frame)
      requires Pending(frame) == (before.transfers, before.caught)
      modifies signals`result
      ensures turn == Transferred(next) || (turn.Returned? && turn.status != Ok)
      ensures turn.Transferred? ==> Step(cs, frame.stack.Length, Machine(at, before), event, Machine(next, frame.State(signals)))
    {
      event := Advance(next, frame.stack[..frame.count], signals.exceptionReference, signals.result);
      if cs != [] {
        var status := EhFallthrough(signals, cs, at, next, frame.count);
        if status != Ok {
          return Returned(status), event;
        }
      }
      AdvanceIsStep(cs, frame.stack.Length, at, before, event, frame.State(signals));
      turn := Transferred(next);
    }

    /**
      net_body.  Each completed turn of the loop is one step of the frame
      machine, and the ghost results are the run it made: it starts in the
      frame's state, takes at least one instruction a step, and a method that
      returns leaves the frame's transfers and caught exceptions as the run does.
      With lexically nested clauses the discipline of runs then says that no
      transfer is left pending.
    */
    method Body(index: nat, frame: Frame, boundaries: seq<bool>) returns (status: Status, result: Value, ghost ms: seq<Machine>, ghost es: seq<Event>)
      requires Valid() && signals.exceptionReference == 0 && index < |program.methods|
      requires FreshFrame(index, frame) && Separate(frame)
      modifies this, signals, classStates, frame, frame.stack, frame.transfers, frame.caught
      ensures Valid() && Counters() == old(Counters()) && Progressed()
      ensures status == Ok ==> signals.exceptionReference == 0
      ensures frame.Valid(program.methods[index].clauses)
      ensures Run(program.methods[index].clauses, frame.stack.Length, ms, es)
      ensures ms[0] == Machine(0, old(frame.State(signals))) && |es| <= instructions - old(instructions)
      ensures status == Ok ==>
                Pending(frame) == (ms[|es|].view.transfers, ms[|es|].view.caught) && Outside(program.methods[index].clauses, ms[|es|].pc)
      ensures status == Ok && LexicallyNested(program.methods[index].clauses) ==> frame.transferCount == 0
      decreases config.maxInstructions - instructions, Uninitialized(), 1
    {
      var m := program.methods[index];
      var cs := m.clauses;
      var at: nat := 0;
      result := Value(Void, 0);
      ms, es := [Machine(0, frame.State(signals))], [];
      while at < |m.code|
        invariant Valid() && Counters() == old(Counters()) && Progressed()
        invariant signals.exceptionReference == 0
        invariant frame.Valid(cs) && Separate(frame)
        invariant Run(cs, frame.stack.Length, ms, es)
        invariant ms[|es|] == Machine(at, frame.State(signals))
        invariant ms[0] == Machine(0, old(frame.State(signals))) && |es| <= instructions - old(instructions)
        decreases config.maxInstructions - instructions
      {
        methodIndex, pc := index, at;
        var turn;
        ghost var event;
        turn, result, event := TakeTurn(m, frame, boundaries, at);
        match turn {
          case Returned(outcome) =>
            if outcome == Ok {
              ReturnsWithoutTransfers(cs, frame.stack.Length, ms, es);
            }
            return outcome, result, ms, es;
          case Transferred(next) => at := next;
        }
        RunExtends(cs, frame.stack.Length, ms, es, event, Machine(at, frame.State(signals)));
        ms, es := ms + [Machine(at, frame.State(signals))], es + [event];
      }
      signals.Fail(DecodeError);
      status := DecodeError;
    }

    /** What the assignability check answers for each clause depends on the heap and the metadata. */
    method Relation(n: nat) returns (relation: seq<CatchMatch>)
      ensures |relation| == n
    {
      relation := [];
      for i := 0 to n
        invariant |relation| == i
      {
        var answer: CatchMatch := *;
        relation := relation + [answer];
      }
    }

    /** xxemul_dotnet_vm_raise and xxemul_dotnet_vm_raise_type: a failure, with or without an exception object. */
    method Raise() returns (status: Status)
      modifies signals
      ensures status != Ok
    {
      signals.exceptionReference := *;
      status :| status != Ok;
      signals.Fail(status);
    }
  }

  lemma AdvanceIsStep(cs: Clauses, capacity: nat, at: nat, v: View, e: Event, w: View)
    requires e.Advance? && WellFormed(cs, Machine(at, v)) && FallthroughOk(cs, at, e.next, |e.stack|)
    requires w == v.(stack := e.stack, pending := e.pending, result := e.result)
    ensures Step(cs, capacity, Machine(at, v), e, Machine(e.next, w))
  {
  }

  /** A leave that exits reports a failure, and no exception becomes pending. */
  lemma LeavePends(cs: Clauses, limit: nat, capacity: nat, v: View, t: Transfer)
    requires |v.caught| == |cs| && v.pending == 0 && !t.exceptional
    requires TransferOk(cs, t) && forall k | 0 <= k < |v.transfers| :: TransferOk(cs, v.transfers[k])
    ensures var (w, flow) := Begin(cs, limit, capacity, v, t);
            w.pending == 0 && (flow.Exit? ==> flow.status != Ok)
  {
  }

  lemma LeaveIsStep(cs: Clauses, capacity: nat, at: nat, v: View, e: Event, w: View, next: nat)
    requires cs != [] && e.Leave? && WellFormed(cs, Machine(at, v)) && BranchOk(cs, at, e.target, true, |e.stack|)
    requires Begin(cs, |cs| + 1, capacity, v.(stack := []), Fresh(at, Some(e.target), None, 0)) == (w, Goto(next))
    ensures Step(cs, capacity, Machine(at, v), e, Machine(next, w))
  {
  }

  /** Outside every region no handler is active. */
  lemma ReturnsWithoutTransfers(cs: Clauses, capacity: nat, ms: seq<Machine>, es: seq<Event>)
    requires Run(cs, capacity, ms, es) && Outside(cs, ms[|es|].pc)
    ensures LexicallyNested(cs) ==> ms[|es|].view.transfers == []
  {
    hide LexicallyNested, Step;
    if LexicallyNested(cs) {
      RunsKeepDiscipline(cs, capacity, ms, es, |es|);
      ActiveIsInside(cs, ms[|es|].view.transfers, ms[|es|].pc);
    }
  }

  lemma ActiveIsInside(cs: Clauses, ts: seq<Transfer>, pc: nat)
    requires Discipline(cs, ts, pc)
    ensures ts != [] ==> !Outside(cs, pc)
  {
    hide Exited;
    if ts != [] {
      assert Running(cs, ts[0]) && Handler(cs, ts[0]).Has(pc);
    }
  }

  lemma RunExtends(cs: Clauses, capacity: nat, ms: seq<Machine>, es: seq<Event>, e: Event, m: Machine)
    requires Run(cs, capacity, ms, es) && Step(cs, capacity, ms[|es|], e, m)
    ensures Run(cs, capacity, ms + [m], es + [e])
  {
  }
}

/**
  The exception engine of one CIL frame (src/xxemul_dotnet_runtime.c, lines
  1152-1265): the stack of pending transfers, as arrays of a net_frame that the
  functions update in place.  View is the abstract value of a frame together
  with the two fields of the VM that the engine touches.
*/
module CilUnwind {
  import opened Wrappers
  import opened CilClauses

  datatype Kind = Void | I4 | I8 | Native | F | Object
  datatype Value = Value(kind: Kind, bits: nat)

  const UINT32_MAX := 0xFFFF_FFFF

  /** The part of xxemul_dotnet_vm that the engine changes. */
  class Signals {
    var exceptionReference: nat
    var result: Status

    constructor ()
      ensures exceptionReference == 0 && result == Ok
    {
      exceptionReference, result := 0, Ok;
    }

    /** net_fail: the first failure sticks. */
    method Fail(status: Status)
      modifies this`result
      ensures result == Failed(old(result), status)
    {
      if result == Ok {
        result := status;
      }
    }
  }

  function Failed(before: Status, status: Status): Status {
    if before == Ok then status else before
  }

  datatype View = View(transfers: seq<Transfer>, caught: seq<nat>, stack: seq<Value>, pending: nat, result: Status)

  /** Where control goes: on in this frame, or out of it with a status. */
  datatype Flow = Goto(pc: nat) | Exit(status: Status)

  // ----------------------------------------------------------------------
  // The engine as functions on views
  // ----------------------------------------------------------------------

  function Continue(cs: Clauses, capacity: nat, v: View): (View, Flow)
    requires |v.caught| == |cs|
    requires forall k | 0 <= k < |v.transfers| :: TransferOk(cs, v.transfers[k])
  {
    if v.transfers == [] then (v.(result := Failed(v.result, DecodeError)), Exit(DecodeError))
    else
      var n := |v.transfers| - 1;
      var t := v.transfers[n];
      assert TransferOk(cs, t);
      match NextFinally(cs, t)
      case Some(f) =>
        (v.(transfers := v.transfers[n := t.(active := Some(f), previous := Some(f))], stack := [], pending := 0, result := Ok),
         Goto(cs[f].handler.start))
      case None =>
        var w := v.(transfers := v.transfers[..n], stack := []);
        if !t.exceptional then (w, Goto(if t.target.Some? then t.target.value else UINT32_MAX))
        else if t.catchClause.Some? then
          var c := t.catchClause.value;
          var entered := w.(caught := w.caught[c := t.exception], pending := 0, result := Ok);
          if capacity == 0 then (entered.(result := DecodeError), Exit(DecodeError))
          else (entered.(stack := [Value(Object, t.exception)]), Goto(cs[c].handler.start))
        else (w.(pending := t.exception), Exit(AddressFault))
  }

  /** The transfers a new one leaves in place: up to the last active handler around its target. */
  function Kept(cs: Clauses, transfers: seq<Transfer>, target: Option<nat>): (kept: seq<Transfer>)
    ensures kept <= transfers
    ensures kept != [] ==> Holds(cs, kept[|kept| - 1], target)
  {
    if transfers == [] || Holds(cs, transfers[|transfers| - 1], target) then transfers
    else Kept(cs, transfers[..|transfers| - 1], target)
  }

  predicate Holds(cs: Clauses, t: Transfer, target: Option<nat>) {
    t.active.Some? && target.Some? && t.active.value < |cs| && cs[t.active.value].handler.Has(target.value)
  }

  function Fresh(origin: nat, target: Option<nat>, catchClause: Option<nat>, exception: nat): Transfer {
    Transfer(origin, target, exception, catchClause, None, None, exception != 0)
  }

  function Begin(cs: Clauses, limit: nat, capacity: nat, v: View, t: Transfer): (View, Flow)
    requires |v.caught| == |cs|
    requires TransferOk(cs, t) && forall k | 0 <= k < |v.transfers| :: TransferOk(cs, v.transfers[k])
  {
    var kept := Kept(cs, v.transfers, t.target);
    if |kept| >= limit then (v.(transfers := kept, result := Failed(v.result, LimitReached)), Exit(LimitReached))
    else Continue(cs, capacity, v.(transfers := kept + [t]))
  }

  /** What net_assignable answers for a catch clause's class. */
  datatype CatchMatch = Matches | Differs | Unknown | BadClass

  datatype Selection = Selected(clause: Option<nat>) | Aborted(status: Status)

  predicate Catches(cs: Clauses, pc: nat, i: nat) {
    i < |cs| && cs[i].flags == CATCH && cs[i].tryBlock.Has(pc)
  }

  function SelectAmong(cs: Clauses, relation: seq<CatchMatch>, pc: nat, n: nat): (s: Selection)
    requires |relation| == |cs| && n <= |cs|
    ensures s.Aborted? ==> s.status != Ok
    ensures s.Selected? && s.clause.Some? ==> s.clause.value < n && Catches(cs, pc, s.clause.value) && relation[s.clause.value] == Matches
  {
    if n == 0 then Selected(None)
    else
      var s := SelectAmong(cs, relation, pc, n - 1);
      var i := n - 1;
      if s.Aborted? || !Catches(cs, pc, i) then s
      else match relation[i]
        case BadClass => Aborted(InvalidImage)
        case Unknown => Aborted(UnsupportedInstruction)
        case Differs => s
        case Matches =>
          if s.clause.None? || cs[i].tryBlock.length < cs[s.clause.value].tryBlock.length then Selected(Some(i)) else s
  }

  function Thrown(cs: Clauses, pc: nat, selected: Option<nat>, exception: nat): Transfer
    requires selected.Some? ==> selected.value < |cs|
  {
    Fresh(pc, if selected.None? then None else Some(cs[selected.value].handler.start), selected, exception)
  }

  predicate BranchOkAt(c: Clause, origin: nat, target: nat, leave: bool, stackCount: nat) {
    var fromTry, toTry := c.tryBlock.Has(origin), c.tryBlock.Has(target);
    var fromHandler, toHandler := c.handler.Has(origin), c.handler.Has(target);
    && !(!fromTry && toTry && (target != c.tryBlock.start || (!leave && stackCount != 0)))
    && !(!fromHandler && toHandler)
    && !(!leave && ((fromTry && !toTry) || fromHandler != toHandler))
    && !(leave && fromHandler && !toHandler && (c.flags == FINALLY || c.flags == FAULT))
  }

  predicate BranchOk(cs: Clauses, origin: nat, target: nat, leave: bool, stackCount: nat) {
    forall i | 0 <= i < |cs| :: BranchOkAt(cs[i], origin, target, leave, stackCount)
  }

  predicate FallthroughOkAt(c: Clause, origin: nat, target: nat, stackCount: nat) {
    && c.handler.Has(origin) == c.handler.Has(target)
    && !(!c.tryBlock.Has(origin) && c.tryBlock.Has(target) && stackCount != 0)
    && !(c.tryBlock.Has(origin) && !c.tryBlock.Has(target))
  }

  predicate FallthroughOk(cs: Clauses, origin: nat, target: nat, stackCount: nat) {
    forall i | 0 <= i < |cs| :: FallthroughOkAt(cs[i], origin, target, stackCount)
  }

  // ----------------------------------------------------------------------
  // The frame and the engine's methods
  // ----------------------------------------------------------------------

  class Frame {
    const stack: array<Value>
    const transfers: array<Transfer>
    const caught: array<nat>
    var count: nat
    var transferCount: nat

    ghost predicate Valid(cs: Clauses)
      reads this, transfers, caught
    {
      && count <= stack.Length
      && transferCount <= transfers.Length
      && caught.Length == |cs|
      && (stack as object) != transfers && (stack as object) != caught && (transfers as object) != caught
      && forall k | 0 <= k < transferCount :: TransferOk(cs, transfers[k])
    }

    ghost function State(signals: Signals): View
      reads this, stack, transfers, caught, signals
      requires count <= stack.Length && transferCount <= transfers.Length
    {
      View(transfers[..transferCount], caught[..], stack[..count], signals.exceptionReference, signals.result)
    }

    /** As net_execute sizes it: one transfer more than there are clauses. */
    constructor (cs: Clauses, maxStack: nat)
      ensures Valid(cs) && fresh(this) && fresh(stack) && fresh(transfers) && fresh(caught)
      ensures count == 0 && transferCount == 0
      ensures stack.Length == maxStack && transfers.Length == |cs| + 1
      ensures forall i | 0 <= i < |cs| :: caught[i] == 0
    {
      stack := new Value[maxStack];
      transfers := new Transfer[|cs| + 1];
      caught := new nat[|cs|](_ => 0);
      count, transferCount := 0, 0;
    }
  }

  predicate TransferOk(cs: Clauses, t: Transfer) {
    && (t.catchClause.Some? ==> t.catchClause.value < |cs|)
    && (t.active.Some? ==> t.active.value < |cs|)
    && t.previous == t.active
  }

  method ContinueTransfer(signals: Signals, cs: Clauses, frame: Frame) returns (flow: Flow)
    requires frame.Valid(cs)
    modifies signals, frame, frame.stack, frame.transfers, frame.caught
    ensures frame.Valid(cs)
    ensures (frame.State(signals), flow) == Continue(cs, frame.stack.Length, old(frame.State(signals)))
  {
    ghost var before := frame.State(signals);
    if frame.transferCount == 0 {
      signals.Fail(DecodeError);
      return Exit(DecodeError);
    }
    var top := frame.transferCount - 1;
    var transfer := frame.transfers[top];
    assert before.transfers[top] == transfer;
    var finalizer := FindNextFinally(cs, transfer);
    frame.count := 0;
    if finalizer.Some? {
      frame.transfers[top] := transfer.(active := finalizer, previous := finalizer);
      signals.exceptionReference, signals.result := 0, Ok;
      assert frame.State(signals).transfers == before.transfers[top := transfer.(active := finalizer, previous := finalizer)];
      return Goto(cs[finalizer.value].handler.start);
    }
    frame.transferCount := top;
    assert frame.State(signals).transfers == before.transfers[..top];
    if !transfer.exceptional {
      return Goto(if transfer.target.Some? then transfer.target.value else UINT32_MAX);
    }
    if transfer.catchClause.Some? {
      flow := EnterCatch(signals, cs, frame, transfer.catchClause.value, transfer.exception);
      return;
    }
    signals.exceptionReference := transfer.exception;
    return Exit(AddressFault);
  }

  /** The exception is caught: it is remembered for rethrow, and is all there is on the stack. */
  method EnterCatch(signals: Signals, cs: Clauses, frame: Frame, c: nat, exception: nat) returns (flow: Flow)
    requires frame.Valid(cs) && c < |cs| && frame.count == 0
    modifies signals, frame, frame.stack, frame.caught
    ensures frame.Valid(cs)
    ensures var v := old(frame.State(signals)).(caught := old(frame.caught[..])[c := exception], pending := 0, result := Ok);
            (frame.State(signals), flow)
            == if frame.stack.Length == 0 then (v.(result := DecodeError), Exit(DecodeError))
               else (v.(stack := [Value(Object, exception)]), Goto(cs[c].handler.start))
  {
    frame.caught[c] := exception;
    signals.exceptionReference, signals.result := 0, Ok;
    if frame.stack.Length == 0 {
      signals.Fail(DecodeError);
      return Exit(DecodeError);
    }
    frame.stack[0] := Value(Object, exception);
    frame.count := 1;
    assert frame.State(signals).stack == [Value(Object, exception)];
    return Goto(cs[c].handler.start);
  }

  /** The loop of net_begin_transfer: drop the unwinds that a transfer to target replaces. */
  method AbandonTransfers(ghost signals: Signals, cs: Clauses, frame: Frame, target: Option<nat>)
    requires frame.Valid(cs)
    modifies frame`transferCount
    ensures frame.Valid(cs)
    ensures frame.State(signals) == old(frame.State(signals)).(transfers := Kept(cs, old(frame.State(signals)).transfers, target))
  {
    ghost var before := frame.State(signals);
    while frame.transferCount > 0
      invariant frame.Valid(cs)
      invariant frame.State(signals) == before.(transfers := frame.State(signals).transfers)
      invariant Kept(cs, frame.State(signals).transfers, target) == Kept(cs, before.transfers, target)
      decreases frame.transferCount
    {
      var last := frame.transfers[frame.transferCount - 1];
      if last.active.Some? && target.Some? {
        var active := cs[last.active.value];
        if active.handler.Has(target.value) {
          break;
        }
      }
      ghost var now := frame.State(signals).transfers;
      assert now[..|now| - 1] == frame.transfers[..frame.transferCount - 1];
      frame.transferCount := frame.transferCount - 1;
    }
  }

  method BeginTransfer(signals: Signals, cs: Clauses, frame: Frame, origin: nat, target: Option<nat>,
                       catchClause: Option<nat>, exception: nat)
    returns (flow: Flow)
    requires frame.Valid(cs)
    requires catchClause.Some? ==> catchClause.value < |cs|
    modifies signals, frame, frame.stack, frame.transfers, frame.caught
    ensures frame.Valid(cs)
    ensures (frame.State(signals), flow) ==
            Begin(cs, frame.transfers.Length, frame.stack.Length, old(frame.State(signals)), Fresh(origin, target, catchClause, exception))
  {
    hide Continue;
    ghost var before := frame.State(signals);
    AbandonTransfers(signals, cs, frame, target);
    if frame.transferCount >= frame.transfers.Length {
      signals.Fail(LimitReached);
      return Exit(LimitReached);
    }
    frame.transfers[frame.transferCount] := Fresh(origin, target, catchClause, exception);
    frame.transferCount := frame.transferCount + 1;
    assert frame.State(signals).transfers == Kept(cs, before.transfers, target) + [Fresh(origin, target, catchClause, exception)];
    flow := ContinueTransfer(signals, cs, frame);
  }

  /** objectExists is whether the pending reference names an object of the heap. */
  method DispatchException(signals: Signals, cs: Clauses, frame: Frame, pc: nat, objectExists: bool, relation: seq<CatchMatch>)
    returns (flow: Flow)
    requires frame.Valid(cs) && |relation| == |cs|
    modifies signals, frame, frame.stack, frame.transfers, frame.caught
    ensures frame.Valid(cs)
    ensures !objectExists ==> flow == Exit(DecodeError) && frame.State(signals) == old(frame.State(signals).(result := Failed(signals.result, DecodeError)))
    ensures objectExists ==>
              var s := SelectAmong(cs, relation, pc, |cs|);
              match s
              case Aborted(status) => flow == Exit(status) && frame.State(signals) == old(frame.State(signals).(result := Failed(signals.result, status)))
              case Selected(c) =>
                (frame.State(signals), flow) == Begin(cs, frame.transfers.Length, frame.stack.Length, old(frame.State(signals)),
                                                      Thrown(cs, pc, c, old(signals.exceptionReference)))
  {
    if !objectExists {
      signals.Fail(DecodeError);
      return Exit(DecodeError);
    }
    var selected: Option<nat> := None;
    for i := 0 to |cs|
      invariant SelectAmong(cs, relation, pc, i) == Selected(selected)
    {
      var clause := cs[i];
      if clause.flags != CATCH || !clause.tryBlock.Has(pc) {
        continue;
      }
      if relation[i] == BadClass {
        AbortSticks(cs, relation, pc, i + 1, |cs|);
        signals.Fail(InvalidImage);
        return Exit(InvalidImage);
      }
      if relation[i] == Unknown {
        AbortSticks(cs, relation, pc, i + 1, |cs|);
        signals.Fail(UnsupportedInstruction);
        return Exit(UnsupportedInstruction);
      }
      if relation[i] == Matches && (selected.None? || clause.tryBlock.length < cs[selected.value].tryBlock.length) {
        selected := Some(i);
      }
    }
    flow := BeginTransfer(signals, cs, frame, pc,
                          if selected.None? then None else Some(cs[selected.value].handler.start),
                          selected, signals.exceptionReference);
  }

  lemma {:induction false} AbortSticks(cs: Clauses, relation: seq<CatchMatch>, pc: nat, m: nat, n: nat)
    requires |relation| == |cs| && m <= n <= |cs|
    requires SelectAmong(cs, relation, pc, m).Aborted?
    ensures SelectAmong(cs, relation, pc, n) == SelectAmong(cs, relation, pc, m)
  {
    if m < n {
      AbortSticks(cs, relation, pc, m, n - 1);
    }
  }

  method EhBranch(signals: Signals, cs: Clauses, origin: nat, target: nat, leave: bool, stackCount: nat) returns (status: Status)
    modifies signals`result
    ensures status == if BranchOk(cs, origin, target, leave, stackCount) then Ok else DecodeError
    ensures signals.result == if status == Ok then old(signals.result) else Failed(old(signals.result), status)
  {
    for i := 0 to |cs|
      invariant signals.result == old(signals.result)
      invariant forall j | 0 <= j < i :: BranchOkAt(cs[j], origin, target, leave, stackCount)
    {
      var clause := cs[i];
      var fromTry, toTry := clause.tryBlock.Has(origin), clause.tryBlock.Has(target);
      var fromHandler, toHandler := clause.handler.Has(origin), clause.handler.Has(target);
      if || (!fromTry && toTry && (target != clause.tryBlock.start || (!leave && stackCount != 0)))
         || (!fromHandler && toHandler)
         || (!leave && ((fromTry && !toTry) || fromHandler != toHandler))
         || (leave && fromHandler && !toHandler && (clause.flags == FINALLY || clause.flags == FAULT))
      {
        assert !BranchOkAt(cs[i], origin, target, leave, stackCount);
        signals.Fail(DecodeError);
        return DecodeError;
      }
    }
    return Ok;
  }

  method EhFallthrough(signals: Signals, cs: Clauses, origin: nat, target: nat, stackCount: nat) returns (status: Status)
    modifies signals`result
    ensures status == if FallthroughOk(cs, origin, target, stackCount) then Ok else DecodeError
    ensures signals.result == if status == Ok then old(signals.result) else Failed(old(signals.result), status)
  {
    for i := 0 to |cs|
      invariant signals.result == old(signals.result)
      invariant forall j | 0 <= j < i :: FallthroughOkAt(cs[j], origin, target, stackCount)
    {
      var clause := cs[i];
      var fromHandler, toHandler := clause.handler.Has(origin), clause.handler.Has(target);
      if || fromHandler != toHandler
         || (!clause.tryBlock.Has(origin) && clause.tryBlock.Has(target) && stackCount != 0)
         || (clause.tryBlock.Has(origin) && !clause.tryBlock.Has(target))
      {
        assert !FallthroughOkAt(cs[i], origin, target, stackCount);
        signals.Fail(DecodeError);
        return DecodeError;
      }
    }
    return Ok;
  }
}

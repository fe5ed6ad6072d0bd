/**
  rethrow (src/xxemul_dotnet_runtime.c, lines 1503-1512) over the runs of a CIL
  frame: when it finds the innermost catch handler, exactly.
*/
module CilRethrow {
  import opened Wrappers
  import opened CilClauses
  import opened CilUnwind
  import opened CilFrameRuns

  /** The search of rethrow: the shortest catch handler around pc that holds an exception. */
  function RethrowAmong(cs: Clauses, caught: seq<nat>, pc: nat, n: nat): (r: Option<nat>)
    requires |caught| == |cs| && n <= |cs|
    ensures r.Some? ==> r.value < n && InCatch(cs, r.value, pc) && caught[r.value] != 0
    ensures r.Some? ==> forall i | 0 <= i < n && InCatch(cs, i, pc) && caught[i] != 0 :: cs[r.value].handler.length <= cs[i].handler.length
    ensures r.None? ==> forall i | 0 <= i < n && InCatch(cs, i, pc) :: caught[i] == 0
  {
    if n == 0 then None
    else
      var s := RethrowAmong(cs, caught, pc, n - 1);
      if InCatch(cs, n - 1, pc) && caught[n - 1] != 0 && (s.None? || cs[n - 1].handler.length < cs[s.value].handler.length)
      then Some(n - 1) else s
  }

  predicate InCatch(cs: Clauses, i: nat, pc: nat) {
    i < |cs| && cs[i].flags == CATCH && cs[i].handler.Has(pc)
  }

  method FindRethrow(cs: Clauses, frame: Frame, pc: nat) returns (selected: Option<nat>)
    requires frame.Valid(cs)
    ensures selected == RethrowAmong(cs, frame.caught[..], pc, |cs|)
  {
    selected := None;
    for i := 0 to |cs|
      invariant selected == RethrowAmong(cs, frame.caught[..], pc, i)
    {
      var clause := cs[i];
      if clause.flags == CATCH && frame.caught[i] != 0 && clause.handler.Has(pc)
         && (selected.None? || clause.handler.length < cs[selected.value].handler.length)
      {
        selected := Some(i);
      }
    }
  }

  /**
    A method does not start in a catch handler, and no catch handler starts where
    a handler around its clause does: entering that one would enter the catch
    handler without an exception for it.
  */
  predicate ProperEntries(cs: Clauses) {
    && (forall c | 0 <= c < |cs| :: !InCatch(cs, c, 0))
    && forall g, c | 0 <= g < |cs| && 0 <= c < |cs| && g != c :: !SharesEntry(cs, g, c)
  }

  predicate SharesEntry(cs: Clauses, g: nat, c: nat)
    requires g < |cs| && c < |cs|
  {
    cs[c].flags == CATCH && InsideOf(cs[c], cs[g].handler) && cs[c].handler.start == cs[g].handler.start
  }

  /** Every catch handler around pc holds its exception, and will when the pending transfers arrive. */
  predicate Held(cs: Clauses, m: Machine) {
    && WellFormed(cs, m)
    && (forall c | 0 <= c < |cs| && InCatch(cs, c, m.pc) :: m.view.caught[c] != 0)
    && forall k | 0 <= k < |m.view.transfers| :: HeldFor(cs, m.view.caught, m.view.transfers[k])
  }

  predicate HeldFor(cs: Clauses, caught: seq<nat>, t: Transfer)
    requires |caught| == |cs|
  {
    && (t.catchClause.Some? ==> Catches(cs, t.origin, t.catchClause.value) && t.exception != 0)
    && forall c | 0 <= c < |cs| && c !in Entering(t) && (InCatch(cs, c, t.origin) || (t.target.Some? && InCatch(cs, c, t.target.value))) ::
         caught[c] != 0
  }

  function Entering(t: Transfer): set<nat> {
    if t.catchClause.Some? then {t.catchClause.value} else {}
  }

  /** A catch handler around the start of an exited cleanup's handler is around the origin too. */
  lemma HandlerStartHeld(cs: Clauses, t: Transfer, f: nat, c: nat)
    requires LexicallyNested(cs) && ProperEntries(cs) && Exited(cs, t, f) && InCatch(cs, c, cs[f].handler.start)
    ensures InCatch(cs, c, t.origin)
  {
    assert ClauseOk(cs[f]) && ClauseOk(cs[c]);
    assert f != c && !SharesEntry(cs, f, c);
    assert PairNested(cs[f], cs[c]);
    assert InsideOf(cs[f], cs[c].handler);
    if !cs[f].tryBlock.Has(t.origin) {
      var d :| 0 <= d < |cs| && SiblingHandlerHas(cs, f, d, t.origin);
      assert ClauseOk(cs[d]) && d != c;
      assert PairNested(cs[d], cs[c]);
    }
  }

  /** A catch handler around the start of the one an exception enters is around the throw too. */
  lemma CatchStartHeld(cs: Clauses, pc: nat, c0: nat, c: nat)
    requires LexicallyNested(cs) && ProperEntries(cs) && Catches(cs, pc, c0) && c != c0
    requires InCatch(cs, c, cs[c0].handler.start)
    ensures InCatch(cs, c, pc)
  {
    assert ClauseOk(cs[c0]) && ClauseOk(cs[c]);
    assert PairNested(cs[c0], cs[c]) && !SharesEntry(cs, c0, c);
  }

  predicate AllHeldFor(cs: Clauses, caught: seq<nat>, ts: seq<Transfer>)
    requires |caught| == |cs|
  {
    forall k | 0 <= k < |ts| :: HeldFor(cs, caught, ts[k])
  }

  lemma ContinueHeld(cs: Clauses, capacity: nat, v: View, ts: seq<Transfer>, t: Transfer)
    requires LexicallyNested(cs) && ProperEntries(cs) && |v.caught| == |cs|
    requires v.transfers == ts + [t] && Ready(cs, ts, t) && AllHeldFor(cs, v.caught, ts + [t])
    ensures var (w, flow) := Continue(cs, capacity, v);
            flow.Goto? ==> Held(cs, Machine(flow.pc, w))
  {
    var n := |ts|;
    assert v.transfers[n] == t && v.transfers[..n] == ts;
    var (w, flow) := Continue(cs, capacity, v);
    assert HeldFor(cs, v.caught, (ts + [t])[n]);
    forall k | 0 <= k < n
      ensures HeldFor(cs, v.caught, ts[k])
    {
      assert (ts + [t])[k] == ts[k];
    }
    match NextFinally(cs, t)
    case Some(f) =>
      var u := t.(active := Some(f), previous := Some(f));
      forall c | 0 <= c < |cs| && InCatch(cs, c, cs[f].handler.start)
        ensures v.caught[c] != 0
      {
        HandlerStartHeld(cs, t, f, c);
        assert ClauseOk(cs[c]);
        assert c !in Entering(t);
      }
      assert HeldFor(cs, v.caught, u);
    case None =>
  }

  lemma BeginHeld(cs: Clauses, capacity: nat, v: View, pc: nat, t: Transfer)
    requires LexicallyNested(cs) && ProperEntries(cs) && |v.caught| == |cs|
    requires Discipline(cs, v.transfers, pc) && Ready(cs, [], t) && t.origin == pc
    requires AllHeldFor(cs, v.caught, v.transfers) && HeldFor(cs, v.caught, t)
    ensures var (w, flow) := Begin(cs, |cs| + 1, capacity, v, t);
            flow.Goto? ==> Held(cs, Machine(flow.pc, w))
  {
    var kept := Kept(cs, v.transfers, t.target);
    KeptIsReady(cs, v.transfers, pc, t);
    var ts := kept + [t];
    forall k | 0 <= k < |ts|
      ensures HeldFor(cs, v.caught, ts[k])
    {
      if k < |kept| {
        assert ts[k] == v.transfers[k];
      }
    }
    ContinueHeld(cs, capacity, v.(transfers := kept + [t]), kept, t);
  }

  /** Ordinary control flow stays inside the same catch handlers, or leaves some. */
  lemma MoveKeepsHeld(cs: Clauses, m: Machine, next: nat, view: View)
    requires Held(cs, m) && view.transfers == m.view.transfers && view.caught == m.view.caught
    requires forall c | 0 <= c < |cs| && InCatch(cs, c, next) :: InCatch(cs, c, m.pc)
    ensures Held(cs, Machine(next, view))
  {
  }

  lemma LeaveKeepsHeld(cs: Clauses, capacity: nat, m: Machine, e: Event, n: Machine)
    requires LexicallyNested(cs) && ProperEntries(cs) && cs != []
    requires Discipline(cs, m.view.transfers, m.pc) && Held(cs, m) && e.Leave? && Step(cs, capacity, m, e, n)
    ensures Held(cs, n)
  {
    var t := Started(cs, m, e);
    forall c | 0 <= c < |cs| && InCatch(cs, c, e.target)
      ensures InCatch(cs, c, m.pc)
    {
      assert BranchOkAt(cs[c], m.pc, e.target, true, |e.stack|);
    }
    assert HeldFor(cs, m.view.caught, t);
    BeginHeld(cs, capacity, m.view.(stack := []), m.pc, t);
  }

  lemma RaiseKeepsHeld(cs: Clauses, capacity: nat, m: Machine, e: Event, n: Machine)
    requires LexicallyNested(cs) && ProperEntries(cs)
    requires Discipline(cs, m.view.transfers, m.pc) && Held(cs, m) && e.Raise? && Step(cs, capacity, m, e, n)
    ensures Held(cs, n)
  {
    var t := Started(cs, m, e);
    forall c | 0 <= c < |cs| && c !in Entering(t) && t.target.Some? && InCatch(cs, c, t.target.value)
      ensures InCatch(cs, c, m.pc)
    {
      CatchStartHeld(cs, m.pc, t.catchClause.value, c);
    }
    assert HeldFor(cs, m.view.caught, t);
    BeginHeld(cs, capacity, m.view.(stack := e.stack, pending := e.exception, result := e.result), m.pc, t);
  }

  lemma OrdinaryKeepsHeld(cs: Clauses, capacity: nat, m: Machine, e: Event, n: Machine)
    requires Held(cs, m) && (e.Advance? || e.Jump?) && Step(cs, capacity, m, e, n)
    ensures Held(cs, n)
  {
    forall c | 0 <= c < |cs| && InCatch(cs, c, n.pc)
      ensures InCatch(cs, c, m.pc)
    {
      assert FallthroughOkAt(cs[c], m.pc, n.pc, |e.stack|);
    }
    MoveKeepsHeld(cs, m, n.pc, n.view);
  }

  lemma EndFinallyKeepsHeld(cs: Clauses, capacity: nat, m: Machine, n: Machine)
    requires LexicallyNested(cs) && ProperEntries(cs)
    requires Discipline(cs, m.view.transfers, m.pc) && Held(cs, m) && Step(cs, capacity, m, EndFinally, n)
    ensures Held(cs, n)
  {
    var ts := m.view.transfers;
    var last := |ts| - 1;
    TopIsReady(cs, ts, m.pc);
    ContinueHeld(cs, capacity, m.view, ts[..last], ts[last]);
  }

  lemma StepKeepsHeld(cs: Clauses, capacity: nat, m: Machine, e: Event, n: Machine)
    requires LexicallyNested(cs) && ProperEntries(cs)
    requires Discipline(cs, m.view.transfers, m.pc) && Held(cs, m) && Step(cs, capacity, m, e, n)
    ensures Held(cs, n)
  {
    match e
    case Advance(_, _, _, _) => OrdinaryKeepsHeld(cs, capacity, m, e, n);
    case Jump(_, _, _, _) => OrdinaryKeepsHeld(cs, capacity, m, e, n);
    case EndFinally => EndFinallyKeepsHeld(cs, capacity, m, n);
    case Raise(_, _, _, _) => RaiseKeepsHeld(cs, capacity, m, e, n);
    case Leave(_, _) =>
      if cs != [] {
        LeaveKeepsHeld(cs, capacity, m, e, n);
      }
  }

  /** A frame between transfers, each catch handler around its offset holding an exception. */
  predicate Standing(cs: Clauses, m: Machine) {
    && m.view.transfers == [] && |m.view.caught| == |cs|
    && forall c | 0 <= c < |cs| && InCatch(cs, c, m.pc) :: m.view.caught[c] != 0
  }

  lemma {:induction false} HeldLasts(cs: Clauses, capacity: nat, ms: seq<Machine>, es: seq<Event>, k: nat)
    requires LexicallyNested(cs) && ProperEntries(cs) && RunFrom(cs, capacity, ms, es) && k < |ms|
    requires Held(cs, ms[0]) && Discipline(cs, ms[0].view.transfers, ms[0].pc)
    ensures Held(cs, ms[k])
  {
    hide LexicallyNested, ProperEntries, Held, Discipline, Step, WellFormed;
    if k > 0 {
      HeldLasts(cs, capacity, ms, es, k - 1);
      HeldIsWellFormed(cs, ms[0]);
      DisciplineLasts(cs, capacity, ms, es, k - 1);
      assert Step(cs, capacity, ms[k - 1], es[k - 1], ms[k]);
      StepKeepsHeld(cs, capacity, ms[k - 1], es[k - 1], ms[k]);
    }
  }

  lemma HeldIsWellFormed(cs: Clauses, m: Machine)
    requires Held(cs, m)
    ensures WellFormed(cs, m)
  {
  }

  lemma StartsHeld(cs: Clauses, m: Machine)
    requires ProperEntries(cs) && (Initial(cs, m) || Standing(cs, m))
    ensures Held(cs, m) && Discipline(cs, m.view.transfers, m.pc)
  {
  }

  /** rethrow is refused exactly outside catch handlers, and otherwise finds the innermost one, with an exception to raise. */
  predicate RethrowRight(cs: Clauses, m: Machine) {
    && |m.view.caught| == |cs|
    && var r := RethrowAmong(cs, m.view.caught, m.pc, |cs|);
       && (r.None? <==> forall c | 0 <= c < |cs| :: !InCatch(cs, c, m.pc))
       && (r.Some? ==> m.view.caught[r.value] != 0 &&
                       forall c | 0 <= c < |cs| && InCatch(cs, c, m.pc) :: cs[r.value].handler.Within(cs[c].handler))
  }

  lemma HeldIsRight(cs: Clauses, m: Machine)
    requires LexicallyNested(cs) && Held(cs, m)
    ensures RethrowRight(cs, m)
  {
    var r := RethrowAmong(cs, m.view.caught, m.pc, |cs|);
    if r.Some? {
      forall c | 0 <= c < |cs| && InCatch(cs, c, m.pc)
        ensures cs[r.value].handler.Within(cs[c].handler)
      {
        assert ClauseOk(cs[c]) && ClauseOk(cs[r.value]);
        assert c == r.value || PairNested(cs[c], cs[r.value]);
      }
    }
  }

  /** In every reachable state a rethrow is right. */
  lemma RethrowFindsInnermost(cs: Clauses, capacity: nat, ms: seq<Machine>, es: seq<Event>)
    requires LexicallyNested(cs) && ProperEntries(cs) && RunFrom(cs, capacity, ms, es)
    requires Initial(cs, ms[0]) || Standing(cs, ms[0])
    ensures RethrowRight(cs, ms[|es|])
  {
    hide LexicallyNested, ProperEntries, Held, Discipline, Initial, Standing, RethrowRight;
    StartsHeld(cs, ms[0]);
    HeldLasts(cs, capacity, ms, es, |es|);
    HeldIsRight(cs, ms[|es|]);
  }

  // ----------------------------------------------------------------------
  // The condition is exact
  // ----------------------------------------------------------------------

  /** Every run from the start of the method, or from a frame that stands anywhere in it, ends where rethrow is right. */
  ghost predicate AlwaysRight(cs: Clauses, capacity: nat) {
    forall ms, es | RunFrom(cs, capacity, ms, es) && (Initial(cs, ms[0]) || Standing(cs, ms[0])) :: RethrowRight(cs, ms[|es|])
  }

  /** t is on its way into the handler of clause g. */
  predicate Heads(cs: Clauses, t: Transfer, g: nat) {
    && g < |cs| && TransferOk(cs, t) && t.exceptional
    && if cs[g].flags == CATCH then t.catchClause == Some(g) && t.target == Some(cs[g].handler.start) else Pending(cs, t, g)
  }

  /** Continuing t, and ending every finalizer at its first instruction, enters the handler of g. */
  lemma {:induction false} Arrives(cs: Clauses, capacity: nat, v: View, t: Transfer, g: nat) returns (ms: seq<Machine>, es: seq<Event>)
    requires LexicallyNested(cs) && capacity > 0 && |v.caught| == |cs| && v.transfers == [t] && Heads(cs, t, g)
    ensures RunFrom(cs, capacity, ms, es) && Continue(cs, capacity, v) == (ms[0].view, Goto(ms[0].pc))
    ensures ms[|es|].pc == cs[g].handler.start && |ms[|es|].view.caught| == |cs|
    ensures forall i | 0 <= i < |cs| && i != g :: ms[|es|].view.caught[i] == v.caught[i]
    decreases PendingSet(cs, t)
  {
    hide LexicallyNested;
    var (w, flow) := Continue(cs, capacity, v);
    ms, es := [Machine(flow.pc, w)], [];
    match NextFinally(cs, t)
    case None =>
    case Some(f) =>
      var u := t.(active := Some(f), previous := Some(f));
      assert w.transfers == [u];
      if f != g {
        PendingShrinks(cs, t, f);
        HeadsOn(cs, t, f, g);
        var ns, fs := Arrives(cs, capacity, w, u, g);
        NestedClauses(cs, f);
        assert Step(cs, capacity, ms[0], EndFinally, ns[0]);
        RunGrows(cs, capacity, ms[0], EndFinally, ns, fs);
        ms, es := ms + ns, [EndFinally] + fs;
      }
  }

  lemma HeadsOn(cs: Clauses, t: Transfer, f: nat, g: nat)
    requires NextFinally(cs, t) == Some(f) && Heads(cs, t, g) && f != g
    ensures Heads(cs, t.(active := Some(f), previous := Some(f)), g)
  {
    var u := t.(active := Some(f), previous := Some(f));
    if cs[g].flags != CATCH {
      assert Exited(cs, u, g);
    }
  }

  lemma NestedClauses(cs: Clauses, f: nat)
    requires LexicallyNested(cs) && f < |cs|
    ensures ClauseOk(cs[f])
  {
  }

  lemma RunGrows(cs: Clauses, capacity: nat, m: Machine, e: Event, ms: seq<Machine>, es: seq<Event>)
    requires RunFrom(cs, capacity, ms, es) && Step(cs, capacity, m, e, ms[0])
    ensures RunFrom(cs, capacity, [m] + ms, [e] + es)
    ensures ([m] + ms)[|[e] + es|] == ms[|es|]
  {
    hide Step;
    var ns, fs := [m] + ms, [e] + es;
    forall k | 0 <= k < |fs|
      ensures Step(cs, capacity, ns[k], fs[k], ns[k + 1])
    {
      if k > 0 {
        assert fs[k] == es[k - 1] && ns[k] == ms[k - 1] && ns[k + 1] == ms[k];
      }
    }
  }

  /** The answers under which exactly clause g catches. */
  function OnlyMatches(cs: Clauses, g: nat): (relation: seq<CatchMatch>)
    ensures |relation| == |cs|
  {
    seq(|cs|, i requires 0 <= i < |cs| => if i == g then Matches else Differs)
  }

  lemma {:induction false} OnlySelects(cs: Clauses, g: nat, pc: nat, n: nat)
    requires g < |cs| && n <= |cs|
    ensures SelectAmong(cs, OnlyMatches(cs, g), pc, n) == Selected(if g < n && Catches(cs, pc, g) then Some(g) else None)
  {
    if n > 0 {
      OnlySelects(cs, g, pc, n - 1);
    }
  }

  /** A frame that stands in the try block of g. */
  function StandingAt(cs: Clauses, pc: nat): Machine {
    Machine(pc, View([], seq(|cs|, i requires 0 <= i < |cs| => if InCatch(cs, i, pc) then 1 else 0), [], 0, Ok))
  }

  /** From there an exception enters the handler of g, and nothing else is caught on the way. */
  lemma EntersHandler(cs: Clauses, capacity: nat, g: nat) returns (ms: seq<Machine>, es: seq<Event>)
    requires LexicallyNested(cs) && capacity > 0 && g < |cs|
    ensures RunFrom(cs, capacity, ms, es) && ms[0] == StandingAt(cs, cs[g].tryBlock.start)
    ensures ms[|es|].pc == cs[g].handler.start && |ms[|es|].view.caught| == |cs|
    ensures forall i | 0 <= i < |cs| && i != g :: ms[|es|].view.caught[i] == ms[0].view.caught[i]
  {
    NestedClauses(cs, g);
    var pc := cs[g].tryBlock.start;
    var m := StandingAt(cs, pc);
    var relation := OnlyMatches(cs, g);
    var e := Event.Raise(1, relation, [], Ok);
    OnlySelects(cs, g, pc, |cs|);
    var t := Started(cs, m, e);
    assert Heads(cs, t, g);
    var v := m.view.(stack := [], pending := 1, result := Ok);
    assert Kept(cs, v.transfers, t.target) + [t] == [t];
    var ns, fs := Arrives(cs, capacity, v.(transfers := [t]), t, g);
    assert Begin(cs, |cs| + 1, capacity, v, t) == Continue(cs, capacity, v.(transfers := [t]));
    assert Step(cs, capacity, m, e, ns[0]);
    RunGrows(cs, capacity, m, e, ns, fs);
    ms, es := [m] + ns, [e] + fs;
  }

  /** Entering g enters c as well, if they share the entry, and c holds nothing. */
  lemma SharedEntryIsWrong(cs: Clauses, g: nat, c: nat, m: Machine)
    requires LexicallyNested(cs) && g < |cs| && c < |cs| && g != c && SharesEntry(cs, g, c)
    requires m.pc == cs[g].handler.start && |m.view.caught| == |cs|
    requires forall i | 0 <= i < |cs| && i != g ::
               m.view.caught[i] == StandingAt(cs, cs[g].tryBlock.start).view.caught[i]
    ensures !RethrowRight(cs, m)
  {
    NestedClauses(cs, g);
    NestedClauses(cs, c);
    assert InCatch(cs, c, m.pc);
    var r := RethrowAmong(cs, m.view.caught, m.pc, |cs|);
    if r.Some? {
      NestedClauses(cs, r.value);
      assert r.value == g || InCatch(cs, r.value, cs[g].tryBlock.start);
      assert !cs[r.value].handler.Within(cs[c].handler);
    }
  }

  /** A frame at the start of a catch handler that holds nothing. */
  lemma StartInCatchIsWrong(cs: Clauses, c: nat)
    requires c < |cs| && InCatch(cs, c, 0)
    ensures var m := Machine(0, View([], seq(|cs|, i => 0), [], 0, Ok)); Initial(cs, m) && !RethrowRight(cs, m)
  {
  }

  /**
    For lexically nested clauses, rethrow is right in every state that a run
    reaches if and only if no catch handler holds the method's first offset or
    shares the entry of a handler around its clause.
  */
  lemma RethrowExactly(cs: Clauses, capacity: nat)
    requires LexicallyNested(cs) && capacity > 0
    ensures AlwaysRight(cs, capacity) <==> ProperEntries(cs)
  {
    hide LexicallyNested, RethrowRight;
    if ProperEntries(cs) {
      forall ms, es | RunFrom(cs, capacity, ms, es) && (Initial(cs, ms[0]) || Standing(cs, ms[0]))
        ensures RethrowRight(cs, ms[|es|])
      {
        RethrowFindsInnermost(cs, capacity, ms, es);
      }
    } else if c: nat :| c < |cs| && InCatch(cs, c, 0) {
      StartInCatchIsWrong(cs, c);
      var m := Machine(0, View([], seq(|cs|, i => 0), [], 0, Ok));
      assert RunFrom(cs, capacity, [m], []);
    } else {
      var g: nat, c: nat :| g < |cs| && c < |cs| && g != c && SharesEntry(cs, g, c);
      var ms, es := EntersHandler(cs, capacity, g);
      assert Standing(cs, ms[0]);
      SharedEntryIsWrong(cs, g, c, ms[|es|]);
    }
  }

  /** A table that net_prepare_code accepts, with a catch handler at offset 0: rethrow there finds nothing. */
  lemma HandlerAtStart()
    ensures var cs := [Clause(CATCH, Region(5, 1), Region(0, 2))];
            var m := Machine(0, View([], [0], [], 0, Ok));
            && LexicallyNested(cs) && Initial(cs, m) && InCatch(cs, 0, m.pc)
            && RethrowAmong(cs, m.view.caught, m.pc, |cs|) == None
  {
  }
}

/**
  Whole runs of one CIL frame.  A step is one turn of the loop of net_body
  (src/xxemul_dotnet_runtime.c, lines 1267-1563) as far as the exception engine
  sees it: what an ordinary instruction does to the evaluation stack, and which
  exception it raises, is left open, so every program is covered.
*/
module CilFrameRuns {
  import opened Wrappers
  import opened CilClauses
  import opened CilUnwind
  import opened Sequences

  datatype Machine = Machine(pc: nat, view: View)

  datatype Event =
    | Advance(next: nat, stack: seq<Value>, pending: nat, result: Status)
    | Jump(next: nat, stack: seq<Value>, pending: nat, result: Status)
    | Leave(target: nat, stack: seq<Value>)
    | EndFinally
    | Raise(exception: nat, relation: seq<CatchMatch>, stack: seq<Value>, result: Status)

  predicate WellFormed(cs: Clauses, m: Machine) {
    && |m.view.caught| == |cs|
    && forall k | 0 <= k < |m.view.transfers| :: TransferOk(cs, m.view.transfers[k])
  }

  predicate Enabled(cs: Clauses, m: Machine, e: Event) {
    match e
    case Advance(next, stack, _, _) => FallthroughOk(cs, m.pc, next, |stack|)
    case Jump(next, stack, _, _) => BranchOk(cs, m.pc, next, false, |stack|) && FallthroughOk(cs, m.pc, next, |stack|)
    case Leave(target, stack) => BranchOk(cs, m.pc, target, true, |stack|)
    case EndFinally =>
      && m.view.transfers != [] && m.view.stack == []
      && var active := m.view.transfers[|m.view.transfers| - 1].active;
         active.Some? && active.value < |cs| && cs[active.value].handler.Has(m.pc)
    case Raise(exception, relation, _, _) =>
      exception != 0 && |relation| == |cs| > 0 && SelectAmong(cs, relation, m.pc, |cs|).Selected?
  }

  /** The transfer an event starts, and the engine call it makes. */
  function Started(cs: Clauses, m: Machine, e: Event): Transfer
    requires Enabled(cs, m, e) && (e.Leave? || e.Raise?)
  {
    match e
    case Leave(target, _) => Fresh(m.pc, Some(target), None, 0)
    case Raise(exception, relation, _, _) => Thrown(cs, m.pc, SelectAmong(cs, relation, m.pc, |cs|).clause, exception)
  }

  function Outcome(cs: Clauses, capacity: nat, m: Machine, e: Event): (View, Flow)
    requires WellFormed(cs, m) && Enabled(cs, m, e)
  {
    match e
    case Advance(next, stack, pending, result) => (m.view.(stack := stack, pending := pending, result := result), Goto(next))
    case Jump(next, stack, pending, result) => (m.view.(stack := stack, pending := pending, result := result), Goto(next))
    case Leave(target, stack) =>
      var v := m.view.(stack := []);
      if cs == [] then (v, Goto(target)) else Begin(cs, |cs| + 1, capacity, v, Started(cs, m, e))
    case EndFinally => Continue(cs, capacity, m.view)
    case Raise(exception, _, stack, result) =>
      Begin(cs, |cs| + 1, capacity, m.view.(stack := stack, pending := exception, result := result), Started(cs, m, e))
  }

  predicate Step(cs: Clauses, capacity: nat, m: Machine, e: Event, n: Machine) {
    && WellFormed(cs, m) && Enabled(cs, m, e)
    && Outcome(cs, capacity, m, e) == (n.view, Goto(n.pc))
  }

  predicate Initial(cs: Clauses, m: Machine) {
    && m.pc == 0 && m.view.transfers == [] && |m.view.caught| == |cs|
    && forall i | 0 <= i < |cs| :: m.view.caught[i] == 0
  }

  ghost predicate RunFrom(cs: Clauses, capacity: nat, ms: seq<Machine>, es: seq<Event>) {
    && |ms| == |es| + 1
    && forall k {:trigger es[k]} | 0 <= k < |es| :: Step(cs, capacity, ms[k], es[k], ms[k + 1])
  }

  ghost predicate Run(cs: Clauses, capacity: nat, ms: seq<Machine>, es: seq<Event>) {
    RunFrom(cs, capacity, ms, es) && Initial(cs, ms[0])
  }

  // ----------------------------------------------------------------------
  // Transfer stack discipline
  // ----------------------------------------------------------------------

  /** Transfer t is running one of the handlers it has to run. */
  predicate Running(cs: Clauses, t: Transfer) {
    && TransferOk(cs, t)
    && t.active.Some?
    && Exited(cs, t, t.active.value)
    && (t.exceptional <==> t.exception != 0)
    && (!t.exceptional ==> t.target.Some?)
    && (t.catchClause.Some? ==> t.target == Some(cs[t.catchClause.value].handler.start) && cs[t.catchClause.value].flags == CATCH)
    && (t.exceptional && t.target.Some? ==> t.catchClause.Some?)
  }

  function Handler(cs: Clauses, t: Transfer): Region
    requires t.active.Some? && t.active.value < |cs|
  {
    cs[t.active.value].handler
  }

  predicate StrictlyWithin(r: Region, s: Region) {
    r.Within(s) && r != s
  }

  /** Every transfer is running a handler, strictly inside those of the transfers below, and so are its two ends. */
  predicate Nest(cs: Clauses, ts: seq<Transfer>) {
    && (forall k | 0 <= k < |ts| :: Running(cs, ts[k]))
    && (forall j, k | 0 <= j < k < |ts| :: StrictlyWithin(Handler(cs, ts[k]), Handler(cs, ts[j])) && InHandler(cs, ts[j], ts[k]))
  }

  /** ... and every active handler holds pc. */
  predicate Discipline(cs: Clauses, ts: seq<Transfer>, pc: nat) {
    && Nest(cs, ts)
    && (forall k | 0 <= k < |ts| :: Handler(cs, ts[k]).Has(pc))
  }

  /** u starts and ends inside the handler that t is running. */
  predicate InHandler(cs: Clauses, t: Transfer, u: Transfer)
    requires t.active.Some? && t.active.value < |cs|
  {
    Handler(cs, t).Has(u.origin) && u.target.Some? && Handler(cs, t).Has(u.target.value)
  }

  /**
    The heart of the matter: a cleanup that a transfer exits lies strictly
    inside every handler that holds both ends of the transfer.
  */
  lemma ExitedIsNested(cs: Clauses, t: Transfer, f: nat, g: nat)
    requires LexicallyNested(cs) && Exited(cs, t, f) && g < |cs|
    requires cs[g].handler.Has(t.origin) && t.target.Some? && cs[g].handler.Has(t.target.value)
    ensures InsideOf(cs[f], cs[g].handler) && StrictlyWithin(cs[f].handler, cs[g].handler)
  {
    assert ClauseOk(cs[f]) && ClauseOk(cs[g]);
    assert f != g;
    assert PairNested(cs[f], cs[g]);
    if !cs[f].tryBlock.Has(t.origin) {
      var c :| 0 <= c < |cs| && SiblingHandlerHas(cs, f, c, t.origin);
      assert ClauseOk(cs[c]);
      assert !cs[c].handler.Has(t.target.value) by {
        if cs[c].handler.Has(t.target.value) {
          assert SiblingHandlerHas(cs, f, c, t.target.value);
        }
      }
      assert c != g;
      assert PairNested(cs[c], cs[g]);
    }
  }

  /** Pushing a transfer that is about to run f on top of a nest around both its ends. */
  lemma PushKeeps(cs: Clauses, ts: seq<Transfer>, t: Transfer)
    requires LexicallyNested(cs)
    requires Running(cs, t)
    requires Nest(cs, ts) && forall k | 0 <= k < |ts| :: InHandler(cs, ts[k], t)
    ensures Discipline(cs, ts + [t], Handler(cs, t).start)
  {
    var us := ts + [t];
    assert ClauseOk(cs[t.active.value]);
    forall k | 0 <= k < |ts|
      ensures StrictlyWithin(Handler(cs, t), Handler(cs, us[k])) && Handler(cs, us[k]).Has(Handler(cs, t).start)
    {
      ExitedIsNested(cs, t, t.active.value, ts[k].active.value);
    }
    forall j, k | 0 <= j < k < |us|
      ensures StrictlyWithin(Handler(cs, us[k]), Handler(cs, us[j])) && InHandler(cs, us[j], us[k])
    {
    }
  }

  /** Ready: a transfer on top of a nest, its own handler not yet chosen. */
  predicate Ready(cs: Clauses, ts: seq<Transfer>, t: Transfer) {
    && Nest(cs, ts) && (forall k | 0 <= k < |ts| :: InHandler(cs, ts[k], t))
    && TransferOk(cs, t)
    && (t.exceptional <==> t.exception != 0)
    && (!t.exceptional ==> t.target.Some?)
    && (t.catchClause.Some? ==> t.target == Some(cs[t.catchClause.value].handler.start) && cs[t.catchClause.value].flags == CATCH)
    && (t.exceptional && t.target.Some? ==> t.catchClause.Some?)
  }

  lemma ContinueKeeps(cs: Clauses, capacity: nat, v: View, t: Transfer, ts: seq<Transfer>)
    requires LexicallyNested(cs) && |v.caught| == |cs|
    requires v.transfers == ts + [t] && Ready(cs, ts, t)
    ensures var (w, flow) := Continue(cs, capacity, v);
            && (flow.Goto? ==> Discipline(cs, w.transfers, flow.pc))
            && |w.caught| == |cs|
  {
    var n := |v.transfers| - 1;
    assert v.transfers[n] == t && v.transfers[..n] == ts;
    match NextFinally(cs, t)
    case Some(f) =>
      var u := t.(active := Some(f), previous := Some(f));
      assert Exited(cs, u, f);
      assert v.transfers[n := u] == ts + [u];
      PushKeeps(cs, ts, u);
    case None =>
  }

  /** The transfers below the cut all hold the new target. */
  lemma {:induction false} KeptHoldTarget(cs: Clauses, ts: seq<Transfer>, pc: nat, target: Option<nat>)
    requires Discipline(cs, ts, pc)
    ensures var kept := Kept(cs, ts, target);
            && kept <= ts
            && (forall k | 0 <= k < |kept| :: target.Some? && Handler(cs, ts[k]).Has(target.value))
  {
    if ts != [] && !Holds(cs, ts[|ts| - 1], target) {
      KeptHoldTarget(cs, ts[..|ts| - 1], pc, target);
    } else if ts != [] {
      forall k | 0 <= k < |ts| - 1
        ensures Handler(cs, ts[k]).Has(target.value)
      {
        assert StrictlyWithin(Handler(cs, ts[|ts| - 1]), Handler(cs, ts[k]));
      }
    }
  }

  /** At most one transfer per clause, so the buffer of clause_count + 1 never fills. */
  lemma NestIsShort(cs: Clauses, ts: seq<Transfer>, pc: nat)
    requires Discipline(cs, ts, pc)
    ensures |ts| <= |cs|
  {
    var actives := seq(|ts|, k requires 0 <= k < |ts| => ts[k].active.value);
    forall j, k | 0 <= j < k < |ts|
      ensures actives[j] != actives[k]
    {
      assert StrictlyWithin(Handler(cs, ts[k]), Handler(cs, ts[j]));
    }
    Pigeonhole(actives, |cs|);
  }

  lemma TopIsReady(cs: Clauses, ts: seq<Transfer>, pc: nat)
    requires Discipline(cs, ts, pc) && ts != []
    ensures ts == ts[..|ts| - 1] + [ts[|ts| - 1]]
    ensures Ready(cs, ts[..|ts| - 1], ts[|ts| - 1])
  {
  }

  lemma KeptIsReady(cs: Clauses, ts: seq<Transfer>, pc: nat, t: Transfer)
    requires Discipline(cs, ts, pc) && Ready(cs, [], t) && t.origin == pc
    ensures Ready(cs, Kept(cs, ts, t.target), t)
  {
    var kept := Kept(cs, ts, t.target);
    KeptHoldTarget(cs, ts, pc, t.target);
    assert forall k | 0 <= k < |kept| :: kept[k] == ts[k];
  }

  lemma BeginKeeps(cs: Clauses, capacity: nat, v: View, pc: nat, t: Transfer)
    requires LexicallyNested(cs) && |v.caught| == |cs|
    requires Discipline(cs, v.transfers, pc) && Ready(cs, [], t) && t.origin == pc
    ensures |Kept(cs, v.transfers, t.target)| <= |cs|
    ensures var (w, flow) := Begin(cs, |cs| + 1, capacity, v, t);
            && (flow.Goto? ==> Discipline(cs, w.transfers, flow.pc))
            && |w.caught| == |cs|
  {
    var kept := Kept(cs, v.transfers, t.target);
    NestIsShort(cs, v.transfers, pc);
    KeptIsReady(cs, v.transfers, pc, t);
    ContinueKeeps(cs, capacity, v.(transfers := kept + [t]), t, kept);
  }

  lemma StepKeepsDiscipline(cs: Clauses, capacity: nat, m: Machine, e: Event, n: Machine)
    requires LexicallyNested(cs) && Discipline(cs, m.view.transfers, m.pc) && Step(cs, capacity, m, e, n)
    ensures WellFormed(cs, n) && Discipline(cs, n.view.transfers, n.pc)
  {
    var ts := m.view.transfers;
    match e
    case Advance(next, stack, _, _) =>
      forall k | 0 <= k < |ts| ensures Handler(cs, ts[k]).Has(next) {
        assert FallthroughOkAt(cs[ts[k].active.value], m.pc, next, |stack|);
      }
    case Jump(next, stack, _, _) =>
      forall k | 0 <= k < |ts| ensures Handler(cs, ts[k]).Has(next) {
        assert FallthroughOkAt(cs[ts[k].active.value], m.pc, next, |stack|);
      }
    case Leave(target, stack) =>
      if cs != [] {
        BeginKeeps(cs, capacity, m.view.(stack := []), m.pc, Started(cs, m, e));
      }
    case EndFinally =>
      var last := |ts| - 1;
      TopIsReady(cs, ts, m.pc);
      ContinueKeeps(cs, capacity, m.view, ts[last], ts[..last]);
    case Raise(exception, relation, stack, result) =>
      BeginKeeps(cs, capacity, m.view.(stack := stack, pending := exception, result := result), m.pc, Started(cs, m, e));
  }

  /** The discipline holds along every run that starts with it. */
  lemma {:induction false} DisciplineLasts(cs: Clauses, capacity: nat, ms: seq<Machine>, es: seq<Event>, k: nat)
    requires LexicallyNested(cs) && RunFrom(cs, capacity, ms, es) && k < |ms|
    requires WellFormed(cs, ms[0]) && Discipline(cs, ms[0].view.transfers, ms[0].pc)
    ensures WellFormed(cs, ms[k]) && Discipline(cs, ms[k].view.transfers, ms[k].pc)
  {
    hide LexicallyNested, Discipline, Step, WellFormed;
    if k > 0 {
      DisciplineLasts(cs, capacity, ms, es, k - 1);
      assert Step(cs, capacity, ms[k - 1], es[k - 1], ms[k]);
      StepKeepsDiscipline(cs, capacity, ms[k - 1], es[k - 1], ms[k]);
    }
  }

  lemma InitialIsDisciplined(cs: Clauses, m: Machine)
    requires Initial(cs, m)
    ensures WellFormed(cs, m) && Discipline(cs, m.view.transfers, m.pc)
  {
  }

  /**
    Transfer stack discipline: in every reachable state of a frame whose
    clauses are lexically nested, the active handlers are strictly nested and
    hold pc.
  */
  lemma RunsKeepDiscipline(cs: Clauses, capacity: nat, ms: seq<Machine>, es: seq<Event>, k: nat)
    requires LexicallyNested(cs) && Run(cs, capacity, ms, es) && k < |ms|
    ensures WellFormed(cs, ms[k])
    ensures Discipline(cs, ms[k].view.transfers, ms[k].pc)
  {
    hide LexicallyNested, Discipline, Step, WellFormed, Initial;
    InitialIsDisciplined(cs, ms[0]);
    DisciplineLasts(cs, capacity, ms, es, k);
  }

  /** A disciplined frame has room for one more transfer. */
  lemma DisciplineLeavesRoom(cs: Clauses, capacity: nat, m: Machine, e: Event)
    requires LexicallyNested(cs) && WellFormed(cs, m) && Discipline(cs, m.view.transfers, m.pc) && Enabled(cs, m, e)
    ensures Outcome(cs, capacity, m, e).1 != Exit(LimitReached)
    ensures e.Leave? || e.Raise? ==> |Kept(cs, m.view.transfers, Started(cs, m, e).target)| < |cs| + 1
  {
    hide LexicallyNested, Begin, Continue, Kept, Discipline;
    NestIsShort(cs, m.view.transfers, m.pc);
    if e.Leave? || e.Raise? {
      var t := Started(cs, m, e);
      assert Kept(cs, m.view.transfers, t.target) <= m.view.transfers;
      if e.Raise? {
        BeginHasRoom(cs, capacity, m.view.(stack := e.stack, pending := e.exception, result := e.result), t);
      } else if cs != [] {
        BeginHasRoom(cs, capacity, m.view.(stack := []), t);
      }
    } else if e.EndFinally? {
      ContinueHasRoom(cs, capacity, m.view);
    }
  }

  lemma ContinueHasRoom(cs: Clauses, capacity: nat, v: View)
    requires |v.caught| == |cs| && forall k | 0 <= k < |v.transfers| :: TransferOk(cs, v.transfers[k])
    ensures Continue(cs, capacity, v).1 != Exit(LimitReached)
  {
    hide NextFinally;
  }

  lemma BeginHasRoom(cs: Clauses, capacity: nat, v: View, t: Transfer)
    requires |v.caught| == |cs| && TransferOk(cs, t) && forall k | 0 <= k < |v.transfers| :: TransferOk(cs, v.transfers[k])
    requires |Kept(cs, v.transfers, t.target)| <= |cs|
    ensures Begin(cs, |cs| + 1, capacity, v, t).1 != Exit(LimitReached)
  {
    hide Continue, Kept;
    var kept := Kept(cs, v.transfers, t.target);
    ContinueHasRoom(cs, capacity, v.(transfers := kept + [t]));
  }

  /** "exception continuation limit reached" is unreachable. */
  lemma ContinuationLimitUnreachable(cs: Clauses, capacity: nat, ms: seq<Machine>, es: seq<Event>, e: Event)
    requires LexicallyNested(cs) && Run(cs, capacity, ms, es)
    requires Enabled(cs, ms[|es|], e)
    ensures WellFormed(cs, ms[|es|])
    ensures Outcome(cs, capacity, ms[|es|], e).1 != Exit(LimitReached)
    ensures e.Leave? || e.Raise? ==> |Kept(cs, ms[|es|].view.transfers, Started(cs, ms[|es|], e).target)| < |cs| + 1
  {
    hide LexicallyNested, WellFormed, Discipline, Outcome, Enabled, Kept;
    RunsKeepDiscipline(cs, capacity, ms, es, |es|);
    DisciplineLeavesRoom(cs, capacity, ms[|es|], e);
  }

  // ----------------------------------------------------------------------
  // Finalizers over a run
  // ----------------------------------------------------------------------

  /** For each transfer on the stack, the handlers it has entered so far. */
  type Logs = seq<seq<nat>>

  function Restarted(t: Transfer): Transfer {
    t.(active := None, previous := None)
  }

  /** What continuing the topmost transfer adds to its log, or removes with it. */
  function LogsAfterContinue(cs: Clauses, ts: seq<Transfer>, logs: Logs): Logs
    requires |ts| == |logs| > 0
  {
    var n := |ts| - 1;
    match NextFinally(cs, ts[n])
    case Some(f) => logs[n := logs[n] + [f]]
    case None => logs[..n]
  }

  function LogsAfter(cs: Clauses, m: Machine, e: Event, logs: Logs): Logs
    requires Enabled(cs, m, e) && |logs| == |m.view.transfers|
  {
    match e
    case Advance(_, _, _, _) => logs
    case Jump(_, _, _, _) => logs
    case EndFinally => LogsAfterContinue(cs, m.view.transfers, logs)
    case Leave(_, _) =>
      if cs == [] then logs
      else
        var kept := Kept(cs, m.view.transfers, Started(cs, m, e).target);
        LogsAfterContinue(cs, kept + [Started(cs, m, e)], logs[..|kept|] + [[]])
    case Raise(_, _, _, _) =>
      var kept := Kept(cs, m.view.transfers, Started(cs, m, e).target);
      LogsAfterContinue(cs, kept + [Started(cs, m, e)], logs[..|kept|] + [[]])
  }

  /** The transfer that an event continues, with its log, before the engine looks for its next handler. */
  function Continued(cs: Clauses, m: Machine, e: Event, logs: Logs): (Transfer, seq<nat>)
    requires Enabled(cs, m, e) && |logs| == |m.view.transfers|
    requires e.EndFinally? || e.Leave? || e.Raise?
  {
    if e.EndFinally? then (m.view.transfers[|m.view.transfers| - 1], logs[|logs| - 1])
    else (Started(cs, m, e), [])
  }

  ghost predicate LoggedRun(cs: Clauses, capacity: nat, ms: seq<Machine>, es: seq<Event>, ls: seq<Logs>) {
    && Run(cs, capacity, ms, es)
    && |ls| == |ms| && ls[0] == []
    && (forall k | 0 <= k < |ms| :: |ls[k]| == |ms[k].view.transfers|)
    && forall k {:trigger es[k]} | 0 <= k < |es| :: LoggedStep(cs, ms[k], es[k], ls[k], ls[k + 1])
  }

  predicate LoggedStep(cs: Clauses, m: Machine, e: Event, before: Logs, after: Logs) {
    Enabled(cs, m, e) && |before| == |m.view.transfers| && after == LogsAfter(cs, m, e, before)
  }

  /** What a transfer has entered, followed by what it would still enter, is what it had to enter. */
  ghost predicate LogsAgree(cs: Clauses, ts: seq<Transfer>, logs: Logs) {
    && |ts| == |logs|
    && forall k | 0 <= k < |ts| :: LogAgrees(cs, ts[k], logs[k])
  }

  ghost predicate LogAgrees(cs: Clauses, t: Transfer, log: seq<nat>) {
    log + Visits(cs, t) == Visits(cs, Restarted(t))
  }

  lemma ContinueAgrees(cs: Clauses, capacity: nat, v: View, logs: Logs)
    requires |v.caught| == |cs| && v.transfers != []
    requires forall k | 0 <= k < |v.transfers| :: TransferOk(cs, v.transfers[k])
    requires LogsAgree(cs, v.transfers, logs)
    ensures LogsAgree(cs, Continue(cs, capacity, v).0.transfers, LogsAfterContinue(cs, v.transfers, logs))
  {
    var n := |v.transfers| - 1;
    var t := v.transfers[n];
    match NextFinally(cs, t)
    case None =>
    case Some(f) =>
      var u := t.(previous := Some(f), active := Some(f));
      assert Visits(cs, t) == [f] + Visits(cs, u);
      assert Restarted(u) == Restarted(t);
      assert (logs[n] + [f]) + Visits(cs, u) == logs[n] + Visits(cs, t);
      assert LogAgrees(cs, t, logs[n]);
      assert LogAgrees(cs, u, logs[n] + [f]);
  }

  lemma BeginAgrees(cs: Clauses, capacity: nat, v: View, t: Transfer, logs: Logs)
    requires |v.caught| == |cs| && TransferOk(cs, t) && t == Restarted(t)
    requires forall k | 0 <= k < |v.transfers| :: TransferOk(cs, v.transfers[k])
    requires LogsAgree(cs, v.transfers, logs)
    ensures var kept := Kept(cs, v.transfers, t.target);
            LogsAgree(cs, Continue(cs, capacity, v.(transfers := kept + [t])).0.transfers,
                      LogsAfterContinue(cs, kept + [t], logs[..|kept|] + [[]]))
  {
    var kept := Kept(cs, v.transfers, t.target);
    var ts, ls := kept + [t], logs[..|kept|] + [[]];
    forall k | 0 <= k < |ts|
      ensures LogAgrees(cs, ts[k], ls[k])
    {
      if k < |kept| {
        assert ts[k] == v.transfers[k] && LogAgrees(cs, v.transfers[k], logs[k]);
      }
    }
    ContinueAgrees(cs, capacity, v.(transfers := ts), ls);
  }

  lemma StepAgrees(cs: Clauses, capacity: nat, m: Machine, e: Event, n: Machine, logs: Logs)
    requires Step(cs, capacity, m, e, n) && LogsAgree(cs, m.view.transfers, logs)
    ensures LogsAgree(cs, n.view.transfers, LogsAfter(cs, m, e, logs))
  {
    match e
    case Advance(_, _, _, _) =>
    case Jump(_, _, _, _) =>
    case EndFinally => ContinueAgrees(cs, capacity, m.view, logs);
    case Leave(_, _) =>
      if cs != [] {
        BeginAgrees(cs, capacity, m.view.(stack := []), Started(cs, m, e), logs);
      }
    case Raise(exception, _, stack, result) =>
      BeginAgrees(cs, capacity, m.view.(stack := stack, pending := exception, result := result), Started(cs, m, e), logs);
  }

  lemma LoggedStepAgrees(cs: Clauses, capacity: nat, m: Machine, e: Event, n: Machine, before: Logs, after: Logs)
    requires Step(cs, capacity, m, e, n) && LoggedStep(cs, m, e, before, after) && LogsAgree(cs, m.view.transfers, before)
    ensures LogsAgree(cs, n.view.transfers, after)
  {
    StepAgrees(cs, capacity, m, e, n, before);
  }

  lemma {:induction false} RunsAgree(cs: Clauses, capacity: nat, ms: seq<Machine>, es: seq<Event>, ls: seq<Logs>, k: nat)
    requires LoggedRun(cs, capacity, ms, es, ls) && k < |ms|
    ensures LogsAgree(cs, ms[k].view.transfers, ls[k])
  {
    if k > 0 {
      RunsAgree(cs, capacity, ms, es, ls, k - 1);
      LoggedStepAgrees(cs, capacity, ms[k - 1], es[k - 1], ms[k], ls[k - 1], ls[k]);
    }
  }

  /**
    Finalizer exactness over runs.  Whenever a transfer of a run completes (its
    search finds no further handler, so it enters its catch, enters its target
    or propagates), the handlers it entered are exactly the clauses it exits,
    each once and in order.
  */
  lemma CompletedTransfersRanTheirFinalizers(cs: Clauses, capacity: nat, ms: seq<Machine>, es: seq<Event>, ls: seq<Logs>, e: Event)
    requires LoggedRun(cs, capacity, ms, es, ls)
    requires Enabled(cs, ms[|es|], e) && (e.EndFinally? || e.Leave? || e.Raise?)
    requires NextFinally(cs, Continued(cs, ms[|es|], e, ls[|es|]).0) == None
    ensures var (t, log) := Continued(cs, ms[|es|], e, ls[|es|]);
            && StrictlySorted(cs, log)
            && (forall i :: i in log <==> i >= 0 && Exited(cs, Restarted(t), i))
            && (forall j, k | 0 <= j < k < |log| :: log[j] != log[k])
  {
    var (t, log) := Continued(cs, ms[|es|], e, ls[|es|]);
    RunsAgree(cs, capacity, ms, es, ls, |es|);
    assert Visits(cs, t) == [];
    if e.EndFinally? {
      assert LogAgrees(cs, t, log);
      assert log + [] == log;
    }
    assert log == Visits(cs, Restarted(t));
    FinalizersExact(cs, Restarted(t));
  }

  // ----------------------------------------------------------------------
  // Catch selection
  // ----------------------------------------------------------------------

  /** Every clause of the first n that could catch at pc has a known, valid class. */
  predicate AllKnown(cs: Clauses, relation: seq<CatchMatch>, pc: nat, n: nat)
    requires |relation| == |cs| && n <= |cs|
  {
    forall i | 0 <= i < n && Catches(cs, pc, i) :: relation[i] == Matches || relation[i] == Differs
  }

  lemma {:induction false} SelectionIsShortest(cs: Clauses, relation: seq<CatchMatch>, pc: nat, n: nat)
    requires |relation| == |cs| && n <= |cs|
    ensures SelectAmong(cs, relation, pc, n).Selected? <==> AllKnown(cs, relation, pc, n)
    ensures var s := SelectAmong(cs, relation, pc, n);
            s.Selected? ==>
              && (s.clause.None? <==> forall i | 0 <= i < n && Catches(cs, pc, i) :: relation[i] != Matches)
              && (s.clause.Some? ==> forall i | 0 <= i < n && Catches(cs, pc, i) && relation[i] == Matches ::
                    && cs[s.clause.value].tryBlock.length <= cs[i].tryBlock.length
                    && (cs[i].tryBlock.length == cs[s.clause.value].tryBlock.length ==> s.clause.value <= i))
  {
    if n > 0 {
      SelectionIsShortest(cs, relation, pc, n - 1);
    }
  }

  /**
    The search aborts exactly when some catch around the throw has an unknown
    relationship or a bad class; otherwise it selects the innermost matching
    catch, the first of those that share its try.
  */
  lemma SelectionIsInnermost(cs: Clauses, relation: seq<CatchMatch>, pc: nat)
    requires |relation| == |cs| && LexicallyNested(cs)
    ensures SelectAmong(cs, relation, pc, |cs|).Selected? <==> AllKnown(cs, relation, pc, |cs|)
    ensures var s := SelectAmong(cs, relation, pc, |cs|);
            s.Selected? ==>
              && (s.clause.None? <==> forall i | 0 <= i < |cs| && Catches(cs, pc, i) :: relation[i] != Matches)
              && (s.clause.Some? ==> forall i | 0 <= i < |cs| && Catches(cs, pc, i) && relation[i] == Matches ::
                    && cs[s.clause.value].tryBlock.Within(cs[i].tryBlock)
                    && (cs[i].tryBlock == cs[s.clause.value].tryBlock ==> s.clause.value <= i))
  {
    SelectionIsShortest(cs, relation, pc, |cs|);
    var s := SelectAmong(cs, relation, pc, |cs|);
    if s.Selected? && s.clause.Some? {
      forall i | 0 <= i < |cs| && Catches(cs, pc, i) && relation[i] == Matches
        ensures cs[s.clause.value].tryBlock.Within(cs[i].tryBlock)
      {
        if i != s.clause.value {
          TriesAround(cs, s.clause.value, i, pc);
        }
      }
    }
  }
}

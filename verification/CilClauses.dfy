/**
  Exception clauses of a CIL method and the search for the next finally or
  fault handler of a pending transfer (src/xxemul_dotnet_runtime.c, lines
  1105-1151).  Offsets are unsigned 32-bit in the source and never overflow
  here: every sum the source forms is taken in 64 bits.
  The sentinels UINT32_MAX ("no target") and SIZE_MAX ("no clause") are None.
*/
module CilClauses {
  import opened Wrappers

  /** ECMA-335 clause flags. */
  const CATCH := 0
  const FILTER := 1
  const FINALLY := 2
  const FAULT := 4

  datatype Region = Region(start: nat, length: nat) {
    /** net_inside */
    predicate Has(pc: nat) {
      start <= pc && pc - start < length
    }
    predicate Within(outer: Region) {
      outer.start <= start && start + length <= outer.start + outer.length
    }
    predicate Apart(other: Region) {
      start + length <= other.start || other.start + other.length <= start
    }
  }

  datatype Clause = Clause(flags: nat, tryBlock: Region, handler: Region)
  type Clauses = seq<Clause>

  /** net_transfer: a leave or exception on its way out of a frame. */
  datatype Transfer = Transfer(
    origin: nat,
    target: Option<nat>,
    exception: nat,
    catchClause: Option<nat>,
    active: Option<nat>,
    previous: Option<nat>,
    exceptional: bool)

  // ----------------------------------------------------------------------
  // What the source computes, as predicates
  // ----------------------------------------------------------------------

  /** A finally or fault protects its try and the catch handlers that share it. */
  predicate Protected(cs: Clauses, i: nat, pc: nat)
    requires i < |cs|
  {
    || cs[i].tryBlock.Has(pc)
    || exists j | 0 <= j < |cs| :: SiblingHandlerHas(cs, i, j, pc)
  }

  predicate SiblingHandlerHas(cs: Clauses, i: nat, j: nat, pc: nat)
    requires i < |cs| && j < |cs|
  {
    (cs[j].flags == CATCH || cs[j].flags == FILTER) && cs[i].tryBlock == cs[j].tryBlock && cs[j].handler.Has(pc)
  }

  predicate Before(cs: Clauses, a: nat, b: nat)
    requires a < |cs| && b < |cs|
  {
    var x, y := cs[a].tryBlock, cs[b].tryBlock;
    if x.length != y.length then x.length < y.length
    else if x.start != y.start then x.start > y.start
    else a < b
  }

  /** Clause i must run for t: it protects the origin but not the target. */
  predicate Exited(cs: Clauses, t: Transfer, i: nat)
  {
    && i < |cs|
    && (cs[i].flags == FINALLY || (t.exceptional && cs[i].flags == FAULT))
    && Protected(cs, i, t.origin)
    && (t.target.Some? ==> !Protected(cs, i, t.target.value))
    && !cs[i].handler.Has(t.origin)
  }

  predicate Pending(cs: Clauses, t: Transfer, i: nat)
  {
    && Exited(cs, t, i)
    && (t.previous.Some? && t.previous.value < |cs| ==> Before(cs, t.previous.value, i))
  }

  /** The least pending clause among the first n. */
  function NextAmong(cs: Clauses, t: Transfer, n: nat): (r: Option<nat>)
    requires n <= |cs|
    ensures r.None? ==> forall i | 0 <= i < n :: !Pending(cs, t, i)
    ensures r.Some? ==> r.value < n && Pending(cs, t, r.value)
    ensures r.Some? ==> forall i | 0 <= i < n && Pending(cs, t, i) :: i == r.value || Before(cs, r.value, i)
  {
    if n == 0 then None
    else
      var s := NextAmong(cs, t, n - 1);
      if Pending(cs, t, n - 1) && (s.None? || Before(cs, n - 1, s.value)) then Some(n - 1) else s
  }

  function NextFinally(cs: Clauses, t: Transfer): (r: Option<nat>)
    ensures r.None? ==> forall i | 0 <= i < |cs| :: !Pending(cs, t, i)
    ensures r.Some? ==> r.value < |cs| && Pending(cs, t, r.value)
    ensures r.Some? ==> forall i | 0 <= i < |cs| && Pending(cs, t, i) :: i == r.value || Before(cs, r.value, i)
  {
    NextAmong(cs, t, |cs|)
  }

  // ----------------------------------------------------------------------
  // The loops of the source
  // ----------------------------------------------------------------------

  method IsProtected(cs: Clauses, index: nat, pc: nat) returns (answer: bool)
    requires index < |cs|
    ensures answer <==> Protected(cs, index, pc)
  {
    var clause := cs[index];
    if clause.tryBlock.Has(pc) {
      return true;
    }
    for i := 0 to |cs|
      invariant forall j | 0 <= j < i :: !SiblingHandlerHas(cs, index, j, pc)
    {
      var other := cs[i];
      if (other.flags == CATCH || other.flags == FILTER) && clause.tryBlock == other.tryBlock && other.handler.Has(pc) {
        assert SiblingHandlerHas(cs, index, i, pc);
        return true;
      }
    }
    return false;
  }

  method FindNextFinally(cs: Clauses, t: Transfer) returns (selected: Option<nat>)
    requires t.previous.Some? ==> t.previous.value < |cs|
    ensures selected == NextFinally(cs, t)
  {
    selected := None;
    for i := 0 to |cs|
      invariant selected == NextAmong(cs, t, i)
    {
      var clause := cs[i];
      if clause.flags != FINALLY && !(t.exceptional && clause.flags == FAULT) {
        continue;
      }
      var atOrigin := IsProtected(cs, i, t.origin);
      if !atOrigin {
        continue;
      }
      if t.target.Some? {
        var atTarget := IsProtected(cs, i, t.target.value);
        if atTarget {
          continue;
        }
      }
      if clause.handler.Has(t.origin) {
        continue;
      }
      if t.previous.Some? && !Before(cs, t.previous.value, i) {
        continue;
      }
      if selected.None? || Before(cs, i, selected.value) {
        selected := Some(i);
      }
    }
  }

  // ----------------------------------------------------------------------
  // Exactness: repeated continuation visits the exited clauses, each once
  // ----------------------------------------------------------------------

  /** The clauses that repeated continuation of t enters, in order. */
  function Visits(cs: Clauses, t: Transfer): (v: seq<nat>)
    decreases PendingSet(cs, t)
  {
    match NextFinally(cs, t)
    case None => []
    case Some(i) =>
      PendingShrinks(cs, t, i);
      [i] + Visits(cs, t.(previous := Some(i), active := Some(i)))
  }

  ghost function PendingSet(cs: Clauses, t: Transfer): set<nat> {
    set i | 0 <= i < |cs| && Pending(cs, t, i)
  }

  lemma PendingShrinks(cs: Clauses, t: Transfer, i: nat)
    requires NextFinally(cs, t) == Some(i)
    ensures PendingSet(cs, t.(previous := Some(i), active := Some(i))) < PendingSet(cs, t)
  {
    var u := t.(previous := Some(i), active := Some(i));
    assert i in PendingSet(cs, t) && i !in PendingSet(cs, u);
    forall j | j in PendingSet(cs, u)
      ensures j in PendingSet(cs, t)
    {
      assert Exited(cs, u, j) && Exited(cs, t, j);
      if t.previous.Some? && t.previous.value < |cs| {
        BeforeTransitive(cs, t.previous.value, i, j);
      }
    }
  }

  /** net_finally_before is a strict total order on the clauses. */
  lemma BeforeTotal(cs: Clauses, a: nat, b: nat)
    requires a < |cs| && b < |cs|
    ensures a == b || Before(cs, a, b) || Before(cs, b, a)
    ensures !(Before(cs, a, b) && Before(cs, b, a))
    ensures !Before(cs, a, a)
  {
  }

  lemma BeforeTransitive(cs: Clauses, a: nat, b: nat, c: nat)
    requires a < |cs| && b < |cs| && c < |cs|
    requires Before(cs, a, b) && Before(cs, b, c)
    ensures Before(cs, a, c)
  {
  }

  ghost predicate StrictlySorted(cs: Clauses, v: seq<nat>) {
    && (forall k | 0 <= k < |v| :: v[k] < |cs|)
    && forall k, l | 0 <= k < l < |v| :: Before(cs, v[k], v[l])
  }

  lemma {:induction false} VisitsArePending(cs: Clauses, t: Transfer)
    ensures StrictlySorted(cs, Visits(cs, t))
    ensures forall i :: i in Visits(cs, t) <==> 0 <= i < |cs| && Pending(cs, t, i)
    decreases PendingSet(cs, t)
  {
    match NextFinally(cs, t)
    case None =>
    case Some(i) =>
      PendingShrinks(cs, t, i);
      var u := t.(previous := Some(i), active := Some(i));
      VisitsArePending(cs, u);
      assert forall j | 0 <= j < |cs| :: Exited(cs, u, j) == Exited(cs, t, j);
      var v := Visits(cs, u);
      assert Visits(cs, t) == [i] + v;
      forall j | 0 <= j < |cs| && Pending(cs, t, j) && j != i
        ensures Pending(cs, u, j)
      {
        assert Exited(cs, u, j);
      }
      forall j | j in v
        ensures Pending(cs, t, j) && Before(cs, i, j)
      {
        assert Pending(cs, u, j);
        assert j in PendingSet(cs, u) && j in PendingSet(cs, t);
      }
    }

  /**
    Finalizer exactness.  A transfer that has entered no handler yet visits
    exactly the clauses it exits, in the order net_finally_before, so each of
    them once.
  */
  lemma FinalizersExact(cs: Clauses, t: Transfer)
    requires t.previous.None?
    ensures StrictlySorted(cs, Visits(cs, t))
    ensures forall i :: i in Visits(cs, t) <==> i >= 0 && Exited(cs, t, i)
    ensures forall k, l | 0 <= k < l < |Visits(cs, t)| :: Visits(cs, t)[k] != Visits(cs, t)[l]
  {
    VisitsArePending(cs, t);
    var v := Visits(cs, t);
    forall k, l | 0 <= k < l < |v|
      ensures v[k] != v[l]
    {
      BeforeTotal(cs, v[k], v[l]);
    }
  }

  // ----------------------------------------------------------------------
  // Lexical nesting
  // ----------------------------------------------------------------------

  /** What net_prepare_code checks of one clause on its own (lines 606-625). */
  predicate ClauseOk(c: Clause) {
    && c.tryBlock.length > 0 && c.handler.length > 0
    && c.tryBlock.Apart(c.handler)
    && (c.flags == CATCH || c.flags == FINALLY || c.flags == FAULT)
  }

  predicate InsideOf(c: Clause, r: Region) {
    c.tryBlock.Within(r) && c.handler.Within(r)
  }

  predicate ApartFrom(c: Clause, d: Clause) {
    && c.tryBlock.Apart(d.tryBlock) && c.tryBlock.Apart(d.handler)
    && c.handler.Apart(d.tryBlock) && c.handler.Apart(d.handler)
  }

  /** Section 12.4.2.7 of Partition I of ECMA-335, for one pair of clauses. */
  predicate PairNested(c: Clause, d: Clause) {
    || ApartFrom(c, d)
    || (c.tryBlock == d.tryBlock && c.handler.Apart(d.handler))
    || (InsideOf(c, d.tryBlock) && c.tryBlock != d.tryBlock)
    || InsideOf(c, d.handler)
    || (InsideOf(d, c.tryBlock) && c.tryBlock != d.tryBlock)
    || InsideOf(d, c.handler)
  }

  predicate LexicallyNested(cs: Clauses) {
    && (forall i | 0 <= i < |cs| :: ClauseOk(cs[i]))
    && forall i, j | 0 <= i < |cs| && 0 <= j < |cs| && i != j :: PairNested(cs[i], cs[j])
  }

  predicate Cleanup(c: Clause) {
    c.flags == FINALLY || c.flags == FAULT
  }

  /** No finally or fault clause shares its try block with a catch clause. */
  predicate CleanupAlone(cs: Clauses) {
    forall i, j | 0 <= i < |cs| && 0 <= j < |cs| && Cleanup(cs[i]) && cs[j].flags == CATCH ::
      cs[i].tryBlock != cs[j].tryBlock
  }

  /**
    Clause j, a cleanup nested in a catch handler that cleanup i protects, is
    the inner one of the two.  Its try is unrelated in length to that of i.
  */
  predicate InSiblingHandler(cs: Clauses, j: nat, i: nat)
    requires i < |cs| && j < |cs|
  {
    exists k | 0 <= k < |cs| :: cs[k].flags == CATCH && cs[k].tryBlock == cs[i].tryBlock && InsideOf(cs[j], cs[k].handler)
  }

  predicate Inner(cs: Clauses, j: nat, i: nat)
    requires i < |cs| && j < |cs|
  {
    (InsideOf(cs[j], cs[i].tryBlock) && cs[i].tryBlock != cs[j].tryBlock) || InSiblingHandler(cs, j, i)
  }

  /** Visits never runs a cleanup before one that is nested inside it. */
  ghost predicate InnermostFirst(cs: Clauses, v: seq<nat>)
    requires forall k | 0 <= k < |v| :: v[k] < |cs|
  {
    forall k, l | 0 <= k < l < |v| :: !Inner(cs, v[l], v[k])
  }

  /** What a compiler can check of the clause table alone. */
  predicate SiblingCleanupsShorter(cs: Clauses) {
    forall i, j | 0 <= i < |cs| && 0 <= j < |cs| && Cleanup(cs[i]) && Cleanup(cs[j]) && InSiblingHandler(cs, j, i) ::
      Before(cs, j, i)
  }

  lemma InnermostFirstIfShorter(cs: Clauses, t: Transfer)
    requires LexicallyNested(cs) && SiblingCleanupsShorter(cs) && t.previous.None?
    ensures StrictlySorted(cs, Visits(cs, t)) && InnermostFirst(cs, Visits(cs, t))
  {
    VisitsArePending(cs, t);
    var v := Visits(cs, t);
    forall k, l | 0 <= k < l < |v|
      ensures !Inner(cs, v[l], v[k])
    {
      assert v[k] in v && v[l] in v;
      assert Exited(cs, t, v[k]) && Exited(cs, t, v[l]);
      BeforeTotal(cs, v[k], v[l]);
    }
  }

  /**
    The finalizer order is innermost-first for every leave and throw exactly
    when no cleanup inside a catch handler has a try that sorts after the try
    its catch shares with another cleanup.  (The original compares try lengths,
    which says nothing about a try inside a handler.)
  */
  lemma InnermostFirstExactly(cs: Clauses)
    requires LexicallyNested(cs)
    ensures (forall t: Transfer | t.previous.None? ::
               StrictlySorted(cs, Visits(cs, t)) && InnermostFirst(cs, Visits(cs, t)))
            <==> SiblingCleanupsShorter(cs)
  {
    if SiblingCleanupsShorter(cs) {
      forall t: Transfer | t.previous.None?
        ensures StrictlySorted(cs, Visits(cs, t)) && InnermostFirst(cs, Visits(cs, t))
      {
        InnermostFirstIfShorter(cs, t);
      }
    } else {
      var i, j :| 0 <= i < |cs| && 0 <= j < |cs| && Cleanup(cs[i]) && Cleanup(cs[j]) && InSiblingHandler(cs, j, i) && !Before(cs, j, i);
      var t := OutOfOrder(cs, i, j);
    }
  }

  lemma OutOfOrder(cs: Clauses, i: nat, j: nat) returns (t: Transfer)
    requires LexicallyNested(cs) && i < |cs| && j < |cs|
    requires Cleanup(cs[i]) && Cleanup(cs[j]) && InSiblingHandler(cs, j, i) && !Before(cs, j, i)
    ensures t.previous.None? && StrictlySorted(cs, Visits(cs, t)) && !InnermostFirst(cs, Visits(cs, t))
  {
    t := Transfer(cs[j].tryBlock.start, None, 1, None, None, None, true);
    BothExited(cs, i, j, t);
    VisitsArePending(cs, t);
    BeforeTotal(cs, i, j);
    var a, b := Positions(cs, Visits(cs, t), i, j);
    assert Inner(cs, Visits(cs, t)[b], Visits(cs, t)[a]);
  }

  lemma Positions(cs: Clauses, v: seq<nat>, i: nat, j: nat) returns (a: nat, b: nat)
    requires StrictlySorted(cs, v) && i in v && j in v && Before(cs, i, j)
    ensures a < b < |v| && v[a] == i && v[b] == j
  {
    a :| 0 <= a < |v| && v[a] == i;
    b :| 0 <= b < |v| && v[b] == j;
    BeforeTotal(cs, i, j);
  }

  /** A throw from the inner cleanup's try runs both cleanups. */
  lemma BothExited(cs: Clauses, i: nat, j: nat, t: Transfer)
    requires LexicallyNested(cs) && i < |cs| && j < |cs|
    requires Cleanup(cs[i]) && Cleanup(cs[j]) && InSiblingHandler(cs, j, i)
    requires t == Transfer(cs[j].tryBlock.start, None, 1, None, None, None, true)
    ensures i != j && Exited(cs, t, i) && Exited(cs, t, j)
  {
    var k :| 0 <= k < |cs| && cs[k].flags == CATCH && cs[k].tryBlock == cs[i].tryBlock && InsideOf(cs[j], cs[k].handler);
    assert ClauseOk(cs[i]) && ClauseOk(cs[j]) && ClauseOk(cs[k]);
    assert PairNested(cs[i], cs[k]);
    hide LexicallyNested, PairNested, ClauseOk, InSiblingHandler, InsideOf;
    NestedOrigin(cs[i], cs[j], cs[k], t.origin);
    assert SiblingHandlerHas(cs, i, k, t.origin);
  }

  /** The start of d's try, in the handler of catch k beside cleanup c. */
  lemma NestedOrigin(c: Clause, d: Clause, k: Clause, pc: nat)
    requires ClauseOk(c) && ClauseOk(d) && ClauseOk(k) && PairNested(c, k) && c.flags != CATCH && k.flags == CATCH
    requires k.tryBlock == c.tryBlock && InsideOf(d, k.handler) && pc == d.tryBlock.start
    ensures k.handler.Has(pc) && d.tryBlock.Has(pc) && !c.handler.Has(pc) && !d.handler.Has(pc) && c != d
  {
  }

  /** Of two tries around pc, the shorter is inside the longer. */
  lemma TriesAround(cs: Clauses, a: nat, b: nat, pc: nat)
    requires LexicallyNested(cs) && a < |cs| && b < |cs| && a != b
    requires cs[a].tryBlock.Has(pc) && cs[b].tryBlock.Has(pc)
    ensures cs[a].tryBlock.length < cs[b].tryBlock.length ==> cs[a].tryBlock.Within(cs[b].tryBlock)
    ensures cs[b].tryBlock.length < cs[a].tryBlock.length ==> cs[b].tryBlock.Within(cs[a].tryBlock)
    ensures cs[a].tryBlock.length == cs[b].tryBlock.length ==> cs[a].tryBlock == cs[b].tryBlock
  {
    assert ClauseOk(cs[a]) && ClauseOk(cs[b]);
    assert PairNested(cs[a], cs[b]);
  }

  lemma ExitedFromTry(cs: Clauses, t: Transfer, i: nat)
    requires LexicallyNested(cs) && CleanupAlone(cs) && Exited(cs, t, i)
    ensures cs[i].tryBlock.Has(t.origin)
  {
    forall j | 0 <= j < |cs|
      ensures !SiblingHandlerHas(cs, i, j, t.origin)
    {
      assert ClauseOk(cs[j]);
    }
  }

  /** Under the clause rules of ECMA-335 the order is always innermost-first. */
  lemma InnermostFirstWhenAlone(cs: Clauses, t: Transfer)
    requires LexicallyNested(cs) && CleanupAlone(cs) && t.previous.None?
    ensures StrictlySorted(cs, Visits(cs, t))
    ensures forall k, l | 0 <= k < l < |Visits(cs, t)| ::
              cs[Visits(cs, t)[k]].tryBlock.Within(cs[Visits(cs, t)[l]].tryBlock)
  {
    VisitsArePending(cs, t);
    var v := Visits(cs, t);
    forall k, l | 0 <= k < l < |v|
      ensures cs[v[k]].tryBlock.Within(cs[v[l]].tryBlock)
    {
      assert v[k] in v && v[l] in v;
      BeforeTotal(cs, v[k], v[l]);
      ExitedFromTry(cs, t, v[k]);
      ExitedFromTry(cs, t, v[l]);
      TriesAround(cs, v[k], v[l], t.origin);
    }
  }

  /** A clause table on which the order is not innermost-first. */
  lemma OrderCounterexample()
    ensures var cs := [
        Clause(CATCH, Region(0, 1), Region(1, 7)),
        Clause(FINALLY, Region(0, 1), Region(8, 1)),
        Clause(FINALLY, Region(2, 3), Region(5, 1))];
      var t := Transfer(2, None, 1, None, None, None, true);
      && LexicallyNested(cs)
      && Visits(cs, t) == [1, 2]
      && Inner(cs, 2, 1)
  {
    var cs := [
      Clause(CATCH, Region(0, 1), Region(1, 7)),
      Clause(FINALLY, Region(0, 1), Region(8, 1)),
      Clause(FINALLY, Region(2, 3), Region(5, 1))];
    var t := Transfer(2, None, 1, None, None, None, true);
    assert LexicallyNested(cs);
    assert InSiblingHandler(cs, 2, 1) by {
      assert cs[0].flags == CATCH && cs[0].tryBlock == cs[1].tryBlock && InsideOf(cs[2], cs[0].handler);
    }
    assert SiblingHandlerHas(cs, 1, 0, 2);
    assert Pending(cs, t, 1) && Pending(cs, t, 2) && !Pending(cs, t, 0) && Before(cs, 1, 2);
    assert NextFinally(cs, t) == Some(1);
    var u := t.(previous := Some(1), active := Some(1));
    assert Exited(cs, u, 2) && Pending(cs, u, 2) && !Pending(cs, u, 1);
    assert NextFinally(cs, u) == Some(2);
    var w := u.(previous := Some(2), active := Some(2));
    assert !Pending(cs, w, 1) && !Pending(cs, w, 2) && !Pending(cs, w, 0);
    assert NextFinally(cs, w) == None;
    assert Visits(cs, w) == [];
    assert Visits(cs, u) == [2] + Visits(cs, w);
    assert Visits(cs, t) == [1] + Visits(cs, u);
  }
}

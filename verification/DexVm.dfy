/**
  The DEX virtual machine's type queries: assignability by a stamped
  breadth-first search, the superclass check by colouring, and method lookup
  (src/xxemul_dex_runtime.c, lines 281-358, 547-560 and 677-692).
*/
module DexVm {
  import opened Wrappers
  import opened Sequences
  import opened DexTypes

  const STAMPS := 0x1_0000_0000

  datatype Method = Method(classDescriptor: string, name: string, prototype: string, isDefined: bool)

  /** hierarchy_state: not seen, on the current path, or known to reach the end of its chain. */
  datatype Colour = Unseen | OnPath | Finished

  predicate Matches(m: Method, owner: string, name: string, prototype: string) {
    m.isDefined && m.classDescriptor == owner && m.name == name && m.prototype == prototype
  }

  // --- What a search has settled ----------------------------------------------------

  /** A name above the source that neither is the destination nor settles the question with yes. */
  predicate Handled(classes: seq<Class>, host: Host, destination: string, found: seq<nat>, unknown: bool, name: string) {
    && name != destination
    && var c := Find(classes, name);
       if c.Some? then c.value in found
       else var answer := External(classes, host, name, destination); answer != Yes && (answer == Unknown ==> unknown)
  }

  /** The ancestors of a class, up to the n-th, are handled. */
  predicate HandledUpTo(classes: seq<Class>, host: Host, destination: string, found: seq<nat>, unknown: bool, c: nat, n: nat)
    requires c < |classes| && n <= |Ancestors(classes[c])|
  {
    forall k | 0 <= k < n :: Handled(classes, host, destination, found, unknown, Ancestors(classes[c])[k])
  }

  /** The first r classes found are handled in full. */
  predicate HandledFirst(classes: seq<Class>, host: Host, destination: string, found: seq<nat>, unknown: bool, r: nat) {
    r <= |found| && forall k | 0 <= k < r :: found[k] < |classes| && HandledUpTo(classes, host, destination, found, unknown, found[k], |Ancestors(classes[found[k]])|)
  }

  /** More classes found and more doubt leave what is handled handled. */
  lemma HandledStays(classes: seq<Class>, host: Host, destination: string, found: seq<nat>, unknown: bool, more: seq<nat>, doubt: bool, r: nat)
    requires HandledFirst(classes, host, destination, found, unknown, r) && found <= more && (unknown ==> doubt)
    ensures HandledFirst(classes, host, destination, more, doubt, r)
  {
    forall k | 0 <= k < r
      ensures HandledUpTo(classes, host, destination, more, doubt, more[k], |Ancestors(classes[more[k]])|)
    {
      assert more[k] == found[k];
      UpToStays(classes, host, destination, found, unknown, more, doubt, found[k], |Ancestors(classes[found[k]])|);
    }
  }

  lemma UpToStays(classes: seq<Class>, host: Host, destination: string, found: seq<nat>, unknown: bool, more: seq<nat>, doubt: bool, c: nat, n: nat)
    requires c < |classes| && n <= |Ancestors(classes[c])| && found <= more && (unknown ==> doubt)
    requires HandledUpTo(classes, host, destination, found, unknown, c, n)
    ensures HandledUpTo(classes, host, destination, more, doubt, c, n)
  {
    forall k | 0 <= k < n
      ensures Handled(classes, host, destination, more, doubt, Ancestors(classes[c])[k])
    {
      assert Handled(classes, host, destination, found, unknown, Ancestors(classes[c])[k]);
    }
  }

  /** When everything found is handled, so is every name that is reached from a class found. */
  lemma {:induction false} ClosedUnderPaths(classes: seq<Class>, host: Host, destination: string, found: seq<nat>, unknown: bool, path: seq<string>)
    requires HandledFirst(classes, host, destination, found, unknown, |found|)
    requires Path(classes, path) && Handled(classes, host, destination, found, unknown, path[0])
    ensures Handled(classes, host, destination, found, unknown, path[|path| - 1])
    decreases |path|
  {
    if |path| > 1 {
      assert Extends(classes, path[0], path[0 + 1]);
      var c := Find(classes, path[0]).value;
      var k :| 0 <= k < |found| && found[k] == c;
      assert HandledUpTo(classes, host, destination, found, unknown, found[k], |Ancestors(classes[found[k]])|);
      var j :| 0 <= j < |Ancestors(classes[c])| && Ancestors(classes[c])[j] == path[1];
      assert Handled(classes, host, destination, found, unknown, Ancestors(classes[c])[j]);
      forall m | 0 <= m < |path[1..]| - 1
        ensures Extends(classes, path[1..][m], path[1..][m + 1])
      {
        assert Extends(classes, path[m + 1], path[m + 1 + 1]);
      }
      ClosedUnderPaths(classes, host, destination, found, unknown, path[1..]);
    }
  }

  /** A search that has handled everything it found knows the answer. */
  lemma SearchSettles(classes: seq<Class>, host: Host, source: string, destination: string, found: seq<nat>, unknown: bool)
    requires destination != OBJECT && HandledFirst(classes, host, destination, found, unknown, |found|)
    requires Handled(classes, host, destination, found, unknown, source)
    requires unknown ==> Reports(classes, host, source, destination, Unknown)
    ensures Assignable(classes, host, source, destination) == if unknown then Unknown else No
  {
    forall name: string | Reaches(classes, source, name)
      ensures Handled(classes, host, destination, found, unknown, name)
    {
      var path: seq<string> :| Path(classes, path) && path[0] == source && path[|path| - 1] == name;
      ClosedUnderPaths(classes, host, destination, found, unknown, path);
    }
  }

  // --- The colouring of the superclass check ------------------------------------------

  /** The classes on the current path follow one another; finished classes reach the end of their chain. */
  ghost predicate Coloured(classes: seq<Class>, states: seq<Colour>, path: seq<nat>) {
    && |states| == |classes|
    && (forall k | 0 <= k < |path| :: path[k] < |classes| && states[path[k]] == OnPath)
    && (forall j, k | 0 <= j < k < |path| :: path[j] != path[k])
    && (forall k | 0 <= k < |path| - 1 :: Above(classes, path[k]) == Some(path[k + 1]))
    && (forall i | 0 <= i < |classes| :: states[i] == OnPath ==> i in path)
    && forall i | 0 <= i < |classes| :: states[i] == Finished ==> Finishes(classes, i)
  }

  /** current is the class above the end of the path, which started at class i. */
  predicate PathEnd(classes: seq<Class>, path: seq<nat>, i: nat, current: Option<nat>) {
    && i < |classes| && (current.Some? ==> current.value < |classes|)
    && if path == [] then current == Some(i)
       else path[0] == i && path[|path| - 1] < |classes| && Above(classes, path[|path| - 1]) == current
  }

  predicate KeepsFinished(before: seq<Colour>, after: seq<Colour>) {
    |before| == |after| && forall k | 0 <= k < |before| :: before[k] == Finished ==> after[k] == Finished
  }

  lemma StartOfPath(classes: seq<Class>, i: nat)
    requires i < |classes|
    ensures PathEnd(classes, [], i, Some(i))
  {
  }

  lemma PathIsInRange(classes: seq<Class>, states: seq<Colour>, path: seq<nat>)
    requires Coloured(classes, states, path)
    ensures forall k | 0 <= k < |path| :: path[k] < |classes|
  {
  }

  lemma {:induction false} PathClimbs(classes: seq<Class>, states: seq<Colour>, path: seq<nat>, p: nat, k: nat)
    requires Coloured(classes, states, path) && p + k < |path|
    ensures path[p] < |classes| && Climb(classes, path[p], k) == Some(path[p + k])
    decreases k
  {
    if k > 0 {
      PathClimbs(classes, states, path, p, k - 1);
      assert Above(classes, path[p + k - 1]) == Some(path[p + k - 1 + 1]);
    }
  }

  /** A class met again on the path is on a cycle. */
  lemma PathCloses(classes: seq<Class>, states: seq<Colour>, path: seq<nat>, i: nat, current: nat)
    requires Coloured(classes, states, path) && PathEnd(classes, path, i, Some(current)) && states[current] == OnPath
    ensures !Acyclic(classes)
  {
    var p :| 0 <= p < |path| && path[p] == current;
    PathClimbs(classes, states, path, p, |path| - 1 - p);
    assert Climb(classes, current, |path| - p) == Some(current);
  }

  /** A class not seen yet always has room in the path buffer. */
  lemma RoomOnPath(classes: seq<Class>, states: seq<Colour>, path: seq<nat>, current: nat)
    requires Coloured(classes, states, path) && current < |classes| && states[current] == Unseen
    ensures |path| < |classes|
  {
    Pigeonhole(path + [current], |classes|);
  }

  lemma LongerPath(classes: seq<Class>, states: seq<Colour>, path: seq<nat>, i: nat, c: nat)
    requires Coloured(classes, states, path) && PathEnd(classes, path, i, Some(c)) && states[c] == Unseen
    ensures Coloured(classes, states[c := OnPath], path + [c]) && PathEnd(classes, path + [c], i, Above(classes, c))
    ensures KeepsFinished(states, states[c := OnPath])
  {
    hide Finishes;
  }

  /** If the path ends well, so does every class on it. */
  lemma {:induction false} PathFinishes(classes: seq<Class>, states: seq<Colour>, path: seq<nat>, i: nat, current: Option<nat>, k: nat)
    requires Coloured(classes, states, path) && PathEnd(classes, path, i, current) && k < |path|
    requires current.None? || Finishes(classes, current.value)
    ensures path[k] < |classes| && Finishes(classes, path[k])
    decreases |path| - k
  {
    if k < |path| - 1 {
      PathFinishes(classes, states, path, i, current, k + 1);
      assert Above(classes, path[k]) == Some(path[k + 1]);
    }
    FinishesAbove(classes, path[k]);
  }

  lemma AllFinished(classes: seq<Class>, states: seq<Colour>, path: seq<nat>, i: nat, current: Option<nat>, after: seq<Colour>)
    requires Coloured(classes, states, path) && PathEnd(classes, path, i, current)
    requires current.Some? ==> states[current.value] == Finished
    requires |after| == |states| && forall k | 0 <= k < |states| :: after[k] == if k in path then Finished else states[k]
    ensures Coloured(classes, after, []) && after[i] == Finished && KeepsFinished(states, after)
  {
    forall k | 0 <= k < |path|
      ensures path[k] < |classes| && Finishes(classes, path[k])
    {
      PathFinishes(classes, states, path, i, current, k);
    }
  }

  /** Every class found is the first of its name, and is reached. */
  ghost predicate FoundAll(classes: seq<Class>, source: string, found: seq<nat>) {
    forall k | 0 <= k < |found| ::
      && found[k] < |classes|
      && Find(classes, classes[found[k]].descriptor) == Some(found[k])
      && Reaches(classes, source, classes[found[k]].descriptor)
  }

  lemma FoundMore(classes: seq<Class>, source: string, found: seq<nat>, name: string)
    requires FoundAll(classes, source, found) && Find(classes, name).Some? && Reaches(classes, source, name)
    ensures FoundAll(classes, source, found + [Find(classes, name).value])
  {
  }

  class Vm {
    const classes: seq<Class>
    const host: Host
    const methods: seq<Method>
    const visit: array<nat>
    const hierarchyState: array<Colour>
    const typeWorklist: array<nat>
    var typeVisit: nat

    /** No class carries a stamp that was not given yet. */
    ghost predicate Valid()
      reads this, visit
    {
      && visit.Length == hierarchyState.Length == typeWorklist.Length == |classes|
      && visit != typeWorklist
      && typeVisit < STAMPS && forall i | 0 <= i < |classes| :: visit[i] <= typeVisit
    }

    constructor (classes: seq<Class>, host: Host, methods: seq<Method>)
      ensures Valid() && fresh(visit) && fresh(hierarchyState) && fresh(typeWorklist)
      ensures this.classes == classes && this.host == host && this.methods == methods
    {
      this.classes, this.host, this.methods, typeVisit := classes, host, methods, 0;
      visit := new nat[|classes|](_ => 0);
      hierarchyState := new Colour[|classes|](_ => Unseen);
      typeWorklist := new nat[|classes|](_ => 0);
    }

    method FindClass(name: string) returns (r: Option<nat>)
      ensures r == Find(classes, name)
    {
      for i := 0 to |classes|
        invariant Find(classes, name) == FindFrom(classes, name, i)
      {
        if classes[i].descriptor == name {
          return Some(i);
        }
      }
      return None;
    }

    /** A stamp no class carries; the counter wraps around at 32 bits. */
    method NewStamp()
      requires Valid()
      modifies this`typeVisit, visit
      ensures Valid() && 0 < typeVisit && forall i | 0 <= i < |classes| :: visit[i] != typeVisit
    {
      typeVisit := (typeVisit + 1) % STAMPS;
      if typeVisit == 0 {
        for i := 0 to |classes|
          invariant typeVisit == 0 && forall k | 0 <= k < i :: visit[k] == 0
        {
          visit[i] := 0;
        }
        typeVisit := typeVisit + 1;
      } else {
        assert typeVisit == old(typeVisit) + 1;
      }
    }

    /** The classes found so far carry the stamp, each once. */
    ghost predicate Stamped(found: nat)
      requires Valid()
      reads this, visit, typeWorklist
    {
      && found <= |classes|
      && (forall k | 0 <= k < found :: typeWorklist[k] < |classes|)
      && (forall j, k | 0 <= j < k < found :: typeWorklist[j] != typeWorklist[k])
      && forall i | 0 <= i < |classes| :: visit[i] == typeVisit <==> i in typeWorklist[..found]
    }

    /** A class not found yet always has room. */
    lemma RoomFor(found: nat, c: nat)
      requires Valid() && Stamped(found) && c < |classes| && visit[c] != typeVisit
      ensures found < |classes|
    {
      var all := typeWorklist[..found] + [c];
      Pigeonhole(all, |classes|);
    }

    method Enqueue(c: nat, found: nat) returns (more: nat)
      requires Valid() && Stamped(found) && c < |classes| && visit[c] != typeVisit
      modifies visit, typeWorklist
      ensures Valid() && more == found + 1 && Stamped(more)
      ensures typeWorklist[..more] == old(typeWorklist[..found]) + [c]
    {
      RoomFor(found, c);
      visit[c] := typeVisit;
      typeWorklist[found] := c;
      more := found + 1;
      assert typeWorklist[..more] == old(typeWorklist[..found]) + [c];
    }

    ghost predicate Searching(source: string, destination: string, read: nat, write: nat, unknown: bool)
      reads this, visit, typeWorklist
    {
      && Valid() && Stamped(write) && read <= write
      && HandledFirst(classes, host, destination, typeWorklist[..write], unknown, read)
      && FoundAll(classes, source, typeWorklist[..write])
      && (unknown ==> Reports(classes, host, source, destination, Unknown))
      && Handled(classes, host, destination, typeWorklist[..write], unknown, source)
    }

    /** A class of the program is queued once; the host is asked about another. */
    method QueueOrAsk(name: string, destination: string, write: nat, unknown: bool) returns (yes: bool, more: nat, doubt: bool)
      requires Valid() && Stamped(write)
      modifies visit, typeWorklist
      ensures Valid() && Stamped(more) && (unknown ==> doubt)
      ensures var c := Find(classes, name);
              if c.None? then
                && unchanged(typeWorklist) && more == write
                && var answer := External(classes, host, name, destination);
                   yes == (answer == Yes) && doubt == (unknown || answer == Unknown)
              else
                && !yes && doubt == unknown && c.value in typeWorklist[..more]
                && typeWorklist[..more] == old(typeWorklist[..write]) + if more == write then [] else [c.value]
    {
      hide External;
      yes, more, doubt := false, write, unknown;
      var parent := FindClass(name);
      if parent.None? {
        var answer := External(classes, host, name, destination);
        yes, doubt := answer == Yes, unknown || answer == Unknown;
      } else if visit[parent.value] != typeVisit {
        more := Enqueue(parent.value, write);
      }
    }

    lemma ReachedReports(source: string, destination: string, name: string)
      requires Reaches(classes, source, name) && Find(classes, name).None? && External(classes, host, name, destination) == Unknown
      ensures Reports(classes, host, source, destination, Unknown)
    {
    }

    /** One ancestor of the class at the head of the worklist. */
    method VisitAncestor(source: string, destination: string, c: nat, n: nat, read: nat, write: nat, unknown: bool)
      returns (yes: bool, more: nat, doubt: bool)
      requires Searching(source, destination, read, write, unknown) && c < |classes| && n < |Ancestors(classes[c])|
      requires Reaches(classes, source, classes[c].descriptor) && Find(classes, classes[c].descriptor) == Some(c)
      requires HandledUpTo(classes, host, destination, typeWorklist[..write], unknown, c, n)
      modifies visit, typeWorklist
      ensures Valid() && (yes ==> Assignable(classes, host, source, destination) == Yes)
      ensures !yes ==>
                && write <= more && Searching(source, destination, read, more, doubt)
                && old(typeWorklist[..write]) <= typeWorklist[..more]
                && HandledUpTo(classes, host, destination, typeWorklist[..more], doubt, c, n + 1)
    {
      hide Handled, HandledFirst, Assignable, Reaches, External, FoundAll, Reports;
      yes, more, doubt := false, write, unknown;
      var ancestor := Ancestors(classes[c])[n];
      assert Extends(classes, classes[c].descriptor, ancestor);
      ReachesFurther(classes, source, classes[c].descriptor, ancestor);
      if ancestor == destination {
        ReachedIsYes(source, destination);
        return true, more, doubt;
      }
      ghost var found := typeWorklist[..write];
      yes, more, doubt := QueueOrAsk(ancestor, destination, write, unknown);
      if yes {
        ReportedIsYes(source, destination, ancestor);
        return;
      }
      if doubt && !unknown {
        ReachedReports(source, destination, ancestor);
      }
      if more != write {
        FoundMore(classes, source, found, ancestor);
      } else {
        assert typeWorklist[..more] == found;
      }
      KnownAncestor(destination, typeWorklist[..more], doubt, ancestor);
      HandledStays(classes, host, destination, found, unknown, typeWorklist[..more], doubt, read);
      UpToStays(classes, host, destination, found, unknown, typeWorklist[..more], doubt, c, n);
      SourceStays(destination, found, unknown, typeWorklist[..more], doubt, source);
      assert HandledUpTo(classes, host, destination, typeWorklist[..more], doubt, c, n + 1);
    }

    lemma ReachedIsYes(source: string, destination: string)
      requires Reaches(classes, source, destination)
      ensures Assignable(classes, host, source, destination) == Yes
    {
    }

    lemma ReportedIsYes(source: string, destination: string, name: string)
      requires Reaches(classes, source, name) && Find(classes, name).None? && External(classes, host, name, destination) == Yes
      ensures Assignable(classes, host, source, destination) == Yes
    {
    }

    lemma KnownAncestor(destination: string, found: seq<nat>, doubt: bool, name: string)
      requires name != destination
      requires var c := Find(classes, name);
               if c.Some? then c.value in found
               else External(classes, host, name, destination) != Yes && (External(classes, host, name, destination) == Unknown ==> doubt)
      ensures Handled(classes, host, destination, found, doubt, name)
    {
    }

    lemma SourceStays(destination: string, found: seq<nat>, unknown: bool, more: seq<nat>, doubt: bool, name: string)
      requires Handled(classes, host, destination, found, unknown, name) && found <= more && (unknown ==> doubt)
      ensures Handled(classes, host, destination, more, doubt, name)
    {
    }

    /** The class at the head of the worklist: all its interfaces, then its superclass. */
    method VisitClass(source: string, destination: string, read: nat, write: nat, unknown: bool) returns (yes: bool, more: nat, doubt: bool)
      requires Searching(source, destination, read, write, unknown) && read < write
      modifies visit, typeWorklist
      ensures Valid() && (yes ==> Assignable(classes, host, source, destination) == Yes)
      ensures !yes ==> Searching(source, destination, read + 1, more, doubt)
    {
      hide Handled, HandledFirst, HandledUpTo, Assignable, Reaches, External, Reports;
      more, doubt := write, unknown;
      var c := typeWorklist[read];
      var n := 0;
      NoneUpTo(destination, typeWorklist[..more], doubt, c);
      while n < |Ancestors(classes[c])|
        invariant n <= |Ancestors(classes[c])| && read < more
        invariant Searching(source, destination, read, more, doubt) && typeWorklist[read] == c
        invariant HandledUpTo(classes, host, destination, typeWorklist[..more], doubt, c, n)
      {
        ghost var before := typeWorklist[..more];
        yes, more, doubt := VisitAncestor(source, destination, c, n, read, more, doubt);
        if yes {
          return;
        }
        assert typeWorklist[..more][read] == before[read];
        n := n + 1;
      }
      OneMore(destination, typeWorklist[..more], doubt, read);
      yes := false;
    }

    /** The breadth-first search of is_assignable, for a source that is no array. */
    method Search(source: string, destination: string) returns (answer: Answer)
      requires Valid() && source != destination && destination != OBJECT
      modifies this`typeVisit, visit, typeWorklist
      ensures Valid() && answer == Assignable(classes, host, source, destination)
    {
      hide Handled, HandledFirst, HandledUpTo, Assignable, Reaches, External, Reports;
      NewStamp();
      ReachesItself(classes, source);
      var start := FindClass(source);
      if start.None? {
        answer := External(classes, host, source, destination);
        ExternalSource(source, destination);
        return;
      }
      assert typeWorklist[..0] == [];
      var read: nat, write: nat, unknown := 0, 0, false;
      write := Enqueue(start.value, write);
      KnownAncestor(destination, typeWorklist[..write], unknown, source);
      NothingHandled(destination, typeWorklist[..write], unknown);
      while read < write
        invariant Searching(source, destination, read, write, unknown)
        decreases |classes| - read
      {
        var yes;
        yes, write, unknown := VisitClass(source, destination, read, write, unknown);
        if yes {
          return Yes;
        }
        read := read + 1;
      }
      SearchSettles(classes, host, source, destination, typeWorklist[..write], unknown);
      answer := if unknown then Unknown else No;
    }

    lemma NothingHandled(destination: string, found: seq<nat>, unknown: bool)
      ensures HandledFirst(classes, host, destination, found, unknown, 0)
    {
    }

    lemma NoneUpTo(destination: string, found: seq<nat>, unknown: bool, c: nat)
      requires c < |classes|
      ensures HandledUpTo(classes, host, destination, found, unknown, c, 0)
    {
    }

    lemma OneMore(destination: string, found: seq<nat>, unknown: bool, read: nat)
      requires HandledFirst(classes, host, destination, found, unknown, read) && read < |found| && found[read] < |classes|
      requires HandledUpTo(classes, host, destination, found, unknown, found[read], |Ancestors(classes[found[read]])|)
      ensures HandledFirst(classes, host, destination, found, unknown, read + 1)
    {
    }

    lemma PathLeaves(path: seq<string>)
      requires Path(classes, path)
      ensures |path| == 1 || Find(classes, path[0]).Some?
    {
      assert |path| > 1 ==> Extends(classes, path[0], path[0 + 1]);
    }

    /** A source that the program does not define reaches itself only. */
    lemma ExternalSource(source: string, destination: string)
      requires Find(classes, source).None? && source != destination && destination != OBJECT
      ensures Assignable(classes, host, source, destination) == External(classes, host, source, destination)
    {
      ReachesItself(classes, source);
      forall name: string | Reaches(classes, source, name)
        ensures name == source
      {
        var path: seq<string> :| Path(classes, path) && path[0] == source && path[|path| - 1] == name;
        PathLeaves(path);
      }
      var answer := External(classes, host, source, destination);
      if answer != No {
        assert Reports(classes, host, source, destination, answer);
      }
    }

    /** is_assignable: 1, -1 and 0 are Yes, Unknown and No; a missing type is not assignable. */
    method IsAssignableTo(source: Option<string>, destination: Option<string>) returns (answer: Answer)
      requires Valid()
      modifies this`typeVisit, visit, typeWorklist
      ensures Valid()
      ensures answer == if source.None? || destination.None? then No else IsAssignable(classes, host, source.value, destination.value)
    {
      hide Assignable, External;
      if source.None? || destination.None? {
        return No;
      }
      var s, d := source.value, destination.value;
      while IsArray(s) && IsArray(d)
        invariant IsAssignable(classes, host, s, d) == IsAssignable(classes, host, source.value, destination.value)
        decreases |s|
      {
        s, d := s[1..], d[1..];
        if s == d {
          return Yes;
        }
        if !IsReference(s) || !IsReference(d) {
          return No;
        }
      }
      if s == d || d == OBJECT {
        return Yes;
      }
      if IsArray(s) {
        return if d == "Ljava/lang/Cloneable;" || d == "Ljava/io/Serializable;" then Yes else No;
      }
      answer := Search(s, d);
    }

    // --- The superclass check ----------------------------------------------------------

    method PushPath(i: nat, c: nat, count: nat) returns (more: nat, current: Option<nat>)
      requires Valid() && count <= |classes| && c < |classes| && hierarchyState[c] == Unseen
      requires Coloured(classes, hierarchyState[..], typeWorklist[..count]) && PathEnd(classes, typeWorklist[..count], i, Some(c))
      modifies hierarchyState, typeWorklist
      ensures Valid() && more == count + 1 <= |classes|
      ensures hierarchyState[..] == old(hierarchyState[..])[c := OnPath] && typeWorklist[..more] == old(typeWorklist[..count]) + [c]
      ensures current == Above(classes, c)
    {
      RoomOnPath(classes, hierarchyState[..], typeWorklist[..count], c);
      hierarchyState[c] := OnPath;
      typeWorklist[count] := c;
      more := count + 1;
      current := if classes[c].superclass.Some? then Find(classes, classes[c].superclass.value) else None;
    }

    /** Follow the superclasses of one class until the end, a class known to finish, or a class met before. */
    method ClimbPath(i: nat) returns (accepted: bool, count: nat, current: Option<nat>)
      requires Valid() && i < |classes| && Coloured(classes, hierarchyState[..], [])
      modifies hierarchyState, typeWorklist
      ensures Valid() && (!accepted ==> !Acyclic(classes))
      ensures accepted ==>
                && count <= |classes| && Coloured(classes, hierarchyState[..], typeWorklist[..count])
                && PathEnd(classes, typeWorklist[..count], i, current)
                && (current.Some? ==> current.value < |classes| && hierarchyState[current.value] == Finished)
      ensures KeepsFinished(old(hierarchyState[..]), hierarchyState[..])
    {
      hide Acyclic, Coloured, PathEnd;
      count, current := 0, Some(i);
      assert typeWorklist[..0] == [];
      StartOfPath(classes, i);
      while current.Some? && hierarchyState[current.value] != Finished
        invariant Valid() && count <= |classes| && (current.Some? ==> current.value < |classes|)
        invariant Coloured(classes, hierarchyState[..], typeWorklist[..count]) && PathEnd(classes, typeWorklist[..count], i, current)
        invariant KeepsFinished(old(hierarchyState[..]), hierarchyState[..])
        decreases |classes| - count
      {
        var c := current.value;
        ghost var states, path := hierarchyState[..], typeWorklist[..count];
        if hierarchyState[c] == OnPath {
          PathCloses(classes, states, path, i, c);
          accepted := false;
          return;
        }
        LongerPath(classes, states, path, i, c);
        count, current := PushPath(i, c, count);
      }
      accepted := true;
    }

    /** The classes of a path that ended well are finished. */
    method FinishPath(i: nat, count: nat, ghost current: Option<nat>)
      requires Valid() && i < |classes| && count <= |classes| && Coloured(classes, hierarchyState[..], typeWorklist[..count])
      requires PathEnd(classes, typeWorklist[..count], i, current) && (current.Some? ==> current.value < |classes| && hierarchyState[current.value] == Finished)
      modifies hierarchyState
      ensures Valid() && Coloured(classes, hierarchyState[..], []) && hierarchyState[i] == Finished
      ensures KeepsFinished(old(hierarchyState[..]), hierarchyState[..])
    {
      hide Coloured, PathEnd;
      ghost var states, path := hierarchyState[..], typeWorklist[..count];
      PathIsInRange(classes, states, path);
      for j := 0 to count
        invariant Valid() && forall k | 0 <= k < |classes| :: hierarchyState[k] == if k in path[..j] then Finished else states[k]
      {
        assert path[..j + 1] == path[..j] + [path[j]];
        hierarchyState[typeWorklist[j]] := Finished;
      }
      assert path[..count] == path;
      ghost var after := hierarchyState[..];
      assert forall k | 0 <= k < |classes| :: after[k] == if k in path then Finished else states[k];
      AllFinished(classes, states, path, i, current, after);
    }

    /** The check of prepare_metadata accepts exactly the acyclic hierarchies; its path buffer never overflows. */
    method CheckHierarchy() returns (accepted: bool)
      requires Valid() && forall i | 0 <= i < |classes| :: hierarchyState[i] == Unseen
      modifies hierarchyState, typeWorklist
      ensures Valid() && (accepted <==> Acyclic(classes))
    {
      for i := 0 to |classes|
        invariant Valid() && Coloured(classes, hierarchyState[..], []) && forall k | 0 <= k < i :: hierarchyState[k] == Finished
      {
        ghost var states := hierarchyState[..];
        var count, current;
        accepted, count, current := ClimbPath(i);
        if !accepted {
          return;
        }
        ghost var later := hierarchyState[..];
        FinishPath(i, count, current);
        forall k | 0 <= k < i
          ensures hierarchyState[k] == Finished
        {
          assert states[k] == Finished && later[k] == Finished && hierarchyState[..][k] == Finished;
        }
      }
      forall i | 0 <= i < |classes|
        ensures Finishes(classes, i)
      {
        assert hierarchyState[..][i] == Finished;
      }
      AllFinishMeansAcyclic(classes);
      accepted := true;
    }

    // --- Method lookup -----------------------------------------------------------------

    /** The first method of a name and prototype that a class defines, from index i on. */
    function DefinedIn(owner: string, name: string, prototype: string, i: nat): (r: Option<nat>)
      requires i <= |methods|
      ensures r.Some? ==> i <= r.value < |methods| && Matches(methods[r.value], owner, name, prototype)
      decreases |methods| - i
    {
      if i == |methods| then None
      else if Matches(methods[i], owner, name, prototype) then Some(i)
      else DefinedIn(owner, name, prototype, i + 1)
    }

    /** No class below depth d on the chain defines the method. */
    ghost predicate NoneBelow(owner: string, name: string, prototype: string, d: nat) {
      forall k, below | 0 <= k < d && ChainName(classes, owner, k) == Some(below) :: DefinedIn(below, name, prototype, 0).None?
    }

    /** The definition nearest to the owner on its whole superclass chain. */
    ghost predicate IsNearest(owner: string, name: string, prototype: string, r: Option<nat>) {
      if r.None? then forall d: nat :: NoneBelow(owner, name, prototype, d)
      else
        exists d: nat, above: string ::
          ChainName(classes, owner, d) == Some(above) && DefinedIn(above, name, prototype, 0) == r && NoneBelow(owner, name, prototype, d)
    }

    /** On an accepted hierarchy the walk of find_implementation, bounded by the number of classes, misses nothing. */
    method FindImplementation(owner: string, name: string, prototype: string, searchSuperclasses: bool) returns (r: Option<nat>)
      requires Acyclic(classes)
      ensures searchSuperclasses ==> IsNearest(owner, name, prototype, r)
      ensures !searchSuperclasses ==> r == DefinedIn(owner, name, prototype, 0)
    {
      hide Acyclic;
      var current, depth := Some(owner), 0;
      while current.Some? && depth <= |classes|
        invariant current == ChainName(classes, owner, depth) && NoneBelow(owner, name, prototype, depth)
        invariant depth <= |classes| + 1 && (!searchSuperclasses ==> depth == 0)
        decreases |classes| + 1 - depth
      {
        var o := current.value;
        for i := 0 to |methods|
          invariant DefinedIn(o, name, prototype, 0) == DefinedIn(o, name, prototype, i)
        {
          if Matches(methods[i], o, name, prototype) {
            return Some(i);
          }
        }
        if !searchSuperclasses {
          return None;
        }
        var c := FindClass(o);
        current := if c.Some? then classes[c.value].superclass else None;
        depth := depth + 1;
      }
      ChainEnds(owner, name, prototype, depth);
      r := None;
    }

    lemma {:induction false} ChainStops(owner: string, d: nat, k: nat)
      requires ChainName(classes, owner, d).None? && k >= d
      ensures ChainName(classes, owner, k).None?
      decreases k
    {
      if k > d {
        ChainStops(owner, d, k - 1);
      }
    }

    lemma ChainEnds(owner: string, name: string, prototype: string, depth: nat)
      requires Acyclic(classes) && NoneBelow(owner, name, prototype, depth)
      requires ChainName(classes, owner, depth).None? || depth > |classes|
      ensures forall d: nat :: NoneBelow(owner, name, prototype, d)
    {
      if ChainName(classes, owner, depth).Some? {
        ChainIsShort(classes, owner, depth);
      }
      forall k: nat, below: string | ChainName(classes, owner, k) == Some(below)
        ensures k < depth
      {
        if k >= depth {
          ChainStops(owner, depth, k);
        }
      }
    }
  }
}

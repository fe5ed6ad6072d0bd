/**
  Types of a DEX program: the class definitions, the names they extend, and what
  assignability and superclass chains mean (src/xxemul_dex_runtime.c, lines
  281-358, 547-560 and 677-692).
*/
module DexTypes {
  import opened Wrappers
  import opened Sequences

  const OBJECT := "Ljava/lang/Object;"

  /** A class the program defines. */
  datatype Class = Class(descriptor: string, superclass: Option<string>, interfaces: seq<string>)

  /** What the host says of two types: nonzero for assignable, negative for no answer. */
  type Host = Option<(string, string) -> int>

  datatype Answer = Yes | No | Unknown

  /** The names a class extends, in the order they are visited. */
  function Ancestors(c: Class): seq<string> {
    c.interfaces + if c.superclass.Some? then [c.superclass.value] else []
  }

  /** The first class of a name from index i on. */
  function FindFrom(classes: seq<Class>, name: string, i: nat): (r: Option<nat>)
    requires i <= |classes|
    ensures r.Some? ==> i <= r.value < |classes| && classes[r.value].descriptor == name
    decreases |classes| - i
  {
    if i == |classes| then None
    else if classes[i].descriptor == name then Some(i)
    else FindFrom(classes, name, i + 1)
  }

  /** find_class */
  function Find(classes: seq<Class>, name: string): (r: Option<nat>)
    ensures r.Some? ==> r.value < |classes| && classes[r.value].descriptor == name
  {
    FindFrom(classes, name, 0)
  }

  /** external_relationship: what is known of a type the program does not define. */
  function External(classes: seq<Class>, host: Host, source: string, destination: string): Answer {
    if source == OBJECT then No
    else
      var answer := if host.Some? then host.value(source, destination) else -1;
      if answer > 0 then Yes
      else if answer == 0 || Find(classes, destination).Some? then No
      else Unknown
  }

  // ----------------------------------------------------------------------
  // Reachability
  // ----------------------------------------------------------------------

  predicate Extends(classes: seq<Class>, a: string, b: string) {
    var c := Find(classes, a);
    c.Some? && b in Ancestors(classes[c.value])
  }

  predicate Path(classes: seq<Class>, path: seq<string>) {
    path != [] && forall k | 0 <= k < |path| - 1 :: Extends(classes, path[k], path[k + 1])
  }

  /** b is a, or above a along superclass and interface edges. */
  ghost predicate Reaches(classes: seq<Class>, a: string, b: string) {
    exists path: seq<string> :: Path(classes, path) && path[0] == a && path[|path| - 1] == b
  }

  lemma ReachesItself(classes: seq<Class>, a: string)
    ensures Reaches(classes, a, a)
  {
    var path := [a];
    assert Path(classes, path);
  }

  lemma ReachesFurther(classes: seq<Class>, a: string, b: string, c: string)
    requires Reaches(classes, a, b) && Extends(classes, b, c)
    ensures Reaches(classes, a, c)
  {
    var path: seq<string> :| Path(classes, path) && path[0] == a && path[|path| - 1] == b;
    var longer := path + [c];
    forall k | 0 <= k < |longer| - 1
      ensures Extends(classes, longer[k], longer[k + 1])
    {
      assert longer[k] == path[k] && (k < |path| - 1 ==> longer[k + 1] == path[k + 1]);
    }
    assert Path(classes, longer) && longer[0] == a && longer[|longer| - 1] == c;
  }

  /** A type above a that the program leaves to the platform, with a given answer. */
  ghost predicate Reports(classes: seq<Class>, host: Host, a: string, destination: string, answer: Answer) {
    exists name: string ::
      Reaches(classes, a, name) && Find(classes, name).None? && External(classes, host, name, destination) == answer
  }

  /** A class type is assignable when the destination is reached, is Object, or the host says so of a platform type that is reached. */
  ghost function Assignable(classes: seq<Class>, host: Host, source: string, destination: string): Answer {
    if Reaches(classes, source, destination) || destination == OBJECT || Reports(classes, host, source, destination, Yes) then Yes
    else if Reports(classes, host, source, destination, Unknown) then Unknown
    else No
  }

  /** Without a host, only the graph counts; and platform types cannot inherit what the program defines. */
  lemma WithoutHost(classes: seq<Class>, source: string, destination: string)
    ensures Assignable(classes, None, source, destination) == Yes
            <==> Reaches(classes, source, destination) || destination == OBJECT
    ensures Assignable(classes, None, source, destination) == Unknown
            <==> && !Reaches(classes, source, destination) && destination != OBJECT && Find(classes, destination).None?
                 && exists name: string :: Reaches(classes, source, name) && Find(classes, name).None? && name != OBJECT
  {
    var unknown := Reports(classes, None, source, destination, Unknown);
    assert forall name: string :: External(classes, None, name, destination) != Yes;
    if name: string :| Reaches(classes, source, name) && Find(classes, name).None? && name != OBJECT && Find(classes, destination).None? {
      assert External(classes, None, name, destination) == Unknown;
    }
    if unknown {
      var name: string :| Reaches(classes, source, name) && Find(classes, name).None? && External(classes, None, name, destination) == Unknown;
      assert name != OBJECT;
    }
  }

  // --- Arrays ---------------------------------------------------------------------

  /** The first character; the original's strings end in a zero byte. */
  function Head(s: string): char {
    if s == [] then '\0' else s[0]
  }

  predicate IsArray(s: string) { Head(s) == '[' }
  predicate IsReference(s: string) { Head(s) == '[' || Head(s) == 'L' }

  /** is_assignable: arrays are covariant in reference element types. */
  ghost function IsAssignable(classes: seq<Class>, host: Host, source: string, destination: string): Answer {
    if source == destination then Yes
    else if IsArray(source) && IsArray(destination) then
      if source[1..] == destination[1..] then Yes
      else if !IsReference(source[1..]) || !IsReference(destination[1..]) then No
      else IsAssignable(classes, host, source[1..], destination[1..])
    else if destination == OBJECT then Yes
    else if IsArray(source) then
      if destination == "Ljava/lang/Cloneable;" || destination == "Ljava/io/Serializable;" then Yes else No
    else Assignable(classes, host, source, destination)
  }

  // ----------------------------------------------------------------------
  // Superclass chains
  // ----------------------------------------------------------------------

  /** The class above class i, if the program defines it. */
  function Above(classes: seq<Class>, i: nat): (r: Option<nat>)
    requires i < |classes|
    ensures r.Some? ==> r.value < |classes|
  {
    if classes[i].superclass.Some? then Find(classes, classes[i].superclass.value) else None
  }

  /** k classes above class i. */
  function Climb(classes: seq<Class>, i: nat, k: nat): (r: Option<nat>)
    requires i < |classes|
    ensures r.Some? ==> r.value < |classes|
    decreases k
  {
    if k == 0 then Some(i)
    else
      var below := Climb(classes, i, k - 1);
      if below.None? then None else Above(classes, below.value)
  }

  ghost predicate Acyclic(classes: seq<Class>) {
    forall i, k | 0 <= i < |classes| && k > 0 :: Climb(classes, i, k) != Some(i)
  }

  ghost predicate Finishes(classes: seq<Class>, i: nat)
    requires i < |classes|
  {
    exists k: nat :: Climb(classes, i, k) == None
  }

  lemma {:induction false} ClimbOn(classes: seq<Class>, i: nat, j: nat, k: nat)
    requires i < |classes|
    ensures Climb(classes, i, j + k) == if Climb(classes, i, j).None? then None else Climb(classes, Climb(classes, i, j).value, k)
    decreases k
  {
    if k > 0 {
      ClimbOn(classes, i, j, k - 1);
    }
  }

  lemma FinishesAbove(classes: seq<Class>, i: nat)
    requires i < |classes|
    requires Above(classes, i).None? || Finishes(classes, Above(classes, i).value)
    ensures Finishes(classes, i)
  {
    assert Climb(classes, i, 0) == Some(i);
    assert Climb(classes, i, 1) == Above(classes, i);
    if Above(classes, i).Some? {
      var k: nat :| Climb(classes, Above(classes, i).value, k) == None;
      ClimbOn(classes, i, 1, k);
      assert Climb(classes, i, 1 + k) == None;
    }
  }

  /** A chain that ends is on no cycle. */
  lemma {:induction false} FinishesMeansNoCycle(classes: seq<Class>, i: nat, m: nat, k: nat)
    requires i < |classes| && Climb(classes, i, m) == None && k > 0
    ensures Climb(classes, i, k) != Some(i)
    decreases m
  {
    if Climb(classes, i, k) == Some(i) {
      if m >= k {
        ClimbOn(classes, i, k, m - k);
        FinishesMeansNoCycle(classes, i, m - k, k);
      } else {
        ClimbOn(classes, i, m, k - m);
      }
    }
  }

  lemma AllFinishMeansAcyclic(classes: seq<Class>)
    requires forall i | 0 <= i < |classes| :: Finishes(classes, i)
    ensures Acyclic(classes)
  {
    forall i, k | 0 <= i < |classes| && k > 0
      ensures Climb(classes, i, k) != Some(i)
    {
      assert Finishes(classes, i);
      var m: nat :| Climb(classes, i, m) == None;
      FinishesMeansNoCycle(classes, i, m, k);
    }
  }

  // --- Names along a chain ---------------------------------------------------------

  /** The name d steps up from an owner; a name the program does not define ends the chain. */
  function ChainName(classes: seq<Class>, owner: string, d: nat): Option<string>
    decreases d
  {
    if d == 0 then Some(owner)
    else
      var below := ChainName(classes, owner, d - 1);
      if below.None? then None
      else
        var c := Find(classes, below.value);
        if c.None? then None else classes[c.value].superclass
  }

  /** Names on the chain before depth d are defined, and their classes follow one another. */
  lemma {:induction false} ChainClimbs(classes: seq<Class>, owner: string, d: nat)
    requires ChainName(classes, owner, d).Some?
    ensures d > 0 ==> Find(classes, owner).Some?
    ensures forall k | 0 <= k < d ::
              ChainName(classes, owner, k).Some? && Find(classes, owner).Some?
              && Climb(classes, Find(classes, owner).value, k) == Find(classes, ChainName(classes, owner, k).value)
              && Climb(classes, Find(classes, owner).value, k).Some?
    decreases d
  {
    if d > 0 {
      ChainClimbs(classes, owner, d - 1);
      var k := d - 1;
      if k > 0 {
        assert Climb(classes, Find(classes, owner).value, k - 1) == Find(classes, ChainName(classes, owner, k - 1).value);
      }
    }
  }

  /** On an acyclic hierarchy a chain has at most one name more than there are classes. */
  lemma ChainIsShort(classes: seq<Class>, owner: string, d: nat)
    requires Acyclic(classes) && ChainName(classes, owner, d).Some?
    ensures d <= |classes|
  {
    ChainClimbs(classes, owner, d);
    if d > 0 {
      var start := Find(classes, owner).value;
      var visited := seq(d, k requires 0 <= k < d => Climb(classes, start, k).value);
      forall j, k | 0 <= j < k < |visited|
        ensures visited[j] != visited[k]
      {
        ClimbOn(classes, start, j, k - j);
        assert Climb(classes, visited[j], k - j) == Climb(classes, start, k);
      }
      Pigeonhole(visited, |classes|);
    }
  }
}

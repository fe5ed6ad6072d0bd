/**
  Virtual dispatch (net_virtual_target, src/xxemul_dotnet_runtime.c, lines
  1003-1028).  The original walks up from the object's class and looks for the
  override; section 10.3 of Partition II of ECMA-335 describes the slot as built
  downward from the class that declares it.  Both are modelled, and proved equal.
*/
module CilDispatch {
  import opened Wrappers
  import opened Sequences

  datatype Method = Method(
    typeName: string,
    name: string,
    signature: string,
    hasThis: bool,
    isVirtual: bool,
    isFinal: bool,
    newSlot: bool,
    owner: nat)

  datatype Class = Class(token: nat, name: string, extendsToken: nat)

  datatype Image = Image(methods: seq<Method>, methodDefCount: nat, types: seq<Class>, typeNames: map<nat, string>)

  predicate Valid(image: Image) {
    image.methodDefCount <= |image.methods|
  }

  // ----------------------------------------------------------------------
  // Lookups
  // ----------------------------------------------------------------------

  /** net_class_named, from index i on */
  function ClassFrom(types: seq<Class>, name: string, i: nat): (r: Option<nat>)
    requires i <= |types|
    ensures r.Some? ==> i <= r.value < |types| && types[r.value].name == name
    decreases |types| - i
  {
    if i == |types| then None else if types[i].name == name then Some(i) else ClassFrom(types, name, i + 1)
  }

  function ClassNamed(image: Image, name: string): (r: Option<nat>)
    ensures r.Some? ==> r.value < |image.types| && image.types[r.value].name == name
  {
    ClassFrom(image.types, name, 0)
  }

  function ParentName(image: Image, name: string): Option<string> {
    match ClassNamed(image, name)
    case None => None
    case Some(i) =>
      var token := image.types[i].extendsToken;
      if token != 0 && token in image.typeNames then Some(image.typeNames[token]) else None
  }

  /** The class called name is the one that declares the requested method. */
  predicate Declares(image: Image, requested: Method, name: string) {
    var c := ClassNamed(image, name);
    c.Some? && image.types[c.value].token == requested.owner
  }

  predicate Fits(m: Method, requested: Method, name: string) {
    m.hasThis && m.isVirtual && m.typeName == name && m.name == requested.name && m.signature == requested.signature
  }

  function CandidateFrom(image: Image, requested: Method, name: string, i: nat): (r: Option<nat>)
    requires Valid(image) && i <= image.methodDefCount
    ensures r.Some? ==> i <= r.value < image.methodDefCount && Fits(image.methods[r.value], requested, name)
    decreases image.methodDefCount - i
  {
    if i == image.methodDefCount then None
    else if Fits(image.methods[i], requested, name) then Some(i)
    else CandidateFrom(image, requested, name, i + 1)
  }

  function Candidate(image: Image, requested: Method, name: string): (r: Option<nat>)
    requires Valid(image)
    ensures r.Some? ==> r.value < image.methodDefCount && Fits(image.methods[r.value], requested, name)
  {
    CandidateFrom(image, requested, name, 0)
  }

  /** The method of class `name` opens a slot of its own. */
  predicate OpensSlot(m: Method, requested: Method) {
    m.owner != requested.owner && m.newSlot
  }

  // ----------------------------------------------------------------------
  // Class chains
  // ----------------------------------------------------------------------

  /** A step up from a class that does not declare the method. */
  predicate Link(image: Image, requested: Method, child: string, parent: string) {
    !Declares(image, requested, child) && ParentName(image, child) == Some(parent)
  }

  /** A chain of ancestors that stays below the declaring class. */
  predicate Chain(image: Image, requested: Method, names: seq<string>) {
    names != [] && forall k | 0 <= k < |names| - 1 :: Link(image, requested, names[k], names[k + 1])
  }

  /** The chain from an object's class to the declaring class. */
  predicate Path(image: Image, requested: Method, start: string, names: seq<string>) {
    Chain(image, requested, names) && names[0] == start && Declares(image, requested, names[|names| - 1])
  }

  /** Chains from one class agree, and a path ends where it declares. */
  lemma {:induction false} ChainsAgree(image: Image, requested: Method, a: seq<string>, b: seq<string>, k: nat)
    requires Chain(image, requested, a) && Chain(image, requested, b) && a[0] == b[0]
    requires k < |a| && k < |b|
    ensures a[k] == b[k]
  {
    if k > 0 {
      ChainsAgree(image, requested, a, b, k - 1);
      assert Link(image, requested, a[k - 1], a[k - 1 + 1]) && Link(image, requested, b[k - 1], b[k - 1 + 1]);
    }
  }

  lemma ChainWithinPath(image: Image, requested: Method, start: string, chain: seq<string>, path: seq<string>)
    requires Chain(image, requested, chain) && chain[0] == start && Path(image, requested, start, path)
    ensures |chain| <= |path|
    ensures |chain| < |path| ==> Link(image, requested, chain[|chain| - 1], path[|chain|])
    ensures |chain| == |path| ==> chain == path
  {
    if |chain| > |path| {
      var last := |path| - 1;
      assert Link(image, requested, chain[last], chain[last + 1]);
      ChainsAgree(image, requested, chain, path, last);
    } else {
      forall k | 0 <= k < |chain|
        ensures chain[k] == path[k]
      {
        ChainsAgree(image, requested, chain, path, k);
      }
      if |chain| < |path| {
        var n := |chain| - 1;
        assert Link(image, requested, path[n], path[n + 1]);
      }
    }
  }

  /** A repeated name would repeat for ever. */
  lemma {:induction false} RepeatsRepeat(image: Image, requested: Method, names: seq<string>, j: nat, k: nat, d: nat)
    requires Chain(image, requested, names) && j < k && k + d < |names| && names[j] == names[k]
    ensures names[j + d] == names[k + d]
  {
    if d > 0 {
      RepeatsRepeat(image, requested, names, j, k, d - 1);
      assert Link(image, requested, names[j + d - 1], names[j + d - 1 + 1]);
      assert Link(image, requested, names[k + d - 1], names[k + d - 1 + 1]);
    }
  }

  /** A path has at most type_count classes, so the walk's bound never cuts it short. */
  lemma PathIsShort(image: Image, requested: Method, start: string, names: seq<string>)
    requires Path(image, requested, start, names)
    ensures |names| <= |image.types|
  {
    forall k | 0 <= k < |names|
      ensures ClassNamed(image, names[k]).Some?
    {
      if k < |names| - 1 {
        assert Link(image, requested, names[k], names[k + 1]);
      }
    }
    var indices := seq(|names|, k requires 0 <= k < |names| => ClassNamed(image, names[k]).value);
    forall j, k | 0 <= j < k < |names|
      ensures indices[j] != indices[k]
    {
      if names[j] == names[k] {
        var d := |names| - 1 - k;
        assert Link(image, requested, names[j + d], names[j + d + 1]);
        RepeatsRepeat(image, requested, names, j, k, d);
      }
    }
    Pigeonhole(indices, |image.types|);
  }

  // ----------------------------------------------------------------------
  // The slot, built downward
  // ----------------------------------------------------------------------

  datatype Slot = Slot(selected: nat, open: bool)

  /**
    The slot of the requested method in class names[0], from the slot of its
    parent.  The declaring class opens it; an override replaces its method
    while it is open; a newslot method closes it to the classes below.
  */
  function BuildSlot(image: Image, target: nat, names: seq<string>): Slot
    requires Valid(image) && target < |image.methods| && names != []
  {
    var requested := image.methods[target];
    var own := Candidate(image, requested, names[0]);
    if |names| == 1 then Slot(if own.Some? then own.value else target, true)
    else
      var inherited := BuildSlot(image, target, names[1..]);
      if own.None? then inherited
      else if OpensSlot(image.methods[own.value], requested) then inherited.(open := false)
      else if inherited.open then Slot(own.value, true)
      else inherited
  }

  // ----------------------------------------------------------------------
  // The walk upward
  // ----------------------------------------------------------------------

  /** What the walk has selected after one more class. */
  function Select(image: Image, target: nat, name: string, selected: nat): nat
    requires Valid(image) && target < |image.methods|
  {
    var requested := image.methods[target];
    match Candidate(image, requested, name)
    case None => selected
    case Some(i) =>
      if OpensSlot(image.methods[i], requested) then target
      else if selected == target then i
      else selected
  }

  function Walk(image: Image, target: nat, names: seq<string>, selected: nat): nat
    requires Valid(image) && target < |image.methods|
  {
    if names == [] then selected else Walk(image, target, names[1..], Select(image, target, names[0], selected))
  }

  lemma {:induction false} WalkAppend(image: Image, target: nat, names: seq<string>, name: string, selected: nat)
    requires Valid(image) && target < |image.methods|
    ensures Walk(image, target, names + [name], selected) == Select(image, target, name, Walk(image, target, names, selected))
  {
    if names == [] {
      assert names + [name] == [name];
    } else {
      assert (names + [name])[1..] == names[1..] + [name];
      WalkAppend(image, target, names[1..], name, Select(image, target, names[0], selected));
    }
  }

  /** The declaring class does not open another slot, and no class below it holds the target itself. */
  predicate Consistent(image: Image, target: nat, names: seq<string>)
    requires Valid(image) && target < |image.methods| && names != []
  {
    var requested := image.methods[target];
    && (forall k | 0 <= k < |names| - 1 :: Candidate(image, requested, names[k]) != Some(target))
    && var own := Candidate(image, requested, names[|names| - 1]);
       (own.Some? ==> image.methods[own.value].owner == requested.owner)
  }

  lemma {:induction false} WalkBuildsSlot(image: Image, target: nat, names: seq<string>, selected: nat)
    requires Valid(image) && target < |image.methods| && names != [] && Consistent(image, target, names)
    ensures var slot := BuildSlot(image, target, names);
            Walk(image, target, names, selected) == if selected == target || !slot.open then slot.selected else selected
  {
    var next := Select(image, target, names[0], selected);
    if |names| == 1 {
      assert Walk(image, target, names[1..], next) == next;
    } else {
      var rest := names[1..];
      assert forall k | 0 <= k < |rest| :: rest[k] == names[k + 1];
      WalkBuildsSlot(image, target, rest, next);
    }
  }

  /** Metadata names the declaring class of the target consistently. */
  lemma PathIsConsistent(image: Image, target: nat, start: string, names: seq<string>)
    requires Valid(image) && target < |image.methods|
    requires Path(image, image.methods[target], start, names)
    requires OwnersNamed(image) && image.methods[target].typeName == names[|names| - 1]
    ensures Consistent(image, target, names)
  {
    var requested := image.methods[target];
    forall k | 0 <= k < |names| - 1
      ensures Candidate(image, requested, names[k]) != Some(target)
    {
      assert Link(image, requested, names[k], names[k + 1]);
    }
  }

  /** A method definition's owner is the class that carries its type name. */
  predicate OwnersNamed(image: Image)
    requires Valid(image)
  {
    forall i | 0 <= i < image.methodDefCount ::
      var c := ClassNamed(image, image.methods[i].typeName);
      c.Some? ==> image.types[c.value].token == image.methods[i].owner
  }

  // ----------------------------------------------------------------------
  // net_virtual_target
  // ----------------------------------------------------------------------

  method FindClass(image: Image, name: string) returns (r: Option<nat>)
    ensures r == ClassNamed(image, name)
  {
    var i := 0;
    while i < |image.types|
      invariant i <= |image.types| && ClassNamed(image, name) == ClassFrom(image.types, name, i)
    {
      if image.types[i].name == name {
        return Some(i);
      }
      i := i + 1;
    }
    return None;
  }

  method FindCandidate(image: Image, requested: Method, name: string) returns (r: Option<nat>)
    requires Valid(image)
    ensures r == Candidate(image, requested, name)
  {
    var i := 0;
    while i < image.methodDefCount
      invariant i <= image.methodDefCount && Candidate(image, requested, name) == CandidateFrom(image, requested, name, i)
    {
      var candidate := image.methods[i];
      if candidate.hasThis && candidate.isVirtual && candidate.typeName == name &&
         candidate.name == requested.name && candidate.signature == requested.signature
      {
        return Some(i);
      }
      i := i + 1;
    }
    return None;
  }

  method VirtualTarget(image: Image, target: nat, typeName: string) returns (selected: nat)
    requires Valid(image) && target < |image.methods|
    ensures !image.methods[target].isVirtual || image.methods[target].isFinal ==> selected == target
    ensures image.methods[target].isVirtual && !image.methods[target].isFinal ==>
              forall names | Path(image, image.methods[target], typeName, names) :: selected == Walk(image, target, names, target)
    ensures (forall names :: !Path(image, image.methods[target], typeName, names)) ==> selected == target
  {
    var requested := image.methods[target];
    if !requested.isVirtual || requested.isFinal {
      return target;
    }
    selected := target;
    var name := typeName;
    ghost var walked: seq<string> := [];
    for depth := 0 to |image.types| + 1
      invariant |walked| == depth
      invariant Chain(image, requested, walked + [name]) && (walked + [name])[0] == typeName
      invariant selected == Walk(image, target, walked, target)
    {
      var class_ := FindClass(image, name);
      var candidate := FindCandidate(image, requested, name);
      if candidate.Some? {
        if image.methods[candidate.value].owner != requested.owner && image.methods[candidate.value].newSlot {
          selected := target;
        } else if selected == target {
          selected := candidate.value;
        }
      }
      WalkAppend(image, target, walked, name, target);
      ghost var chain := walked + [name];
      forall path | Path(image, requested, typeName, path)
        ensures |chain| <= |path| && (|chain| == |path| ==> chain == path)
        ensures |chain| < |path| ==> Link(image, requested, name, path[|chain|])
      {
        ChainWithinPath(image, requested, typeName, chain, path);
      }
      if class_.Some? && image.types[class_.value].token == requested.owner {
        assert Path(image, requested, typeName, chain);
        return selected;
      }
      if class_.None? || image.types[class_.value].extendsToken == 0 || image.types[class_.value].extendsToken !in image.typeNames {
        return target;
      }
      name := image.typeNames[image.types[class_.value].extendsToken];
      walked := chain;
      forall k | 0 <= k < |walked|
        ensures Link(image, requested, (walked + [name])[k], (walked + [name])[k + 1])
      {
        if k < |walked| - 1 {
          assert Link(image, requested, chain[k], chain[k + 1]);
        }
      }
    }
    forall path | Path(image, requested, typeName, path)
      ensures false
    {
      ChainWithinPath(image, requested, typeName, walked + [name], path);
      PathIsShort(image, requested, typeName, path);
    }
    return target;
  }

  /**
    Dispatch selects the method of the slot: for every class chain, however
    long, that reaches the declaring class of a virtual method.
  */
  lemma DispatchRefinesVtable(image: Image, target: nat, typeName: string, names: seq<string>)
    requires Valid(image) && OwnersNamed(image) && target < |image.methods|
    requires Path(image, image.methods[target], typeName, names)
    requires image.methods[target].typeName == names[|names| - 1]
    ensures Walk(image, target, names, target) == BuildSlot(image, target, names).selected
    ensures |names| <= |image.types|
  {
    PathIsConsistent(image, target, typeName, names);
    WalkBuildsSlot(image, target, names, target);
    PathIsShort(image, image.methods[target], typeName, names);
  }
}

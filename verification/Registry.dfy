/** The namespace-partitioned class registry: `addClass`, `findClass` and prototype-chain lookup. */
module Registry {
  import opened Bytes
  import opened Values
  import opened Chains

  type Namespaces = map<uint32, Collection>

  function Space(spaces: Namespaces, ns: uint32): Collection {
    if ns in spaces then spaces[ns] else map[]
  }

  // ---- What the chain says about a key ----

  /** The first of `layers` that declares `k` decides. */
  function Nearest<T>(layers: seq<map<uint32, T>>, k: uint32): Option<T> {
    if layers == [] then None
    else if k in layers[0] then Some(layers[0][k])
    else Nearest(layers[1..], k)
  }

  function FieldLayers(col: Collection, names: seq<uint32>): (layers: seq<Fields>)
    requires forall x | x in names :: x in col
    ensures |layers| == |names|
  {
    seq(|names|, i requires 0 <= i < |names| => col[names[i]].fields)
  }

  function MethodLayers(col: Collection, names: seq<uint32>): (layers: seq<map<uint32, MethodId>>)
    requires forall x | x in names :: x in col
    ensures |layers| == |names|
  {
    seq(|names|, i requires 0 <= i < |names| => col[names[i]].methods)
  }

  function InheritedField(spaces: Namespaces, ns: uint32, klass: uint32, k: uint32): Option<Field> {
    var col := Space(spaces, ns);
    Nearest(FieldLayers(col, Chain(col, klass)), k)
  }

  function InheritedMethod(spaces: Namespaces, ns: uint32, klass: uint32, k: uint32): Option<MethodId> {
    var col := Space(spaces, ns);
    Nearest(MethodLayers(col, Chain(col, klass)), k)
  }

  // ---- Registration ----

  /** One call of `addClass`. */
  datatype Call = Call(ns: uint32, klass: Proto, parent: uint32)

  /** The outcome of `addClass`: true, false or an exception. */
  datatype Outcome = Added | Rejected | Threw

  predicate TakesKey(m: Fields, k: uint32) {
    k in m ==> m[k].Empty? || m[k].Key?
  }

  function NameOf(p: Proto): uint32 {
    if CLASS in p.fields && p.fields[CLASS].Key? then p.fields[CLASS].key else 0
  }

  /** The prototype after its parent and namespace were written into it, unless a write throws. */
  function Prepare(c: Call): (p: Option<Proto>)
    ensures p.Some? ==> Parent(p.value) == c.parent
  {
    var m := c.klass.fields;
    if TakesKey(m, CLASS) && TakesKey(m, PARENT) && TakesKey(m, NAMESPACE) then
      Some(c.klass.(fields := m[CLASS := Key(NameOf(c.klass))][PARENT := Key(c.parent)][NAMESPACE := Key(c.ns)]))
    else None
  }

  /** The name is free and the ancestry of `parent` does not lead to it. */
  predicate Accepts(col: Collection, name: uint32, parent: uint32) {
    name !in col && Last(col, parent) != name
  }

  function Verdict(spaces: Namespaces, c: Call): Outcome {
    match Prepare(c)
    case None => Threw
    case Some(p) => if Accepts(Space(spaces, c.ns), NameOf(p), c.parent) then Added else Rejected
  }

  /** The registry after one call; the namespace itself comes into being even if the class is refused. */
  function Register(spaces: Namespaces, c: Call): Namespaces {
    var col := Space(spaces, c.ns);
    match Prepare(c)
    case None => spaces
    case Some(p) =>
      if Accepts(col, NameOf(p), c.parent) then spaces[c.ns := col[NameOf(p) := p]] else spaces[c.ns := col]
  }

  function Run(calls: seq<Call>): Namespaces {
    if calls == [] then map[] else Register(Run(calls[..|calls| - 1]), calls[|calls| - 1])
  }

  /** Every prototype carries its name, its namespace and a parent. */
  predicate Labelled(col: Collection, ns: uint32) {
    forall k | k in col ::
      && CLASS in col[k].fields && col[k].fields[CLASS] == Key(k)
      && PARENT in col[k].fields && col[k].fields[PARENT].Key?
      && NAMESPACE in col[k].fields && col[k].fields[NAMESPACE] == Key(ns)
  }

  predicate Sound(spaces: Namespaces) {
    forall ns | ns in spaces :: Acyclic(spaces[ns]) && Labelled(spaces[ns], ns)
  }

  lemma SpaceIsSound(spaces: Namespaces, ns: uint32)
    requires Sound(spaces)
    ensures Acyclic(Space(spaces, ns)) && Labelled(Space(spaces, ns), ns)
  {
  }

  lemma AcceptedKeepsSpaceSound(col: Collection, c: Call)
    requires Acyclic(col) && Labelled(col, c.ns) && Prepare(c).Some?
    requires Accepts(col, NameOf(Prepare(c).value), c.parent)
    ensures var p := Prepare(c).value;
            Acyclic(col[NameOf(p) := p]) && Labelled(col[NameOf(p) := p], c.ns)
  {
    hide Acyclic, Last, Chain;
    var p := Prepare(c).value;
    assert Labelled(col[NameOf(p) := p], c.ns);
    assert Acyclic(col[NameOf(p) := p]) by {
      hide Prepare, NameOf, Labelled;
      ExtensionIsAcyclic(col, col[NameOf(p) := p], NameOf(p), c.parent);
    }
  }

  lemma RegisterKeepsSound(spaces: Namespaces, c: Call)
    requires Sound(spaces)
    ensures Sound(Register(spaces, c))
  {
    hide Acyclic, Labelled, Accepts, Prepare, NameOf;
    SpaceIsSound(spaces, c.ns);
    if Verdict(spaces, c) == Added {
      AcceptedKeepsSpaceSound(Space(spaces, c.ns), c);
    }
  }

  /**
    * Whatever classes are registered, in whatever order and with parents that may come later or
    * never, every namespace stays free of inheritance cycles.
    */
  lemma {:induction false} EveryRunIsSound(calls: seq<Call>)
    ensures Sound(Run(calls))
    ensures forall ns | ns in Run(calls) :: NoCycle(Run(calls)[ns])
  {
    hide NoCycle, Acyclic;
    if calls != [] {
      EveryRunIsSound(calls[..|calls| - 1]);
      RegisterKeepsSound(Run(calls[..|calls| - 1]), calls[|calls| - 1]);
    }
    forall ns | ns in Run(calls)
      ensures NoCycle(Run(calls)[ns])
    {
      AcyclicIffNoCycle(Run(calls)[ns]);
    }
  }

  /** `addClass` refuses a class exactly when its name is taken or stands above its own parent. */
  lemma AcceptsIff(col: Collection, name: uint32, parent: uint32)
    requires Acyclic(col)
    ensures Accepts(col, name, parent) <==>
            name !in col && forall n: nat :: Above(col, parent, n) != Some(name)
  {
    var n := |col|;
    if name !in col {
      forall i: nat
        ensures Above(col, parent, i) == Some(name) <==> i == |Chain(col, parent)| && Last(col, parent) == name
      {
        AboveIsChain(col, parent, n, i);
      }
      assert Above(col, parent, |Chain(col, parent)|) == Some(name) <==> Last(col, parent) == name;
    }
  }

  class ClassRegistry {
    var spaces: Namespaces

    constructor ()
      ensures spaces == map[] && Sound(spaces)
    {
      spaces := map[];
    }

    /** The climb from `parent` in `addClass`; it ends at `name` or at an unregistered name. */
    static method Climb(col: Collection, parent: uint32, name: uint32) returns (ancestor: uint32)
      requires Acyclic(col)
      ensures name !in col ==> ancestor == Last(col, parent)
    {
      hide Parent;
      ancestor := parent;
      ghost var n: nat := |col|;
      while ancestor in col && ancestor != name
        invariant Ends(col, ancestor, n)
        invariant LastWithin(col, ancestor, n) == Last(col, parent)
        decreases n
      {
        ancestor, n := Parent(col[ancestor]), n - 1;
      }
    }

    /** `addClass`: write parent and namespace, walk up from `parent`, insert unless refused. */
    method AddClass(ns: uint32, klass: Proto, parent: uint32) returns (r: Outcome)
      requires Sound(spaces)
      modifies this
      ensures spaces == Register(old(spaces), Call(ns, klass, parent)) && Sound(spaces)
      ensures r == Verdict(old(spaces), Call(ns, klass, parent))
      ensures r != Added ==> forall n :: Space(spaces, n) == Space(old(spaces), n)
    {
      hide Acyclic, Labelled, Last, NameOf, Prepare;
      RegisterKeepsSound(spaces, Call(ns, klass, parent));
      var prepared := Prepare(Call(ns, klass, parent));
      if prepared.None? {
        return Threw;
      }
      var name := NameOf(prepared.value);
      var col := Space(spaces, ns);
      SpaceIsSound(spaces, ns);
      spaces := spaces[ns := col];
      var ancestor := Climb(col, parent, name);
      if ancestor == name || name in col {
        return Rejected;
      }
      spaces := spaces[ns := col[name := prepared.value]];
      return Added;
    }

    /** `findClass`, for an instance of class `klass` in namespace `ns`. */
    method FindClass(ns: uint32, klass: uint32, name: uint32) returns (r: Option<Proto>)
      requires Sound(spaces)
      ensures r.Some? <==> name in Chain(Space(spaces, ns), klass)
      ensures r.Some? ==> r.value == spaces[ns][name]
    {
      if ns !in spaces {
        return None;
      }
      var col := spaces[ns];
      SpaceIsSound(spaces, ns);
      var k := klass;
      ghost var n: nat := |col|;
      while k in col && k != name
        invariant Ends(col, k, n)
        invariant name in ChainWithin(col, k, n) <==> name in Chain(col, klass)
        decreases n
      {
        assert ChainWithin(col, k, n) == [k] + ChainWithin(col, Parent(col[k]), n - 1);
        k, n := Parent(col[k]), n - 1;
      }
      return if k in col then Some(col[k]) else None;
    }
  }

  // ---- Ancestry ----

  /** What `findClass` decides is: `a` is registered and some number of parent links above `k`. */
  lemma AncestryIff(col: Collection, k: uint32, a: uint32)
    requires Acyclic(col)
    ensures a in Chain(col, k) <==> a in col && exists n: nat :: Above(col, k, n) == Some(a)
  {
    hide Parent, ChainWithin;
    var s := Chain(col, k);
    forall n: nat
      ensures Above(col, k, n) == if n < |s| then Some(s[n]) else if n == |s| then Some(Last(col, k)) else None
    {
      AboveIsChain(col, k, |col|, n);
    }
    MoreSteps(col, k, |col|, |col|);
    if a in s {
      var i :| 0 <= i < |s| && s[i] == a;
      assert Above(col, k, i) == Some(a);
    }
  }

  /** Ancestry is a partial order on the classes of every namespace. */
  lemma AncestryIsPartialOrder(col: Collection, a: uint32, b: uint32, c: uint32)
    requires Acyclic(col)
    ensures a in col ==> a in Chain(col, a)
    ensures a in Chain(col, b) && b in Chain(col, a) ==> a == b
    ensures a in Chain(col, b) && b in Chain(col, c) ==> a in Chain(col, c)
  {
    hide Parent, ChainWithin;
    AncestryIff(col, a, a);
    AncestryIff(col, b, a);
    AncestryIff(col, a, b);
    AncestryIff(col, c, b);
    AncestryIff(col, c, a);
    if a in col {
      assert Above(col, a, 0) == Some(a);
    }
    AcyclicIffNoCycle(col);
    if a in Chain(col, b) && b in Chain(col, a) {
      var m: nat :| Above(col, b, m) == Some(a);
      var n: nat :| Above(col, a, n) == Some(b);
      AboveAbove(col, b, m, n);
    }
    if a in Chain(col, b) && b in Chain(col, c) {
      var m: nat :| Above(col, c, m) == Some(b);
      var n: nat :| Above(col, b, n) == Some(a);
      AboveAbove(col, c, m, n);
    }
  }

  // ---- Growth ----

  lemma {:induction false} NearestInPrefix<T>(a: seq<map<uint32, T>>, b: seq<map<uint32, T>>, k: uint32)
    ensures Nearest(a + b, k) == if Nearest(a, k).Some? then Nearest(a, k) else Nearest(b, k)
  {
    if a == [] {
      assert a + b == b;
    } else {
      assert (a + b)[1..] == a[1..] + b;
      NearestInPrefix(a[1..], b, k);
    }
  }

  /** After a successful call every chain is the old chain, possibly continued. */
  lemma ChainsOnlyGrow(spaces: Namespaces, c: Call, ns: uint32, klass: uint32)
    requires Sound(spaces)
    ensures Chain(Space(spaces, ns), klass) <= Chain(Space(Register(spaces, c), ns), klass)
    ensures ns != c.ns ==> Space(Register(spaces, c), ns) == Space(spaces, ns)
    ensures forall k | k in Space(spaces, ns) ::
              k in Space(Register(spaces, c), ns) && Space(Register(spaces, c), ns)[k] == Space(spaces, ns)[k]
  {
    hide Acyclic, Last, Chain;
    SpaceIsSound(spaces, c.ns);
    if Verdict(spaces, c) == Added && ns == c.ns {
      var col := Space(spaces, ns);
      var p := Prepare(c).value;
      ExtensionIsAcyclic(col, col[NameOf(p) := p], NameOf(p), c.parent);
    }
  }

  /**
    * Registering a class never changes a field or method lookup that already found something, can
    * only turn a miss into a hit, and does not touch the other namespaces.
    */
  lemma GrowthIsMonotone(spaces: Namespaces, c: Call, ns: uint32, klass: uint32, k: uint32)
    requires Sound(spaces)
    ensures var after := Register(spaces, c);
            && (InheritedField(spaces, ns, klass, k).Some? || ns != c.ns ==>
                  InheritedField(after, ns, klass, k) == InheritedField(spaces, ns, klass, k))
            && (InheritedMethod(spaces, ns, klass, k).Some? || ns != c.ns ==>
                  InheritedMethod(after, ns, klass, k) == InheritedMethod(spaces, ns, klass, k))
  {
    hide Chain, Register, Nearest;
    ChainsOnlyGrow(spaces, c, ns, klass);
    var (col, col') := (Space(spaces, ns), Space(Register(spaces, c), ns));
    var (s, s') := (Chain(col, klass), Chain(col', klass));
    var (f, f') := (FieldLayers(col, s), FieldLayers(col', s'));
    var (g, g') := (MethodLayers(col, s), MethodLayers(col', s'));
    assert f' == f + f'[|s|..];
    assert g' == g + g'[|s|..];
    NearestInPrefix(f, f'[|s|..], k);
    NearestInPrefix(g, g'[|s|..], k);
  }

  // ---- What a registered class declares ----

  /** A registration throws if and only if a reserved field of the prototype holds something but a key. */
  lemma ThrewIff(spaces: Namespaces, c: Call)
    ensures Verdict(spaces, c) == Threw <==>
            exists k | k in c.klass.fields :: (k == CLASS || k == PARENT || k == NAMESPACE) &&
                                              !c.klass.fields[k].Empty? && !c.klass.fields[k].Key?
  {
    var m := c.klass.fields;
    if Verdict(spaces, c) == Threw {
      var k := if !TakesKey(m, CLASS) then CLASS else if !TakesKey(m, PARENT) then PARENT else NAMESPACE;
      assert k in m;
    }
  }

  /** Every call that does not throw brings its namespace into being, even if the class is refused. */
  lemma SpacesAfter(spaces: Namespaces, c: Call)
    ensures Register(spaces, c).Keys ==
            if Verdict(spaces, c) == Threw then spaces.Keys else spaces.Keys + {c.ns}
  {
  }

  /** The name a prototype is registered under: the key in its class field, else 0. */
  function Title(p: Proto): uint32 {
    match (if CLASS in p.fields then p.fields[CLASS] else Empty) case Key(k) => k case _ => 0
  }

  lemma ChainOfNew(spaces: Namespaces, c: Call)
    requires Sound(spaces) && Verdict(spaces, c) == Added
    ensures var (col, col', name) := (Space(spaces, c.ns), Space(Register(spaces, c), c.ns), Title(c.klass));
            && Chain(col', name) == [name] + Chain(col, c.parent)
            && col' == col[name := Prepare(c).value] && name !in col
  {
    hide Acyclic, Labelled;
    var (col, p) := (Space(spaces, c.ns), Prepare(c).value);
    var name := NameOf(p);
    assert name == Title(c.klass);
    SpaceIsSound(spaces, c.ns);
    assert Chain(col, name) == [] && Last(col, name) == name;
    ExtensionIsAcyclic(col, col[name := p], name, c.parent);
    assert [] + ([name] + Chain(col, c.parent)) == [name] + Chain(col, c.parent);
  }

  lemma NearestOfNew<T>(first: map<uint32, T>, rest: seq<map<uint32, T>>, k: uint32)
    ensures Nearest([first] + rest, k) == if k in first then Some(first[k]) else Nearest(rest, k)
  {
    assert ([first] + rest)[1..] == rest;
  }

  /**
    * An instance of a class just registered finds every method and every field the prototype declares,
    * its name, parent and namespace in the reserved fields, and for anything else what its parent's
    * chain said before.
    */
  lemma NewClassDeclares(spaces: Namespaces, c: Call, k: uint32)
    requires Sound(spaces) && Verdict(spaces, c) == Added
    ensures var (after, name) := (Register(spaces, c), Title(c.klass));
            && InheritedMethod(after, c.ns, name, k) ==
               (if k in c.klass.methods then Some(c.klass.methods[k]) else InheritedMethod(spaces, c.ns, c.parent, k))
            && InheritedField(after, c.ns, name, k) ==
               (if k == CLASS then Some(Key(name))
                else if k == PARENT then Some(Key(c.parent))
                else if k == NAMESPACE then Some(Key(c.ns))
                else if k in c.klass.fields then Some(c.klass.fields[k])
                else InheritedField(spaces, c.ns, c.parent, k))
  {
    hide Chain, Register, Sound, Nearest;
    ChainOfNew(spaces, c);
    var (col, col', name) := (Space(spaces, c.ns), Space(Register(spaces, c), c.ns), Title(c.klass));
    var (s, p) := (Chain(col, c.parent), Prepare(c).value);
    assert FieldLayers(col', [name] + s) == [p.fields] + FieldLayers(col, s);
    assert MethodLayers(col', [name] + s) == [p.methods] + MethodLayers(col, s);
    NearestOfNew(p.fields, FieldLayers(col, s), k);
    NearestOfNew(p.methods, MethodLayers(col, s), k);
  }
}

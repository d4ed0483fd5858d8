/** `findMethod`: own methods first, then the classes, remembering what it finds. */
module Methods {
  import opened Bytes
  import opened Values
  import opened Chains
  import opened Registry
  import opened Lookup
  import opened Caches

  /** Own method, else the nearest ancestor's; the search throws if class or namespace is no key. */
  function ShownMethod(
      spaces: Namespaces, own: Fields, methods: map<uint32, MethodId>, k: uint32): Answer<MethodId>
  {
    if k in methods then Gives(methods[k])
    else
      match Kind(spaces, own)
      case None => Throws
      case Some((ns, klass)) =>
        match InheritedMethod(spaces, ns, klass, k) case Some(m) => Gives(m) case None => Nothing
  }

  lemma NearestMethodStep(col: Collection, at: uint32, n: nat, k: uint32)
    requires Ends(col, at, n)
    ensures Nearest(MethodLayers(col, ChainWithin(col, at, n)), k) ==
            if at !in col then None
            else if k in col[at].methods then Some(col[at].methods[k])
            else Nearest(MethodLayers(col, ChainWithin(col, Parent(col[at]), n - 1)), k)
  {
    hide Parent;
    if at in col {
      var s := ChainWithin(col, at, n);
      var rest := ChainWithin(col, Parent(col[at]), n - 1);
      assert s == [at] + rest;
      assert MethodLayers(col, s)[1..] == MethodLayers(col, rest);
    }
  }

  /** The walk of the slow path. */
  method WalkForMethod(spaces: Namespaces, ns: uint32, klass: uint32, k: uint32) returns (m: Option<MethodId>)
    requires Sound(spaces) && ns in spaces
    ensures m == InheritedMethod(spaces, ns, klass, k)
  {
    hide Acyclic, Labelled, Parent;
    var col := spaces[ns];
    var at := klass;
    ghost var n: nat := |col|;
    SpaceEnds(spaces, ns, klass);
    while at in col && k !in col[at].methods
      invariant Ends(col, at, n)
      invariant Nearest(MethodLayers(col, ChainWithin(col, at, n)), k) == InheritedMethod(spaces, ns, klass, k)
      decreases n
    {
      NearestMethodStep(col, at, n, k);
      at, n := Parent(col[at]), n - 1;
    }
    NearestMethodStep(col, at, n, k);
    return if at in col then Some(col[at].methods[k]) else None;
  }

  lemma NoMethodsWithoutSpace(spaces: Namespaces, ns: uint32, klass: uint32, k: uint32)
    requires ns !in spaces
    ensures InheritedMethod(spaces, ns, klass, k) == None
  {
  }

  predicate ClassIn(nodes: map<uint32, Node>) {
    CLASS in nodes && nodes[CLASS].value.Key?
  }

  /** `resolveNamespace` and, in a namespace that exists, `as<key_t>(CLASS)`; false if one throws. */
  method Identify(d: Dynamic) returns (ok: bool)
    requires d.Valid()
    modifies d`nodes, d`lookup, d`next
    ensures d.Valid() && Kind(d.spaces, d.View()) == old(Kind(d.spaces, d.View()))
    ensures ok <==> Kind(d.spaces, d.View()).Some?
    ensures ok ==>
              && NAMESPACE in d.nodes && d.nodes[NAMESPACE].value.Key?
              && Kind(d.spaces, d.View()) ==
                 Some((d.nodes[NAMESPACE].value.key, if ClassIn(d.nodes) then d.nodes[CLASS].value.key else 0))
  {
    hide Dynamic.Valid, Inherits;
    ghost var own := d.View();
    var ns := d.ResolveNamespace();
    if ns.None? {
      return false;
    }
    ghost var named := d.View();
    AfreshAlike(d.spaces, own, named);
    assert named[NAMESPACE] == d.nodes[NAMESPACE].value;
    if ns.value in d.spaces {
      var c := d.As(CLASS, Key(0));
      assert d.View()[CLASS] == d.nodes[CLASS].value && d.View()[NAMESPACE] == d.nodes[NAMESPACE].value;
      if c.Raised? {
        return false;
      }
      AfreshAlike(d.spaces, named, d.View());
    } else if CLASS in d.nodes {
      assert named[CLASS] == d.nodes[CLASS].value;
    }
    return true;
  }

  /** An object and the methods stored in it. */
  class Callable {
    const d: Dynamic
    var methods: map<uint32, MethodId>

    constructor (d: Dynamic, methods: map<uint32, MethodId>)
      ensures this.d == d && this.methods == methods
    {
      this.d, this.methods := d, methods;
    }

    /** What a fresh search for `k` finds. */
    ghost function Shown(k: uint32): Answer<MethodId>
      reads this, d
    {
      ShownMethod(d.spaces, d.View(), methods, k)
    }

    /** The outcome is that of a fresh search, for every key before and after. */
    method FindMethod(k: uint32) returns (r: Answer<MethodId>)
      requires d.Valid()
      modifies this`methods, d`nodes, d`lookup, d`next
      ensures d.Valid() && r == old(Shown(k)) && forall l :: Shown(l) == old(Shown(l))
    {
      hide Dynamic.Valid, InheritedMethod, Kind;
      if k in methods {
        return Gives(methods[k]);
      }
      var ok := Identify(d);
      if !ok {
        return Throws;
      }
      var (ns, klass) := (d.nodes[NAMESPACE].value.key, if ClassIn(d.nodes) then d.nodes[CLASS].value.key else 0);
      if ns in d.spaces {
        d.ValidIsSound();
        hide Sound;
        var m := WalkForMethod(d.spaces, ns, klass, k);
        if m.Some? {
          methods := methods[k := m.value];
        }
      } else {
        NoMethodsWithoutSpace(d.spaces, ns, klass, k);
      }
      return if k in methods then Gives(methods[k]) else Nothing;
    }

    /** Every run of searches answers as if nothing had been remembered. */
    method FindMethods(ks: seq<uint32>) returns (rs: seq<Answer<MethodId>>)
      requires d.Valid()
      modifies this`methods, d`nodes, d`lookup, d`next
      ensures |rs| == |ks| && forall i | 0 <= i < |ks| :: rs[i] == old(Shown(ks[i]))
    {
      hide Dynamic.Valid, ShownMethod;
      rs := [];
      for i := 0 to |ks|
        invariant d.Valid() && |rs| == i
        invariant forall l :: Shown(l) == old(Shown(l))
        invariant forall j | 0 <= j < i :: rs[j] == old(Shown(ks[j]))
      {
        var r := FindMethod(ks[i]);
        rs := rs + [r];
      }
    }
  }

  // ---- What is remembered ----

  /**
    * An object that was given the methods `given` and now stores `stored` answers like one that
    * remembers nothing if and only if every remembered method is the one its classes have.
    */
  lemma RememberedIff(
      spaces: Namespaces, own: Fields, given: map<uint32, MethodId>, stored: map<uint32, MethodId>)
    requires forall k | k in given :: k in stored && stored[k] == given[k]
    ensures (forall k :: ShownMethod(spaces, own, stored, k) == ShownMethod(spaces, own, given, k)) <==>
            forall k | k in stored && k !in given :: ShownMethod(spaces, own, given, k) == Gives(stored[k])
  {
    hide InheritedMethod, Kind;
    if k :| k in stored && k !in given && ShownMethod(spaces, own, given, k) != Gives(stored[k]) {
      assert ShownMethod(spaces, own, stored, k) != ShownMethod(spaces, own, given, k);
    }
  }

  /** Registering a class never makes a remembered method out of date. */
  lemma GrowthKeepsRemembered(
      spaces: Namespaces, c: Call, own: Fields, given: map<uint32, MethodId>, k: uint32, m: MethodId)
    requires Sound(spaces) && ShownMethod(spaces, own, given, k) == Gives(m)
    ensures ShownMethod(Register(spaces, c), own, given, k) == Gives(m)
  {
    hide InheritedMethod, Register, Sound;
    if k !in given {
      var (ns, klass) := Kind(spaces, own).value;
      GrowthIsMonotone(spaces, c, ns, klass, k);
      if ns !in spaces {
        NoMethodsWithoutSpace(spaces, ns, klass, k);
      } else {
        SpacesStay(spaces, c, ns);
      }
    }
  }
}

/**
  * `dynamic` as an object in memory: its own fields, the pointer cache over them, and the
  * copy-on-read lookup through the class registry.
  */
module Lookup {
  import opened Bytes
  import opened Values
  import opened Chains
  import opened Registry

  // ---- Lookup without any cache ----

  function KeyIn(own: Fields, k: uint32): uint32 {
    if k in own && own[k].Key? then own[k].key else 0
  }

  /** What the classes of an object with the fields `own` say about `k`. */
  function Inherited(spaces: Namespaces, own: Fields, k: uint32): Option<Field> {
    InheritedField(spaces, KeyIn(own, NAMESPACE), KeyIn(own, CLASS), k)
  }

  /** Own field, else the nearest ancestor's default. */
  function Effective(spaces: Namespaces, own: Fields, k: uint32): Option<Field> {
    if k in own then Some(own[k]) else Inherited(spaces, own, k)
  }

  /** `resolveNamespace` on the fields: their new value and the namespace, or an exception. */
  function Resolve(own: Fields): Option<(Fields, uint32)> {
    if NAMESPACE !in own || own[NAMESPACE].Empty? then Some((own[NAMESPACE := Key(0)], 0))
    else if own[NAMESPACE].Key? then Some((own, own[NAMESPACE].key))
    else None
  }

  /** `as<T>(k)` on the fields, where `blank` is `T{}`. */
  function Ensure(own: Fields, k: uint32, blank: Field): Option<Fields> {
    if k !in own || own[k].Empty? then Some(own[k := blank])
    else if own[k].Tag() == blank.Tag() then Some(own)
    else None
  }

  /** Assignment to a field that holds `f`, by `field::operator=`. */
  function Assigned(f: Field, v: Field): Option<Field> {
    if f.Empty? || f.Tag() == v.Tag() then Some(v) else None
  }

  /**
    * One node of the `std::map`: its identity, which a pointer to it holds, and the field in it.
    * Identities are never reused, so a pointer that outlives its node matches no node at all.
    */
  datatype Node = Node(id: nat, value: Field)

  predicate Distinct(nodes: map<uint32, Node>) {
    forall j, k | j in nodes && k in nodes && j != k :: nodes[j].id != nodes[k].id
  }

  function ValuesIn(nodes: map<uint32, Node>): (own: Fields)
    ensures own.Keys == nodes.Keys
  {
    map k | k in nodes :: nodes[k].value
  }

  lemma ValuesWith(nodes: map<uint32, Node>, k: uint32, node: Node)
    ensures ValuesIn(nodes[k := node]) == ValuesIn(nodes)[k := node.value]
  {
  }

  lemma DistinctWithNew(nodes: map<uint32, Node>, next: nat, k: uint32, f: Field)
    requires Distinct(nodes) && forall k | k in nodes :: nodes[k].id < next
    ensures Distinct(nodes[k := Node(next, f)])
  {
  }

  lemma DistinctWithValue(nodes: map<uint32, Node>, k: uint32, f: Field)
    requires Distinct(nodes) && k in nodes
    ensures Distinct(nodes[k := nodes[k].(value := f)])
  {
  }

  /** The outcome of a lookup: a pointer to a node, a null pointer, or an exception. */
  datatype Found = Hit(id: nat) | Miss | Raised

  /** The fields after the slow path of `findField`, and whether it found `k`. */
  datatype Slow = Slow(fields: Fields, hit: bool) | SlowThrew(fields: Fields)

  function SlowPath(spaces: Namespaces, own: Fields, k: uint32): (r: Slow)
    ensures r.Slow? ==> r.hit == (k in r.fields)
  {
    match Resolve(own)
    case None => SlowThrew(own)
    case Some((own1, ns)) =>
      if ns in spaces then InheritPath(spaces, ns, own1, k) else Slow(own1, k in own1)
  }

  /** The part of the slow path that runs once the namespace is known to exist. */
  function InheritPath(spaces: Namespaces, ns: uint32, own: Fields, k: uint32): (r: Slow)
    ensures r.Slow? ==> r.hit == (k in r.fields)
  {
    match Ensure(own, CLASS, Key(0))
    case None => SlowThrew(own)
    case Some(own') =>
      var f := InheritedField(spaces, ns, KeyIn(own', CLASS), k);
      if k !in own' && f.Some? then Slow(own'[k := f.value], true) else Slow(own', k in own')
  }

  class Dynamic {
    /** The registry as it stands; `addClass` may change it at any time. */
    var spaces: Namespaces
    var nodes: map<uint32, Node>
    var lookup: map<uint32, Option<nat>>
    var next: nat

    /**
      * The representation invariant: a cache entry is null and its key has no field, or it points to
      * the very node stored under its key, and to no other, as no two nodes are the same. The
      * namespace is never remembered as missing, which is what lets `resolveNamespace` write it
      * without looking at the cache.
      */
    ghost predicate Valid()
      reads this
    {
      && Sound(spaces)
      && (forall k | k in lookup :: lookup[k] == if k in nodes then Some(nodes[k].id) else None)
      && (forall k | k in nodes :: nodes[k].id < next)
      && Distinct(nodes)
      && (NAMESPACE in lookup ==> NAMESPACE in nodes)
    }

    /** The object's own fields. */
    ghost function View(): (own: Fields)
      reads this
      ensures own.Keys == nodes.Keys
    {
      ValuesIn(nodes)
    }

    /** The keys remembered as missing. */
    ghost function Misses(): set<uint32>
      reads this
    {
      lookup.Keys - nodes.Keys
    }

    /** Nodes are neither removed nor replaced, whatever is written into them. */
    twostate predicate KeepsNodes()
      reads this
    {
      forall k | k in old(nodes) :: k in nodes && nodes[k].id == old(nodes)[k].id
    }

    constructor (spaces: Namespaces, klass: uint32)
      requires Sound(spaces)
      ensures Valid() && this.spaces == spaces
      ensures View() == map[CLASS := Key(klass)] && Misses() == {}
    {
      this.spaces, next := spaces, 1;
      nodes, lookup := map[CLASS := Node(0, Key(klass))], map[];
    }

    lemma ValidIsSound()
      requires Valid()
      ensures Sound(spaces) && (NAMESPACE in lookup ==> NAMESPACE in nodes)
    {
      hide Sound;
    }

    /** `addClass` changes the registry behind the object's back. */
    method Registered(c: Call)
      requires Valid()
      modifies this`spaces
      ensures Valid() && spaces == Register(old(spaces), c)
    {
      hide Sound, Register, Distinct;
      RegisterKeepsSound(spaces, c);
      spaces := Register(spaces, c);
    }

    /** Overwrite the field in the node of `k`. */
    method Store(k: uint32, v: Field)
      requires Valid() && k in nodes
      modifies this`nodes
      ensures Valid() && KeepsNodes() && View() == old(View())[k := v] && Misses() == old(Misses())
    {
      hide Sound, Distinct, ValuesIn;
      DistinctWithValue(nodes, k, v);
      ValuesWith(nodes, k, nodes[k].(value := v));
      nodes := nodes[k := nodes[k].(value := v)];
    }

    /** A new node for `k`, with the pointer to it in the cache if `cached`. */
    method Insert(k: uint32, v: Field, cached: bool)
      requires Valid() && k !in nodes && (cached || k !in lookup)
      modifies this`nodes, this`lookup, this`next
      ensures Valid() && KeepsNodes() && View() == old(View())[k := v] && Misses() == old(Misses()) - {k}
      ensures lookup.Keys == if cached then old(lookup).Keys + {k} else old(lookup).Keys
    {
      hide Sound, Distinct, ValuesIn;
      DistinctWithNew(nodes, next, k, v);
      ValuesWith(nodes, k, Node(next, v));
      nodes := nodes[k := Node(next, v)];
      if cached {
        lookup := lookup[k := Some(next)];
      }
      next := next + 1;
    }

    /** `field_lookup_[k]` becomes a pointer to the node of `k`. */
    method Point(k: uint32)
      requires Valid() && k in nodes
      modifies this`lookup
      ensures Valid() && View() == old(View()) && Misses() == old(Misses())
      ensures lookup.Keys == old(lookup).Keys + {k}
    {
      hide Sound, Distinct;
      lookup := lookup[k := Some(nodes[k].id)];
    }

    /** `auto& v = fields_[k]; field_lookup_[k] = &v`: numeric indexing, and the start of `as<T>`. */
    method Slot(k: uint32) returns (id: nat)
      requires Valid()
      modifies this`nodes, this`lookup, this`next
      ensures Valid() && KeepsNodes() && k in nodes && id == nodes[k].id
      ensures View() == if k in old(nodes) then old(View()) else old(View())[k := Empty]
      ensures lookup.Keys == old(lookup).Keys + {k} && Misses() == old(Misses()) - {k}
    {
      hide Valid, View;
      if k in nodes {
        Point(k);
      } else {
        Insert(k, Empty, true);
      }
      id := nodes[k].id;
    }

    /** `as<T>(k)`: never looks at the classes. */
    method As(k: uint32, blank: Field) returns (r: Found)
      requires Valid()
      modifies this`nodes, this`lookup, this`next
      ensures Valid() && KeepsNodes() && k in nodes
      ensures lookup.Keys == old(lookup).Keys + {k} && Misses() == old(Misses()) - {k}
      ensures match Ensure(old(View()), k, blank)
              case Some(own) => View() == own && r == Hit(nodes[k].id)
              case None => View() == old(View()) && r == Raised
    {
      hide Valid;
      var id := Slot(k);
      assert View()[k] == nodes[k].value;
      if nodes[k].value.Empty? {
        Store(k, blank);
      } else if nodes[k].value.Tag() != blank.Tag() {
        return Raised;
      }
      return Hit(id);
    }

    /** `addField`: only if the object has no field `k` of its own. */
    method AddField(k: uint32, v: Field) returns (inserted: bool)
      requires Valid()
      modifies this`nodes, this`lookup, this`next
      ensures Valid() && KeepsNodes() && inserted == (k !in old(nodes))
      ensures View() == if inserted then old(View())[k := v] else old(View())
      ensures Misses() == old(Misses()) - {k}
    {
      hide Valid, View;
      inserted := k !in nodes;
      if inserted {
        Insert(k, v, true);
      }
    }

    method Erase(k: uint32) returns (erased: bool)
      requires Valid()
      modifies this`nodes, this`lookup
      ensures Valid() && erased == (k in old(nodes))
      ensures View() == old(View()) - {k} && Misses() == old(Misses()) - {k}
    {
      hide Sound;
      erased := k in nodes;
      nodes, lookup := nodes - {k}, lookup - {k};
    }

    /** Erase the numeric fields, and forget all pointers. */
    method Clear()
      requires Valid()
      modifies this`nodes, this`lookup
      ensures Valid() && Misses() == {}
      ensures View() == map k | k in old(View()) && k >= NAMED :: old(View())[k]
    {
      hide Sound;
      nodes, lookup := map k | k in nodes && k >= NAMED :: nodes[k], map[];
    }

    method ResolveNamespace() returns (r: Option<uint32>)
      requires Valid()
      modifies this`nodes, this`lookup, this`next
      ensures Valid() && KeepsNodes() && Misses() == old(Misses()) && lookup.Keys == old(lookup).Keys
      ensures match Resolve(old(View()))
              case Some((own, ns)) => View() == own && r == Some(ns)
              case None => View() == old(View()) && r == None
    {
      hide Valid;
      ValidIsSound();
      hide Sound;
      if NAMESPACE in nodes && nodes[NAMESPACE].value.Key? {
        return Some(nodes[NAMESPACE].value.key);
      }
      if NAMESPACE !in nodes {
        Insert(NAMESPACE, Key(0), false);
      } else if nodes[NAMESPACE].value.Empty? {
        Store(NAMESPACE, Key(0));
      } else {
        return None;
      }
      return Some(0);
    }

    /** The walk of the slow path: the first class on the chain that declares `k`. */
    static method FindInherited(spaces: Namespaces, ns: uint32, klass: uint32, k: uint32)
      returns (f: Option<Field>)
      requires Sound(spaces) && ns in spaces
      ensures f == InheritedField(spaces, ns, klass, k)
    {
      hide Acyclic, Labelled, Parent;
      var col := spaces[ns];
      var at := klass;
      ghost var n: nat := |col|;
      SpaceEnds(spaces, ns, klass);
      while at in col && k !in col[at].fields
        invariant Ends(col, at, n)
        invariant Nearest(FieldLayers(col, ChainWithin(col, at, n)), k) == InheritedField(spaces, ns, klass, k)
        decreases n
      {
        NearestStep(col, at, n, k);
        at, n := Parent(col[at]), n - 1;
      }
      NearestStep(col, at, n, k);
      return if at in col then Some(col[at].fields[k]) else None;
    }

    /** Copy the default for `k` into the object, if its classes have one; false if this throws. */
    method Inherit(ns: uint32, k: uint32) returns (ok: bool)
      requires Valid() && k !in lookup && ns in spaces
      modifies this`nodes, this`lookup, this`next
      ensures Valid() && KeepsNodes() && Misses() == old(Misses()) - nodes.Keys
      ensures var slow := InheritPath(spaces, ns, old(View()), k);
              View() == slow.fields && ok == slow.Slow? && (ok ==> slow.hit == (k in nodes))
    {
      hide Valid, InheritedField;
      assert Sound(spaces) by { ValidIsSound(); }
      hide Sound;
      var c := As(CLASS, Key(0));
      if c.Raised? {
        return false;
      }
      assert View()[CLASS] == nodes[CLASS].value;
      var f := FindInherited(spaces, ns, nodes[CLASS].value.key, k);
      if f.Some? && k !in nodes {
        Insert(k, f.value, false);
      }
      return true;
    }

    /** The slow path of `findField`: false if it throws. */
    method Materialise(k: uint32) returns (ok: bool)
      requires Valid() && k !in lookup && k !in nodes
      modifies this`nodes, this`lookup, this`next
      ensures Valid() && KeepsNodes() && Misses() == old(Misses()) - nodes.Keys
      ensures var slow := SlowPath(spaces, old(View()), k);
              View() == slow.fields && ok == slow.Slow? && (ok ==> slow.hit == (k in nodes))
      ensures ok ==> NAMESPACE in nodes
    {
      hide Valid, View, InheritPath;
      var ns := ResolveNamespace();
      if ns.None? {
        return false;
      }
      assert NAMESPACE in nodes;
      ok := true;
      if ns.value in spaces {
        ok := Inherit(ns.value, k);
      }
    }

    /** `findField`: the pointer cache, then the own fields, then the classes. */
    method FindField(k: uint32) returns (r: Found)
      requires Valid()
      modifies this`nodes, this`lookup, this`next
      ensures Valid() && KeepsNodes()
      ensures r.Hit? ==> k in nodes && r.id == nodes[k].id
      ensures r.Miss? ==> k !in nodes
      ensures k in old(lookup) || k in old(nodes) ==>
                View() == old(View()) && (r.Hit? <==> k in nodes) && !r.Raised?
      ensures k !in old(lookup) && k !in old(nodes) ==>
                var slow := SlowPath(spaces, old(View()), k);
                View() == slow.fields && (if slow.Slow? then r.Hit? == slow.hit && !r.Raised? else r.Raised?)
      ensures Misses() == (old(Misses()) + if r.Miss? then {k} else {}) - nodes.Keys
    {
      hide Sound, SlowPath, Distinct;
      if k in lookup {
        return if lookup[k] == None then Miss else Hit(lookup[k].value);
      }
      if k !in nodes {
        var ok := Materialise(k);
        if !ok {
          return Raised;
        }
      }
      if k in nodes {
        Point(k);
        return Hit(nodes[k].id);
      }
      ghost var misses := Misses();
      lookup := lookup[k := None];
      assert Misses() == misses + {k};
      return Miss;
    }

    /** `operator[](key_t)`: as `findField`, but a missing field is created empty. */
    method Index(k: uint32) returns (r: Found)
      requires Valid()
      modifies this`nodes, this`lookup, this`next
      ensures Valid() && KeepsNodes() && !r.Miss?
      ensures r.Hit? ==> k in nodes && r.id == nodes[k].id
      ensures k in old(nodes) ==> r.Hit? && View() == old(View())
      ensures k in old(Misses()) ==> r.Hit? && View() == old(View())[k := Empty]
      ensures k !in old(Misses()) && k !in old(nodes) ==>
                var slow := SlowPath(spaces, old(View()), k);
                && r.Hit? == slow.Slow?
                && View() == if slow.Slow? && !slow.hit then slow.fields[k := Empty] else slow.fields
      ensures Misses() == old(Misses()) - nodes.Keys
    {
      hide Valid, View, SlowPath;
      r := FindField(k);
      if r.Miss? {
        var id := Slot(k);
        return Hit(id);
      }
    }

    /** `obj[k] = v`, with the type check of `field::operator=`; the fields on failure are those looked up. */
    method Assign(k: uint32, v: Field) returns (ok: bool)
      requires Valid()
      modifies this`nodes, this`lookup, this`next
      ensures Valid() && KeepsNodes() && Misses() == old(Misses()) - nodes.Keys
      ensures k in old(nodes) ==>
                var f := Assigned(old(View())[k], v);
                ok == f.Some? && View() == if ok then old(View())[k := v] else old(View())
      ensures k in old(Misses()) ==> ok && View() == old(View())[k := v]
      ensures k !in old(Misses()) && k !in old(nodes) ==>
                var slow := SlowPath(spaces, old(View()), k);
                && (ok ==> slow.Slow? && View() == slow.fields[k := v])
                && (!ok ==> View() == slow.fields)
                && (slow.Slow? ==> ok == (slow.hit ==> k in slow.fields && Assigned(slow.fields[k], v).Some?))
    {
      hide Valid, SlowPath;
      var r := Index(k);
      if r.Raised? {
        return false;
      }
      assert View()[k] == nodes[k].value;
      ok := Assigned(nodes[k].value, v).Some?;
      if ok {
        Store(k, v);
      }
    }
  }

  lemma SpaceEnds(spaces: Namespaces, ns: uint32, klass: uint32)
    requires Sound(spaces) && ns in spaces
    ensures Ends(spaces[ns], klass, |spaces[ns]|)
  {
  }

  lemma NearestStep(col: Collection, at: uint32, n: nat, k: uint32)
    requires Ends(col, at, n)
    ensures Nearest(FieldLayers(col, ChainWithin(col, at, n)), k) ==
            if at !in col then None
            else if k in col[at].fields then Some(col[at].fields[k])
            else Nearest(FieldLayers(col, ChainWithin(col, Parent(col[at]), n - 1)), k)
  {
    hide Parent;
    if at in col {
      var s := ChainWithin(col, at, n);
      var rest := ChainWithin(col, Parent(col[at]), n - 1);
      assert s == [at] + rest;
      assert FieldLayers(col, s)[1..] == FieldLayers(col, rest);
    }
  }
}

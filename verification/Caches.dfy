/**
  * What a `dynamic` shows, as a value: its registry, its fields with the defaults copied into them,
  * and the keys it remembers as missing.
  */
module Caches {
  import opened Bytes
  import opened Values
  import opened Registry
  import opened Lookup

  datatype Cached = Cached(spaces: Namespaces, fields: Fields, misses: set<uint32>)

  /** A key is never both held and remembered as missing. */
  predicate Coherent(c: Cached) {
    c.misses !! c.fields.Keys && NAMESPACE !in c.misses
  }

  function With(c: Cached, fields: Fields): Cached {
    Cached(c.spaces, fields, c.misses - fields.Keys)
  }

  /** The outcome of a lookup, and the object after it; `Blocked` is an exception. */
  datatype Looked = Looked(after: Cached, f: Option<Field>) | Blocked(after: Cached)

  /** `findField`. */
  function Look(c: Cached, k: uint32): Looked {
    if k in c.fields then Looked(c, Some(c.fields[k]))
    else if k in c.misses then Looked(c, None)
    else
      match SlowPath(c.spaces, c.fields, k)
      case SlowThrew(m) => Blocked(With(c, m))
      case Slow(m, _) =>
        if k in m then Looked(With(c, m), Some(m[k]))
        else Looked(With(c.(misses := c.misses + {k}), m), None)
  }

  /** `operator[](key_t)`: a missing field is created empty. */
  function Reach(c: Cached, k: uint32): (r: Looked)
    ensures r.Looked? ==> r.f.Some? && k in r.after.fields && r.after.fields[k] == r.f.value
  {
    var r := Look(c, k);
    if r.Looked? && r.f.None? then Looked(With(r.after, r.after.fields[k := Empty]), Some(Empty)) else r
  }

  /** What a lookup tells its caller. */
  datatype Answer<+T> = Gives(value: T) | Nothing | Throws

  function Shown(c: Cached, k: uint32): Answer<Field> {
    var r := Look(c, k);
    if r.Blocked? then Throws else if r.f.Some? then Gives(r.f.value) else Nothing
  }

  // ---- The same on the object in memory ----

  ghost function State(d: Dynamic): Cached
    reads d
  {
    Cached(d.spaces, d.View(), d.Misses())
  }

  lemma StateIsCoherent(d: Dynamic)
    requires d.Valid()
    ensures Coherent(State(d))
  {
    hide Sound, Distinct;
  }

  method LookIn(d: Dynamic, k: uint32) returns (r: Found)
    requires d.Valid()
    modifies d`nodes, d`lookup, d`next
    ensures d.Valid() && State(d) == Look(old(State(d)), k).after
    ensures r.Hit? ==> k in d.nodes && r.id == d.nodes[k].id && Shown(old(State(d)), k) == Gives(d.nodes[k].value)
    ensures r.Miss? ==> Shown(old(State(d)), k) == Nothing
    ensures r.Raised? ==> Shown(old(State(d)), k) == Throws
  {
    hide Sound, Distinct, SlowPath;
    ghost var c := State(d);
    r := d.FindField(k);
    if r.Hit? {
      assert d.View()[k] == d.nodes[k].value;
    }
    assert d.Misses() == Look(c, k).after.misses;
  }

  method ReachIn(d: Dynamic, k: uint32) returns (ok: bool)
    requires d.Valid()
    modifies d`nodes, d`lookup, d`next
    ensures d.Valid() && State(d) == Reach(old(State(d)), k).after
    ensures ok == Reach(old(State(d)), k).Looked?
    ensures ok ==> k in d.nodes && Reach(old(State(d)), k).f == Some(d.nodes[k].value)
  {
    hide Sound, Distinct, SlowPath;
    ghost var c := State(d);
    var r := d.Index(k);
    ok := r.Hit?;
    if ok {
      assert d.View()[k] == d.nodes[k].value;
    }
    assert d.Misses() == Reach(c, k).after.misses;
  }

  // ---- What decides a lookup ----

  predicate Reserved(k: uint32) {
    k == CLASS || k == NAMESPACE
  }

  /** The namespace and class a lookup starts from, unless it throws. */
  function Kind(spaces: Namespaces, own: Fields): Option<(uint32, uint32)> {
    match Resolve(own)
    case None => None
    case Some((own1, ns)) =>
      if ns in spaces && Ensure(own1, CLASS, Key(0)).None? then None else Some((ns, KeyIn(own1, CLASS)))
  }

  /** The namespace of the object exists, so that a lookup walks its classes. */
  predicate Placed(spaces: Namespaces, own: Fields) {
    Resolve(own).Some? && Resolve(own).value.1 in spaces
  }

  function Inherits(spaces: Namespaces, kind: Option<(uint32, uint32)>, k: uint32): Option<Field> {
    match kind case None => None case Some((ns, klass)) => InheritedField(spaces, ns, klass, k)
  }

  /** What is found for a key the object neither holds nor remembers as missing. */
  function Afresh(spaces: Namespaces, own: Fields, k: uint32): Answer<Field> {
    var kind := Kind(spaces, own);
    if kind.None? then Throws
    else if k == NAMESPACE then Gives(Key(0))
    else if k == CLASS then if Placed(spaces, own) then Gives(Key(0)) else Nothing
    else if Inherits(spaces, kind, k).Some? then Gives(Inherits(spaces, kind, k).value)
    else Nothing
  }

  /** The fields once a walk of the classes has put the reserved ones in place, as far as it gets. */
  function Completion(spaces: Namespaces, own: Fields): Fields {
    if Resolve(own).None? then own
    else
      var own1 := Resolve(own).value.0;
      if Placed(spaces, own) && Ensure(own1, CLASS, Key(0)).Some? then Ensure(own1, CLASS, Key(0)).value
      else own1
  }

  lemma NothingWithoutSpace(spaces: Namespaces, ns: uint32, klass: uint32, k: uint32)
    requires ns !in spaces
    ensures InheritedField(spaces, ns, klass, k) == None
  {
  }

  /** The slow path completes the reserved fields and copies what it finds. */
  lemma SlowPathIs(spaces: Namespaces, own: Fields, k: uint32)
    requires k !in own
    ensures var (m, a) := (Completion(spaces, own), Afresh(spaces, own, k));
            SlowPath(spaces, own, k) ==
            if a.Throws? then SlowThrew(m) else if a.Gives? then Slow(m[k := a.value], true) else Slow(m, false)
  {
    hide InheritedField;
    var m := Completion(spaces, own);
    if Resolve(own).Some? {
      var ns := Resolve(own).value.1;
      if ns !in spaces {
        NothingWithoutSpace(spaces, ns, KeyIn(own, CLASS), k);
      }
      if k in m {
        assert m[k := m[k]] == m;
      }
    }
  }

  lemma LookIs(c: Cached, k: uint32)
    requires k !in c.fields && k !in c.misses
    ensures var (m, a) := (Completion(c.spaces, c.fields), Afresh(c.spaces, c.fields, k));
            Look(c, k) ==
            if a.Throws? then Blocked(With(c, m))
            else if a.Gives? then Looked(With(c, m[k := a.value]), Some(a.value))
            else Looked(With(c.(misses := c.misses + {k}), m), None)
  {
    hide Completion, Afresh, SlowPath;
    SlowPathIs(c.spaces, c.fields, k);
  }

  /** A key shows its field, nothing if it was missed, else what the classes say. */
  lemma ShownIs(c: Cached, k: uint32)
    ensures Shown(c, k) ==
            if k in c.fields then Gives(c.fields[k])
            else if k in c.misses then Nothing
            else Afresh(c.spaces, c.fields, k)
  {
    hide Completion, Afresh, SlowPath;
    if k !in c.fields && k !in c.misses {
      LookIs(c, k);
    }
  }

  lemma SpacesStay(spaces: Namespaces, call: Call, ns: uint32)
    requires ns in spaces
    ensures ns in Register(spaces, call)
  {
  }

  /** What is found afresh stays as it is when a class is registered, unless the lookup then throws. */
  lemma FoundStays(spaces: Namespaces, own: Fields, call: Call, k: uint32)
    requires Sound(spaces) && k !in own && Afresh(spaces, own, k).Gives?
    ensures var after := Register(spaces, call);
            Afresh(after, own, k) == Afresh(spaces, own, k) <==> k != NAMESPACE || Kind(after, own).Some?
  {
    hide Register, Sound, InheritedField;
    var (ns, klass) := Kind(spaces, own).value;
    GrowthIsMonotone(spaces, call, ns, klass, k);
    if ns !in spaces {
      NothingWithoutSpace(spaces, ns, klass, k);
    } else {
      SpacesStay(spaces, call, ns);
    }
  }

  // ---- Completing the reserved fields ----

  /** The field under a reserved key is the same, or key 0 instead of none or an empty one. */
  predicate Alike(a: Fields, b: Fields, k: uint32) {
    if k in a && !a[k].Empty? then k in b && b[k] == a[k]
    else k in b ==> b[k] == Key(0) || b[k].Empty?
  }

  /** Whether reserved fields are missing, empty or key 0 changes nothing that is found afresh. */
  lemma AfreshAlike(spaces: Namespaces, a: Fields, b: Fields)
    requires Alike(a, b, CLASS) && Alike(a, b, NAMESPACE)
    ensures Kind(spaces, a) == Kind(spaces, b) && Placed(spaces, a) == Placed(spaces, b)
    ensures forall k :: Afresh(spaces, a, k) == Afresh(spaces, b, k)
  {
    hide Inherits;
  }

  lemma CompletionIs(spaces: Namespaces, own: Fields)
    ensures var m := Completion(spaces, own);
            && Alike(own, m, CLASS) && Alike(own, m, NAMESPACE)
            && (forall k | !Reserved(k) :: (k in m <==> k in own) && (k in own ==> m[k] == own[k]))
            && (forall k | k in own :: k in m && (m[k] == own[k] || (Reserved(k) && own[k].Empty? && m[k] == Key(0))))
            && (forall k | k in m && k !in own :: Reserved(k) && m[k] == Key(0))
            && (if Resolve(own).Some? then NAMESPACE in m && m[NAMESPACE].Key? else m == own)
            && (if Placed(spaces, own) then CLASS in m && !m[CLASS].Empty?
                else (CLASS in m <==> CLASS in own) && (CLASS in m ==> m[CLASS] == own[CLASS]))
  {
  }

  /** A walk of the classes changes none of the answers about the reserved keys. */
  predicate Quiet(c: Cached) {
    Resolve(c.fields).Some? ==>
      && (if NAMESPACE in c.fields then !c.fields[NAMESPACE].Empty? else Kind(c.spaces, c.fields).Some?)
      && (Placed(c.spaces, c.fields) ==> CLASS !in c.misses && (CLASS in c.fields ==> !c.fields[CLASS].Empty?))
  }

  lemma WalkShape(c: Cached, k: uint32)
    requires Coherent(c) && k !in c.fields && k !in c.misses
    ensures var (a, m) := (Look(c, k).after, Completion(c.spaces, c.fields));
            && Coherent(a) && a.spaces == c.spaces
            && (forall l | l != k :: (l in a.fields <==> l in m) && (l in m ==> a.fields[l] == m[l]))
            && (forall l | l != k && l !in a.fields :: l in a.misses <==> l in c.misses)
            && (Reserved(k) ==> a.fields == m)
            && (forall l :: Afresh(a.spaces, a.fields, l) == Afresh(c.spaces, c.fields, l))
            && (!Reserved(k) ==> Shown(a, k) == Shown(c, k))
  {
    hide Completion, Inherits, Kind, Placed, Resolve, Look, Afresh;
    var m := Completion(c.spaces, c.fields);
    var a := Look(c, k).after;
    LookIs(c, k);
    CompletionIs(c.spaces, c.fields);
    if Reserved(k) {
      ReservedFoundAfresh(c.spaces, c.fields, k);
    }
    AfreshAlike(c.spaces, c.fields, a.fields);
    ShownIs(c, k);
    ShownIs(a, k);
  }

  lemma ReservedFoundAfresh(spaces: Namespaces, own: Fields, k: uint32)
    requires Reserved(k) && k !in own
    ensures var (m, a) := (Completion(spaces, own), Afresh(spaces, own, k));
            && (a.Gives? ==> a.value == Key(0) && k in m && m[k] == Key(0))
            && (k == NAMESPACE ==> !a.Nothing?)
            && (a.Nothing? ==> k !in m)
  {
  }

  lemma WalkShowsOrdinary(c: Cached, k: uint32, l: uint32)
    requires Coherent(c) && k !in c.fields && k !in c.misses && !Reserved(l)
    ensures Shown(Look(c, k).after, l) == Shown(c, l)
  {
    hide Look, Afresh, Completion, Shown;
    var a := Look(c, k).after;
    WalkShape(c, k);
    CompletionIs(c.spaces, c.fields);
    ShownIs(c, l);
    ShownIs(a, l);
  }

  lemma WalkShowsNamespace(c: Cached, k: uint32)
    requires Coherent(c) && k !in c.fields && k !in c.misses
    ensures Shown(Look(c, k).after, NAMESPACE) == Shown(c, NAMESPACE) <==>
            (Resolve(c.fields).Some? ==>
               if NAMESPACE in c.fields then !c.fields[NAMESPACE].Empty? else Kind(c.spaces, c.fields).Some?)
  {
    hide Look, Completion, Shown, Inherits;
    var a := Look(c, k).after;
    WalkShape(c, k);
    CompletionIs(c.spaces, c.fields);
    ShownIs(c, NAMESPACE);
    ShownIs(a, NAMESPACE);
  }

  lemma WalkShowsClass(c: Cached, k: uint32)
    requires Coherent(c) && k !in c.fields && k !in c.misses
    ensures Shown(Look(c, k).after, CLASS) == Shown(c, CLASS) <==>
            (Placed(c.spaces, c.fields) ==> CLASS !in c.misses && (CLASS in c.fields ==> !c.fields[CLASS].Empty?))
  {
    hide Look, Completion, Shown, Inherits;
    var a := Look(c, k).after;
    WalkShape(c, k);
    CompletionIs(c.spaces, c.fields);
    if k == CLASS {
      LookIs(c, k);
    }
    ShownIs(c, CLASS);
    ShownIs(a, CLASS);
  }

  /** A lookup that walks the classes leaves every answer as it was if and only if it is quiet. */
  lemma QuietIff(c: Cached, k: uint32)
    requires Coherent(c) && k !in c.fields && k !in c.misses
    ensures (forall l :: Shown(Look(c, k).after, l) == Shown(c, l)) <==> Quiet(c)
  {
    hide Look, Shown, Kind;
    WalkShowsNamespace(c, k);
    WalkShowsClass(c, k);
    if Quiet(c) {
      forall l
        ensures Shown(Look(c, k).after, l) == Shown(c, l)
      {
        if !Reserved(l) {
          WalkShowsOrdinary(c, k, l);
        }
      }
    }
  }
}

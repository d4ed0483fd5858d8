/**
  * Runs of operations on one object and its registry. A plain object keeps nothing but the fields it
  * was given and looks everything else up afresh; the copy-on-read cache shows the same along a run if
  * and only if every step of it is admissible.
  */
module Sessions {
  import opened Bytes
  import opened Values
  import opened Registry
  import opened Lookup
  import opened Caches

  /**
    * `findField`/`get_as`, reading and assigning through `operator[](key_t)`, `erase`, `clear`,
    * `addField`, `as<T>` (where `blank` is `T{}`), `operator[](size_t)`, and an `addClass` that
    * happens in between.
    */
  datatype Op =
    | Find(k: uint32)
    | Read(k: uint32)
    | Write(k: uint32, v: Field)
    | Erase(k: uint32)
    | Clear
    | Add(k: uint32, v: Field)
    | Cast(k: uint32, blank: Field)
    | Slot(k: uint32)
    | Declare(call: Call)

  datatype Out = Value(f: Field) | Absent | Thrown | Done | Inserted | Refused

  function Told(a: Answer<Field>): Out {
    match a case Gives(f) => Value(f) case Nothing => Absent case Throws => Thrown
  }

  // ---- The plain object ----

  /** A registry and the fields the object was given. */
  datatype Plain = Plain(spaces: Namespaces, own: Fields)

  /** What a lookup by an object that remembers nothing finds. */
  function Held(p: Plain, k: uint32): Answer<Field> {
    Shown(Cached(p.spaces, p.own, {}), k)
  }

  function Given(p: Plain, k: uint32, v: Field): Plain {
    p.(own := p.own[k := v])
  }

  function Named(own: Fields): Fields {
    map k | k in own && k >= NAMED :: own[k]
  }

  function Step(p: Plain, op: Op): (Plain, Out) {
    match op
    case Find(k) => (p, Told(Held(p, k)))
    case Read(k) => if Held(p, k).Nothing? then (Given(p, k, Empty), Value(Empty)) else (p, Told(Held(p, k)))
    case Write(k, v) =>
      var held := Held(p, k);
      if held.Throws? || (held.Gives? && Assigned(held.value, v).None?) then (p, Thrown)
      else (Given(p, k, v), Done)
    case Erase(k) => (p.(own := p.own - {k}), Done)
    case Clear => (p.(own := Named(p.own)), Done)
    case Add(k, v) => if k in p.own then (p, Refused) else (Given(p, k, v), Inserted)
    case Cast(k, blank) =>
      var r := Ensure(p.own, k, blank);
      if r.None? then (p, Thrown) else (p.(own := r.value), Value(r.value[k]))
    case Slot(k) => if k in p.own then (p, Value(p.own[k])) else (Given(p, k, Empty), Value(Empty))
    case Declare(call) => (p.(spaces := Register(p.spaces, call)), Done)
  }

  // ---- The cached object ----

  function Stored(c: Cached, k: uint32, v: Field): Cached {
    With(c, c.fields[k := v])
  }

  function CachedStep(c: Cached, op: Op): (Cached, Out) {
    match op
    case Find(k) => (Look(c, k).after, Told(Shown(c, k)))
    case Read(k) =>
      var r := Reach(c, k);
      (r.after, if r.Blocked? then Thrown else Value(r.f.value))
    case Write(k, v) =>
      var r := Reach(c, k);
      if r.Blocked? || Assigned(r.f.value, v).None? then (r.after, Thrown) else (Stored(r.after, k, v), Done)
    case Erase(k) => (Cached(c.spaces, c.fields - {k}, c.misses - {k}), Done)
    case Clear => (Cached(c.spaces, Named(c.fields), {}), Done)
    case Add(k, v) => if k in c.fields then (c, Refused) else (Stored(c, k, v), Inserted)
    case Cast(k, blank) =>
      var r := Ensure(c.fields, k, blank);
      if r.None? then (c, Thrown) else (With(c, r.value), Value(r.value[k]))
    case Slot(k) => if k in c.fields then (c, Value(c.fields[k])) else (Stored(c, k, Empty), Value(Empty))
    case Declare(call) => (c.(spaces := Register(c.spaces, call)), Done)
  }

  lemma MissesAfter(c: Cached, k: uint32, v: Field)
    requires Coherent(c)
    ensures c.misses - c.fields.Keys == c.misses && (k in c.fields ==> c.misses - {k} == c.misses)
    ensures c.misses - c.fields[k := v].Keys == c.misses - {k}
  {
  }

  /** `obj[k] = v`. */
  method Assign(d: Dynamic, k: uint32, v: Field) returns (out: Out)
    requires d.Valid()
    modifies d`nodes, d`lookup, d`next
    ensures d.Valid()
    ensures State(d) == CachedStep(old(State(d)), Write(k, v)).0 && out == CachedStep(old(State(d)), Write(k, v)).1
  {
    hide Reach, Dynamic.Valid;
    var ok := ReachIn(d, k);
    if !ok || Assigned(d.nodes[k].value, v).None? {
      return Thrown;
    }
    StateIsCoherent(d);
    ghost var c := State(d);
    d.Store(k, v);
    assert c.misses - c.fields[k := v].Keys == c.misses;
    return Done;
  }

  /** `addField`. */
  method Insert(d: Dynamic, k: uint32, v: Field) returns (out: Out)
    requires d.Valid()
    modifies d`nodes, d`lookup, d`next
    ensures d.Valid()
    ensures State(d) == CachedStep(old(State(d)), Add(k, v)).0 && out == CachedStep(old(State(d)), Add(k, v)).1
  {
    StateIsCoherent(d);
    hide Dynamic.Valid, Coherent;
    ghost var c := State(d);
    var inserted := d.AddField(k, v);
    MissesAfter(c, k, v);
    return if inserted then Inserted else Refused;
  }

  /** `as<T>(k)`. */
  method Convert(d: Dynamic, k: uint32, blank: Field) returns (out: Out)
    requires d.Valid()
    modifies d`nodes, d`lookup, d`next
    ensures d.Valid()
    ensures State(d) == CachedStep(old(State(d)), Cast(k, blank)).0
    ensures out == CachedStep(old(State(d)), Cast(k, blank)).1
  {
    StateIsCoherent(d);
    hide Dynamic.Valid, Coherent;
    ghost var c := State(d);
    var r := d.As(k, blank);
    assert d.View()[k] == d.nodes[k].value;
    MissesAfter(c, k, blank);
    return if r.Raised? then Thrown else Value(d.nodes[k].value);
  }

  /** `obj[n]`. */
  method At(d: Dynamic, k: uint32) returns (out: Out)
    requires d.Valid()
    modifies d`nodes, d`lookup, d`next
    ensures d.Valid()
    ensures State(d) == CachedStep(old(State(d)), Slot(k)).0 && out == CachedStep(old(State(d)), Slot(k)).1
  {
    StateIsCoherent(d);
    hide Dynamic.Valid, Coherent;
    ghost var c := State(d);
    var _ := d.Slot(k);
    assert d.View()[k] == d.nodes[k].value;
    MissesAfter(c, k, Empty);
    return Value(d.nodes[k].value);
  }

  /** The object in memory takes exactly these steps. */
  method Do(d: Dynamic, op: Op) returns (out: Out)
    requires d.Valid()
    modifies d
    ensures d.Valid()
    ensures State(d) == CachedStep(old(State(d)), op).0 && out == CachedStep(old(State(d)), op).1
  {
    hide Look, Shown, Reach, Register, With, Stored, Ensure, Dynamic.Valid;
    match op {
      case Find(k) =>
        var r := LookIn(d, k);
        return if r.Raised? then Thrown else if r.Hit? then Value(d.nodes[k].value) else Absent;
      case Read(k) =>
        var ok := ReachIn(d, k);
        return if ok then Value(d.nodes[k].value) else Thrown;
      case Write(k, v) =>
        out := Assign(d, k, v);
      case Erase(k) =>
        var _ := d.Erase(k);
        return Done;
      case Clear =>
        d.Clear();
        return Done;
      case Add(k, v) =>
        out := Insert(d, k, v);
      case Cast(k, blank) =>
        out := Convert(d, k, blank);
      case Slot(k) =>
        out := At(d, k);
      case Declare(call) =>
        d.Registered(call);
        return Done;
    }
  }

  // ---- When the two show the same ----

  /** Every lookup answers the same. */
  ghost predicate Transparent(c: Cached, p: Plain) {
    forall k :: Shown(c, k) == Held(p, k)
  }

  /** The cached object holds the fields of the plain one. */
  predicate Covers(c: Cached, p: Plain) {
    && c.spaces == p.spaces && Coherent(c)
    && forall k | k in p.own :: k in c.fields && c.fields[k] == p.own[k]
  }

  /** What is remembered is what would be found: nothing for every miss, and every copy. */
  ghost predicate Fits(p: Plain, fields: Fields, misses: set<uint32>) {
    && (forall k | k in misses :: Held(p, k) == Nothing)
    && (forall k | k in fields && k !in p.own :: Held(p, k) == Gives(fields[k]))
  }

  ghost predicate Good(c: Cached, p: Plain) {
    Covers(c, p) && Fits(p, c.fields, c.misses)
  }

  lemma HeldIs(p: Plain, k: uint32)
    ensures Held(p, k) == if k in p.own then Gives(p.own[k]) else Afresh(p.spaces, p.own, k)
  {
    hide Shown, Afresh;
    ShownIs(Cached(p.spaces, p.own, {}), k);
  }

  /** Copied reserved fields are only ever key 0, so both objects inherit the same. */
  lemma SameAfresh(c: Cached, p: Plain)
    requires Good(c, p)
    ensures forall k :: Afresh(c.spaces, c.fields, k) == Afresh(p.spaces, p.own, k)
    ensures Placed(c.spaces, c.fields) == Placed(p.spaces, p.own)
    ensures forall k | Reserved(k) && k in c.fields && k !in p.own :: c.fields[k] == Key(0)
  {
    hide Held, Afresh, Completion, Placed;
    forall k | Reserved(k) && k in c.fields && k !in p.own
      ensures c.fields[k] == Key(0)
    {
      HeldIs(p, k);
      ReservedFoundAfresh(p.spaces, p.own, k);
    }
    assert Reserved(CLASS) && Reserved(NAMESPACE);
    AfreshAlike(p.spaces, p.own, c.fields);
  }

  /** If the fields are covered, the objects show the same exactly if what is remembered fits. */
  lemma TransparentIff(c: Cached, p: Plain)
    requires Covers(c, p)
    ensures Transparent(c, p) <==> Fits(p, c.fields, c.misses)
  {
    hide Held, Afresh, Shown, Placed;
    forall k
      ensures k in p.own ==> Shown(c, k) == Held(p, k)
      ensures k in c.fields ==> Shown(c, k) == Gives(c.fields[k])
      ensures k in c.misses ==> Shown(c, k) == Nothing
    {
      ShownIs(c, k);
      HeldIs(p, k);
    }
    if Fits(p, c.fields, c.misses) {
      SameAfresh(c, p);
      forall k
        ensures Shown(c, k) == Held(p, k)
      {
        ShownIs(c, k);
        HeldIs(p, k);
      }
    }
  }

  /** A fresh object. */
  lemma FreshIsGood(p: Plain)
    ensures Good(Cached(p.spaces, p.own, {}), p)
  {
    hide Held;
  }

  // ---- Changes that leave everything else as it was ----

  /** Whether two plain objects show the same for every key but `k`. */
  ghost predicate SameBut(p: Plain, q: Plain, k: uint32) {
    forall l | l != k :: Held(p, l) == Held(q, l)
  }

  /** A value for an ordinary key, or an empty field for one that had none. */
  lemma GivenSameBut(p: Plain, k: uint32, v: Field)
    requires !Reserved(k) || (k !in p.own && v.Empty?)
    ensures SameBut(p, Given(p, k, v), k)
  {
    hide Held, Afresh;
    AfreshAlike(p.spaces, p.own, p.own[k := v]);
    forall l | l != k
      ensures Held(p, l) == Held(Given(p, k, v), l)
    {
      HeldIs(p, l);
      HeldIs(Given(p, k, v), l);
    }
  }

  lemma ErasedSameBut(p: Plain, k: uint32)
    requires !Reserved(k)
    ensures SameBut(p, p.(own := p.own - {k}), k)
  {
    hide Held, Afresh;
    AfreshAlike(p.spaces, p.own, p.own - {k});
    forall l | l != k
      ensures Held(p, l) == Held(p.(own := p.own - {k}), l)
    {
      HeldIs(p, l);
      HeldIs(p.(own := p.own - {k}), l);
    }
  }

  /** What is remembered about the other keys fits `p`. */
  ghost predicate FitsBut(p: Plain, c: Cached, k: uint32) {
    Fits(p, c.fields - {k}, c.misses - {k})
  }

  lemma StillFits(c: Cached, p: Plain, q: Plain, k: uint32)
    requires Good(c, p) && SameBut(p, q, k) && p.own - {k} == q.own - {k}
    ensures FitsBut(q, c, k)
  {
    hide Held;
    assert forall l | l != k :: l in p.own <==> l in q.own by {
      assert forall l | l != k :: (l in p.own <==> l in p.own - {k}) && (l in q.own <==> l in q.own - {k});
    }
  }

  /** Both objects get `v` under `k`. */
  lemma StoredIff(c: Cached, p: Plain, k: uint32, v: Field)
    requires Covers(c, p)
    ensures Covers(Stored(c, k, v), Given(p, k, v))
    ensures Transparent(Stored(c, k, v), Given(p, k, v)) <==> FitsBut(Given(p, k, v), c, k)
    ensures FitsBut(Given(p, k, v), c, k) ==> Good(Stored(c, k, v), Given(p, k, v))
  {
    hide Held, Shown, Transparent;
    TransparentIff(Stored(c, k, v), Given(p, k, v));
  }

  lemma StoredOrdinary(c: Cached, p: Plain, k: uint32, v: Field)
    requires Good(c, p) && (!Reserved(k) || (k !in p.own && v.Empty?))
    ensures Good(Stored(c, k, v), Given(p, k, v)) && FitsBut(Given(p, k, v), c, k)
  {
    hide Held, FitsBut, Stored;
    GivenSameBut(p, k, v);
    assert p.own - {k} == Given(p, k, v).own - {k};
    StillFits(c, p, Given(p, k, v), k);
    StoredIff(c, p, k, v);
  }

  // ---- Lookups that walk the classes ----

  /** A quiet walk leaves the object covering the plain one, with what it remembers fitting. */
  lemma QuietWalk(c: Cached, p: Plain, k: uint32)
    requires Good(c, p) && k !in c.fields && k !in c.misses
    ensures Transparent(Look(c, k).after, p) <==> Quiet(c)
    ensures Quiet(c) ==> Good(Look(c, k).after, p)
  {
    hide Held, Shown, Look, Afresh, Quiet;
    TransparentIff(c, p);
    QuietIff(c, k);
    if Quiet(c) {
      QuietWalkCovers(c, p, k);
      TransparentIff(Look(c, k).after, p);
    } else {
      var l :| Shown(Look(c, k).after, l) != Shown(c, l);
      assert Held(p, l) == Shown(c, l);
    }
  }

  lemma QuietWalkCovers(c: Cached, p: Plain, k: uint32)
    requires Covers(c, p) && k !in c.fields && k !in c.misses && Quiet(c)
    ensures Covers(Look(c, k).after, p)
  {
    hide Look, Afresh, Completion, Kind;
    WalkShape(c, k);
    CompletionIs(c.spaces, c.fields);
  }

  /** A walk that is not quiet and does not throw turns an empty reserved field into key 0. */
  lemma LoudWalk(c: Cached, p: Plain, k: uint32) returns (l: uint32)
    requires Good(c, p) && k !in c.fields && k !in c.misses && !Quiet(c) && !Shown(c, k).Throws?
    ensures l != k && l in p.own && p.own[l].Empty?
    ensures var a := Look(c, k).after; l in a.fields && a.fields[l] == Key(0)
  {
    hide Held, Shown, Look, Completion, Inherits;
    ShownIs(c, k);
    WalkShape(c, k);
    CompletionIs(c.spaces, c.fields);
    SameAfresh(c, p);
    if NAMESPACE in c.fields && c.fields[NAMESPACE].Empty? {
      l := NAMESPACE;
    } else {
      l := CLASS;
      if CLASS in c.misses {
        HeldIs(p, CLASS);
      }
    }
  }

  // ---- Admissible steps ----

  /** The operation looks its key up in the classes. */
  predicate Walks(c: Cached, op: Op) {
    (op.Find? || op.Read? || op.Write?) && op.k !in c.fields && op.k !in c.misses
  }

  /**
    * `addField`, `as<T>` and numeric indexing look at the fields alone: what they find there under a
    * key that was not given must be what they would put there.
    */
  predicate MeetsNoCopy(c: Cached, p: Plain, op: Op) {
    (op.Add? || op.Cast? || op.Slot?) && op.k !in p.own && op.k in c.fields ==>
      !op.Add? && (c.fields[op.k].Empty? || (op.Cast? && c.fields[op.k] == op.blank))
  }

  /** The object when a value is about to be stored under the key of `op`. */
  function Met(c: Cached, op: Op): Cached {
    if op.Write? then Look(c, op.k).after else c
  }

  /**
    * A walk of the classes is quiet, no copy is met by what looks at the fields alone, and after a
    * change of class, namespace or registry what is remembered is still what would be found.
    */
  ghost predicate Admissible(c: Cached, p: Plain, op: Op) {
    && (Walks(c, op) ==> Quiet(c))
    && MeetsNoCopy(c, p, op)
    && (op.Declare? ==> Fits(Step(p, op).0, c.fields, c.misses))
    && ((op.Write? || op.Erase? || op.Add? || op.Cast? || op.Slot?) && Reserved(op.k) ==>
          FitsBut(Step(p, op).0, Met(c, op), op.k))
  }

  /** The same output, and an object that shows the same. */
  ghost predicate Agrees(c: Cached, p: Plain, op: Op) {
    CachedStep(c, op).1 == Step(p, op).1 && Transparent(CachedStep(c, op).0, Step(p, op).0)
  }

  ghost predicate GoodStep(c: Cached, p: Plain, op: Op) {
    Good(CachedStep(c, op).0, Step(p, op).0)
  }

  lemma SameAnswer(c: Cached, p: Plain, k: uint32)
    requires Good(c, p)
    ensures Shown(c, k) == Held(p, k)
  {
    hide Held, Shown;
    TransparentIff(c, p);
  }

  lemma FindStep(c: Cached, p: Plain, k: uint32)
    requires Good(c, p)
    ensures Agrees(c, p, Find(k)) <==> Admissible(c, p, Find(k))
    ensures Admissible(c, p, Find(k)) ==> GoodStep(c, p, Find(k))
  {
    hide Held, Shown, Good, Quiet, Transparent;
    SameAnswer(c, p, k);
    if Walks(c, Find(k)) {
      QuietWalk(c, p, k);
    } else {
      GoodIsTransparent(c, p);
    }
  }

  lemma GoodIsTransparent(c: Cached, p: Plain)
    requires Good(c, p)
    ensures Transparent(c, p)
  {
    hide Held, Shown;
    TransparentIff(c, p);
  }

  /** `operator[]` in terms of the lookup it makes. */
  lemma ReachIs(c: Cached, k: uint32)
    ensures var a := Look(c, k).after;
            Reach(c, k) ==
            if Shown(c, k).Throws? then Blocked(a)
            else if Shown(c, k).Nothing? then Looked(Stored(a, k, Empty), Some(Empty))
            else Looked(a, Some(Shown(c, k).value))
    ensures k in c.fields || k in c.misses ==> Look(c, k).after == c && !Shown(c, k).Throws?
    ensures Shown(c, k).Nothing? ==> k !in Look(c, k).after.fields
  {
    hide SlowPath;
  }

  /** A value that differs from the one the plain object was given. */
  lemma Differs(c: Cached, p: Plain, l: uint32)
    requires l in p.own && l in c.fields && c.fields[l] != p.own[l]
    ensures !Transparent(c, p)
  {
    hide Afresh, Shown, Held;
    ShownIs(c, l);
    HeldIs(p, l);
  }

  lemma ReadStep(c: Cached, p: Plain, k: uint32)
    requires Good(c, p)
    ensures Agrees(c, p, Read(k)) <==> Admissible(c, p, Read(k))
    ensures Admissible(c, p, Read(k)) ==> GoodStep(c, p, Read(k))
  {
    hide Held, Shown, Good, Quiet, Transparent, Look, Reach;
    SameAnswer(c, p, k);
    ReachIs(c, k);
    if !Shown(c, k).Nothing? {
      FindStep(c, p, k);
    } else if Walks(c, Read(k)) && !Quiet(c) {
      var l := LoudWalk(c, p, k);
      Differs(CachedStep(c, Read(k)).0, Step(p, Read(k)).0, l);
    } else {
      MetIsGood(c, p, Read(k));
      NotOwn(c, p, k);
      StoredOrdinary(Look(c, k).after, p, k, Empty);
      GoodIsTransparent(CachedStep(c, Read(k)).0, Step(p, Read(k)).0);
    }
  }

  lemma NotOwn(c: Cached, p: Plain, k: uint32)
    requires Held(p, k).Nothing?
    ensures k !in p.own
  {
    hide Held, Afresh;
    HeldIs(p, k);
  }

  lemma MetIsGood(c: Cached, p: Plain, op: Op)
    requires Good(c, p) && (op.Find? || op.Read? || op.Write?) && (Walks(c, op) ==> Quiet(c))
    ensures Good(Look(c, op.k).after, p)
  {
    hide Held, Shown, Good, Quiet, Look;
    ReachIs(c, op.k);
    if Walks(c, op) {
      QuietWalk(c, p, op.k);
    }
  }

  lemma WriteStep(c: Cached, p: Plain, k: uint32, v: Field)
    requires Good(c, p)
    ensures Agrees(c, p, Write(k, v)) <==> Admissible(c, p, Write(k, v))
    ensures Admissible(c, p, Write(k, v)) ==> GoodStep(c, p, Write(k, v))
  {
    hide Held, Shown, Good, Quiet, Transparent, Look, Reach, FitsBut, Stored;
    var (op, m) := (Write(k, v), Look(c, k).after);
    var (c', p') := (CachedStep(c, op).0, Step(p, op).0);
    SameAnswer(c, p, k);
    ReachIs(c, k);
    if Step(p, op).1.Thrown? {
      FindStep(c, p, k);
      if Walks(c, op) ==> Quiet(c) {
        MetIsGood(c, p, op);
        SameIsSameBut(p, k);
        StillFits(m, p, p, k);
      }
    } else {
      StoredTwice(m, k, Empty, v);
      if Walks(c, op) && !Quiet(c) {
        var l := LoudWalk(c, p, k);
        StoredElsewhere(m, k, v, l);
        Differs(c', p', l);
      } else {
        MetIsGood(c, p, op);
        if !Reserved(k) {
          StoredOrdinary(m, p, k, v);
        }
        GoodCovers(m, p);
        StoredIff(m, p, k, v);
      }
    }
  }

  lemma GoodCovers(c: Cached, p: Plain)
    requires Good(c, p)
    ensures Covers(c, p)
  {
    hide Held;
  }

  lemma SameIsSameBut(p: Plain, k: uint32)
    ensures SameBut(p, p, k)
  {
  }

  lemma StoredTwice(c: Cached, k: uint32, u: Field, v: Field)
    ensures Stored(Stored(c, k, u), k, v) == Stored(c, k, v)
  {
    assert c.fields[k := u][k := v] == c.fields[k := v];
  }

  lemma StoredElsewhere(c: Cached, k: uint32, v: Field, l: uint32)
    requires l != k && l in c.fields
    ensures l in Stored(c, k, v).fields && Stored(c, k, v).fields[l] == c.fields[l]
  {
  }

  lemma EraseStep(c: Cached, p: Plain, k: uint32)
    requires Good(c, p)
    ensures Agrees(c, p, Erase(k)) <==> Admissible(c, p, Erase(k))
    ensures Admissible(c, p, Erase(k)) ==> GoodStep(c, p, Erase(k))
  {
    hide Held, Shown, Transparent;
    var (c', p') := (CachedStep(c, Erase(k)).0, Step(p, Erase(k)).0);
    TransparentIff(c', p');
    if !Reserved(k) {
      ErasedSameBut(p, k);
      StillFits(c, p, p', k);
    }
  }

  lemma ClearStep(c: Cached, p: Plain)
    requires Good(c, p)
    ensures Agrees(c, p, Clear) && Admissible(c, p, Clear) && GoodStep(c, p, Clear)
  {
    hide Held, Shown, Transparent, Afresh;
    var (c', p') := (CachedStep(c, Clear).0, Step(p, Clear).0);
    AfreshAlike(p.spaces, p.own, p'.own);
    forall k | k in c'.fields && k !in p'.own
      ensures Held(p', k) == Gives(c'.fields[k])
    {
      HeldIs(p, k);
      HeldIs(p', k);
    }
    TransparentIff(c', p');
  }

  /** Both objects get the same value, or the cached one has it already. */
  lemma InsertionStep(c: Cached, p: Plain, op: Op, v: Field)
    requires Good(c, p) && (op.Add? || op.Cast? || op.Slot?)
    requires Step(p, op).0 == Given(p, op.k, v) && CachedStep(c, op).0 == Stored(c, op.k, v)
    requires CachedStep(c, op).1 == Step(p, op).1 && MeetsNoCopy(c, p, op)
    ensures Agrees(c, p, op) <==> Admissible(c, p, op)
    ensures Admissible(c, p, op) ==> GoodStep(c, p, op)
  {
    hide Held, Shown, Transparent, Stored, FitsBut, CachedStep, Step;
    StoredIff(c, p, op.k, v);
    if !Reserved(op.k) {
      StoredOrdinary(c, p, op.k, v);
    }
  }

  lemma UnchangedStep(c: Cached, p: Plain, op: Op)
    requires Good(c, p) && (op.Add? || op.Cast? || op.Slot?) && op.k in p.own
    requires CachedStep(c, op).0 == c && Step(p, op).0 == p && CachedStep(c, op).1 == Step(p, op).1
    ensures Agrees(c, p, op) && Admissible(c, p, op) && GoodStep(c, p, op)
  {
    hide Held, Shown, Transparent, CachedStep, Step;
    GoodIsTransparent(c, p);
    SameIsSameBut(p, op.k);
    StillFits(c, p, p, op.k);
  }

  lemma AddStep(c: Cached, p: Plain, k: uint32, v: Field)
    requires Good(c, p)
    ensures Agrees(c, p, Add(k, v)) <==> Admissible(c, p, Add(k, v))
    ensures Admissible(c, p, Add(k, v)) ==> GoodStep(c, p, Add(k, v))
  {
    hide Held, Shown, Transparent, Fits, FitsBut;
    if k in p.own {
      UnchangedStep(c, p, Add(k, v));
    } else if k !in c.fields {
      InsertionStep(c, p, Add(k, v), v);
    }
  }

  lemma StoredAlready(c: Cached, k: uint32)
    requires Coherent(c) && k in c.fields
    ensures Stored(c, k, c.fields[k]) == c && With(c, c.fields) == c
  {
    MissesAfter(c, k, c.fields[k]);
    assert c.fields[k := c.fields[k]] == c.fields;
  }

  lemma SlotStep(c: Cached, p: Plain, k: uint32)
    requires Good(c, p)
    ensures Agrees(c, p, Slot(k)) <==> Admissible(c, p, Slot(k))
    ensures Admissible(c, p, Slot(k)) ==> GoodStep(c, p, Slot(k))
  {
    hide Held, Shown, Transparent, Fits, FitsBut, Stored;
    if k in c.fields {
      StoredAlready(c, k);
    }
    if k in p.own {
      UnchangedStep(c, p, Slot(k));
    } else if k !in c.fields || c.fields[k].Empty? {
      InsertionStep(c, p, Slot(k), Empty);
    }
  }

  lemma CastStep(c: Cached, p: Plain, k: uint32, blank: Field)
    requires Good(c, p)
    ensures Agrees(c, p, Cast(k, blank)) <==> Admissible(c, p, Cast(k, blank))
    ensures Admissible(c, p, Cast(k, blank)) ==> GoodStep(c, p, Cast(k, blank))
  {
    hide Held, Shown, Transparent, Fits, FitsBut;
    if k in c.fields {
      StoredAlready(c, k);
    }
    if k in p.own && !p.own[k].Empty? {
      UnchangedStep(c, p, Cast(k, blank));
    } else if k !in c.fields || c.fields[k].Empty? || c.fields[k] == blank {
      InsertionStep(c, p, Cast(k, blank), blank);
    }
  }

  lemma DeclareStep(c: Cached, p: Plain, call: Call)
    requires Good(c, p)
    ensures Agrees(c, p, Declare(call)) <==> Admissible(c, p, Declare(call))
    ensures Admissible(c, p, Declare(call)) ==> GoodStep(c, p, Declare(call))
  {
    hide Held, Shown, Transparent, Register;
    TransparentIff(CachedStep(c, Declare(call)).0, Step(p, Declare(call)).0);
  }

  /**
    * One step: the cached object answers like the plain one and goes on showing the same for every
    * key if and only if the step is admissible.
    */
  lemma StepIff(c: Cached, p: Plain, op: Op)
    requires Good(c, p)
    ensures Agrees(c, p, op) <==> Admissible(c, p, op)
    ensures Admissible(c, p, op) ==> GoodStep(c, p, op)
  {
    hide Good, Agrees, Admissible, GoodStep;
    match op {
      case Find(k) => FindStep(c, p, k);
      case Read(k) => ReadStep(c, p, k);
      case Write(k, v) => WriteStep(c, p, k, v);
      case Erase(k) => EraseStep(c, p, k);
      case Clear => ClearStep(c, p);
      case Add(k, v) => AddStep(c, p, k, v);
      case Cast(k, blank) => CastStep(c, p, k, blank);
      case Slot(k) => SlotStep(c, p, k);
      case Declare(call) => DeclareStep(c, p, call);
    }
  }

  /**
    * An `addClass` never makes a copied default out of date: it shows only through a miss, or through
    * a namespace that was put in place and that the object, without one, would no longer find.
    */
  lemma DeclaringIff(c: Cached, p: Plain, call: Call)
    requires Good(c, p) && Sound(p.spaces)
    ensures var p' := Step(p, Declare(call)).0;
            Admissible(c, p, Declare(call)) <==>
            && (forall k | k in c.misses :: Held(p', k) == Nothing)
            && (NAMESPACE in c.fields && NAMESPACE !in p.own ==> Kind(p'.spaces, p'.own).Some?)
  {
    hide Register, Sound, Afresh, Held, Kind;
    var p' := Step(p, Declare(call)).0;
    forall k | k in c.fields && k !in p.own
      ensures k != NAMESPACE ==> Held(p', k) == Gives(c.fields[k])
      ensures k == NAMESPACE ==> (Held(p', k) == Gives(c.fields[k]) <==> Kind(p'.spaces, p'.own).Some?)
    {
      HeldIs(p, k);
      HeldIs(p', k);
      FoundStays(p.spaces, p.own, call, k);
    }
  }

  // ---- Runs ----

  function Run(p: Plain, ops: seq<Op>): Plain
    decreases |ops|
  {
    if ops == [] then p else Run(Step(p, ops[0]).0, ops[1..])
  }

  function Outputs(p: Plain, ops: seq<Op>): seq<Out>
    decreases |ops|
  {
    if ops == [] then [] else [Step(p, ops[0]).1] + Outputs(Step(p, ops[0]).0, ops[1..])
  }

  function CachedRun(c: Cached, ops: seq<Op>): Cached
    decreases |ops|
  {
    if ops == [] then c else CachedRun(CachedStep(c, ops[0]).0, ops[1..])
  }

  function CachedOutputs(c: Cached, ops: seq<Op>): seq<Out>
    decreases |ops|
  {
    if ops == [] then [] else [CachedStep(c, ops[0]).1] + CachedOutputs(CachedStep(c, ops[0]).0, ops[1..])
  }

  /** At every step the same output, and after it the same for every key. */
  ghost predicate AlwaysAgrees(c: Cached, p: Plain, ops: seq<Op>)
    decreases |ops|
  {
    ops != [] ==> Agrees(c, p, ops[0]) && AlwaysAgrees(CachedStep(c, ops[0]).0, Step(p, ops[0]).0, ops[1..])
  }

  ghost predicate AlwaysAdmissible(c: Cached, p: Plain, ops: seq<Op>)
    decreases |ops|
  {
    ops != [] ==>
      Admissible(c, p, ops[0]) && AlwaysAdmissible(CachedStep(c, ops[0]).0, Step(p, ops[0]).0, ops[1..])
  }

  /**
    * Along every run the copy-on-read cache cannot be told from no cache if and only if every step
    * is admissible; then the outputs are the same and so is all that is shown at the end.
    */
  lemma {:induction false} RunIff(c: Cached, p: Plain, ops: seq<Op>)
    requires Good(c, p)
    ensures AlwaysAgrees(c, p, ops) <==> AlwaysAdmissible(c, p, ops)
    ensures AlwaysAdmissible(c, p, ops) ==>
              CachedOutputs(c, ops) == Outputs(p, ops) && Good(CachedRun(c, ops), Run(p, ops))
    decreases |ops|
  {
    hide Admissible, Agrees, Good, CachedStep, Step;
    if ops != [] {
      StepIff(c, p, ops[0]);
      if Admissible(c, p, ops[0]) {
        SameOutput(c, p, ops[0]);
        RunIff(CachedStep(c, ops[0]).0, Step(p, ops[0]).0, ops[1..]);
      }
    }
  }

  lemma SameOutput(c: Cached, p: Plain, op: Op)
    requires Agrees(c, p, op)
    ensures CachedStep(c, op).1 == Step(p, op).1
  {
  }

  // ---- Ordinary runs ----

  /** The object names its class and, if any, its namespace, so no lookup throws. */
  predicate Usable(own: Fields) {
    CLASS in own && own[CLASS].Key? && (NAMESPACE in own ==> own[NAMESPACE].Key?)
  }

  /** Lookups, assignments and removals of fields other than class and namespace. */
  predicate Ordinary(op: Op) {
    op.Find? || op.Clear? || ((op.Read? || op.Write? || op.Erase?) && !Reserved(op.k))
  }

  lemma UsableIsQuiet(c: Cached, p: Plain)
    requires Good(c, p) && Usable(p.own)
    ensures Quiet(c)
  {
    hide Held, Afresh;
    SameAfresh(c, p);
  }

  lemma OrdinaryKeepsUsable(p: Plain, op: Op)
    requires Usable(p.own) && Ordinary(op)
    ensures Usable(Step(p, op).0.own)
  {
    hide Held;
  }

  lemma {:induction false} OrdinaryRuns(c: Cached, p: Plain, ops: seq<Op>)
    requires Good(c, p) && Usable(p.own) && forall op | op in ops :: Ordinary(op)
    ensures AlwaysAdmissible(c, p, ops)
    decreases |ops|
  {
    hide Good, CachedStep, Step, Fits, FitsBut, Usable;
    if ops != [] {
      assert Ordinary(ops[0]);
      UsableIsQuiet(c, p);
      StepIff(c, p, ops[0]);
      OrdinaryKeepsUsable(p, ops[0]);
      OrdinaryRuns(CachedStep(c, ops[0]).0, Step(p, ops[0]).0, ops[1..]);
    }
  }

  /**
    * Every run on the object in memory: from a cache that fits the plain object `p`, the outputs are
    * those of `p` and the object goes on showing the same as `p` at every step exactly if every step
    * is admissible, which ordinary operations on an object that names its class always are.
    */
  method Execute(d: Dynamic, ops: seq<Op>, ghost p: Plain) returns (outs: seq<Out>)
    requires d.Valid() && Good(State(d), p)
    modifies d
    ensures d.Valid()
    ensures State(d) == CachedRun(old(State(d)), ops) && outs == CachedOutputs(old(State(d)), ops)
    ensures AlwaysAgrees(old(State(d)), p, ops) <==> AlwaysAdmissible(old(State(d)), p, ops)
    ensures AlwaysAdmissible(old(State(d)), p, ops) ==> outs == Outputs(p, ops) && Transparent(State(d), Run(p, ops))
    ensures Usable(p.own) && (forall op | op in ops :: Ordinary(op)) ==> AlwaysAdmissible(old(State(d)), p, ops)
  {
    hide CachedStep, Step, Good, Ordinary, Usable, Transparent, Admissible, Agrees, Dynamic.Valid;
    ghost var c := State(d);
    RunIff(c, p, ops);
    if Usable(p.own) && forall op | op in ops :: Ordinary(op) {
      OrdinaryRuns(c, p, ops);
    }
    outs := [];
    for i := 0 to |ops|
      invariant d.Valid()
      invariant outs + CachedOutputs(State(d), ops[i..]) == CachedOutputs(c, ops)
      invariant CachedRun(State(d), ops[i..]) == CachedRun(c, ops)
    {
      assert ops[i..][0] == ops[i] && ops[i..][1..] == ops[i + 1..];
      var out := Do(d, ops[i]);
      assert outs + ([out] + CachedOutputs(State(d), ops[i + 1..]))
          == outs + [out] + CachedOutputs(State(d), ops[i + 1..]);
      outs := outs + [out];
    }
    assert outs + [] == outs;
    if AlwaysAdmissible(c, p, ops) {
      GoodIsTransparent(State(d), Run(p, ops));
    }
  }
}

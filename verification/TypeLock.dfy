/** Runs of C API calls on one object: setters, getters and `add_field`. */
module TypeLock {
  import opened Bytes
  import opened Values
  import Registry
  import opened Lookup
  import opened Caches

  /** What assigning text to an integer field with an `Enum` or `EnumFlags` attribute comes to. */
  datatype Coercion = NoAttribute | Parsed(i: int32) | Unparsable

  /**
    * `bison_set_*`, `bison_set_string`, `bison_get_*` (where `blank` is the value an empty field
    * takes) and `bison_add_field_*`.
    */
  datatype Call =
    | Set(k: uint32, v: Field)
    | SetText(k: uint32, text: Sized<byte>, coercion: Coercion)
    | Get(k: uint32, blank: Field)
    | Add(k: uint32, v: Field)

  datatype Code = Okay | ErrType | Duplicate | Exception

  // ---- What a call does ----

  /** What a setter or getter does to the field its key leads to: store a value, or only return a code. */
  datatype Effect = Store(v: Field) | Leave(code: Code)

  function Apply(c: Call, f: Field): Effect
    requires !c.Add?
  {
    match c
    case Set(_, v) => if Assigned(f, v).Some? then Store(v) else Leave(ErrType)
    case SetText(_, text, coercion) =>
      if Assigned(f, Text(text)).Some? then Store(Text(text))
      else if !f.Int? then Leave(ErrType)
      else (match coercion
            case NoAttribute => Leave(ErrType)
            case Parsed(i) => Store(Int(i))
            case Unparsable => Leave(Exception))
    case Get(_, blank) =>
      if f.Empty? then Store(blank) else if f.Tag() == blank.Tag() then Leave(Okay) else Leave(ErrType)
  }

  lemma ApplyKeepsAlternative(c: Call, f: Field)
    requires !c.Add?
    ensures Apply(c, f).Store? ==> f.Empty? || Apply(c, f).v.Tag() == f.Tag()
    ensures Apply(c, f) == Leave(ErrType) ==> !f.Empty?
  {
  }

  /** The object after a call, and the code returned. */
  function After(s: Cached, c: Call): (Cached, Code) {
    if c.Add? then
      if c.k in s.fields then (s, Duplicate) else (With(s, s.fields[c.k := c.v]), Okay)
    else
      var r := Reach(s, c.k);
      if r.Blocked? then (r.after, ErrType)
      else
        match Apply(c, r.f.value)
        case Store(v) => (With(r.after, r.after.fields[c.k := v]), Okay)
        case Leave(code) => (r.after, code)
  }

  method Invoke(d: Dynamic, c: Call) returns (code: Code)
    requires d.Valid()
    modifies d`nodes, d`lookup, d`next
    ensures d.Valid() && State(d) == After(old(State(d)), c).0 && code == After(old(State(d)), c).1
  {
    StateIsCoherent(d);
    hide Reach, Apply, Dynamic.Valid;
    ghost var s := State(d);
    if c.Add? {
      var inserted := d.AddField(c.k, c.v);
      assert c.k in s.fields ==> s.misses - {c.k} == s.misses;
      assert s.misses - s.fields[c.k := c.v].Keys == s.misses - {c.k};
      return if inserted then Okay else Duplicate;
    }
    var ok := ReachIn(d, c.k);
    if !ok {
      return ErrType;
    }
    var effect := Apply(c, d.nodes[c.k].value);
    if effect.Leave? {
      return effect.code;
    }
    StateIsCoherent(d);
    ghost var r := State(d);
    d.Store(c.k, effect.v);
    assert r.misses - r.fields[c.k := effect.v].Keys == r.misses;
    return Okay;
  }

  // ---- The lock ----

  /** Every own field that is not empty keeps its alternative. */
  predicate OwnLock(a: Fields, b: Fields) {
    forall k | k in a && !a[k].Empty? :: k in b && b[k].Tag() == a[k].Tag()
  }

  predicate Keeps(before: Answer<Field>, after: Answer<Field>) {
    before.Gives? && !before.value.Empty? ==> after.Gives? && after.value.Tag() == before.value.Tag()
  }

  /** Every field a lookup finds that is not empty keeps its alternative. */
  ghost predicate ShownLock(a: Cached, b: Cached) {
    forall k :: Keeps(Shown(a, k), Shown(b, k))
  }

  /** Lookups answer the same. */
  ghost predicate ShowsSame(a: Cached, b: Cached) {
    forall k :: Shown(a, k) == Shown(b, k)
  }

  /** The value a call stores under its key, if it stores one. */
  function Written(s: Cached, c: Call): Option<Field> {
    if c.Add? then if c.k in s.fields then None else Some(c.v)
    else
      var r := Reach(s, c.k);
      if r.Blocked? then None
      else match Apply(c, r.f.value) case Store(v) => Some(v) case Leave(_) => None
  }

  /** The call looks its key up in the classes. */
  predicate Walks(s: Cached, c: Call) {
    !c.Add? && c.k !in s.fields && c.k !in s.misses
  }

  /** Every default the object would still look up has the same alternative with the reserved fields of `own`. */
  ghost predicate DefaultsKeep(s: Cached, own: Fields) {
    forall k | !Reserved(k) && k !in s.fields && k !in s.misses ::
      Keeps(Afresh(s.spaces, s.fields, k), Afresh(s.spaces, own, k))
  }

  /**
    * What a namespace `w` does to the answers about the reserved keys: if the object had none it must
    * be a key, and an object without a class stays in a namespace that exists.
    */
  predicate NamespaceKeeps(s: Cached, w: Field) {
    && (NAMESPACE !in s.fields && Kind(s.spaces, s.fields).Some? ==> w.Key?)
    && (CLASS !in s.fields && CLASS !in s.misses && Placed(s.spaces, s.fields) ==>
          Placed(s.spaces, s.fields[NAMESPACE := w]))
  }

  /**
    * What a class `w` does to them: where key 0 was found it must be a key, and on an object without a
    * namespace it must not make the lookup of that throw.
    */
  predicate ClassKeeps(s: Cached, w: Field) {
    && (CLASS !in s.fields && CLASS !in s.misses && Placed(s.spaces, s.fields) ==> w.Key?)
    && (NAMESPACE !in s.fields && Kind(s.spaces, s.fields).Some? && 0 in s.spaces ==> w.Key? || w.Empty?)
  }

  /**
    * `add_field` does not cover a default of another alternative that is not remembered as missing. A
    * value stored as class or namespace leads to defaults of the same alternatives and, unless the
    * call has just put the other reserved field in place, to the same kind of reserved fields.
    */
  ghost predicate Harmless(s: Cached, c: Call) {
    if Reserved(c.k) then
      Written(s, c).Some? ==>
        var w := Written(s, c).value;
        && DefaultsKeep(s, s.fields[c.k := w])
        && (!Walks(s, c) ==> if c.k == NAMESPACE then NamespaceKeeps(s, w) else ClassKeeps(s, w))
    else
      c.Add? && c.k !in s.fields && c.k !in s.misses ==> Keeps(Afresh(s.spaces, s.fields, c.k), Gives(c.v))
  }

  // ---- How a call changes what is shown ----

  lemma EmptyIsStored(c: Call)
    requires !c.Add?
    ensures Apply(c, Empty).Store?
  {
  }

  /** `operator[]` in closed form. */
  lemma ReachIs(s: Cached, k: uint32)
    requires Coherent(s)
    ensures var (m, found) := (Completion(s.spaces, s.fields), Afresh(s.spaces, s.fields, k));
            Reach(s, k) ==
            if k in s.fields then Looked(s, Some(s.fields[k]))
            else if k in s.misses then Looked(With(s, s.fields[k := Empty]), Some(Empty))
            else if found.Throws? then Blocked(With(s, m))
            else if found.Gives? then Looked(With(s, m[k := found.value]), Some(found.value))
            else Looked(With(s, m[k := Empty]), Some(Empty))
  {
    hide Completion, Afresh, SlowPath;
    if k !in s.fields && k !in s.misses {
      LookIs(s, k);
      var m := Completion(s.spaces, s.fields);
      assert ((s.misses + {k}) - m.Keys) - m[k := Empty].Keys == s.misses - m[k := Empty].Keys;
    }
  }

  lemma WithTwice(s: Cached, a: Fields, k: uint32, v: Field)
    ensures With(With(s, a), a[k := v]) == With(s, a[k := v])
  {
    assert (s.misses - a.Keys) - a[k := v].Keys == s.misses - a[k := v].Keys;
  }

  /** The fields a setter or getter leaves, given those it looked its key up in and what it wrote. */
  function Left(s: Cached, c: Call): Fields {
    var (w, found) := (Written(s, c), Afresh(s.spaces, s.fields, c.k));
    var base := if Walks(s, c) then Completion(s.spaces, s.fields) else s.fields;
    if w.Some? then base[c.k := w.value]
    else if Walks(s, c) && found.Gives? then base[c.k := found.value]
    else base
  }

  lemma AfterIsLeft(s: Cached, c: Call)
    requires Coherent(s)
    ensures After(s, c).0 == With(s, Left(s, c))
  {
    hide Completion, Afresh, Apply, Reach;
    assert s.misses - s.fields.Keys == s.misses;
    if !c.Add? {
      ReachIs(s, c.k);
      EmptyIsStored(c);
      var r := Reach(s, c.k);
      if Written(s, c).Some? {
        var v := Written(s, c).value;
        var base := if Walks(s, c) then Completion(s.spaces, s.fields) else s.fields;
        WithTwice(s, r.after.fields, c.k, v);
        WithTwice(s, base, c.k, v);
      }
    }
  }

  /** What is written has the alternative of what was found, unless that was empty. */
  lemma WrittenIs(s: Cached, c: Call)
    requires Coherent(s)
    ensures var (w, found) := (Written(s, c), Afresh(s.spaces, s.fields, c.k));
            && (Walks(s, c) && found.Throws? ==> w.None?)
            && (Walks(s, c) && found.Gives? && w.Some? ==> found.value.Empty? || w.value.Tag() == found.value.Tag())
            && (c.k in s.fields && w.Some? ==> s.fields[c.k].Empty? || w.value.Tag() == s.fields[c.k].Tag())
  {
    hide Completion, Afresh, Apply, Reach;
    if !c.Add? {
      ReachIs(s, c.k);
      var r := Reach(s, c.k);
      if r.Looked? {
        ApplyKeepsAlternative(c, r.f.value);
      }
    }
  }

  /** The fields after a call: those before, completed if it walked, with the value found or written. */
  lemma AfterIs(s: Cached, c: Call)
    requires Coherent(s)
    ensures var a := After(s, c).0;
            && a.spaces == s.spaces && a.fields == Left(s, c)
            && a.misses == s.misses - a.fields.Keys && Coherent(a)
  {
    hide After, Left;
    AfterIsLeft(s, c);
  }

  /** Whatever the call, an own field that is not empty keeps its alternative. */
  lemma CallKeepsOwn(s: Cached, c: Call)
    requires Coherent(s)
    ensures OwnLock(s.fields, After(s, c).0.fields)
  {
    hide After, Written, Completion, Afresh;
    AfterIs(s, c);
    WrittenIs(s, c);
    CompletionIs(s.spaces, s.fields);
  }

  lemma OwnKept(s: Cached, c: Call, k: uint32)
    requires Coherent(s) && k in s.fields
    ensures Keeps(Shown(s, k), Shown(After(s, c).0, k))
  {
    hide After, Afresh, Shown;
    CallKeepsOwn(s, c);
    ShownIs(s, k);
    ShownIs(After(s, c).0, k);
  }

  lemma TargetKept(s: Cached, c: Call)
    requires Coherent(s) && c.k !in s.fields && c.k !in s.misses
    ensures Keeps(Shown(s, c.k), Shown(After(s, c).0, c.k)) <==>
            (c.Add? ==> Keeps(Afresh(s.spaces, s.fields, c.k), Gives(c.v)))
  {
    hide After, Afresh, Shown, Completion, Reach, Apply;
    AfterIs(s, c);
    WrittenIs(s, c);
    ShownIs(s, c.k);
    ShownIs(After(s, c).0, c.k);
  }

  /** A key the call is not about, which the object neither holds nor remembers as missing. */
  lemma OtherKept(s: Cached, c: Call, k: uint32)
    requires Coherent(s) && k != c.k && k !in s.fields && k !in s.misses
    ensures Keeps(Shown(s, k), Shown(After(s, c).0, k)) <==>
            (Reserved(c.k) && Written(s, c).Some? && !(Walks(s, c) && Reserved(k)) ==>
               Keeps(Afresh(s.spaces, s.fields, k), Afresh(s.spaces, s.fields[c.k := Written(s, c).value], k)))
  {
    hide After, Afresh, Shown, Completion, Written, Placed, Resolve;
    var (a, w) := (After(s, c).0, Written(s, c));
    AfterIs(s, c);
    WrittenIs(s, c);
    CompletionIs(s.spaces, s.fields);
    ShownIs(s, k);
    ShownIs(a, k);
    if Reserved(c.k) && w.Some? {
      AfreshAlike(s.spaces, s.fields[c.k := w.value], a.fields);
      if Walks(s, c) && Reserved(k) {
        CompletedByWalk(s.spaces, s.fields, c.k, k);
      }
    } else {
      if Reserved(c.k) && Walks(s, c) {
        ReservedFoundAfresh(s.spaces, s.fields, c.k);
      }
      if Reserved(k) {
        ReservedFoundAfresh(s.spaces, s.fields, k);
      }
      AfreshAlike(s.spaces, s.fields, a.fields);
    }
  }

  /** A walk for one reserved key puts the other one in place if lookups find it. */
  lemma CompletedByWalk(spaces: Registry.Namespaces, own: Fields, k: uint32, l: uint32)
    requires Reserved(k) && Reserved(l) && k != l && k !in own && l !in own
    ensures var (m, found) := (Completion(spaces, own), Afresh(spaces, own, l));
            && (!found.Throws? ==> !Afresh(spaces, own, k).Throws?)
            && (l in m && !Afresh(spaces, own, k).Throws? ==> found == Gives(m[l]))
            && (found.Gives? ==> l in m)
  {
  }

  lemma KeyKept(s: Cached, c: Call, k: uint32)
    requires Coherent(s)
    ensures Keeps(Shown(s, k), Shown(After(s, c).0, k)) <==> HarmlessAt(s, c, k)
  {
    hide After, Afresh, Shown, Written;
    if k in s.fields {
      OwnKept(s, c, k);
    } else if k in s.misses {
      ShownIs(s, k);
    } else if k == c.k {
      TargetKept(s, c);
    } else {
      OtherKept(s, c, k);
    }
  }

  /** What one key needs for its alternative to be kept. */
  predicate HarmlessAt(s: Cached, c: Call, k: uint32) {
    var found := Afresh(s.spaces, s.fields, k);
    k in s.fields || k in s.misses ||
    if k == c.k then c.Add? ==> Keeps(found, Gives(c.v))
    else
      Reserved(c.k) && Written(s, c).Some? && !(Walks(s, c) && Reserved(k)) ==>
        Keeps(found, Afresh(s.spaces, s.fields[c.k := Written(s, c).value], k))
  }

  /** For the reserved keys that need is what `NamespaceKeeps` and `ClassKeeps` say. */
  lemma ReservedKeysHarmless(s: Cached, c: Call)
    requires Coherent(s)
    ensures HarmlessAt(s, c, CLASS) && HarmlessAt(s, c, NAMESPACE) <==>
            (Reserved(c.k) && Written(s, c).Some? && !Walks(s, c) ==>
               var w := Written(s, c).value;
               if c.k == NAMESPACE then NamespaceKeeps(s, w) else ClassKeeps(s, w))
  {
    hide Inherits, Apply, Reach;
    if Reserved(c.k) && Written(s, c).Some? {
      var w := Written(s, c).value;
      assert c.Add? ==> w == c.v;
    }
  }

  /**
    * A call keeps the alternative of everything lookups find, the reserved fields included, if and
    * only if it is harmless; setters and getters of ordinary fields always are.
    */
  lemma LockIff(s: Cached, c: Call)
    requires Coherent(s)
    ensures ShownLock(s, After(s, c).0) <==> Harmless(s, c)
    ensures !c.Add? && !Reserved(c.k) ==> ShownLock(s, After(s, c).0)
  {
    hide After, Afresh, Shown, Written, Keeps, NamespaceKeeps, ClassKeeps, Walks;
    forall k
      ensures Keeps(Shown(s, k), Shown(After(s, c).0, k)) <==> HarmlessAt(s, c, k)
    {
      KeyKept(s, c, k);
    }
    ReservedKeysHarmless(s, c);
    OrdinaryKeysHarmless(s, c);
    assert (forall k :: HarmlessAt(s, c, k)) <==>
           HarmlessAt(s, c, CLASS) && HarmlessAt(s, c, NAMESPACE) && forall k | !Reserved(k) :: HarmlessAt(s, c, k);
  }

  lemma OrdinaryKeysHarmless(s: Cached, c: Call)
    ensures (forall k | !Reserved(k) :: HarmlessAt(s, c, k)) <==>
            if Reserved(c.k) then Written(s, c).Some? ==> DefaultsKeep(s, s.fields[c.k := Written(s, c).value])
            else
              c.Add? && c.k !in s.fields && c.k !in s.misses ==>
                Keeps(Afresh(s.spaces, s.fields, c.k), Gives(c.v))
  {
    hide Afresh, Written, Keeps;
    if !Reserved(c.k) && forall k | !Reserved(k) :: HarmlessAt(s, c, k) {
      assert HarmlessAt(s, c, c.k);
    }
  }

  /** `add_field` over a default: the alternative is kept if and only if it is the default's. */
  lemma AddOverDefault(s: Cached, k: uint32, v: Field)
    requires Coherent(s) && !Reserved(k) && k !in s.fields && k !in s.misses
    requires Shown(s, k).Gives? && !Shown(s, k).value.Empty?
    ensures After(s, Add(k, v)).1 == Okay
    ensures ShownLock(s, After(s, Add(k, v)).0) <==> v.Tag() == Shown(s, k).value.Tag()
  {
    hide Afresh, Shown, ShownLock;
    ShownIs(s, k);
    LockIff(s, Add(k, v));
  }

  /** A change of class: kept if and only if the new class has defaults of the same alternatives. */
  lemma ClassWriteLock(s: Cached, klass: uint32)
    requires Coherent(s) && CLASS in s.fields && s.fields[CLASS].Key?
    ensures After(s, Set(CLASS, Key(klass))).1 == Okay
    ensures ShownLock(s, After(s, Set(CLASS, Key(klass))).0) <==>
            DefaultsKeep(s, s.fields[CLASS := Key(klass)])
  {
    hide Afresh, Shown, ShownLock, Keeps;
    LockIff(s, Set(CLASS, Key(klass)));
    assert Written(s, Set(CLASS, Key(klass))) == Some(Key(klass));
  }

  // ---- What a call means ----

  /** The value a call stores where a lookup found `before`, if it succeeds, told without its code. */
  function Meant(c: Call, before: Answer<Field>): Option<Field> {
    if c.Add? then Some(c.v)
    else if before.Throws? then None
    else
      var open := before.Nothing? || before.value.Empty?;
      match c
      case Set(_, v) => if open || v.Tag() == before.value.Tag() then Some(v) else None
      case SetText(_, text, coercion) =>
        if open || before.value.Text? then Some(Text(text))
        else if before.value.Int? && coercion.Parsed? then Some(Int(coercion.i))
        else None
      case Get(_, blank) =>
        if open then Some(blank) else if blank.Tag() == before.value.Tag() then Some(before.value) else None
  }

  /** The fields of `a` are those of `s`, but for `k` and for reserved ones that were missing or empty. */
  ghost predicate UntouchedBut(s: Cached, a: Cached, k: uint32) {
    && a.spaces == s.spaces && a.misses == s.misses - a.fields.Keys
    && (forall l | l != k && l in s.fields ::
          l in a.fields &&
          (a.fields[l] == s.fields[l] || (Reserved(l) && s.fields[l].Empty? && a.fields[l] == Key(0))))
    && (forall l | l != k && l in a.fields && l !in s.fields :: Reserved(l) && a.fields[l] == Key(0))
  }

  /**
    * A call succeeds if and only if what lookups find under its key is missing, empty or of the
    * alternative it writes, and then they find the value it was given: the text or the number it was
    * parsed to, for a getter what was there or the blank value. `add_field` succeeds if and only if
    * there is no own field. Otherwise the code says why, and no other field is touched in any case.
    */
  lemma CallMeans(s: Cached, c: Call)
    requires Coherent(s)
    ensures var ((a, code), before) := (After(s, c), Shown(s, c.k));
            && (code == Okay <==> if c.Add? then c.k !in s.fields else Meant(c, before).Some?)
            && (code == Okay ==> Shown(a, c.k) == Gives(Meant(c, before).value))
            && (code != Okay ==>
                  code ==
                  if c.Add? then Duplicate
                  else if c.SetText? && before.Gives? && before.value.Int? && c.coercion.Unparsable? then Exception
                  else ErrType)
            && UntouchedBut(s, a, c.k)
  {
    hide Afresh, Completion, Shown, Reach, UntouchedBut;
    var a := After(s, c).0;
    CallTouchesOne(s, c);
    ShownIs(s, c.k);
    ShownIs(a, c.k);
    if !c.Add? {
      ReachIs(s, c.k);
    }
  }

  lemma CallTouchesOne(s: Cached, c: Call)
    requires Coherent(s)
    ensures UntouchedBut(s, After(s, c).0, c.k)
  {
    hide After, Written, Afresh, Completion;
    AfterIs(s, c);
    CompletionIs(s.spaces, s.fields);
  }

  // ---- Type errors ----

  /**
    * A call that returns a type error changes no answer about an ordinary field. It changes none at
    * all if and only if the object holds its key already or the walk it made was a quiet one.
    */
  lemma TypeErrorIff(s: Cached, c: Call)
    requires Coherent(s) && After(s, c).1 == ErrType
    ensures forall k | !Reserved(k) :: Shown(s, k) == Shown(After(s, c).0, k)
    ensures ShowsSame(s, After(s, c).0) <==> c.k in s.fields || Quiet(s)
  {
    hide Afresh, Shown, Apply, Look, Quiet;
    TypeErrorOnlyLooks(s, c);
    if c.k !in s.fields {
      QuietIff(s, c.k);
      forall k | !Reserved(k)
        ensures Shown(s, k) == Shown(After(s, c).0, k)
      {
        WalkShowsOrdinary(s, c.k, k);
      }
    }
  }

  /** Such a call stores nothing: it looks its key up and no more. */
  lemma TypeErrorOnlyLooks(s: Cached, c: Call)
    requires After(s, c).1 == ErrType
    ensures !c.Add? && c.k !in s.misses - s.fields.Keys
    ensures After(s, c).0 == if c.k in s.fields then s else Look(s, c.k).after
  {
    hide Apply, SlowPath;
    EmptyIsStored(if c.Add? then Get(c.k, Empty) else c);
  }

  // ---- Registration ----

  /** The namespace an object without one is in comes into being, and its class is no key. */
  predicate Shuts(s: Cached, call: Registry.Call) {
    && NAMESPACE !in s.fields && CLASS in s.fields && !s.fields[CLASS].Key? && !s.fields[CLASS].Empty?
    && 0 !in s.spaces && 0 in Registry.Register(s.spaces, call)
  }

  lemma ReservedStay(s: Cached, call: Registry.Call)
    ensures var after := Registry.Register(s.spaces, call);
            && (CLASS !in s.fields ==> Keeps(Afresh(s.spaces, s.fields, CLASS), Afresh(after, s.fields, CLASS)))
            && (NAMESPACE !in s.fields ==>
                  (Keeps(Afresh(s.spaces, s.fields, NAMESPACE), Afresh(after, s.fields, NAMESPACE)) <==>
                   !Shuts(s, call)))
  {
    hide Registry.Register, Inherits;
    if Resolve(s.fields).Some? && Resolve(s.fields).value.1 in s.spaces {
      SpacesStay(s.spaces, call, Resolve(s.fields).value.1);
    }
  }

  /** Registering a class keeps the alternative of all that lookups find unless it shuts the object. */
  lemma GrowthLockIff(s: Cached, call: Registry.Call)
    requires Coherent(s) && Registry.Sound(s.spaces)
    ensures ShownLock(s, s.(spaces := Registry.Register(s.spaces, call))) <==> !Shuts(s, call)
  {
    hide Registry.Register, Registry.Sound, Afresh, Shown;
    var s' := s.(spaces := Registry.Register(s.spaces, call));
    ReservedStay(s, call);
    ShownIs(s, NAMESPACE);
    ShownIs(s', NAMESPACE);
    if !Shuts(s, call) {
      forall k
        ensures Keeps(Shown(s, k), Shown(s', k))
      {
        ShownIs(s, k);
        ShownIs(s', k);
        if k !in s.fields && !Reserved(k) && Afresh(s.spaces, s.fields, k).Gives? {
          FoundStays(s.spaces, s.fields, call, k);
        }
      }
    }
  }

  // ---- Runs ----

  function AfterAll(s: Cached, calls: seq<Call>): Cached
    decreases |calls|
  {
    if calls == [] then s else AfterAll(After(s, calls[0]).0, calls[1..])
  }

  function Codes(s: Cached, calls: seq<Call>): seq<Code>
    decreases |calls|
  {
    if calls == [] then [] else [After(s, calls[0]).1] + Codes(After(s, calls[0]).0, calls[1..])
  }

  /** No call of the run changes the alternative of anything a lookup found before it. */
  ghost predicate AlwaysLocked(s: Cached, calls: seq<Call>)
    decreases |calls|
  {
    calls != [] ==> ShownLock(s, After(s, calls[0]).0) && AlwaysLocked(After(s, calls[0]).0, calls[1..])
  }

  ghost predicate AlwaysHarmless(s: Cached, calls: seq<Call>)
    decreases |calls|
  {
    calls != [] ==> Harmless(s, calls[0]) && AlwaysHarmless(After(s, calls[0]).0, calls[1..])
  }

  lemma OwnLockChains(a: Fields, b: Fields, c: Fields)
    requires OwnLock(a, b) && OwnLock(b, c)
    ensures OwnLock(a, c)
  {
  }

  lemma ShownLockChains(a: Cached, b: Cached, c: Cached)
    requires ShownLock(a, b) && ShownLock(b, c)
    ensures ShownLock(a, c)
  {
    hide Shown;
    forall k
      ensures Keeps(Shown(a, k), Shown(c, k))
    {
      assert Keeps(Shown(a, k), Shown(b, k)) && Keeps(Shown(b, k), Shown(c, k));
    }
  }

  lemma AfterIsCoherent(s: Cached, c: Call)
    requires Coherent(s)
    ensures Coherent(After(s, c).0)
  {
    hide After, Written, Completion, Afresh;
    AfterIs(s, c);
  }

  /**
    * Along every run own fields keep their alternative for ever. What lookups find keeps its
    * alternative at every step if and only if every call is harmless when it is made, and then it
    * does from the beginning of the run to its end.
    */
  lemma {:induction false} RunLockIff(s: Cached, calls: seq<Call>)
    requires Coherent(s)
    ensures OwnLock(s.fields, AfterAll(s, calls).fields)
    ensures AlwaysLocked(s, calls) <==> AlwaysHarmless(s, calls)
    ensures AlwaysHarmless(s, calls) ==> ShownLock(s, AfterAll(s, calls))
    decreases |calls|
  {
    hide After, Harmless, Coherent, Shown, OwnLock, Keeps;
    if calls == [] {
      SameAtFirst(s);
    } else {
      var s' := After(s, calls[0]).0;
      CallKeepsOwn(s, calls[0]);
      LockIff(s, calls[0]);
      AfterIsCoherent(s, calls[0]);
      RunLockIff(s', calls[1..]);
      OwnLockChains(s.fields, s'.fields, AfterAll(s, calls).fields);
      if AlwaysHarmless(s, calls) {
        ShownLockChains(s, s', AfterAll(s, calls));
      }
    }
  }

  lemma SameAtFirst(s: Cached)
    ensures OwnLock(s.fields, s.fields) && ShownLock(s, s)
  {
    hide Shown;
  }

  /** The calls as they run on the object in memory. */
  method RunCalls(d: Dynamic, calls: seq<Call>) returns (codes: seq<Code>)
    requires d.Valid()
    modifies d`nodes, d`lookup, d`next
    ensures d.Valid() && State(d) == AfterAll(old(State(d)), calls) && codes == Codes(old(State(d)), calls)
    ensures OwnLock(old(d.View()), d.View())
    ensures AlwaysLocked(old(State(d)), calls) <==> AlwaysHarmless(old(State(d)), calls)
    ensures AlwaysHarmless(old(State(d)), calls) ==> ShownLock(old(State(d)), State(d))
  {
    hide After, AlwaysLocked, AlwaysHarmless, ShownLock, OwnLock, Coherent, Dynamic.Valid, Dynamic.View;
    ghost var s := State(d);
    StateIsCoherent(d);
    RunLockIff(s, calls);
    codes := [];
    for i := 0 to |calls|
      invariant d.Valid()
      invariant codes + Codes(State(d), calls[i..]) == Codes(s, calls)
      invariant AfterAll(State(d), calls[i..]) == AfterAll(s, calls)
    {
      assert calls[i..][0] == calls[i] && calls[i..][1..] == calls[i + 1..];
      var code := Invoke(d, calls[i]);
      assert codes + ([code] + Codes(State(d), calls[i + 1..])) == codes + [code] + Codes(State(d), calls[i + 1..]);
      codes := codes + [code];
    }
    assert codes + [] == codes;
  }
}

/** Short runs on a registry of two classes that show what the exact conditions shut out. */
module Witnesses {
  import opened Bytes
  import opened Values
  import opened Chains
  import Registry
  import opened Lookup
  import opened Caches
  import opened Sessions
  import TypeLock
  import Schema

  const X: uint32 := 7
  const Y: uint32 := 8

  /** Class 1 declares an integer under X; class 2 declares text there, and a boolean under Y. */
  const FIRST := Registry.Call(0, Proto(map[CLASS := Key(1), X := Int(1)], map[]), 0)
  const SECOND := Registry.Call(0, Proto(map[CLASS := Key(2), X := Text([]), Y := Bool(true)], map[]), 0)

  const FIRST_FIELDS: Fields := map[CLASS := Key(1), X := Int(1), PARENT := Key(0), NAMESPACE := Key(0)]
  const SECOND_FIELDS: Fields :=
    map[CLASS := Key(2), X := Text([]), Y := Bool(true), PARENT := Key(0), NAMESPACE := Key(0)]

  const ONE: Collection := map[1 := Proto(FIRST_FIELDS, map[])]
  const BOTH: Collection := map[1 := Proto(FIRST_FIELDS, map[]), 2 := Proto(SECOND_FIELDS, map[])]
  const SPACES: Registry.Namespaces := map[0 := BOTH]

  lemma RootChain(col: Collection, k: uint32)
    requires k in col && Parent(col[k]) !in col
    ensures Chain(col, k) == [k]
    ensures forall x :: Registry.Nearest(Registry.FieldLayers(col, Chain(col, k)), x) ==
                        if x in col[k].fields then Some(col[k].fields[x]) else None
  {
    assert |col| > 0;
    assert ChainWithin(col, Parent(col[k]), |col| - 1) == [];
    var layers := Registry.FieldLayers(col, [k]);
    assert layers[1..] == [];
  }

  lemma Defaults(klass: uint32, x: uint32)
    requires klass == 1 || klass == 2
    ensures Registry.InheritedField(SPACES, 0, klass, x) ==
            if x in BOTH[klass].fields then Some(BOTH[klass].fields[x]) else None
  {
    RootChain(BOTH, klass);
  }

  lemma FirstCall()
    ensures Registry.Register(map[], FIRST) == map[0 := ONE]
  {
    var none: Collection := map[];
    assert Registry.Prepare(FIRST).value.fields == FIRST_FIELDS;
    assert Last(none, 0) == 0;
    assert none[1 := Proto(FIRST_FIELDS, map[])] == ONE;
  }

  lemma SecondCall()
    ensures Registry.Register(map[0 := ONE], SECOND) == SPACES
  {
    assert Registry.Prepare(SECOND).value.fields == SECOND_FIELDS;
    assert Last(ONE, 0) == 0;
    assert ONE[2 := Proto(SECOND_FIELDS, map[])] == BOTH;
  }

  /** The two classes are registered by two calls. */
  lemma TwoCalls()
    ensures Registry.Run([FIRST, SECOND]) == SPACES && Registry.Sound(SPACES)
  {
    hide Registry.Register;
    var calls := [FIRST, SECOND];
    assert calls[..1] == [FIRST] && [FIRST][..0] == [];
    assert Registry.Run([]) == map[];
    assert Registry.Run([FIRST]) == Registry.Register(Registry.Run([]), FIRST);
    assert Registry.Run(calls) == Registry.Register(Registry.Run([FIRST]), SECOND);
    FirstCall();
    SecondCall();
    Registry.EveryRunIsSound(calls);
  }

  const OBJECT: Fields := map[CLASS := Key(1)]
  const FRESH := Cached(SPACES, OBJECT, {})
  const PLAIN := Plain(SPACES, OBJECT)

  /** What an object of class 1 or 2 in namespace 0 finds afresh. */
  lemma FindsAfresh(own: Fields, klass: uint32, k: uint32)
    requires CLASS in own && own[CLASS] == Key(klass) && (klass == 1 || klass == 2) && !Reserved(k)
    requires NAMESPACE !in own || own[NAMESPACE] == Key(0) || own[NAMESPACE].Empty?
    ensures Afresh(SPACES, own, k) ==
            if k in BOTH[klass].fields then Gives(BOTH[klass].fields[k]) else Nothing
  {
    hide Registry.InheritedField;
    Defaults(klass, k);
  }

  lemma Three<T>(a: T, b: T, c: T)
    ensures [a, b, c][1..] == [b, c] && [b, c][1..] == [c] && [c][1..] == []
  {
  }

  lemma ThreeSteps(c: Cached, p: Plain, x: Op, y: Op, z: Op)
    ensures var (c1, p1) := (CachedStep(c, x).0, Step(p, x).0);
            var (c2, p2) := (CachedStep(c1, y).0, Step(p1, y).0);
            && CachedOutputs(c, [x, y, z]) == [CachedStep(c, x).1, CachedStep(c1, y).1, CachedStep(c2, z).1]
            && Outputs(p, [x, y, z]) == [Step(p, x).1, Step(p1, y).1, Step(p2, z).1]
  {
    hide CachedStep, Step;
    Three(x, y, z);
    var (c1, p1) := (CachedStep(c, x).0, Step(p, x).0);
    var (c2, p2) := (CachedStep(c1, y).0, Step(p1, y).0);
    assert CachedOutputs(c2, [z]) == [CachedStep(c2, z).1] && Outputs(p2, [z]) == [Step(p2, z).1];
    assert CachedOutputs(c1, [y, z]) == [CachedStep(c1, y).1, CachedStep(c2, z).1];
    assert Outputs(p1, [y, z]) == [Step(p1, y).1, Step(p2, z).1];
  }

  /** A run on a fresh object whose outputs differ has a step that is not admissible. */
  lemma NotAdmissible(p: Plain, ops: seq<Op>)
    requires CachedOutputs(Cached(p.spaces, p.own, {}), ops) != Outputs(p, ops)
    ensures !AlwaysAdmissible(Cached(p.spaces, p.own, {}), p, ops)
  {
    hide Good, CachedOutputs, Outputs, AlwaysAdmissible, AlwaysAgrees;
    FreshIsGood(p);
    RunIff(Cached(p.spaces, p.own, {}), p, ops);
  }

  /** The first lookup of X by the object copies the integer of class 1. */
  const COPIED := Cached(SPACES, map[CLASS := Key(1), NAMESPACE := Key(0), X := Int(1)], {})

  /** The first lookup of Y by the object is remembered as a miss. */
  const MISSED := Cached(SPACES, map[CLASS := Key(1), NAMESPACE := Key(0)], {Y})

  lemma FirstLookups()
    ensures CachedStep(FRESH, Find(X)) == (COPIED, Value(Int(1))) && Step(PLAIN, Find(X)) == (PLAIN, Value(Int(1)))
    ensures CachedStep(FRESH, Find(Y)) == (MISSED, Absent) && Step(PLAIN, Find(Y)) == (PLAIN, Absent)
  {
    hide Look, Shown, Afresh;
    FindsAfresh(OBJECT, 1, X);
    FindsAfresh(OBJECT, 1, Y);
    var m := Completion(SPACES, OBJECT);
    assert m == map[CLASS := Key(1), NAMESPACE := Key(0)];
    assert m[X := Int(1)] == COPIED.fields;
    LookIs(FRESH, X);
    LookIs(FRESH, Y);
    ShownIs(FRESH, X);
    ShownIs(FRESH, Y);
    assert {} - COPIED.fields.Keys == {} && ({} + {Y}) - m.Keys == {Y};
  }

  /** A default copied from one class is still shown after a change to a class with another. */
  lemma CopyOutlivesClass()
    ensures var ops := [Find(X), Write(CLASS, Key(2)), Find(X)];
            && CachedOutputs(FRESH, ops) == [Value(Int(1)), Done, Value(Int(1))]
            && Outputs(PLAIN, ops) == [Value(Int(1)), Done, Value(Text([]))]
            && !AlwaysAdmissible(FRESH, PLAIN, ops)
  {
    hide SlowPath, CachedOutputs, Outputs, AlwaysAdmissible, Afresh;
    ThreeSteps(FRESH, PLAIN, Find(X), Write(CLASS, Key(2)), Find(X));
    FirstLookups();
    var own := OBJECT[CLASS := Key(2)];
    FindsAfresh(own, 2, X);
    HeldIs(Plain(SPACES, own), X);
    NotAdmissible(PLAIN, [Find(X), Write(CLASS, Key(2)), Find(X)]);
  }

  /** A miss is still reported after a change to a class that declares the key. */
  lemma MissOutlivesClass()
    ensures var ops := [Find(Y), Write(CLASS, Key(2)), Find(Y)];
            && CachedOutputs(FRESH, ops) == [Absent, Done, Absent]
            && Outputs(PLAIN, ops) == [Absent, Done, Value(Bool(true))]
            && !AlwaysAdmissible(FRESH, PLAIN, ops)
  {
    hide SlowPath, CachedOutputs, Outputs, AlwaysAdmissible, Afresh;
    ThreeSteps(FRESH, PLAIN, Find(Y), Write(CLASS, Key(2)), Find(Y));
    FirstLookups();
    var own := OBJECT[CLASS := Key(2)];
    FindsAfresh(own, 2, Y);
    HeldIs(Plain(SPACES, own), Y);
    NotAdmissible(PLAIN, [Find(Y), Write(CLASS, Key(2)), Find(Y)]);
  }

  /** After a lookup of an inherited default `addField` refuses, though the object was given no field. */
  lemma LookupBlocksAddField()
    ensures var ops := [Find(X), Add(X, Int(5)), Find(X)];
            && CachedOutputs(FRESH, ops) == [Value(Int(1)), Refused, Value(Int(1))]
            && Outputs(PLAIN, ops) == [Value(Int(1)), Inserted, Value(Int(5))]
            && !AlwaysAdmissible(FRESH, PLAIN, ops)
  {
    hide SlowPath, CachedOutputs, Outputs, AlwaysAdmissible;
    ThreeSteps(FRESH, PLAIN, Find(X), Add(X, Int(5)), Find(X));
    FirstLookups();
    NotAdmissible(PLAIN, [Find(X), Add(X, Int(5)), Find(X)]);
  }

  /** After such a lookup `as<int32_t>` gives the copy, and 0 without it. */
  lemma LookupChangesCast()
    ensures var ops := [Find(X), Cast(X, Int(0)), Find(X)];
            && CachedOutputs(FRESH, ops) == [Value(Int(1)), Value(Int(1)), Value(Int(1))]
            && Outputs(PLAIN, ops) == [Value(Int(1)), Value(Int(0)), Value(Int(0))]
            && !AlwaysAdmissible(FRESH, PLAIN, ops)
  {
    hide SlowPath, CachedOutputs, Outputs, AlwaysAdmissible;
    ThreeSteps(FRESH, PLAIN, Find(X), Cast(X, Int(0)), Find(X));
    FirstLookups();
    NotAdmissible(PLAIN, [Find(X), Cast(X, Int(0)), Find(X)]);
  }

  /** An object of class 2 in a registry that does not have the class yet. */
  const EARLY: Registry.Namespaces := map[0 := ONE]
  const ORPHAN: Fields := map[CLASS := Key(2)]
  const MISSED_EARLY := Cached(EARLY, map[CLASS := Key(2), NAMESPACE := Key(0)], {X})

  lemma EarlyLookup()
    ensures CachedStep(Cached(EARLY, ORPHAN, {}), Find(X)) == (MISSED_EARLY, Absent)
    ensures Step(Plain(EARLY, ORPHAN), Find(X)) == (Plain(EARLY, ORPHAN), Absent)
  {
    hide Look, Shown, Registry.InheritedField;
    var c := Cached(EARLY, ORPHAN, {});
    assert Registry.InheritedField(EARLY, 0, 2, X) == None by { NothingYet(); }
    assert Completion(EARLY, ORPHAN) == MISSED_EARLY.fields;
    LookIs(c, X);
    ShownIs(c, X);
    assert ({} + {X}) - MISSED_EARLY.fields.Keys == {X};
  }

  lemma NothingYet()
    ensures Registry.InheritedField(EARLY, 0, 2, X) == None
  {
    assert Chain(ONE, 2) == [];
  }

  /** A miss is still reported after the class that declares the key has been registered. */
  lemma MissOutlivesRegistration()
    ensures var ops := [Find(X), Declare(SECOND), Find(X)];
            && CachedOutputs(Cached(EARLY, ORPHAN, {}), ops) == [Absent, Done, Absent]
            && Outputs(Plain(EARLY, ORPHAN), ops) == [Absent, Done, Value(Text([]))]
            && !AlwaysAdmissible(Cached(EARLY, ORPHAN, {}), Plain(EARLY, ORPHAN), ops)
  {
    hide Registry.Register, SlowPath, CachedOutputs, Outputs, AlwaysAdmissible, Afresh;
    ThreeSteps(Cached(EARLY, ORPHAN, {}), Plain(EARLY, ORPHAN), Find(X), Declare(SECOND), Find(X));
    EarlyLookup();
    SecondCall();
    FindsAfresh(ORPHAN, 2, X);
    HeldIs(Plain(SPACES, ORPHAN), X);
    NotAdmissible(Plain(EARLY, ORPHAN), [Find(X), Declare(SECOND), Find(X)]);
  }

  // ---- The type lock ----

  /** `bison_set_key` on the class succeeds and turns the integer lookups find under X into text. */
  lemma ClassWriteUnlocks()
    ensures var c := TypeLock.Set(CLASS, Key(2));
            TypeLock.After(FRESH, c).1 == TypeLock.Okay && !TypeLock.ShownLock(FRESH, TypeLock.After(FRESH, c).0)
  {
    hide Afresh, TypeLock.After, TypeLock.ShownLock;
    TypeLock.ClassWriteLock(FRESH, 2);
    var own := OBJECT[CLASS := Key(2)];
    FindsAfresh(OBJECT, 1, X);
    FindsAfresh(own, 2, X);
    assert !TypeLock.Keeps(Afresh(SPACES, OBJECT, X), Afresh(SPACES, own, X));
  }

  /** `add_field` of text over the integer default under X succeeds and changes what lookups find. */
  lemma AddUnlocks()
    ensures var c := TypeLock.Add(X, Text([]));
            TypeLock.After(FRESH, c).1 == TypeLock.Okay && !TypeLock.ShownLock(FRESH, TypeLock.After(FRESH, c).0)
  {
    hide Afresh, Shown, TypeLock.ShownLock;
    FindsAfresh(OBJECT, 1, X);
    ShownIs(FRESH, X);
    TypeLock.AddOverDefault(FRESH, X, Text([]));
  }

  /** `add_field` of text as the namespace of a new object: lookups of it found key 0 before. */
  lemma NamespaceUnlocks()
    ensures var (s, c) := (Cached(map[], map[CLASS := Key(0)], {}), TypeLock.Add(NAMESPACE, Text([])));
            TypeLock.After(s, c).1 == TypeLock.Okay && !TypeLock.ShownLock(s, TypeLock.After(s, c).0)
  {
    hide TypeLock.ShownLock;
    TypeLock.LockIff(Cached(map[], map[CLASS := Key(0)], {}), TypeLock.Add(NAMESPACE, Text([])));
  }

  /**
    * A setter returns a type error and still turns an empty namespace into key 0, after which a call
    * that would have succeeded fails.
    */
  lemma TypeErrorShows()
    ensures var s := Cached(SPACES, map[CLASS := Key(1), NAMESPACE := Empty], {});
            var after := TypeLock.After(s, TypeLock.Set(X, Text([]))).0;
            var next := TypeLock.Set(NAMESPACE, Text([]));
            && TypeLock.After(s, TypeLock.Set(X, Text([]))).1 == TypeLock.ErrType
            && !TypeLock.ShowsSame(s, after)
            && TypeLock.After(s, next).1 == TypeLock.Okay && TypeLock.After(after, next).1 == TypeLock.ErrType
  {
    hide SlowPath, Afresh, TypeLock.ShowsSame;
    var s := Cached(SPACES, map[CLASS := Key(1), NAMESPACE := Empty], {});
    FindsAfresh(s.fields, 1, X);
    LookIs(s, X);
    TypeLock.TypeErrorIff(s, TypeLock.Set(X, Text([])));
  }

  /** The first class of namespace 0 makes lookups of the namespace throw if the class is no key. */
  lemma RegistrationShuts()
    ensures var s := Cached(map[], map[CLASS := Text([])], {});
            !TypeLock.ShownLock(s, s.(spaces := Registry.Register(map[], FIRST)))
  {
    hide TypeLock.ShownLock, Registry.Register;
    FirstCall();
    assert Registry.Sound(map[]);
    TypeLock.GrowthLockIff(Cached(map[], map[CLASS := Text([])], {}), FIRST);
  }

  // ---- Chains of two ----

  /** Class 2 below class 1, with another default for X. */
  const DERIVED := Registry.Call(0, Proto(map[CLASS := Key(2), X := Int(2)], map[]), 1)
  const DERIVED_FIELDS: Fields := map[CLASS := Key(2), X := Int(2), PARENT := Key(1), NAMESPACE := Key(0)]
  const CHAINED: Collection := map[1 := Proto(FIRST_FIELDS, map[]), 2 := Proto(DERIVED_FIELDS, map[])]
  const CHAINED_SPACES: Registry.Namespaces := map[0 := CHAINED]
  const INSTANCE: Fields := map[CLASS := Key(2), NAMESPACE := Key(0)]

  lemma DerivedCall()
    ensures Registry.Register(map[0 := ONE], DERIVED) == CHAINED_SPACES
  {
    assert Registry.Prepare(DERIVED).value.fields == DERIVED_FIELDS;
    assert LastWithin(ONE, 0, 0) == 0 && LastWithin(ONE, 1, 1) == 0;
    assert ONE[2 := Proto(DERIVED_FIELDS, map[])] == CHAINED;
  }

  lemma ChainedCalls()
    ensures Registry.Run([FIRST, DERIVED]) == CHAINED_SPACES && Registry.Sound(CHAINED_SPACES)
    ensures Acyclic(CHAINED)
  {
    hide Registry.Register, Acyclic;
    var calls := [FIRST, DERIVED];
    assert calls[..1] == [FIRST] && [FIRST][..0] == [];
    assert Registry.Run([]) == map[];
    assert Registry.Run([FIRST]) == Registry.Register(Registry.Run([]), FIRST);
    assert Registry.Run(calls) == Registry.Register(Registry.Run([FIRST]), DERIVED);
    FirstCall();
    DerivedCall();
    Registry.EveryRunIsSound(calls);
    Registry.SpaceIsSound(CHAINED_SPACES, 0);
  }

  lemma ChainOfTwo()
    ensures Chain(CHAINED, 2) == [2, 1] && Last(CHAINED, 2) == 0
  {
    assert |CHAINED| == 2;
    assert ChainWithin(CHAINED, 0, 0) == [] && LastWithin(CHAINED, 0, 0) == 0;
    assert ChainWithin(CHAINED, 1, 1) == [1] && LastWithin(CHAINED, 1, 1) == 0;
    assert ChainWithin(CHAINED, 2, 2) == [2] + ChainWithin(CHAINED, 1, 1);
  }

  /** Passing the registered class 1 to `addClass` again, below class 2, closes a cycle. */
  lemma ReparentingCloses()
    ensures !Acyclic(Reparented(CHAINED, 1, 2))
  {
    hide Acyclic, Chain;
    ChainedCalls();
    ChainOfTwo();
    ReparentingIsSafeIff(CHAINED, 1, 2);
  }

  lemma InstanceIsReadable()
    ensures Schema.Layers(CHAINED_SPACES, 0, 2) == [DERIVED_FIELDS, FIRST_FIELDS]
    ensures Schema.LayersReadable(true, INSTANCE, [DERIVED_FIELDS, FIRST_FIELDS])
  {
    hide Chain;
    ChainOfTwo();
  }

  /**
    * An instance of class 2 sent with the schema format comes back with the root's default for X and
    * with parent 0, where lookups on the original find class 2's default and parent 1.
    */
  lemma SchemaDiffers(tail: Bytes)
    ensures var r := Schema.DecodeWithSchema(CHAINED_SPACES, Schema.EncodeWithSchema(CHAINED_SPACES, INSTANCE) + tail);
            && r.Ok? && r.rest == tail
            && X in r.value && r.value[X] == Int(1) && Effective(CHAINED_SPACES, INSTANCE, X) == Some(Int(2))
            && PARENT in r.value && r.value[PARENT] == Key(0)
            && Effective(CHAINED_SPACES, INSTANCE, PARENT) == Some(Key(1))
  {
    hide Schema.DecodeWithSchema, Schema.EncodeWithSchema, Schema.LayersReadable, Schema.Layers, Chain, Last;
    InstanceIsReadable();
    ChainOfTwo();
    ChainedCalls();
    Schema.SchemaRoundTrip(CHAINED_SPACES, INSTANCE, tail);
    Schema.ParentIsShadowed(CHAINED_SPACES, INSTANCE, tail);
    NearestAndRootmost();
  }

  lemma NearestAndRootmost()
    ensures var layers := [DERIVED_FIELDS, FIRST_FIELDS];
            Registry.Nearest(layers, X) == Some(Int(2)) && Schema.Rootmost(layers, X) == Some(Int(1))
    ensures Registry.InheritedField(CHAINED_SPACES, 0, 2, X) == Some(Int(2))
  {
    hide Chain;
    var layers := [DERIVED_FIELDS, FIRST_FIELDS];
    assert layers[1..] == [FIRST_FIELDS] && [FIRST_FIELDS][1..] == [];
    assert Schema.Rootmost([FIRST_FIELDS], X) == Some(Int(1));
    ChainOfTwo();
    assert Registry.FieldLayers(CHAINED, [2, 1]) == layers;
  }
}

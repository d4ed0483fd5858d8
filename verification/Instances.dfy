/** What becomes of a nested object on the wire, told field by field. */
module Instances {
  import opened Bytes
  import opened Values
  import Registry
  import opened Lookup
  import opened Caches
  import opened Wire

  /** What a field is read back as on its own, if it can be read. */
  function Back(global: bool, f: Field): Option<Field> {
    match DecodeField(global, EncodeField(f)) case Ok(g, _) => Some(g) case Err(_) => None
  }

  lemma BackIs(global: bool, f: Field)
    ensures Back(global, f) == if Readable(global, f) then Some(NormalField(global, f)) else None
  {
    hide EncodeField, DecodeField, Readable, NormalField;
    FieldRoundTrip(global, f, []);
    assert EncodeField(f) + [] == EncodeField(f);
  }

  /** The reserved fields of a nested object are such that decoding it does not throw. */
  predicate Acceptable(global: bool, m: Fields) {
    && (NAMESPACE in m ==> m[NAMESPACE].Key?)
    && (CLASS in m ==> m[CLASS].Key? || (m[CLASS].Empty? && global && NAMESPACE !in m))
  }

  /** The field of the decoded object under a key it must have. */
  function Expected(global: bool, o: Object, k: uint32): Option<Field> {
    if k == NAMESPACE then Some(if k in o.fields then o.fields[k] else Key(0))
    else if k == CLASS then Some(if k in o.fields && o.fields[k].Key? then o.fields[k] else Key(0))
    else if k in o.fields then Back(global, o.fields[k])
    else None
  }

  lemma InstanceOfNormal(global: bool, o: Object)
    requires AllReadable(global, o)
    ensures var i := Instance(global, NormalFields(global, o));
            && (i.Some? <==> Acceptable(global, o.fields))
            && (i.Some? ==>
                  && i.value.Keys == o.fields.Keys + {CLASS, NAMESPACE}
                  && forall k | k in i.value :: Some(i.value[k]) == Expected(global, o, k))
  {
    hide Back, Readable, NormalField;
    forall k | k in o.fields
      ensures Back(global, o.fields[k]) == Some(NormalField(global, o.fields[k]))
    {
      BackIs(global, o.fields[k]);
    }
  }

  /**
    * A nested object followed by anything is read if and only if each of its fields is and its
    * reserved fields are acceptable. It comes back with exactly its own keys and the two reserved
    * ones: its own namespace or key 0, its own class or key 0, and every other field read back.
    */
  lemma NestedComesBack(global: bool, o: Object, tail: Bytes)
    ensures var r := DecodeField(global, EncodeField(Obj(o)) + tail);
            && (r.Ok? <==> Acceptable(global, o.fields) && forall k | k in o.fields :: Back(global, o.fields[k]).Some?)
            && (r.Err? ==> r.error == InvalidType)
            && (r.Ok? ==>
                  && r.rest == tail && r.value.Obj?
                  && r.value.obj.fields.Keys == o.fields.Keys + {CLASS, NAMESPACE}
                  && forall k | k in r.value.obj.fields :: Some(r.value.obj.fields[k]) == Expected(global, o, k))
  {
    hide EncodeField, DecodeField, Instance, Acceptable, Expected, NormalFields, Back;
    FieldRoundTrip(global, Obj(o), tail);
    forall k | k in o.fields
      ensures Back(global, o.fields[k]).Some? <==> Readable(global, o.fields[k])
    {
      BackIs(global, o.fields[k]);
    }
    if AllReadable(global, o) {
      InstanceOfNormal(global, o);
    }
  }

  /**
    * An object at the top followed by anything is read if and only if each of its fields is. It comes
    * back with exactly its own keys and a class, each field read back, and class 0 if it had none.
    */
  lemma ObjectComesBack(global: bool, o: Object, tail: Bytes)
    ensures var r := DecodeObject(global, EncodeObject(o) + tail);
            && (r.Ok? <==> forall k | k in o.fields :: Back(global, o.fields[k]).Some?)
            && (r.Err? ==> r.error == InvalidType)
            && (r.Ok? ==>
                  && r.rest == tail && r.value.fields.Keys == o.fields.Keys + {CLASS}
                  && (forall k | k in o.fields :: Some(r.value.fields[k]) == Back(global, o.fields[k]))
                  && (CLASS !in o.fields ==> r.value.fields[CLASS] == Key(0)))
  {
    hide EncodeObject, DecodeObject, Back, Readable, NormalField;
    ObjectRoundTrip(global, o, tail);
    forall k | k in o.fields
      ensures Back(global, o.fields[k]) ==
              if Readable(global, o.fields[k]) then Some(NormalField(global, o.fields[k])) else None
    {
      BackIs(global, o.fields[k]);
    }
  }

  /** A field that holds no object comes back as it is. */
  lemma PlainComesBack(global: bool, f: Field)
    requires !f.Obj?
    ensures Back(global, f) == Some(f)
  {
    hide EncodeField, DecodeField, Back;
    BackIs(global, f);
  }

  /**
    * What `deserialize_instance` does is what two lookups leave behind, of the namespace and then of
    * the class, each of which must give a key.
    */
  lemma InstanceIsTwoLookups(spaces: Registry.Namespaces, m: Fields)
    requires CLASS in m
    ensures var c := Cached(spaces, m, {});
            var c' := Look(c, NAMESPACE).after;
            var (ns, klass) := (Shown(c, NAMESPACE), Shown(c', CLASS));
            Instance(0 in spaces, m) ==
            if ns.Gives? && ns.value.Key? && klass.Gives? && klass.value.Key? then Some(Look(c', CLASS).after.fields)
            else None
  {
    hide SlowPath, Inherits;
    var c := Cached(spaces, m, {});
    if NAMESPACE !in m {
      LookIs(c, NAMESPACE);
      var own := Completion(spaces, m);
      assert own[NAMESPACE := Key(0)] == own;
    }
  }
}

/** Consequences of the Standard Format: stability of repeated trips, locality, truncation, size. */
module WireLaws {
  import opened Bytes
  import opened Values
  import opened Wire
  import Varint

  // ---- The second trip changes nothing ----

  /** Fields that one more trip would not change. */
  predicate Stable(global: bool, m: Fields) {
    forall k | k in m :: Readable(global, m[k]) && NormalField(global, m[k]) == m[k]
  }

  lemma StableObjectIsNormal(global: bool, m: Fields)
    requires Stable(global, m) && CLASS in m
    ensures AllReadable(global, Object(m)) && NormalFields(global, Object(m)) == m
  {
    hide Readable, NormalField;
  }

  lemma InstanceKeepsStable(global: bool, m: Fields)
    requires Stable(global, m) && CLASS in m && Instance(global, m).Some?
    ensures CLASS in Instance(global, m).value && Stable(global, Instance(global, m).value)
    ensures Instance(global, Instance(global, m).value) == Instance(global, m)
  {
    var i := Instance(global, m).value;
    forall k | k in i
      ensures Readable(global, i[k]) && NormalField(global, i[k]) == i[k]
    {
      assert i[k] == Key(0) || (k in m && i[k] == m[k]);
    }
  }

  lemma {:induction false} NormalFieldIsStable(global: bool, f: Field)
    requires Readable(global, f)
    ensures Readable(global, NormalField(global, f))
    ensures NormalField(global, NormalField(global, f)) == NormalField(global, f)
    decreases f, 0
  {
    hide Instance, Stable, NormalFields, AllReadable;
    if f.Obj? {
      NormalFieldsAreStable(global, f.obj);
      var m := NormalFields(global, f.obj);
      InstanceKeepsStable(global, m);
      StableObjectIsNormal(global, Instance(global, m).value);
    }
  }

  lemma {:induction false} NormalFieldsAreStable(global: bool, o: Object)
    requires AllReadable(global, o)
    ensures Stable(global, NormalFields(global, o))
    decreases o
  {
    forall k | k in o.fields
      ensures Readable(global, NormalField(global, o.fields[k]))
      ensures NormalField(global, NormalField(global, o.fields[k])) == NormalField(global, o.fields[k])
    {
      NormalFieldIsStable(global, o.fields[k]);
    }
  }

  /** Whatever was decoded once survives every further trip unchanged, down to its bytes. */
  lemma SecondTripIsIdentity(global: bool, o: Object, tail: Bytes)
    requires DecodeObject(global, EncodeObject(o)).Ok?
    ensures var p := DecodeObject(global, EncodeObject(o)).value;
            DecodeObject(global, EncodeObject(p) + tail) == Ok(p, tail)
  {
    hide EncodeObject, DecodeObject, Readable, NormalField;
    assert EncodeObject(o) + [] == EncodeObject(o);
    ObjectRoundTrip(global, o, []);
    var p := Object(NormalFields(global, o));
    NormalFieldsAreStable(global, o);
    StableObjectIsNormal(global, p.fields);
    ObjectRoundTrip(global, p, tail);
  }

  /** An object that names its class, and a class and a namespace in every object below it. */
  predicate Settled(f: Field)
    decreases f
  {
    f.Obj? ==>
      && AllSettled(f.obj)
      && CLASS in f.obj.fields && f.obj.fields[CLASS].Key?
      && NAMESPACE in f.obj.fields && f.obj.fields[NAMESPACE].Key?
  }

  predicate AllSettled(o: Object)
    decreases o, 0
  {
    forall k | k in o.fields :: Settled(o.fields[k])
  }

  lemma {:induction false} SettledIsNormal(global: bool, f: Field)
    requires Settled(f)
    ensures Readable(global, f) && NormalField(global, f) == f
    decreases f, 0
  {
    hide Stable, NormalFields, AllReadable;
    if f.Obj? {
      SettledIsStable(global, f.obj);
      StableObjectIsNormal(global, f.obj.fields);
    }
  }

  lemma {:induction false} SettledIsStable(global: bool, o: Object)
    requires AllSettled(o)
    ensures Stable(global, o.fields)
    decreases o
  {
    hide Settled, Readable, NormalField;
    forall k | k in o.fields
      ensures Readable(global, o.fields[k]) && NormalField(global, o.fields[k]) == o.fields[k]
    {
      SettledIsNormal(global, o.fields[k]);
    }
  }

  /** On settled objects the very first trip is exact, whatever the registry holds. */
  lemma ExactRoundTrip(global: bool, o: Object, tail: Bytes)
    requires AllSettled(o) && CLASS in o.fields
    ensures DecodeObject(global, EncodeObject(o) + tail) == Ok(o, tail)
  {
    hide EncodeObject, DecodeObject, Stable, AllSettled, NormalFields, AllReadable;
    SettledIsStable(global, o);
    StableObjectIsNormal(global, o.fields);
    ObjectRoundTrip(global, o, tail);
  }

  // ---- Locality: bytes beyond the end do not matter ----

  lemma U8IsLocal(s: Bytes, t: Bytes)
    requires DecodeU8(s).Ok?
    ensures DecodeU8(s + t) == Extend(DecodeU8(s), t)
  {
    assert (s + t)[1..] == s[1..] + t;
  }

  lemma U32IsLocal(s: Bytes, t: Bytes)
    requires DecodeU32(s).Ok?
    ensures DecodeU32(s + t) == Extend(DecodeU32(s), t)
  {
    assert (s + t)[4..] == s[4..] + t;
  }

  lemma RawIsLocal(s: Bytes, n: nat, t: Bytes)
    requires DecodeRaw(s, n).Ok?
    ensures DecodeRaw(s + t, n) == Extend(DecodeRaw(s, n), t)
  {
    assert (s + t)[..n] == s[..n] && (s + t)[n..] == s[n..] + t;
  }

  lemma {:induction false} WordsAreLocal(s: Bytes, n: nat, t: Bytes)
    requires DecodeWords(s, n).Ok?
    ensures DecodeWords(s + t, n) == Extend(DecodeWords(s, n), t)
    decreases n
  {
    hide DecodeU32;
    if n > 0 {
      U32IsLocal(s, t);
      WordsAreLocal(DecodeU32(s).rest, n - 1, t);
    }
  }

  lemma ScalarIsLocal(tag: byte, s: Bytes, t: Bytes)
    requires DecodeScalar(tag, s).Ok?
    ensures DecodeScalar(tag, s + t) == Extend(DecodeScalar(tag, s), t)
  {
    hide DecodeU32, DecodeU8, DecodeRaw, DecodeWords, Varint.Decode;
    if tag in {1, 2, 4, 5} {
      U32IsLocal(s, t);
    } else if tag == 3 {
      U8IsLocal(s, t);
    } else if tag >= 7 {
      Varint.Local(s, t);
      var Ok(n, s1) := Varint.Decode(s);
      if tag in {7, 8, 11} {
        RawIsLocal(s1, n, t);
      } else {
        WordsAreLocal(s1, n, t);
      }
    }
  }

  lemma {:induction false} FieldIsLocal(global: bool, s: Bytes, t: Bytes)
    requires DecodeField(global, s).Ok?
    ensures DecodeField(global, s + t) == Extend(DecodeField(global, s), t)
    decreases |s|, 0
  {
    hide DecodeU8, DecodeScalar, DecodeObject, Instance;
    U8IsLocal(s, t);
    var Ok(tag, s1) := DecodeU8(s);
    if tag != 6 {
      ScalarIsLocal(tag, s1, t);
    } else {
      U8IsLocal(s1, t);
      var Ok(present, s2) := DecodeU8(s1);
      if present != 0 {
        InstanceIsLocal(global, s2, t);
      }
    }
  }

  lemma {:induction false} EntriesAreLocal(global: bool, s: Bytes, n: nat, read: Fields, t: Bytes)
    requires DecodeEntries(global, s, n, read).Ok?
    ensures DecodeEntries(global, s + t, n, read) == Extend(DecodeEntries(global, s, n, read), t)
    decreases |s|, 0
  {
    hide DecodeU32, DecodeField;
    if n > 0 {
      U32IsLocal(s, t);
      var Ok(k, s1) := DecodeU32(s);
      FieldIsLocal(global, s1, t);
      var Ok(f, s2) := DecodeField(global, s1);
      EntriesAreLocal(global, s2, n - 1, read[k := f], t);
    }
  }

  /** If decoding succeeds on `s`, it gives the same object on `s` followed by anything. */
  lemma {:induction false} ObjectIsLocal(global: bool, s: Bytes, t: Bytes)
    requires DecodeObject(global, s).Ok?
    ensures DecodeObject(global, s + t) == Extend(DecodeObject(global, s), t)
    decreases |s|, 1
  {
    hide DecodeEntries, Varint.Decode;
    Varint.Local(s, t);
    var Ok(n, s1) := Varint.Decode(s);
    EntriesAreLocal(global, s1, n, BLANK, t);
  }

  lemma {:induction false} InstanceIsLocal(global: bool, s: Bytes, t: Bytes)
    requires DecodeInstance(global, s).Ok?
    ensures DecodeInstance(global, s + t) == Extend(DecodeInstance(global, s), t)
    decreases |s|, 2
  {
    hide DecodeObject, Instance;
    ObjectIsLocal(global, s, t);
  }

  /** A serialized object cut short anywhere is rejected. */
  lemma TruncationFails(global: bool, o: Object, n: nat)
    requires n < |EncodeObject(o)|
    ensures DecodeObject(global, EncodeObject(o)[..n]).Err?
  {
    hide EncodeObject, DecodeObject, AllReadable, NormalFields;
    var (s, t) := (EncodeObject(o)[..n], EncodeObject(o)[n..]);
    assert s + t == EncodeObject(o) + [];
    ObjectRoundTrip(global, o, []);
    var whole := DecodeObject(global, s + t);
    assert whole.Ok? ==> |whole.rest| < |t|;
    if DecodeObject(global, s).Ok? {
      ObjectIsLocal(global, s, t);
    }
  }

  // ---- Every object has its own encoding ----

  lemma {:induction false} FieldIsUnique(f: Field, g: Field, t: Bytes, u: Bytes)
    requires EncodeField(f) + t == EncodeField(g) + u
    ensures f == g && t == u
    decreases f, 0
  {
    hide EncodeObject, DecodeField;
    assert f.Tag() == (EncodeField(f) + t)[0] == (EncodeField(g) + u)[0] == g.Tag();
    if f.Tag() != 6 {
      hide EncodeField;
      PlainFieldRoundTrip(true, f, t);
      PlainFieldRoundTrip(true, g, u);
    } else {
      assert (EncodeField(f) + t)[1..] == EncodePayload(f) + t;
      assert (EncodeField(g) + u)[1..] == EncodePayload(g) + u;
      assert f.Obj? == ((EncodePayload(f) + t)[0] == 1) == ((EncodePayload(g) + u)[0] == 1) == g.Obj?;
      assert (EncodePayload(f) + t)[1..] == (if f.Obj? then EncodeObject(f.obj) else []) + t;
      assert (EncodePayload(g) + u)[1..] == (if g.Obj? then EncodeObject(g.obj) else []) + u;
      if f.Obj? {
        ObjectIsUnique(f.obj, g.obj, t, u);
      }
    }
  }

  lemma {:induction false} EntriesAreUnique(
      o: Object, ks: seq<uint32>, p: Object, ls: seq<uint32>, t: Bytes, u: Bytes)
    requires (forall k | k in ks :: k in o.fields) && (forall k | k in ls :: k in p.fields) && |ks| == |ls|
    requires EncodeEntries(o, ks) + t == EncodeEntries(p, ls) + u
    ensures ks == ls && t == u && forall k | k in ks :: k in p.fields && o.fields[k] == p.fields[k]
    decreases o, 0, |ks|
  {
    hide EncodeField, EncodeU32, DecodeU32;
    if ks == [] {
      assert EncodeEntries(o, ks) + t == t && EncodeEntries(p, ls) + u == u;
    } else {
      var (k, l) := (ks[0], ls[0]);
      var (a, b) := (EncodeEntries(o, ks[1..]) + t, EncodeEntries(p, ls[1..]) + u);
      assert EncodeEntries(o, ks) + t == EncodeU32(k) + (EncodeField(o.fields[k]) + a);
      assert EncodeEntries(p, ls) + u == EncodeU32(l) + (EncodeField(p.fields[l]) + b);
      U32RoundTrip(k, EncodeField(o.fields[k]) + a);
      U32RoundTrip(l, EncodeField(p.fields[l]) + b);
      FieldIsUnique(o.fields[k], p.fields[l], a, b);
      EntriesAreUnique(o, ks[1..], p, ls[1..], t, u);
      assert ks == [k] + ks[1..] && ls == [l] + ls[1..];
    }
  }

  lemma {:induction false} ObjectIsUnique(o: Object, p: Object, t: Bytes, u: Bytes)
    requires EncodeObject(o) + t == EncodeObject(p) + u
    ensures o == p && t == u
    decreases o, 1
  {
    hide EncodeEntries, Ascending, Varint.Encode, Varint.Decode;
    var (ks, ls) := (Ascending(o.fields.Keys), Ascending(p.fields.Keys));
    FieldCountFits(o.fields);
    FieldCountFits(p.fields);
    CountedRoundTrip(|o.fields|, EncodeEntries(o, ks), t);
    CountedRoundTrip(|p.fields|, EncodeEntries(p, ls), u);
    EntriesAreUnique(o, ks, p, ls, t, u);
    assert o.fields.Keys == p.fields.Keys;
    assert o.fields == p.fields;
  }

  /** No two objects have the same bytes, and no serialized object is a prefix of another. */
  lemma EncodingIsPrefixFree(o: Object, p: Object)
    ensures EncodeObject(o) <= EncodeObject(p) <==> o == p
  {
    hide EncodeObject;
    if EncodeObject(o) <= EncodeObject(p) {
      var t := EncodeObject(p)[|EncodeObject(o)|..];
      assert EncodeObject(p) + [] == EncodeObject(o) + t;
      ObjectIsUnique(o, p, t, []);
    }
  }

  // ---- A decoded tree is no larger than its input ----

  /** One for the field itself, and all the fields of the object it may hold. */
  ghost function Weight(f: Field): nat
    decreases f
  {
    if f.Obj? then 1 + ObjectWeight(f.obj) else 1
  }

  /** The number of fields in an object and in all the objects below it. */
  ghost function ObjectWeight(o: Object): nat
    decreases o, 1
  {
    Total(o, o.fields.Keys)
  }

  ghost function Total(o: Object, keys: set<uint32>): nat
    requires keys <= o.fields.Keys
    decreases o, 0, keys
  {
    if keys == {} then 0
    else Weight(o.fields[Least(keys)]) + Total(o, keys - {Least(keys)})
  }

  lemma {:induction false} TotalWithout(o: Object, keys: set<uint32>, k: uint32)
    requires keys <= o.fields.Keys && k in keys
    ensures Total(o, keys) == Weight(o.fields[k]) + Total(o, keys - {k})
    decreases keys
  {
    hide Weight;
    var l := Least(keys);
    if l != k {
      TotalWithout(o, keys - {l}, k);
      assert l in keys - {k};
      TotalWithout(o, keys - {k}, l);
      assert keys - {l} - {k} == keys - {k} - {l};
    }
  }

  lemma {:induction false} TotalDependsOnValues(o: Object, p: Object, keys: set<uint32>)
    requires keys <= o.fields.Keys && keys <= p.fields.Keys
    requires forall k | k in keys :: o.fields[k] == p.fields[k]
    ensures Total(o, keys) == Total(p, keys)
    decreases keys
  {
    hide Weight;
    if keys != {} {
      TotalDependsOnValues(o, p, keys - {Least(keys)});
    }
  }

  lemma WeightOfUpdate(m: Fields, k: uint32, f: Field)
    ensures ObjectWeight(Object(m[k := f])) <= ObjectWeight(Object(m)) + Weight(f)
  {
    hide Weight;
    var (o, p) := (Object(m), Object(m[k := f]));
    var others := m.Keys - {k};
    assert p.fields.Keys - {k} == others;
    TotalWithout(p, p.fields.Keys, k);
    TotalDependsOnValues(o, p, others);
    if k in m {
      TotalWithout(o, o.fields.Keys, k);
    } else {
      assert others == m.Keys;
    }
  }

  lemma {:induction false} FieldFitsInput(global: bool, s: Bytes)
    requires DecodeField(global, s).Ok?
    ensures 2 * Weight(DecodeField(global, s).value) <= |s| - |DecodeField(global, s).rest| + 3
    decreases |s|, 0
  {
    hide DecodeScalar, DecodeInstance, ObjectWeight;
    var Ok(tag, s1) := DecodeU8(s);
    if tag == 6 {
      var Ok(present, s2) := DecodeU8(s1);
      if present != 0 {
        InstanceFitsInput(global, s2);
      }
    }
  }

  lemma {:induction false} EntriesFitInput(global: bool, s: Bytes, n: nat, read: Fields)
    requires DecodeEntries(global, s, n, read).Ok?
    ensures 2 * ObjectWeight(Object(DecodeEntries(global, s, n, read).value)) <=
            2 * ObjectWeight(Object(read)) + |s| - |DecodeEntries(global, s, n, read).rest| - n
    decreases |s|, 0
  {
    hide DecodeField, ObjectWeight, Weight;
    if n > 0 {
      var Ok(k, s1) := DecodeU32(s);
      FieldFitsInput(global, s1);
      var Ok(f, s2) := DecodeField(global, s1);
      WeightOfUpdate(read, k, f);
      EntriesFitInput(global, s2, n - 1, read[k := f]);
    }
  }

  lemma {:induction false} ObjectFits(global: bool, s: Bytes)
    requires DecodeObject(global, s).Ok?
    ensures var Ok(o, rest) := DecodeObject(global, s);
            || (o.fields == BLANK && ObjectWeight(o) == 1)
            || 2 * ObjectWeight(o) <= |s| - |rest|
    decreases |s|, 1
  {
    hide Varint.Decode, DecodeField;
    var Ok(n, s1) := Varint.Decode(s);
    EntriesFitInput(global, s1, n, BLANK);
    var o := Object(BLANK);
    TotalWithout(o, o.fields.Keys, CLASS);
    assert o.fields.Keys - {CLASS} == {};
  }

  lemma {:induction false} InstanceFitsInput(global: bool, s: Bytes)
    requires DecodeInstance(global, s).Ok?
    ensures 2 * ObjectWeight(DecodeInstance(global, s).value) <= |s| - |DecodeInstance(global, s).rest| + 3
    decreases |s|, 2
  {
    hide DecodeObject, ObjectWeight;
    ObjectFits(global, s);
    var m := DecodeObject(global, s).value.fields;
    WeightOfUpdate(m, NAMESPACE, Key(0));
    if CLASS in m && m[CLASS].Empty? {
      ReplacingKeepsWeight(m[NAMESPACE := Key(0)], CLASS, Key(0));
    }
  }

  /** How many objects deep the objects in a field nest. */
  ghost function Depth(f: Field): nat
    decreases f
  {
    if f.Obj? then 1 + ObjectDepth(f.obj) else 0
  }

  ghost function ObjectDepth(o: Object): nat
    decreases o, 1
  {
    Deepest(o, o.fields.Keys)
  }

  ghost function Deepest(o: Object, keys: set<uint32>): nat
    requires keys <= o.fields.Keys
    decreases o, 0, keys
  {
    if keys == {} then 0
    else
      var (a, b) := (Depth(o.fields[Least(keys)]), Deepest(o, keys - {Least(keys)}));
      if a < b then b else a
  }

  lemma {:induction false} DepthIsNoWeightier(f: Field)
    ensures Depth(f) <= Weight(f)
    decreases f
  {
    if f.Obj? {
      DeepestIsNoWeightier(f.obj, f.obj.fields.Keys);
    }
  }

  lemma {:induction false} DeepestIsNoWeightier(o: Object, keys: set<uint32>)
    requires keys <= o.fields.Keys
    ensures Deepest(o, keys) <= Total(o, keys)
    decreases o, 0, keys
  {
    hide Depth, Weight;
    if keys != {} {
      DepthIsNoWeightier(o.fields[Least(keys)]);
      DeepestIsNoWeightier(o, keys - {Least(keys)});
    }
  }

  /**
    * The fields of a decoded object, counted at every depth, and the number of levels they nest
    * are together at most the number of bytes read.
    */
  lemma ObjectFitsInput(global: bool, s: Bytes)
    requires DecodeObject(global, s).Ok?
    ensures var Ok(o, rest) := DecodeObject(global, s);
            ObjectWeight(o) + ObjectDepth(o) <= |s| - |rest|
  {
    hide DecodeObject, Total;
    ObjectFits(global, s);
    var o := DecodeObject(global, s).value;
    DeepestIsNoWeightier(o, o.fields.Keys);
    if o.fields == BLANK {
      assert Deepest(o, {}) == 0;
      assert o.fields.Keys - {Least(o.fields.Keys)} == {};
    }
  }

  lemma ReplacingKeepsWeight(m: Fields, k: uint32, f: Field)
    requires k in m && !m[k].Obj? && !f.Obj?
    ensures ObjectWeight(Object(m[k := f])) == ObjectWeight(Object(m))
  {
    var (o, p) := (Object(m), Object(m[k := f]));
    assert p.fields.Keys == o.fields.Keys;
    TotalWithout(o, o.fields.Keys, k);
    TotalWithout(p, p.fields.Keys, k);
    TotalDependsOnValues(o, p, m.Keys - {k});
  }
}

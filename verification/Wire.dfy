/**
  * The self-describing Standard Format: what `field::serialize`, `dynamic::serialize` and the
  * buffer decoders compute, as functions on byte strings.
  */
module Wire {
  import opened Bytes
  import opened Values
  import Varint

  // ---- Encoding ----

  function Patterns(s: seq<int32>): (p: seq<uint32>)
    ensures |p| == |s|
  {
    seq(|s|, i requires 0 <= i < |s| => Pattern(s[i]))
  }

  function SignedAll(s: seq<uint32>): (p: seq<int32>)
    ensures |p| == |s|
  {
    seq(|s|, i requires 0 <= i < |s| => Signed(s[i]))
  }

  function Flags(s: seq<bool>): (p: Bytes)
    ensures |p| == |s|
  {
    seq(|s|, i requires 0 <= i < |s| => if s[i] then 1 else 0)
  }

  function Truths(s: Bytes): (p: seq<bool>)
    ensures |p| == |s|
  {
    seq(|s|, i requires 0 <= i < |s| => s[i] != 0)
  }

  function EncodeWords(s: seq<uint32>): Bytes {
    if s == [] then [] else EncodeU32(s[0]) + EncodeWords(s[1..])
  }

  function EncodePayload(f: Field): Bytes
    decreases f, 0
  {
    match f
    case Empty => []
    case Hash(h) => EncodeU32(h)
    case Key(k) => EncodeU32(k)
    case Bool(b) => [if b then 1 else 0]
    case Int(i) => EncodeU32(Pattern(i))
    case Float(bits) => EncodeU32(bits)
    case Null => [0]
    case Obj(o) => [1] + EncodeObject(o)
    case Text(s) => Varint.Encode(|s|) + s
    case Bools(s) => Varint.Encode(|s|) + Flags(s)
    case Ints(s) => Varint.Encode(|s|) + EncodeWords(Patterns(s))
    case Floats(s) => Varint.Encode(|s|) + EncodeWords(s)
    case Raw(s) => Varint.Encode(|s|) + s
  }

  function EncodeField(f: Field): Bytes
    decreases f, 1
  {
    [f.Tag()] + EncodePayload(f)
  }

  function EncodeEntries(o: Object, keys: seq<uint32>): Bytes
    requires forall k | k in keys :: k in o.fields
    decreases o, 0, |keys|
  {
    if keys == [] then []
    else EncodeU32(keys[0]) + EncodeField(o.fields[keys[0]]) + EncodeEntries(o, keys[1..])
  }

  function EncodeObject(o: Object): Bytes
    decreases o, 1
  {
    Varint.Encode(|o.fields|) + EncodeEntries(o, Ascending(o.fields.Keys))
  }

  // ---- Decoding ----

  function DecodeRaw(s: Bytes, n: nat): (r: Parsed<Bytes>)
    ensures r.Ok? ==> |r.value| == n && s == r.value + r.rest
  {
    if |s| < n then Err(Underflow) else Ok(s[..n], s[n..])
  }

  function DecodeWords(s: Bytes, n: nat): (r: Parsed<seq<uint32>>)
    ensures r.Ok? ==> |r.value| == n && |r.rest| <= |s|
  {
    if n == 0 then Ok([], s)
    else
      var (w, s1) :- DecodeU32(s);
      var (ws, s2) :- DecodeWords(s1, n - 1);
      Ok([w] + ws, s2)
  }

  /** The payload of the alternatives that hold no object. */
  function DecodeScalar(tag: byte, s: Bytes): (r: Parsed<Field>)
    ensures r.Ok? ==> |r.rest| <= |s|
    ensures r.Ok? ==> !r.value.Obj?
  {
    match tag
    case 0 => Ok(Empty, s)
    case 1 => var (h, s1) :- DecodeU32(s); Ok(Hash(h), s1)
    case 2 => var (k, s1) :- DecodeU32(s); Ok(Key(k), s1)
    case 3 => var (b, s1) :- DecodeU8(s); Ok(Bool(b != 0), s1)
    case 4 => var (n, s1) :- DecodeU32(s); Ok(Int(Signed(n)), s1)
    case 5 => var (bits, s1) :- DecodeU32(s); Ok(Float(bits), s1)
    case 7 => var (n, s1) :- Varint.Decode(s); var (b, s2) :- DecodeRaw(s1, n); Ok(Text(b), s2)
    case 8 => var (n, s1) :- Varint.Decode(s); var (b, s2) :- DecodeRaw(s1, n); Ok(Bools(Truths(b)), s2)
    case 9 => var (n, s1) :- Varint.Decode(s); var (w, s2) :- DecodeWords(s1, n); Ok(Ints(SignedAll(w)), s2)
    case 10 => var (n, s1) :- Varint.Decode(s); var (w, s2) :- DecodeWords(s1, n); Ok(Floats(w), s2)
    case 11 => var (n, s1) :- Varint.Decode(s); var (b, s2) :- DecodeRaw(s1, n); Ok(Raw(b), s2)
    case _ => Err(UnknownTag)
  }

  /**
    * What `deserialize_instance` does to the fields it has read, when no class has a factory:
    * looking up the namespace writes `__namespace = 0` if it is missing, and both that field and
    * `__class` must hold keys. An empty `__class` becomes key 0 only on the way through the
    * registry's global namespace, if that exists (`global`).
    */
  function Instance(global: bool, m: Fields): Option<Fields>
    requires CLASS in m
  {
    if NAMESPACE in m then
      if m[NAMESPACE].Key? && m[CLASS].Key? then Some(m) else None
    else if m[CLASS].Key? then Some(m[NAMESPACE := Key(0)])
    else if global && m[CLASS].Empty? then Some(m[NAMESPACE := Key(0)][CLASS := Key(0)])
    else None
  }

  function DecodeField(global: bool, s: Bytes): (r: Parsed<Field>)
    ensures Shrinks(s, r)
    decreases |s|, 0
  {
    var (tag, s1) :- DecodeU8(s);
    if tag != 6 then DecodeScalar(tag, s1)
    else
      var (present, s2) :- DecodeU8(s1);
      if present == 0 then Ok(Null, s2)
      else
        var (o, s3) :- DecodeInstance(global, s2);
        Ok(Obj(o), s3)
  }

  function DecodeEntries(global: bool, s: Bytes, n: nat, read: Fields): (r: Parsed<Fields>)
    ensures r.Ok? ==> |r.rest| <= |s|
    ensures r.Ok? ==> read.Keys <= r.value.Keys
    decreases |s|, 0
  {
    if n == 0 then Ok(read, s)
    else
      var (k, s1) :- DecodeU32(s);
      var (f, s2) :- DecodeField(global, s1);
      DecodeEntries(global, s2, n - 1, read[k := f])
  }

  /** The fields of a fresh `dynamic`. */
  const BLANK: Fields := map[CLASS := Key(0)]

  function DecodeObject(global: bool, s: Bytes): (r: Parsed<Object>)
    ensures Shrinks(s, r)
    ensures r.Ok? ==> CLASS in r.value.fields
    decreases |s|, 1
  {
    var (n, s1) :- Varint.Decode(s);
    var (m, s2) :- DecodeEntries(global, s1, n, BLANK);
    Ok(Object(m), s2)
  }

  function DecodeInstance(global: bool, s: Bytes): (r: Parsed<Object>)
    ensures Shrinks(s, r)
    decreases |s|, 2
  {
    var (o, s1) :- DecodeObject(global, s);
    match Instance(global, o.fields)
    case Some(m) => Ok(Object(m), s1)
    case None => Err(InvalidType)
  }

  // ---- What a trip over the wire turns an object into ----

  /** The value read back for `f`: nested objects gain the reserved fields they lacked. */
  function NormalField(global: bool, f: Field): (r: Field)
    ensures r.Tag() == f.Tag() && (!f.Obj? ==> r == f) && (f.Obj? ==> r.Obj?)
    decreases f
  {
    match f
    case Obj(o) => Obj(Object(InstanceOr(global, NormalFields(global, o))))
    case _ => f
  }

  function NormalFields(global: bool, o: Object): (m: Fields)
    ensures m.Keys == o.fields.Keys + {CLASS}
    decreases o, 0
  {
    BLANK + map k | k in o.fields :: NormalField(global, o.fields[k])
  }

  function InstanceOr(global: bool, m: Fields): Fields
    requires CLASS in m
  {
    match Instance(global, m) case Some(i) => i case None => m
  }

  /** `f` can be read back: every object nested in it has reserved fields the decoder accepts. */
  predicate Readable(global: bool, f: Field)
    decreases f
  {
    f.Obj? ==>
      && AllReadable(global, f.obj)
      && Instance(global, NormalFields(global, f.obj)).Some?
  }

  predicate AllReadable(global: bool, o: Object)
    decreases o, 0
  {
    forall k | k in o.fields :: Readable(global, o.fields[k])
  }

  // ---- Round trip ----

  lemma {:induction false} WordsRoundTrip(s: seq<uint32>, tail: Bytes)
    ensures DecodeWords(EncodeWords(s) + tail, |s|) == Ok(s, tail)
  {
    if s == [] {
      assert EncodeWords(s) + tail == tail;
    } else {
      assert EncodeWords(s) + tail == EncodeU32(s[0]) + (EncodeWords(s[1..]) + tail);
      U32RoundTrip(s[0], EncodeWords(s[1..]) + tail);
      WordsRoundTrip(s[1..], tail);
      assert [s[0]] + s[1..] == s;
    }
  }

  lemma CountedRoundTrip(n: uint64, body: Bytes, tail: Bytes)
    ensures Varint.Decode(Varint.Encode(n) + body + tail) == Ok(n, body + tail)
  {
    assert Varint.Encode(n) + body + tail == Varint.Encode(n) + (body + tail);
    Varint.RoundTrip(n, body + tail);
  }

  lemma FixedRoundTrip(f: Field, tail: Bytes)
    requires f.Tag() <= 5
    ensures DecodeScalar(f.Tag(), EncodePayload(f) + tail) == Ok(f, tail)
  {
    match f
    case Empty => assert EncodePayload(f) + tail == tail;
    case Hash(h) => U32RoundTrip(h, tail);
    case Key(k) => U32RoundTrip(k, tail);
    case Bool(b) => assert (EncodePayload(f) + tail)[1..] == tail;
    case Int(i) => U32RoundTrip(Pattern(i), tail);
    case Float(bits) => U32RoundTrip(bits, tail);
  }

  lemma VectorRoundTrip(f: Field, tail: Bytes)
    requires f.Tag() >= 7
    ensures DecodeScalar(f.Tag(), EncodePayload(f) + tail) == Ok(f, tail)
  {
    hide EncodeU32, DecodeU32, Varint.Decode, Varint.Encode;
    match f
    case Text(s) =>
      CountedRoundTrip(|s|, s, tail);
      assert (s + tail)[..|s|] == s && (s + tail)[|s|..] == tail;
    case Bools(s) =>
      var p := Flags(s);
      CountedRoundTrip(|s|, p, tail);
      assert (p + tail)[..|p|] == p && (p + tail)[|p|..] == tail;
      assert Truths(Flags(s)) == s;
    case Ints(s) =>
      CountedRoundTrip(|s|, EncodeWords(Patterns(s)), tail);
      WordsRoundTrip(Patterns(s), tail);
      assert SignedAll(Patterns(s)) == s;
    case Floats(s) =>
      CountedRoundTrip(|s|, EncodeWords(s), tail);
      WordsRoundTrip(s, tail);
    case Raw(s) =>
      CountedRoundTrip(|s|, s, tail);
      assert (s + tail)[..|s|] == s && (s + tail)[|s|..] == tail;
  }

  lemma PlainFieldRoundTrip(global: bool, f: Field, tail: Bytes)
    requires f.Tag() != 6
    ensures DecodeField(global, EncodeField(f) + tail) == Ok(f, tail)
  {
    hide EncodeU32, DecodeU32, Varint.Decode, Varint.Encode, DecodeScalar, EncodePayload, DecodeInstance;
    var s := EncodeField(f) + tail;
    assert s[0] == f.Tag() && s[1..] == EncodePayload(f) + tail;
    if f.Tag() <= 5 {
      FixedRoundTrip(f, tail);
    } else {
      VectorRoundTrip(f, tail);
    }
  }

  /** Reading a written field gives its normal form and stops exactly where it ends. */
  lemma {:induction false} FieldRoundTrip(global: bool, f: Field, tail: Bytes)
    ensures DecodeField(global, EncodeField(f) + tail) ==
            if Readable(global, f) then Ok(NormalField(global, f), tail) else Err(InvalidType)
    decreases f, 0
  {
    hide EncodeU32, DecodeU32, Varint.Decode, Varint.Encode, DecodeScalar,
         EncodeObject, DecodeObject, Instance, NormalFields, AllReadable;
    if f.Tag() != 6 {
      PlainFieldRoundTrip(global, f, tail);
    } else {
      var s := EncodeField(f) + tail;
      var s1 := s[1..];
      assert s[0] == 6 && s1 == EncodePayload(f) + tail;
      if f.Obj? {
        assert EncodePayload(f) == [1] + EncodeObject(f.obj);
        assert s1[0] == 1 && s1[1..] == EncodeObject(f.obj) + tail;
        ObjectRoundTrip(global, f.obj, tail);
      } else {
        assert s1[0] == 0 && s1[1..] == tail;
      }
    }
  }

  /** One key and its field, ahead of the other entries. */
  lemma EntryRoundTrip(global: bool, k: uint32, f: Field, n: nat, read: Fields, after: Bytes)
    requires DecodeField(global, EncodeField(f) + after) ==
             if Readable(global, f) then Ok(NormalField(global, f), after) else Err(InvalidType)
    ensures DecodeEntries(global, EncodeU32(k) + EncodeField(f) + after, n + 1, read) ==
            if Readable(global, f) then DecodeEntries(global, after, n, read[k := NormalField(global, f)])
            else Err(InvalidType)
  {
    hide EncodeU32, DecodeU32, EncodeField, DecodeField, Readable, NormalField;
    assert EncodeU32(k) + EncodeField(f) + after == EncodeU32(k) + (EncodeField(f) + after);
    U32RoundTrip(k, EncodeField(f) + after);
  }

  function NormalEntries(global: bool, o: Object, keys: seq<uint32>): Fields
    requires forall k | k in keys :: k in o.fields
  {
    map k | k in keys :: NormalField(global, o.fields[k])
  }

  lemma {:induction false} EntriesRoundTrip(global: bool, o: Object, keys: seq<uint32>, read: Fields, tail: Bytes)
    requires forall k | k in keys :: k in o.fields
    ensures DecodeEntries(global, EncodeEntries(o, keys) + tail, |keys|, read) ==
            if forall k | k in keys :: Readable(global, o.fields[k])
            then Ok(read + NormalEntries(global, o, keys), tail)
            else Err(InvalidType)
    decreases o, 0, |keys|
  {
    hide EncodeU32, DecodeU32, EncodeField, DecodeField, Readable, NormalField;
    if keys == [] {
      assert EncodeEntries(o, keys) + tail == tail;
      assert read + NormalEntries(global, o, keys) == read;
    } else {
      var k, rest := keys[0], keys[1..];
      var f := o.fields[k];
      var after := EncodeEntries(o, rest) + tail;
      FieldRoundTrip(global, f, after);
      EntryRoundTrip(global, k, f, |rest|, read, after);
      assert EncodeEntries(o, keys) + tail == EncodeU32(k) + EncodeField(f) + after;
      if Readable(global, f) {
        EntriesRoundTrip(global, o, rest, read[k := NormalField(global, f)], tail);
        assert read[k := NormalField(global, f)] + NormalEntries(global, o, rest)
            == read + NormalEntries(global, o, keys);
      }
    }
  }

  /**
    * Decoding a serialized object, followed by anything, returns its normal form and leaves exactly
    * what followed; it throws if and only if some nested object has unusable reserved fields.
    */
  lemma {:induction false} ObjectRoundTrip(global: bool, o: Object, tail: Bytes)
    ensures DecodeObject(global, EncodeObject(o) + tail) ==
            if AllReadable(global, o) then Ok(Object(NormalFields(global, o)), tail) else Err(InvalidType)
    decreases o, 1
  {
    hide Ascending, EncodeEntries, DecodeEntries, Readable, NormalField, Varint.Encode, Varint.Decode;
    var keys := Ascending(o.fields.Keys);
    FieldCountFits(o.fields);
    CountedRoundTrip(|o.fields|, EncodeEntries(o, keys), tail);
    EntriesRoundTrip(global, o, keys, BLANK, tail);
    assert BLANK + NormalEntries(global, o, keys) == NormalFields(global, o);
  }
}

/** JSON values from fields and back. */
module Json {
  import opened Bytes
  import opened Values
  import opened Wire
  import opened Lookup
  import opened Documents

  /** `number_integer` holds 64 bits with a sign, `number_unsigned` 64 bits without. */
  type JsonInt = n: int | -0x8000_0000_0000_0000 <= n < TWO_TO_THE_64

  /** A parsed JSON value; a number is an integer or a float, whose value is a 32-bit pattern here. */
  datatype Json =
    | JNull
    | JBool(b: bool)
    | JInt(i: JsonInt)
    | JFloat(bits: uint32)
    | JString(s: Sized<byte>)
    | JArray(items: Sized<Json>)
    | JObject(members: map<Bytes, Json>)

  // ---- Export ----

  function BoolItems(s: Sized<bool>): Sized<Json> {
    seq(|s|, i requires 0 <= i < |s| => JBool(s[i]))
  }

  function IntItems(s: Sized<int32>): Sized<Json> {
    seq(|s|, i requires 0 <= i < |s| => JInt(s[i]))
  }

  function FloatItems(s: Sized<uint32>): Sized<Json> {
    seq(|s|, i requires 0 <= i < |s| => JFloat(s[i]))
  }

  /** `field_to_json`; the text of a key and of raw bytes fits a string. */
  function ToJson(names: Names, f: Field): Json
    decreases f
  {
    match f
    case Empty => JNull
    case Hash(h) => Spelled(ResolveKey(names, h))
    case Key(k) => Spelled(ResolveKey(names, k))
    case Bool(b) => JBool(b)
    case Int(i) => JInt(i)
    case Float(bits) => JFloat(bits)
    case Null => JNull
    case Obj(o) => JObject(ToMembers(names, o, Ascending(o.fields.Keys), map[]))
    case Text(s) => JString(s)
    case Bools(s) => JArray(BoolItems(s))
    case Ints(s) => JArray(IntItems(s))
    case Floats(s) => JArray(FloatItems(s))
    case Raw(s) => Spelled(Hex(s))
  }

  function Spelled(b: Bytes): Json {
    if |b| < TWO_TO_THE_64 then JString(b) else JNull
  }

  function ToMembers(names: Names, o: Object, keys: seq<uint32>, m: map<Bytes, Json>): map<Bytes, Json>
    requires forall k | k in keys :: k in o.fields
    decreases o, 0, |keys|
  {
    if keys == [] then m
    else
      var (k, f) := (keys[0], o.fields[keys[0]]);
      ToMembers(names, o, keys[1..], if Bookkeeping(k, f) then m else m[ResolveKey(names, k) := ToJson(names, f)])
  }

  // ---- Import ----

  predicate AllBool(s: seq<Json>) {
    forall i | 0 <= i < |s| :: s[i].JBool?
  }

  predicate AllInt(s: seq<Json>) {
    forall i | 0 <= i < |s| :: s[i].JInt?
  }

  predicate AllNumeric(s: seq<Json>) {
    forall i | 0 <= i < |s| :: s[i].JInt? || s[i].JFloat?
  }

  /** `int32_t{value}`: the lowest 32 bits. */
  function Narrow(i: int): int32 {
    Signed(i % TWO_TO_THE_32)
  }

  function FlagsOf(s: Sized<Json>): Sized<bool>
    requires AllBool(s)
  {
    seq(|s|, i requires 0 <= i < |s| => s[i].b)
  }

  function NumbersOf(s: Sized<Json>): Sized<int32>
    requires AllInt(s)
  {
    seq(|s|, i requires 0 <= i < |s| => Narrow(s[i].i))
  }

  function AsFloat(host: Host, j: Json): uint32
    requires j.JInt? || j.JFloat?
  {
    match j case JInt(i) => host.floatOfInt(i) case JFloat(bits) => bits
  }

  function FloatsOf(host: Host, s: Sized<Json>): Sized<uint32>
    requires AllNumeric(s)
  {
    seq(|s|, i requires 0 <= i < |s| => AsFloat(host, s[i]))
  }

  /** The members of an object, in the order they are visited, of which nothing is assumed. */
  ghost function Listed(s: set<Bytes>): (xs: seq<Bytes>)
    ensures forall x :: x in xs <==> x in s
    ensures forall i, j | 0 <= i < j < |xs| :: xs[i] != xs[j]
  {
    if s == {} then []
    else
      var x :| x in s;
      [x] + Listed(s - {x})
  }

  ghost function FromJson(host: Host, j: Json): Option<Field>
    decreases j
  {
    match j
    case JNull => Some(Null)
    case JBool(b) => Some(Bool(b))
    case JInt(i) => Some(Int(Narrow(i)))
    case JFloat(bits) => Some(Float(bits))
    case JString(s) => Some(Text(s))
    case JArray(s) =>
      if s != [] && AllBool(s) then Some(Bools(FlagsOf(s)))
      else if s != [] && AllInt(s) then Some(Ints(NumbersOf(s)))
      else if s != [] && AllNumeric(s) then Some(Floats(FloatsOf(host, s)))
      else (match FromItems(host, j, s, 0, BLANK) case Some(m) => Some(Obj(Object(m))) case None => None)
    case JObject(m) =>
      (match FromMembers(host, j, Listed(m.Keys), BLANK) case Some(own) => Some(Obj(Object(own))) case None => None)
  }

  /** A mixed array: its elements under the numeric keys. */
  ghost function FromItems(host: Host, j: Json, s: seq<Json>, n: nat, own: Fields): Option<Fields>
    requires j.JArray? && s == j.items && n <= |s|
    decreases j, 0, |s| - n
  {
    if n == |s| then Some(own)
    else
      match FromJson(host, s[n])
      case None => None
      case Some(f) => FromItems(host, j, s, n + 1, own[n % TWO_TO_THE_32 := f])
  }

  /**
    * `obj[name] = value`, which throws if the lookup does or if the field there has another type; an
    * array arrives as a `field` and replaces whatever is there.
    */
  ghost function FromMembers(host: Host, j: Json, xs: seq<Bytes>, own: Fields): Option<Fields>
    requires j.JObject? && forall x | x in xs :: x in j.members
    decreases j, 0, |xs|
  {
    if xs == [] then Some(own)
    else
      match FromJson(host, j.members[xs[0]])
      case None => None
      case Some(f) =>
        var k := host.hash(Cut(xs[0]));
        match Opened(host, own, k)
        case None => None
        case Some(m) =>
          if !j.members[xs[0]].JArray? && Assigned(m[k], f).None? then None
          else FromMembers(host, j, xs[1..], m[k := f])
  }

  /** Every element of a mixed array is found under its index, and any element that throws fails it. */
  lemma {:induction false} ItemsAt(host: Host, j: Json, n: nat, own: Fields, m: Fields)
    requires j.JArray? && n <= |j.items| <= TWO_TO_THE_32
    requires FromItems(host, j, j.items, n, own) == Some(m)
    ensures forall i | n <= i < |j.items| :: i in m && FromJson(host, j.items[i]) == Some(m[i])
    ensures forall k: uint32 | k < n || k >= |j.items| :: (k in m <==> k in own) && (k in m ==> m[k] == own[k])
    decreases |j.items| - n
  {
    hide FromJson;
    if n < |j.items| {
      var f := FromJson(host, j.items[n]).value;
      ItemsAt(host, j, n + 1, own[n % TWO_TO_THE_32 := f], m);
    }
  }

  /** The classification loop of arrays: a vector field, or `None` where the array becomes an object. */
  method ClassifyArray(host: Host, s: Sized<Json>) returns (r: Option<Field>)
    ensures r.None? <==> s == [] || !(AllBool(s) || AllNumeric(s))
    ensures r.Some? ==> FromJson(host, JArray(s)) == r
  {
    hide FromItems, FromMembers;
    if s == [] {
      return None;
    }
    var allBool, allInt, allNumeric := true, true, true;
    for n := 0 to |s|
      invariant allBool == AllBool(s[..n])
      invariant allInt == AllInt(s[..n])
      invariant allNumeric == AllNumeric(s[..n])
    {
      var one := s[n];
      assert s[..n + 1] == s[..n] + [one];
      allBool := allBool && one.JBool?;
      allInt := allInt && one.JInt?;
      allNumeric := allNumeric && (one.JInt? || one.JFloat?);
    }
    assert s[..|s|] == s;
    if allBool {
      var v := [];
      for n := 0 to |s|
        invariant v == FlagsOf(s)[..n]
      {
        v := v + [s[n].b];
      }
      assert v == FlagsOf(s);
      return Some(Bools(v));
    }
    if allInt {
      var v := [];
      for n := 0 to |s|
        invariant v == NumbersOf(s)[..n]
      {
        v := v + [Narrow(s[n].i)];
      }
      assert v == NumbersOf(s);
      return Some(Ints(v));
    }
    if allNumeric {
      var v := [];
      for n := 0 to |s|
        invariant v == FloatsOf(host, s)[..n]
      {
        v := v + [AsFloat(host, s[n])];
      }
      assert v == FloatsOf(host, s);
      return Some(Floats(v));
    }
    r := None;
  }

  // ---- What the conversions mean ----

  /** The JSON value of every alternative that holds no object. */
  lemma ExportedAs(names: Names, f: Field)
    requires !f.Obj?
    ensures var j := ToJson(names, f);
            && (f.Empty? || f.Null? ==> j == JNull)
            && (f.Bool? ==> j == JBool(f.flag)) && (f.Int? ==> j == JInt(f.number))
            && (f.Float? ==> j == JFloat(f.bits))
            && (f.Text? ==> j == JString(f.text))
            && (f.Hash? && |ResolveKey(names, f.hash)| < TWO_TO_THE_64 ==> j == JString(ResolveKey(names, f.hash)))
            && (f.Key? && |ResolveKey(names, f.key)| < TWO_TO_THE_64 ==> j == JString(ResolveKey(names, f.key)))
            && (f.Raw? && |Hex(f.raw)| < TWO_TO_THE_64 ==> j == JString(Hex(f.raw)))
            && (f.Bools? ==>
                  j.JArray? && |j.items| == |f.bools| &&
                  forall i | 0 <= i < |j.items| :: j.items[i] == JBool(f.bools[i]))
            && (f.Ints? ==>
                  j.JArray? && |j.items| == |f.ints| &&
                  forall i | 0 <= i < |j.items| :: j.items[i] == JInt(f.ints[i]))
            && (f.Floats? ==>
                  j.JArray? && |j.items| == |f.floats| &&
                  forall i | 0 <= i < |j.items| :: j.items[i] == JFloat(f.floats[i]))
  {
    hide ResolveKey, Hex, ToMembers;
  }

  /** An integer of a JSON document keeps its lowest 32 bits. */
  lemma NarrowMeans(i: int)
    ensures (i - Narrow(i)) % TWO_TO_THE_32 == 0
  {
  }

  /** The field of every JSON value that is no array or object. */
  lemma ImportedAs(host: Host, j: Json)
    requires !j.JArray? && !j.JObject?
    ensures var f := FromJson(host, j);
            && f.Some?
            && (j.JNull? ==> f.value == Null) && (j.JBool? ==> f.value == Bool(j.b))
            && (j.JInt? ==> f.value.Int? && (j.i - f.value.number) % TWO_TO_THE_32 == 0)
            && (j.JFloat? ==> f.value == Float(j.bits)) && (j.JString? ==> f.value == Text(j.s))
  {
  }

  /**
    * An array becomes a vector of booleans, of integers or of floats if it has elements and all are
    * of that kind, integers among floats being cast, and else an object or an exception.
    */
  lemma ArrayMeans(host: Host, s: Sized<Json>)
    ensures var r := FromJson(host, JArray(s));
            var bools := s != [] && forall i | 0 <= i < |s| :: s[i].JBool?;
            var ints := s != [] && forall i | 0 <= i < |s| :: s[i].JInt?;
            var numbers := s != [] && forall i | 0 <= i < |s| :: s[i].JInt? || s[i].JFloat?;
            && (bools ==>
                  r.Some? && r.value.Bools? && |r.value.bools| == |s| &&
                  forall i | 0 <= i < |s| :: s[i] == JBool(r.value.bools[i]))
            && (ints ==>
                  r.Some? && r.value.Ints? && |r.value.ints| == |s| &&
                  forall i | 0 <= i < |s| :: (s[i].i - r.value.ints[i]) % TWO_TO_THE_32 == 0)
            && (numbers && !ints ==>
                  r.Some? && r.value.Floats? && |r.value.floats| == |s| &&
                  forall i | 0 <= i < |s| ::
                    r.value.floats[i] == if s[i].JFloat? then s[i].bits else host.floatOfInt(s[i].i))
            && (!bools && !numbers && r.Some? ==> r.value.Obj?)
  {
    hide FromItems, FromMembers;
    assert s != [] && AllBool(s) ==> s[0].JBool?;
  }

  /**
    * Reading a member: its value must convert and its name must open a field. An array replaces
    * whatever is there; any other value must find the field empty or of its own alternative.
    */
  lemma MemberMeans(host: Host, j: Json, xs: seq<Bytes>, own: Fields)
    requires j.JObject? && xs != [] && forall x | x in xs :: x in j.members
    ensures var (v, k) := (j.members[xs[0]], host.hash(Cut(xs[0])));
            var (f, open) := (FromJson(host, v), Opened(host, own, k));
            FromMembers(host, j, xs, own) ==
            if f.None? || open.None? then None
            else if !v.JArray? && !open.value[k].Empty? && open.value[k].Tag() != f.value.Tag() then None
            else FromMembers(host, j, xs[1..], open.value[k := f.value])
  {
    hide FromJson, Opened, Cut;
  }

  // ---- Round trip ----

  /** The values that keep their kind on the way through JSON. */
  predicate Storable(host: Host, names: Names, f: Field)
    decreases f
  {
    match f
    case Bool(_) => true
    case Int(_) => true
    case Float(_) => true
    case Null => true
    case Text(_) => true
    case Bools(s) => s != []
    case Ints(s) => s != []
    case Floats(s) => s != []
    case Obj(o) => AllStorable(host, names, o)
    case _ => false
  }

  predicate Exported(o: Object, k: uint32) {
    k in o.fields && !Bookkeeping(k, o.fields[k])
  }

  predicate AllStorable(host: Host, names: Names, o: Object)
    decreases o, 0
  {
    forall k | k in o.fields ::
      Bookkeeping(k, o.fields[k]) ||
      (k != CLASS && k != NAMESPACE && Named(host, names, k) && Storable(host, names, o.fields[k]))
  }

  /** What `m` must hold after the keys in `keys` were exported into it. */
  ghost predicate Holds(names: Names, o: Object, keys: set<uint32>, m: map<Bytes, Json>) {
    && (forall k | k in keys && Exported(o, k) ::
          k in names && names[k] in m && m[names[k]] == ToJson(names, o.fields[k]))
    && (forall x | x in m :: exists k :: k in keys && Exported(o, k) && k in names && names[k] == x)
  }

  lemma {:induction false} MembersHold(
      host: Host, names: Names, o: Object, keys: seq<uint32>, done: set<uint32>, m: map<Bytes, Json>)
    requires AllStorable(host, names, o) && (forall k | k in keys :: k in o.fields)
    requires Holds(names, o, done, m)
    ensures Holds(names, o, done + (set k | k in keys), ToMembers(names, o, keys, m))
    decreases |keys|
  {
    hide ToJson, Storable, Bookkeeping;
    if keys == [] {
      assert done + (set k | k in keys) == done;
    } else {
      var (k, rest) := (keys[0], keys[1..]);
      var m' := if Bookkeeping(k, o.fields[k]) then m else m[ResolveKey(names, k) := ToJson(names, o.fields[k])];
      forall x | x in m'
        ensures exists l :: l in done + {k} && Exported(o, l) && l in names && names[l] == x
      {
        if x !in m {
          assert k in done + {k} && Exported(o, k) && names[k] == x;
        } else {
          var l :| l in done && Exported(o, l) && l in names && names[l] == x;
          assert l in done + {k};
        }
      }
      forall l | l in done + {k} && Exported(o, l)
        ensures l in names && names[l] in m' && m'[names[l]] == ToJson(names, o.fields[l])
      {
        assert l == k || l in done;
        assert Bookkeeping(k, o.fields[k]) || (Named(host, names, l) && Named(host, names, k));
      }
      MembersHold(host, names, o, rest, done + {k}, m');
      assert done + {k} + (set x | x in rest) == done + (set x | x in keys);
    }
  }

  // ---- Objects ----

  /** The fields the members in `xs` stand for, without the bookkeeping inside them. */
  ghost function Shown(names: Names, o: Object, xs: seq<Bytes>): Fields {
    map k | k in o.fields && Exported(o, k) && k in names && names[k] in xs :: BareField(o.fields[k])
  }

  lemma ExportedKey(host: Host, names: Names, o: Object, k: uint32)
    requires AllStorable(host, names, o) && Exported(o, k)
    ensures k != CLASS && k != NAMESPACE && Named(host, names, k) && Storable(host, names, o.fields[k])
  {
    hide Storable;
  }

  lemma ShownStep(host: Host, names: Names, o: Object, xs: seq<Bytes>, k: uint32)
    requires AllStorable(host, names, o) && Exported(o, k)
    requires xs != [] && k in names && names[k] == xs[0]
    ensures Shown(names, o, xs) == Shown(names, o, xs[1..])[k := BareField(o.fields[k])]
  {
    hide BareField, AllStorable, Bookkeeping;
    assert forall x :: x in xs <==> x == xs[0] || x in xs[1..];
    forall l | l in o.fields && Exported(o, l) && l in names && names[l] == xs[0]
      ensures l == k
    {
      ExportedKey(host, names, o, l);
      ExportedKey(host, names, o, k);
    }
  }

  ghost predicate Distinct(xs: seq<Bytes>) {
    forall i, j | 0 <= i < j < |xs| :: xs[i] != xs[j]
  }

  /** No name still to be read leads to a key already filled. */
  ghost predicate Unfilled(host: Host, own: Fields, xs: seq<Bytes>) {
    forall x | x in xs :: host.hash(Cut(x)) !in own
  }

  lemma ReadMember(host: Host, j: Json, xs: seq<Bytes>, own: Fields, k: uint32, f: Field)
    requires j.JObject? && xs != [] && forall x | x in xs :: x in j.members
    requires k == host.hash(Cut(xs[0])) && k !in own && FromJson(host, j.members[xs[0]]) == Some(f)
    requires Ready(own) && k != CLASS && k != NAMESPACE
    ensures FromMembers(host, j, xs, own) == FromMembers(host, j, xs[1..], Fill(own, k, f))
  {
    hide FromJson, Opened, Fill, Cut;
    PutWhenReady(host, own, k, f);
  }

  lemma MergeStep(a: Fields, b: Fields, k: uint32, f: Field)
    requires k !in b
    ensures a[k := f] + b == a + b[k := f]
  {
  }

  /** Reading the members of an object in any order fills in the fields they stand for. */
  lemma {:induction false} MembersRoundTrip(
      host: Host, names: Names, o: Object, j: Json, xs: seq<Bytes>, own: Fields)
    requires AllStorable(host, names, o) && j.JObject? && Holds(names, o, o.fields.Keys, j.members)
    requires (forall x | x in xs :: x in j.members) && Distinct(xs) && Unfilled(host, own, xs) && Ready(own)
    ensures var r := FromMembers(host, j, xs, own);
            r.Some? && Bare(Object(r.value)).fields == Bare(Object(own)).fields + Shown(names, o, xs)
    decreases o, 0, |xs|
  {
    if xs == [] {
      assert Shown(names, o, xs) == map[];
    } else {
      hide *;
      var (x, rest) := (xs[0], xs[1..]);
      assert x in xs && x in j.members;
      var k := SourceOf(host, names, o, j, x);
      FieldRoundTrip(host, names, o.fields[k]);
      var f := FromJson(host, j.members[x]).value;
      StillUnfilled(host, names, o, j, xs, own, k, f);
      ReadMember(host, j, xs, own, k, f);
      PutWhenReady(host, own, k, f);
      MembersRoundTrip(host, names, o, j, rest, Fill(own, k, f));
      FillBare(own, k, f);
      ShownStep(host, names, o, xs, k);
      MergeStep(Bare(Object(own)).fields, Shown(names, o, rest), k, BareField(f));
    }
  }

  /** The key a member was written for. */
  lemma SourceOf(host: Host, names: Names, o: Object, j: Json, x: Bytes) returns (k: uint32)
    requires AllStorable(host, names, o) && j.JObject? && Holds(names, o, o.fields.Keys, j.members)
    requires x in j.members
    ensures Exported(o, k) && k in o.fields && k in names && names[k] == x && host.hash(Cut(x)) == k
    ensures k != CLASS && k != NAMESPACE && Storable(host, names, o.fields[k])
    ensures j.members[x] == ToJson(names, o.fields[k])
  {
    hide AllStorable, Storable, ToJson, Cut, Bookkeeping;
    k :| k in o.fields.Keys && Exported(o, k) && k in names && names[k] == x;
    ExportedKey(host, names, o, k);
  }

  lemma StillUnfilled(
      host: Host, names: Names, o: Object, j: Json, xs: seq<Bytes>, own: Fields, k: uint32, f: Field)
    requires AllStorable(host, names, o) && j.JObject? && Holds(names, o, o.fields.Keys, j.members)
    requires (forall x | x in xs :: x in j.members) && Distinct(xs) && Unfilled(host, own, xs)
    requires xs != [] && k in names && names[k] == xs[0] && host.hash(Cut(xs[0])) == k
    ensures k !in own && Unfilled(host, Fill(own, k, f), xs[1..]) && Distinct(xs[1..])
  {
    hide AllStorable, Exported, Storable, ToJson, Holds, Cut;
    assert xs[0] in xs;
    forall x | x in xs[1..]
      ensures host.hash(Cut(x)) !in Fill(own, k, f)
    {
      assert x in xs && x != xs[0];
      var l := SourceOf(host, names, o, j, x);
    }
  }

  // ---- Vectors ----

  lemma VectorRoundTrip(host: Host, names: Names, f: Field)
    requires (f.Bools? && f.bools != []) || (f.Ints? && f.ints != []) || (f.Floats? && f.floats != [])
    ensures FromJson(host, ToJson(names, f)) == Some(f)
  {
    hide FromItems, FromMembers, ToMembers;
    var s := ToJson(names, f).items;
    if f.Bools? {
      assert AllBool(s) && FlagsOf(s) == f.bools;
    } else if f.Ints? {
      assert !s[0].JBool?;
      assert AllInt(s) && NumbersOf(s) == f.ints;
    } else {
      assert !s[0].JBool? && !s[0].JInt?;
      assert AllNumeric(s) && FloatsOf(host, s) == f.floats;
    }
  }

  /** Of the values that hold no object, exactly the storable ones come back as themselves. */
  lemma PlainSurvivesIff(host: Host, names: Names, f: Field)
    requires !f.Obj?
    ensures FromJson(host, ToJson(names, f)) == Some(f) <==> Storable(host, names, f)
  {
    hide FromItems, FromMembers, ToMembers, Hex, ResolveKey;
    if Storable(host, names, f) && (f.Bools? || f.Ints? || f.Floats?) {
      VectorRoundTrip(host, names, f);
    }
  }

  /** A storable value comes back from JSON, up to the bookkeeping fields of the objects in it. */
  lemma {:induction false} FieldRoundTrip(host: Host, names: Names, f: Field)
    requires Storable(host, names, f)
    ensures var r := FromJson(host, ToJson(names, f));
            r.Some? && BareField(r.value) == BareField(f) && r.value.Tag() == f.Tag()
    decreases f, 0
  {
    hide ToMembers, FromMembers, FromItems, AllStorable, Bare;
    if f.Obj? {
      ObjectRoundTrip(host, names, f.obj);
    } else if f.Bools? || f.Ints? || f.Floats? {
      VectorRoundTrip(host, names, f);
    }
  }

  /**
    * An object exported to JSON and read back, its members in any order, is that object up to the
    * bookkeeping fields of class and namespace 0; no assignment along the way throws.
    */
  lemma {:induction false} ObjectRoundTrip(host: Host, names: Names, o: Object)
    requires AllStorable(host, names, o)
    ensures var r := FromJson(host, ToJson(names, Obj(o)));
            r.Some? && r.value.Obj? && Bare(r.value.obj) == Bare(o)
    decreases o, 1
  {
    hide *;
    var keys := Ascending(o.fields.Keys);
    NothingHeld(names, o);
    MembersHold(host, names, o, keys, {}, map[]);
    var all := {} + set k | k in keys;
    assert all == o.fields.Keys;
    var m := ToMembers(names, o, keys, map[]);
    assert Holds(names, o, all, m);
    var j := JObject(m);
    var xs := Listed(j.members.Keys);
    ListedIsDistinct(j.members.Keys);
    NothingFilled(host, names, o, j, xs);
    BlankIsReady();
    MembersRoundTrip(host, names, o, j, xs, BLANK);
    EverythingShown(names, o, j, xs);
    ConvertsWhole(host, names, o);
  }

  lemma ListedIsDistinct(s: set<Bytes>)
    ensures Distinct(Listed(s))
  {
    hide Listed;
  }

  lemma ConvertsWhole(host: Host, names: Names, o: Object)
    ensures var m := ToMembers(names, o, Ascending(o.fields.Keys), map[]);
            && ToJson(names, Obj(o)) == JObject(m)
            && (var own := FromMembers(host, JObject(m), Listed(m.Keys), BLANK);
                own.Some? ==> FromJson(host, JObject(m)) == Some(Obj(Object(own.value))))
  {
    hide ToMembers, FromMembers, Ascending, Listed;
  }

  lemma NothingHeld(names: Names, o: Object)
    ensures Holds(names, o, {}, map[])
  {
  }

  lemma EverythingShown(names: Names, o: Object, j: Json, xs: seq<Bytes>)
    requires j.JObject? && Holds(names, o, o.fields.Keys, j.members) && forall x | x in j.members :: x in xs
    ensures Bare(Object(BLANK)).fields + Shown(names, o, xs) == Bare(o).fields
  {
    hide BareField, ToJson;
    forall k | k in o.fields && Exported(o, k)
      ensures k in names && names[k] in xs
    {
    }
  }

  lemma NothingFilled(host: Host, names: Names, o: Object, j: Json, xs: seq<Bytes>)
    requires AllStorable(host, names, o) && j.JObject? && Holds(names, o, o.fields.Keys, j.members)
    requires forall x | x in xs :: x in j.members
    ensures Unfilled(host, BLANK, xs)
  {
    hide AllStorable, Storable, Exported, ToJson, Holds, Cut;
    forall x | x in xs
      ensures host.hash(Cut(x)) !in BLANK
    {
      var l := SourceOf(host, names, o, j, x);
    }
  }
}

/** What the JSON and YAML converters share: names, text and the reserved bookkeeping fields. */
module Documents {
  import opened Bytes
  import opened Values
  import opened Decimals
  import opened Lookup
  import Registry
  import Wire
  import Caches

  /**
    * What the converters rely on but is not modelled (float text, `strtod`, casts to `float`), and
    * whether the class registry has a global namespace.
    */
  datatype Host = Host(
    hash: Bytes -> uint32,
    floatText: uint32 -> Bytes,
    parseFloat: Bytes -> Option<uint32>,
    floatOfInt: int -> uint32,
    global: bool)

  type Names = map<uint32, Bytes>

  // ---- Bytes and characters ----

  function Chars(b: Bytes): (s: string)
    ensures |s| == |b|
  {
    seq(|b|, i requires 0 <= i < |b| => b[i] as char)
  }

  predicate Ascii(s: string) {
    forall i | 0 <= i < |s| :: s[i] as int < 0x80
  }

  function Codes(s: string): (b: Bytes)
    requires Ascii(s)
    ensures |b| == |s|
  {
    seq(|s|, i requires 0 <= i < |s| => s[i] as int)
  }

  lemma CodesReadBack(s: string)
    requires Ascii(s)
    ensures Chars(Codes(s)) == s
  {
  }

  lemma {:induction false} NatTextIsAscii(n: nat)
    ensures Ascii(NatText(n))
  {
    assert forall i | 0 <= i < |NatText(n)| :: IsDigit(NatText(n)[i]);
  }

  /** `std::to_string(i)`, as bytes. */
  function IntText(i: int32): Bytes {
    var n: int := i;
    NatTextIsAscii(if n < 0 then -n else n);
    Codes(ToText(i))
  }

  /** The text of a C string: everything before the first NUL. */
  function Cut(b: Bytes): Bytes {
    if b == [] || b[0] == 0 then [] else [b[0]] + Cut(b[1..])
  }

  predicate NulFree(b: Bytes) {
    forall i | 0 <= i < |b| :: b[i] != 0
  }

  lemma {:induction false} NulFreeIsUncut(b: Bytes)
    requires NulFree(b)
    ensures Cut(b) == b
  {
    if b != [] {
      NulFreeIsUncut(b[1..]);
    }
  }

  lemma {:induction false} UncutIsNulFree(b: Bytes)
    requires Cut(b) == b
    ensures NulFree(b)
  {
    if b != [] {
      assert Cut(b)[1..] == b[1..];
      UncutIsNulFree(b[1..]);
    }
  }

  /** The given name of a key, or `#` and its number. */
  function ResolveKey(names: Names, k: uint32): Bytes {
    if k in names then names[k]
    else
      NatTextIsAscii(k);
      Codes("#" + NatText(k))
  }

  /** Two lowercase hexadecimal digits for every byte. */
  function Hex(b: Bytes): Bytes {
    if b == [] then [] else [HexDigit(b[0] / 16), HexDigit(b[0] % 16)] + Hex(b[1..])
  }

  function HexDigit(d: nat): byte
    requires d < 16
  {
    if d < 10 then 0x30 + d else 0x57 + d
  }

  /** The value of a lowercase hexadecimal digit. */
  function HexValue(c: char): Option<nat> {
    if '0' <= c <= '9' then Some(c as int - '0' as int)
    else if 'a' <= c <= 'f' then Some(10 + c as int - 'a' as int)
    else None
  }

  /** The digits of byte `i` are the two from position `2 * i` on, the high one first. */
  lemma {:induction false} HexMeans(b: Bytes, i: nat)
    requires i < |b|
    ensures |Hex(b)| == 2 * |b|
    ensures HexValue(Hex(b)[2 * i] as char) == Some(b[i] / 16)
    ensures HexValue(Hex(b)[2 * i + 1] as char) == Some(b[i] % 16)
  {
    HexLength(b);
    if i > 0 {
      HexMeans(b[1..], i - 1);
      assert Hex(b)[2..] == Hex(b[1..]);
    }
  }

  /** A key without a name is written as `#` and its number, without leading zeros. */
  lemma KeyText(names: Names, k: uint32)
    ensures k in names ==> ResolveKey(names, k) == names[k]
    ensures k !in names ==>
              var s := Chars(ResolveKey(names, k));
              && |s| > 1 && s[0] == '#' && AllDigits(s[1..]) && Value(s[1..]) == k
              && (k >= 10 ==> s[1] != '0')
  {
    hide NatText, Value, ReadDigits;
    if k !in names {
      NatTextIsAscii(k);
      CodesReadBack("#" + NatText(k));
      assert ("#" + NatText(k))[1..] == NatText(k);
      NatTextReadsBack(k);
      DigitsDenote(NatText(k));
      NoLeadingZero(k);
    }
  }

  lemma {:induction false} NoLeadingZero(n: nat)
    ensures n > 0 ==> NatText(n)[0] != '0'
  {
    if n >= 10 {
      NoLeadingZero(n / 10);
    }
  }

  lemma {:induction false} HexLength(b: Bytes)
    ensures |Hex(b)| == 2 * |b|
  {
    if b != [] {
      HexLength(b[1..]);
    }
  }

  /** No two byte strings have the same hexadecimal text. */
  lemma {:induction false} HexIsUnique(a: Bytes, b: Bytes)
    requires Hex(a) == Hex(b)
    ensures a == b
  {
    HexLength(a);
    HexLength(b);
    if a != [] {
      assert Hex(a)[0] == Hex(b)[0] && Hex(a)[1] == Hex(b)[1];
      assert Hex(a)[2..] == Hex(a[1..]) && Hex(b)[2..] == Hex(b[1..]);
      HexIsUnique(a[1..], b[1..]);
    }
  }

  // ---- Bookkeeping fields ----

  /** `__class` or `__namespace` holding key 0, which exporters leave out. */
  predicate Bookkeeping(k: uint32, f: Field) {
    (k == CLASS || k == NAMESPACE) && f == Key(0)
  }

  /**
    * `obj[k]` on an object under construction, whose class 0 is not registered: the fields with one
    * under `k`, unless the lookup throws because the document gave `__namespace` or `__class` a
    * value that is not a key.
    */
  function Opened(host: Host, own: Fields, k: uint32): (r: Option<Fields>)
    ensures r.Some? ==> k in r.value
  {
    if k in own then Some(own)
    else
      match Resolve(own)
      case None => None
      case Some((own1, _)) =>
        match if host.global then Ensure(own1, CLASS, Key(0)) else Some(own1)
        case None => None
        case Some(own2) => Some(if k in own2 then own2 else own2[k := Empty])
  }

  /** `Opened` is `operator[]` on such an object. */
  lemma OpenedIsReach(spaces: Registry.Namespaces, host: Host, own: Fields, k: uint32)
    requires host.global == (0 in spaces) && 0 !in Registry.Space(spaces, 0)
    requires KeyIn(own, CLASS) == 0 && KeyIn(own, NAMESPACE) == 0
    ensures var r := Caches.Reach(Caches.Cached(spaces, own, {}), k);
            Opened(host, own, k) == if r.Blocked? then None else Some(r.after.fields)
  {
    hide Registry.InheritedField;
    assert Registry.InheritedField(spaces, 0, 0, k) == None by {
      Unregistered(spaces, k);
    }
  }

  lemma Unregistered(spaces: Registry.Namespaces, k: uint32)
    requires 0 !in Registry.Space(spaces, 0)
    ensures Registry.InheritedField(spaces, 0, 0, k) == None
  {
  }

  /** `obj[k] = f` where `f` is a `field`, which replaces whatever is there. */
  function Put(host: Host, own: Fields, k: uint32, f: Field): Option<Fields> {
    match Opened(host, own, k) case None => None case Some(m) => Some(m[k := f])
  }

  /** The document has not touched class and namespace. */
  predicate Ready(own: Fields) {
    CLASS in own && own[CLASS].Key? && (NAMESPACE in own ==> own[NAMESPACE].Key?)
  }

  /** What a value adds to the fields of such an object. */
  function Fill(own: Fields, k: uint32, f: Field): Fields {
    (if k in own || NAMESPACE in own then own else own[NAMESPACE := Key(0)])[k := f]
  }

  lemma PutWhenReady(host: Host, own: Fields, k: uint32, f: Field)
    requires Ready(own) && k != CLASS && k != NAMESPACE
    ensures Opened(host, own, k).Some? && (k !in own ==> Opened(host, own, k).value[k].Empty?)
    ensures Put(host, own, k, f) == Some(Fill(own, k, f)) && Ready(Fill(own, k, f))
  {
    var m := Opened(host, own, k).value;
    assert m[k := f] == Fill(own, k, f);
  }

  lemma BlankIsReady()
    ensures Ready(Wire.BLANK)
  {
  }

  /** The value without the bookkeeping fields of the objects in it. */
  function BareField(f: Field): Field
    decreases f
  {
    match f case Obj(o) => Obj(Bare(o)) case _ => f
  }

  function Bare(o: Object): Object
    decreases o, 0
  {
    Object(map k | k in o.fields && !Bookkeeping(k, o.fields[k]) :: BareField(o.fields[k]))
  }

  /** A key whose name the importer hashes back to it. */
  predicate Named(host: Host, names: Names, k: uint32) {
    k in names && host.hash(Cut(names[k])) == k
  }

  lemma FillBare(own: Fields, k: uint32, f: Field)
    requires k != CLASS && k != NAMESPACE
    ensures Bare(Object(Fill(own, k, f))).fields == Bare(Object(own)).fields[k := BareField(f)]
  {
    hide BareField;
  }

  /** Only a class or namespace of key 0 is left out of account, at every depth. */
  lemma BareMeans(o: Object, k: uint32)
    ensures k in Bare(o).fields <==> k in o.fields && !((k == CLASS || k == NAMESPACE) && o.fields[k] == Key(0))
    ensures k in Bare(o).fields ==>
              Bare(o).fields[k] == if o.fields[k].Obj? then Obj(Bare(o.fields[k].obj)) else o.fields[k]
  {
  }
}

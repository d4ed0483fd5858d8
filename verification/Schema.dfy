/**
  * The Schema-Driven Compact Format: values only, in the order in which the classes on the chain
  * declare them.
  */
module Schema {
  import opened Bytes
  import opened Values
  import opened Chains
  import opened Registry
  import opened Wire
  import opened Lookup

  // ---- The format ----

  /** The object's own value for a declared key, else the class's default. */
  function Chosen(own: Fields, layer: Fields, k: uint32): Field
    requires k in layer
  {
    if k in own then own[k] else layer[k]
  }

  function EncodeLayer(own: Fields, layer: Fields, keys: seq<uint32>): Bytes
    requires forall k | k in keys :: k in layer
  {
    if keys == [] then []
    else EncodeField(Chosen(own, layer, keys[0])) + EncodeLayer(own, layer, keys[1..])
  }

  function EncodeLayers(own: Fields, layers: seq<Fields>): Bytes {
    if layers == [] then []
    else EncodeLayer(own, layers[0], Ascending(layers[0].Keys)) + EncodeLayers(own, layers[1..])
  }

  /** The classes of an object that names class `klass` in namespace `ns`, nearest first. */
  function Layers(spaces: Namespaces, ns: uint32, klass: uint32): seq<Fields> {
    FieldLayers(Space(spaces, ns), Chain(Space(spaces, ns), klass))
  }

  /** The fields of an object once its class and namespace are in place, or an exception. */
  function Identified(own: Fields): Option<Fields> {
    match Ensure(own, CLASS, Key(0))
    case None => None
    case Some(own1) => match Resolve(own1) case None => None case Some((own2, _)) => Some(own2)
  }

  function EncodeWithSchema(spaces: Namespaces, own: Fields): Bytes {
    var (ns, klass) := (KeyIn(own, NAMESPACE), KeyIn(own, CLASS));
    EncodeU32(ns) + EncodeU32(klass) + EncodeLayers(own, Layers(spaces, ns, klass))
  }

  function DecodeLayer(global: bool, s: Bytes, keys: seq<uint32>, read: Fields): (r: Parsed<Fields>)
    ensures r.Ok? ==> |r.rest| <= |s|
    decreases keys
  {
    if keys == [] then Ok(read, s)
    else
      var (f, s1) :- DecodeField(global, s);
      DecodeLayer(global, s1, keys[1..], read[keys[0] := f])
  }

  function DecodeLayers(global: bool, s: Bytes, layers: seq<Fields>, read: Fields): (r: Parsed<Fields>)
    ensures r.Ok? ==> |r.rest| <= |s|
    decreases layers
  {
    if layers == [] then Ok(read, s)
    else
      var (read1, s1) :- DecodeLayer(global, s, Ascending(layers[0].Keys), read);
      DecodeLayers(global, s1, layers[1..], read1)
  }

  function DecodeWithSchema(spaces: Namespaces, s: Bytes): (r: Parsed<Fields>)
    ensures Shrinks(s, r)
  {
    var (ns, s1) :- DecodeU32(s);
    var (klass, s2) :- DecodeU32(s1);
    DecodeLayers(0 in spaces, s2, Layers(spaces, ns, klass), BLANK)
  }

  // ---- What comes back ----

  /** The last of `layers` that declares `k` decides. */
  function Rootmost<T>(layers: seq<map<uint32, T>>, k: uint32): Option<T> {
    if layers == [] then None
    else if Rootmost(layers[1..], k).Some? then Rootmost(layers[1..], k)
    else if k in layers[0] then Some(layers[0][k])
    else None
  }

  /** What a layer contributes, as it is read back. */
  function NormalLayer(global: bool, own: Fields, layer: Fields): (m: Fields)
    ensures m.Keys == layer.Keys
  {
    map k | k in layer :: NormalField(global, Chosen(own, layer, k))
  }

  function Overlay(global: bool, own: Fields, layers: seq<Fields>, read: Fields): Fields
    decreases layers
  {
    if layers == [] then read
    else Overlay(global, own, layers[1..], read + NormalLayer(global, own, layers[0]))
  }

  predicate LayerReadable(global: bool, own: Fields, layer: Fields) {
    forall k | k in layer :: Readable(global, Chosen(own, layer, k))
  }

  predicate LayersReadable(global: bool, own: Fields, layers: seq<Fields>) {
    forall i | 0 <= i < |layers| :: LayerReadable(global, own, layers[i])
  }

  function NormalKeys(global: bool, own: Fields, layer: Fields, keys: seq<uint32>): Fields
    requires forall k | k in keys :: k in layer
  {
    map k | k in keys :: NormalField(global, Chosen(own, layer, k))
  }

  predicate KeysReadable(global: bool, own: Fields, layer: Fields, keys: seq<uint32>)
    requires forall k | k in keys :: k in layer
  {
    forall k | k in keys :: Readable(global, Chosen(own, layer, k))
  }

  lemma {:induction false} LayerRoundTrip(
      global: bool, own: Fields, layer: Fields, keys: seq<uint32>, read: Fields, tail: Bytes)
    requires forall k | k in keys :: k in layer
    ensures DecodeLayer(global, EncodeLayer(own, layer, keys) + tail, keys, read) ==
            if KeysReadable(global, own, layer, keys)
            then Ok(read + NormalKeys(global, own, layer, keys), tail) else Err(InvalidType)
    decreases keys
  {
    hide EncodeField, DecodeField, Readable, NormalField, Chosen, NormalKeys, KeysReadable;
    if keys == [] {
      assert EncodeLayer(own, layer, keys) + tail == tail;
      NoKeys(global, own, layer, read);
    } else {
      var (k, rest) := (keys[0], keys[1..]);
      var f := Chosen(own, layer, k);
      var after := EncodeLayer(own, layer, rest) + tail;
      assert EncodeLayer(own, layer, keys) + tail == EncodeField(f) + after;
      FieldRoundTrip(global, f, after);
      KeysStep(global, own, layer, keys, read);
      if Readable(global, f) {
        LayerRoundTrip(global, own, layer, rest, read[k := NormalField(global, f)], tail);
      }
    }
  }

  lemma NoKeys(global: bool, own: Fields, layer: Fields, read: Fields)
    ensures KeysReadable(global, own, layer, []) && read + NormalKeys(global, own, layer, []) == read
  {
  }

  lemma KeysStep(global: bool, own: Fields, layer: Fields, keys: seq<uint32>, read: Fields)
    requires keys != [] && forall k | k in keys :: k in layer
    ensures var (k, rest) := (keys[0], keys[1..]);
            && (KeysReadable(global, own, layer, keys) <==>
                  Readable(global, Chosen(own, layer, k)) && KeysReadable(global, own, layer, rest))
            && read[k := NormalField(global, Chosen(own, layer, k))] + NormalKeys(global, own, layer, rest) ==
               read + NormalKeys(global, own, layer, keys)
  {
    hide Readable, NormalField, Chosen;
    assert forall x :: x in keys <==> x == keys[0] || x in keys[1..];
  }

  lemma WholeLayerRoundTrip(global: bool, own: Fields, layer: Fields, read: Fields, tail: Bytes)
    ensures var keys := Ascending(layer.Keys);
            DecodeLayer(global, EncodeLayer(own, layer, keys) + tail, keys, read) ==
            if LayerReadable(global, own, layer) then Ok(read + NormalLayer(global, own, layer), tail)
            else Err(InvalidType)
  {
    hide EncodeLayer, DecodeLayer, Readable, NormalField, Ascending, Chosen;
    var keys := Ascending(layer.Keys);
    LayerRoundTrip(global, own, layer, keys, read, tail);
    assert NormalKeys(global, own, layer, keys) == NormalLayer(global, own, layer);
  }

  lemma {:induction false} LayersRoundTrip(
      global: bool, own: Fields, layers: seq<Fields>, read: Fields, tail: Bytes)
    ensures DecodeLayers(global, EncodeLayers(own, layers) + tail, layers, read) ==
            if LayersReadable(global, own, layers) then Ok(Overlay(global, own, layers, read), tail)
            else Err(InvalidType)
    decreases layers
  {
    hide EncodeLayer, DecodeLayer, LayersReadable, LayerReadable, NormalLayer, Ascending;
    if layers == [] {
      assert LayersReadable(global, own, layers) by { NothingToRead(global, own); }
      assert EncodeLayers(own, layers) + tail == tail;
    } else {
      var (layer, rest) := (layers[0], layers[1..]);
      var after := EncodeLayers(own, rest) + tail;
      assert EncodeLayers(own, layers) + tail == EncodeLayer(own, layer, Ascending(layer.Keys)) + after;
      WholeLayerRoundTrip(global, own, layer, read, after);
      LayersRoundTrip(global, own, rest, read + NormalLayer(global, own, layer), tail);
      LayersReadableStep(global, own, layers);
    }
  }

  lemma NothingToRead(global: bool, own: Fields)
    ensures LayersReadable(global, own, [])
  {
  }

  lemma LayersReadableStep(global: bool, own: Fields, layers: seq<Fields>)
    requires layers != []
    ensures LayersReadable(global, own, layers) <==>
            LayerReadable(global, own, layers[0]) && LayersReadable(global, own, layers[1..])
  {
    hide LayerReadable;
    assert forall i | 0 < i < |layers| :: layers[i] == layers[1..][i - 1];
  }

  lemma {:induction false} OverlayAt(global: bool, own: Fields, layers: seq<Fields>, read: Fields, k: uint32)
    ensures var m := Overlay(global, own, layers, read);
            if Rootmost(layers, k).Some? then
              k in m && m[k] == NormalField(global, if k in own then own[k] else Rootmost(layers, k).value)
            else (k in m <==> k in read) && (k in read ==> m[k] == read[k])
    decreases layers
  {
    hide NormalField;
    if layers != [] {
      OverlayAt(global, own, layers[1..], read + NormalLayer(global, own, layers[0]), k);
    }
  }

  /**
    * Decoding what an object was encoded to, followed by anything, leaves exactly what followed.
    * The result holds the keys declared on the class chain (and a class): the object's own value
    * where it holds one, else the default of the root-most class that declares the key.
    */
  lemma SchemaRoundTrip(spaces: Namespaces, own: Fields, tail: Bytes)
    ensures var (ns, klass) := (KeyIn(own, NAMESPACE), KeyIn(own, CLASS));
            var layers := Layers(spaces, ns, klass);
            var r := DecodeWithSchema(spaces, EncodeWithSchema(spaces, own) + tail);
            && (r.Ok? <==> LayersReadable(0 in spaces, own, layers))
            && (r.Err? ==> r.error == InvalidType)
            && (r.Ok? ==>
                  && r.rest == tail
                  && forall k ::
                       && (k in r.value <==> Rootmost(layers, k).Some? || k == CLASS)
                       && (Rootmost(layers, k).Some? ==>
                             r.value[k] ==
                             NormalField(0 in spaces, if k in own then own[k] else Rootmost(layers, k).value)))
  {
    hide EncodeU32, DecodeU32, EncodeLayers, DecodeLayers, LayersReadable, Layers, Overlay, NormalField, Rootmost;
    var (ns, klass) := (KeyIn(own, NAMESPACE), KeyIn(own, CLASS));
    var layers := Layers(spaces, ns, klass);
    var body := EncodeLayers(own, layers) + tail;
    assert EncodeWithSchema(spaces, own) + tail == EncodeU32(ns) + (EncodeU32(klass) + body);
    U32RoundTrip(ns, EncodeU32(klass) + body);
    U32RoundTrip(klass, body);
    LayersRoundTrip(0 in spaces, own, layers, BLANK, tail);
    forall k {
      OverlayAt(0 in spaces, own, layers, BLANK, k);
    }
  }

  /** A class no layer declares is the 0 of a fresh object, not the one that was sent. */
  lemma UndeclaredClass(spaces: Namespaces, own: Fields, tail: Bytes)
    ensures var layers := Layers(spaces, KeyIn(own, NAMESPACE), KeyIn(own, CLASS));
            var r := DecodeWithSchema(spaces, EncodeWithSchema(spaces, own) + tail);
            r.Ok? && Rootmost(layers, CLASS).None? ==> CLASS in r.value && r.value[CLASS] == Key(0)
  {
    hide EncodeU32, DecodeU32, EncodeLayers, DecodeLayers, LayersReadable, Layers, Overlay, NormalField, Rootmost;
    var (ns, klass) := (KeyIn(own, NAMESPACE), KeyIn(own, CLASS));
    var layers := Layers(spaces, ns, klass);
    var body := EncodeLayers(own, layers) + tail;
    assert EncodeWithSchema(spaces, own) + tail == EncodeU32(ns) + (EncodeU32(klass) + body);
    U32RoundTrip(ns, EncodeU32(klass) + body);
    U32RoundTrip(klass, body);
    LayersRoundTrip(0 in spaces, own, layers, BLANK, tail);
    OverlayAt(0 in spaces, own, layers, BLANK, CLASS);
  }

  // ---- Agreement with lookup ----

  /** `k` is declared by at most one of the layers. */
  predicate Unshadowed<T>(layers: seq<map<uint32, T>>, k: uint32) {
    forall i, j | 0 <= i < j < |layers| :: k !in layers[i] || k !in layers[j]
  }

  lemma {:induction false} DeclaredSomewhere<T>(layers: seq<map<uint32, T>>, k: uint32)
    ensures Nearest(layers, k).Some? <==> exists i | 0 <= i < |layers| :: k in layers[i]
    ensures Rootmost(layers, k).Some? <==> Nearest(layers, k).Some?
  {
    if layers != [] {
      DeclaredSomewhere(layers[1..], k);
      if Nearest(layers[1..], k).Some? {
        var i :| 0 <= i < |layers[1..]| && k in layers[1..][i];
        assert k in layers[i + 1];
      }
      forall i | 0 < i < |layers| && k in layers[i]
        ensures k in layers[1..][i - 1]
      {
      }
    }
  }

  lemma {:induction false} UnshadowedAgree<T>(layers: seq<map<uint32, T>>, k: uint32)
    requires Unshadowed(layers, k)
    ensures Nearest(layers, k) == Rootmost(layers, k)
  {
    if layers != [] {
      assert Unshadowed(layers[1..], k) by {
        assert forall i | 0 <= i < |layers[1..]| :: layers[1..][i] == layers[i + 1];
      }
      UnshadowedAgree(layers[1..], k);
      if k in layers[0] {
        DeclaredSomewhere(layers[1..], k);
        assert forall i | 0 <= i < |layers[1..]| :: k !in layers[1..][i];
      }
    }
  }

  /**
    * For every key of the class chain, the decoded object holds what `findField` shows on the
    * original exactly when the object holds its own value or the nearest and the root-most default
    * read back alike; a key that only one class declares always does.
    */
  lemma SchemaAgreesWithLookup(spaces: Namespaces, own: Fields, tail: Bytes, k: uint32)
    requires Inherited(spaces, own, k).Some?
    ensures var layers := Layers(spaces, KeyIn(own, NAMESPACE), KeyIn(own, CLASS));
            var r := DecodeWithSchema(spaces, EncodeWithSchema(spaces, own) + tail);
            var shown := NormalField(0 in spaces, Effective(spaces, own, k).value);
            r.Ok? ==>
              && k in r.value && Rootmost(layers, k).Some?
              && (r.value[k] == shown <==>
                    k in own || NormalField(0 in spaces, Nearest(layers, k).value) ==
                                NormalField(0 in spaces, Rootmost(layers, k).value))
              && (Unshadowed(layers, k) ==> r.value[k] == shown)
  {
    hide EncodeWithSchema, DecodeWithSchema, NormalField, LayersReadable, Nearest, Rootmost, Unshadowed, Chain;
    var layers := Layers(spaces, KeyIn(own, NAMESPACE), KeyIn(own, CLASS));
    SchemaRoundTrip(spaces, own, tail);
    DeclaredSomewhere(layers, k);
    if Unshadowed(layers, k) {
      UnshadowedAgree(layers, k);
    }
  }

  lemma {:induction false} RootParent(col: Collection, ns: uint32, k: uint32, n: nat)
    requires Labelled(col, ns) && Ends(col, k, n) && k in col
    ensures Rootmost(FieldLayers(col, ChainWithin(col, k, n)), PARENT) == Some(Key(LastWithin(col, k, n)))
    decreases n
  {
    var p := Parent(col[k]);
    var rest := ChainWithin(col, p, n - 1);
    var layers := FieldLayers(col, ChainWithin(col, k, n));
    assert ChainWithin(col, k, n) == [k] + rest;
    assert layers[0] == col[k].fields && layers[1..] == FieldLayers(col, rest);
    if p in col {
      RootParent(col, ns, p, n - 1);
    } else {
      assert rest == [];
    }
  }

  /**
    * Every class declares `__parent`, so a class with a registered parent shadows it: the decoded
    * object then names the unregistered end of the chain as its parent, and lookup on the original
    * names the nearest class's parent, which is never the same.
    */
  lemma ParentIsShadowed(spaces: Namespaces, own: Fields, tail: Bytes)
    requires Sound(spaces) && PARENT !in own
    requires |Layers(spaces, KeyIn(own, NAMESPACE), KeyIn(own, CLASS))| >= 2
    ensures var col := Space(spaces, KeyIn(own, NAMESPACE));
            var klass := KeyIn(own, CLASS);
            var r := DecodeWithSchema(spaces, EncodeWithSchema(spaces, own) + tail);
            && klass in col && Effective(spaces, own, PARENT) == Some(Key(Parent(col[klass])))
            && (r.Ok? ==>
                  && PARENT in r.value && r.value[PARENT] == Key(Last(col, klass))
                  && r.value[PARENT] != Key(Parent(col[klass])))
  {
    hide EncodeWithSchema, DecodeWithSchema, LayersReadable, NormalField, Nearest, Rootmost, Sound, Chain, Last, Parent;
    var (ns, klass) := (KeyIn(own, NAMESPACE), KeyIn(own, CLASS));
    SpaceIsSound(spaces, ns);
    SchemaRoundTrip(spaces, own, tail);
    ParentsOnChain(Space(spaces, ns), ns, klass);
  }

  lemma ParentsOnChain(col: Collection, ns: uint32, klass: uint32)
    requires Acyclic(col) && Labelled(col, ns) && |Chain(col, klass)| >= 2
    ensures klass in col && Last(col, klass) != Parent(col[klass])
    ensures var layers := FieldLayers(col, Chain(col, klass));
            && Rootmost(layers, PARENT) == Some(Key(Last(col, klass)))
            && Nearest(layers, PARENT) == Some(Key(Parent(col[klass])))
  {
    hide Nearest, Rootmost;
    var n := |col|;
    RootParent(col, ns, klass, n);
    MoreSteps(col, klass, n, n);
    assert Chain(col, klass)[1] == Parent(col[klass]) && Chain(col, klass)[1] in Chain(col, klass);
    NearestStep(col, klass, n, PARENT);
  }
}

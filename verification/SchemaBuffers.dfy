/** `serializeWithSchema` and both `deserializeWithSchema`, running on an object and a buffer or stream. */
module SchemaBuffers {
  import opened Bytes
  import opened Values
  import opened Chains
  import opened Registry
  import opened Wire
  import opened Lookup
  import opened Buffers
  import opened Streams
  import opened Schema

  method WriteLayer(d: Dynamic, out: BufferSerializer, layer: Fields)
    modifies out
    ensures out.buf == old(out.buf) + EncodeLayer(d.View(), layer, Ascending(layer.Keys))
  {
    hide EncodeField, Ascending;
    var keys := Ascending(layer.Keys);
    ghost var own := d.View();
    for i := 0 to |keys|
      invariant d.View() == own
      invariant out.buf + EncodeLayer(own, layer, keys[i..]) == old(out.buf) + EncodeLayer(own, layer, keys)
    {
      var k := keys[i];
      var f := if k in d.nodes then d.nodes[k].value else layer[k];
      assert keys[i..][0] == k && keys[i..][1..] == keys[i + 1..];
      assert f == Chosen(own, layer, k);
      assert out.buf + (EncodeField(f) + EncodeLayer(own, layer, keys[i + 1..]))
          == out.buf + EncodeField(f) + EncodeLayer(own, layer, keys[i + 1..]);
      out.WriteField(f);
    }
    assert out.buf + EncodeLayer(own, layer, keys[|keys|..]) == out.buf;
  }

  /** One class on the chain, ahead of its ancestors. */
  lemma LayersStep(col: Collection, own: Fields, at: uint32, n: nat)
    requires Ends(col, at, n)
    ensures var layers := FieldLayers(col, ChainWithin(col, at, n));
            if at !in col then layers == []
            else
              var rest := FieldLayers(col, ChainWithin(col, Parent(col[at]), n - 1));
              && layers == [col[at].fields] + rest
              && EncodeLayers(own, layers) ==
                 EncodeLayer(own, col[at].fields, Ascending(col[at].fields.Keys)) + EncodeLayers(own, rest)
  {
    hide Parent, Ascending, EncodeLayer;
    if at in col {
      var layers := FieldLayers(col, ChainWithin(col, at, n));
      var names := ChainWithin(col, Parent(col[at]), n - 1);
      assert ChainWithin(col, at, n) == [at] + names;
      assert layers[1..] == FieldLayers(col, names);
    }
  }

  /** The chain of `d`'s class, written class by class. */
  method WriteLayers(d: Dynamic, out: BufferSerializer, ns: uint32, klass: uint32)
    requires d.Valid() && ns in d.spaces
    modifies out
    ensures out.buf == old(out.buf) + EncodeLayers(d.View(), Layers(d.spaces, ns, klass))
  {
    hide Chain, Layers, LayersFrom, Parent, EncodeLayer, Ascending, Dynamic.Valid, Dynamic.View;
    var col := d.spaces[ns];
    var at := klass;
    ghost var n: nat := |col|;
    ghost var own := d.View();
    StartOfLayers(d, own, ns, klass);
    while at in col
      invariant Ends(col, at, n) && d.View() == own
      invariant out.buf + LayersFrom(col, own, at, n) == old(out.buf) + EncodeLayers(own, Layers(d.spaces, ns, klass))
      decreases n
    {
      NextLayer(col, own, at, n, out.buf);
      WriteLayer(d, out, col[at].fields);
      at, n := Parent(col[at]), n - 1;
    }
    NextLayer(col, own, at, n, out.buf);
  }

  /** The bytes of the class `at` and of its ancestors. */
  ghost function LayersFrom(col: Collection, own: Fields, at: uint32, n: nat): Bytes {
    EncodeLayers(own, FieldLayers(col, ChainWithin(col, at, n)))
  }

  lemma StartOfLayers(d: Dynamic, own: Fields, ns: uint32, klass: uint32)
    requires d.Valid() && ns in d.spaces
    ensures Ends(d.spaces[ns], klass, |d.spaces[ns]|)
    ensures LayersFrom(d.spaces[ns], own, klass, |d.spaces[ns]|) == EncodeLayers(own, Layers(d.spaces, ns, klass))
  {
    hide Sound, EncodeLayers, Dynamic.Valid;
    d.ValidIsSound();
    SpaceEnds(d.spaces, ns, klass);
  }

  /** One turn of the loop over the chain, with `before` written already. */
  lemma NextLayer(col: Collection, own: Fields, at: uint32, n: nat, before: Bytes)
    requires Ends(col, at, n)
    ensures at !in col ==> before + LayersFrom(col, own, at, n) == before
    ensures at in col ==>
              && n > 0 && Ends(col, Parent(col[at]), n - 1)
              && before + LayersFrom(col, own, at, n) ==
                 before + EncodeLayer(own, col[at].fields, Ascending(col[at].fields.Keys)) +
                 LayersFrom(col, own, Parent(col[at]), n - 1)
  {
    hide Parent, EncodeLayer, EncodeLayers, Ascending, FieldLayers, ChainWithin;
    LayersStep(col, own, at, n);
    NoLayers(own);
  }

  lemma NoLayers(own: Fields)
    ensures EncodeLayers(own, []) == []
  {
  }

  /** Put the class and the namespace of the object in place; nothing if one holds no key. */
  method Identify(d: Dynamic) returns (id: Option<(uint32, uint32)>)
    requires d.Valid()
    modifies d`nodes, d`lookup, d`next
    ensures d.Valid()
    ensures match Identified(old(d.View()))
            case Some(own) => d.View() == own && id == Some((KeyIn(own, NAMESPACE), KeyIn(own, CLASS)))
            case None => id == None
  {
    hide Dynamic.Valid;
    var c := d.As(CLASS, Key(0));
    if c.Raised? {
      return None;
    }
    assert d.View()[CLASS] == d.nodes[CLASS].value;
    var klass := d.nodes[CLASS].value.key;
    var ns := d.ResolveNamespace();
    return if ns.None? then None else Some((ns.value, klass));
  }

  /** `serializeWithSchema`; false if the class or the namespace of the object holds no key. */
  method SerializeWithSchema(d: Dynamic, out: BufferSerializer) returns (ok: bool)
    requires d.Valid()
    modifies d`nodes, d`lookup, d`next, out
    ensures d.Valid()
    ensures match Identified(old(d.View()))
            case Some(own) => ok && d.View() == own && out.buf == old(out.buf) + EncodeWithSchema(d.spaces, own)
            case None => !ok && out.buf == old(out.buf)
  {
    hide Sound, EncodeU32, EncodeLayers, Layers, Identified;
    var id := Identify(d);
    if id.None? {
      return false;
    }
    var (ns, klass) := id.value;
    out.WriteBytes(EncodeU32(ns));
    out.WriteBytes(EncodeU32(klass));
    if ns in d.spaces {
      WriteLayers(d, out, ns, klass);
    } else {
      UnknownSpace(d.spaces, d.View(), ns, klass);
    }
    ok := true;
  }

  lemma UnknownSpace(spaces: Namespaces, own: Fields, ns: uint32, klass: uint32)
    requires ns !in spaces
    ensures Layers(spaces, ns, klass) == [] && EncodeLayers(own, Layers(spaces, ns, klass)) == []
  {
    assert Chain(Space(spaces, ns), klass) == [];
  }

  // ---- Decoding ----

  lemma DecodeLayersStep(global: bool, s: Bytes, layer: Fields, rest: seq<Fields>, read: Fields)
    ensures var r := DecodeLayer(global, s, Ascending(layer.Keys), read);
            DecodeLayers(global, s, [layer] + rest, read) ==
            if r.Ok? then DecodeLayers(global, r.rest, rest, r.value) else r
  {
    hide DecodeLayer, Ascending;
    assert ([layer] + rest)[1..] == rest;
  }

  method ReadLayer(de: BufferDeserializer, layer: Fields, read: Fields) returns (r: Read<Fields>)
    requires de.Valid()
    modifies de
    ensures de.Valid() && Agrees(r, de.Left(), DecodeLayer(de.global, old(de.Left()), Ascending(layer.Keys), read))
  {
    hide DecodeField, Ascending;
    var keys := Ascending(layer.Keys);
    var m: Fields := read;
    for i := 0 to |keys|
      invariant de.Valid()
      invariant DecodeLayer(de.global, old(de.Left()), keys, read)
             == DecodeLayer(de.global, de.Left(), keys[i..], m)
    {
      assert keys[i..][0] == keys[i] && keys[i..][1..] == keys[i + 1..];
      var f :- de.ReadField();
      m := m[keys[i] := f];
    }
    return Got(m);
  }

  method ReadLayers(de: BufferDeserializer, spaces: Namespaces, ns: uint32, klass: uint32) returns (r: Read<Fields>)
    requires de.Valid() && Sound(spaces) && ns in spaces
    modifies de
    ensures de.Valid()
    ensures Agrees(r, de.Left(), DecodeLayers(de.global, old(de.Left()), Layers(spaces, ns, klass), BLANK))
  {
    hide Sound, Acyclic, DecodeLayer, DecodeLayers, Ascending, Parent;
    var col := spaces[ns];
    var at := klass;
    var m: Fields := BLANK;
    ghost var n: nat := |col|;
    SpaceEnds(spaces, ns, klass);
    while at in col
      invariant de.Valid() && Ends(col, at, n)
      invariant DecodeLayers(de.global, old(de.Left()), Layers(spaces, ns, klass), BLANK)
             == DecodeLayers(de.global, de.Left(), FieldLayers(col, ChainWithin(col, at, n)), m)
      decreases n
    {
      LayersStep(col, BLANK, at, n);
      DecodeLayersStep(de.global, de.Left(), col[at].fields,
                       FieldLayers(col, ChainWithin(col, Parent(col[at]), n - 1)), m);
      m :- ReadLayer(de, col[at].fields, m);
      at, n := Parent(col[at]), n - 1;
    }
    LayersStep(col, BLANK, at, n);
    NothingToDecode(de.global, de.Left(), m);
    return Got(m);
  }

  lemma NothingToDecode(global: bool, s: Bytes, read: Fields)
    ensures DecodeLayers(global, s, [], read) == Ok(read, s)
  {
  }

  /** `deserializeWithSchema` on a buffer. */
  method DeserializeWithSchema(de: BufferDeserializer, spaces: Namespaces) returns (r: Read<Fields>)
    requires de.Valid() && Sound(spaces) && de.global == (0 in spaces)
    modifies de
    ensures de.Valid() && Agrees(r, de.Left(), DecodeWithSchema(spaces, old(de.Left())))
  {
    hide Sound, DecodeU32, DecodeLayers, FieldLayers, Chain;
    var ns :- de.ReadU32();
    var klass :- de.ReadU32();
    if ns !in spaces {
      UnknownSpace(spaces, BLANK, ns, klass);
      NothingToDecode(de.global, de.Left(), BLANK);
      return Got(BLANK);
    }
    r := ReadLayers(de, spaces, ns, klass);
  }

  method ReadLayerFromStream(de: StreamDeserializer, layer: Fields, read: Fields) returns (r: Read<Fields>)
    requires de.Valid()
    modifies de
    ensures de.Valid()
    ensures Mirrors(r, old(de.good), de.good, de.Left(),
                    DecodeLayer(de.global, old(de.Left()), Ascending(layer.Keys), read))
  {
    hide DecodeField, Ascending;
    var keys := Ascending(layer.Keys);
    var m: Fields := read;
    for i := 0 to |keys|
      invariant de.Valid() && (de.good ==> old(de.good))
      invariant de.good ==>
        DecodeLayer(de.global, old(de.Left()), keys, read) == DecodeLayer(de.global, de.Left(), keys[i..], m)
      invariant old(de.good) && !de.good ==> DecodeLayer(de.global, old(de.Left()), keys, read).Err?
    {
      assert keys[i..][0] == keys[i] && keys[i..][1..] == keys[i + 1..];
      var f :- de.ReadField();
      m := m[keys[i] := f];
    }
    return Got(m);
  }

  method ReadLayersFromStream(de: StreamDeserializer, spaces: Namespaces, ns: uint32, klass: uint32)
    returns (r: Read<Fields>)
    requires de.Valid() && Sound(spaces) && ns in spaces
    modifies de
    ensures de.Valid()
    ensures Mirrors(r, old(de.good), de.good, de.Left(),
                    DecodeLayers(de.global, old(de.Left()), Layers(spaces, ns, klass), BLANK))
  {
    hide Sound, Acyclic, DecodeLayer, DecodeLayers, Ascending, Parent;
    var col := spaces[ns];
    var at := klass;
    var m: Fields := BLANK;
    ghost var n: nat := |col|;
    ghost var whole := DecodeLayers(de.global, de.Left(), Layers(spaces, ns, klass), BLANK);
    SpaceEnds(spaces, ns, klass);
    while at in col
      invariant de.Valid() && Ends(col, at, n) && (de.good ==> old(de.good))
      invariant de.good ==>
        whole == DecodeLayers(de.global, de.Left(), FieldLayers(col, ChainWithin(col, at, n)), m)
      invariant old(de.good) && !de.good ==> whole.Err?
      decreases n
    {
      LayersStep(col, BLANK, at, n);
      DecodeLayersStep(de.global, de.Left(), col[at].fields,
                       FieldLayers(col, ChainWithin(col, Parent(col[at]), n - 1)), m);
      m :- ReadLayerFromStream(de, col[at].fields, m);
      at, n := Parent(col[at]), n - 1;
    }
    LayersStep(col, BLANK, at, n);
    NothingToDecode(de.global, de.Left(), m);
    return Got(m);
  }

  /** `deserializeWithSchema` on a stream: the same meaning as on a buffer. */
  method DeserializeWithSchemaFromStream(de: StreamDeserializer, spaces: Namespaces) returns (r: Read<Fields>)
    requires de.Valid() && Sound(spaces) && de.global == (0 in spaces)
    modifies de
    ensures de.Valid()
    ensures Mirrors(r, old(de.good), de.good, de.Left(), DecodeWithSchema(spaces, old(de.Left())))
  {
    hide Sound, DecodeU32, DecodeLayers, FieldLayers, Chain;
    var ns := de.ReadU32();
    var klass := de.ReadU32();
    if ns !in spaces {
      UnknownSpace(spaces, BLANK, ns, klass);
      NothingToDecode(de.global, de.Left(), BLANK);
      return Got(BLANK);
    }
    r := ReadLayersFromStream(de, spaces, ns, klass);
  }
}

/** The formats byte by byte: order of bytes, tags and headers, and the worked examples of FORMAT.md. */
module Formats {
  import opened Bytes
  import opened Values
  import opened Chains
  import Registry
  import opened Lookup
  import opened Wire
  import Varint
  import Schema
  import Perfetto
  import Witnesses

  /** The number four bytes stand for, the most significant first. */
  function BigEndian(a: byte, b: byte, c: byte, d: byte): nat {
    0x100_0000 * a + 0x1_0000 * b + 0x100 * c + d
  }

  /** A word is written with its most significant byte first. */
  lemma WordLayout(a: byte, b: byte, c: byte, d: byte)
    ensures BigEndian(a, b, c, d) < TWO_TO_THE_32 && EncodeU32(BigEndian(a, b, c, d)) == [a, b, c, d]
  {
    var n := BigEndian(a, b, c, d);
    assert n == 0x1_0000 * (0x100 * a + b) + (0x100 * c + d);
    assert n / 0x1_0000 == 0x100 * a + b && n % 0x1_0000 == 0x100 * c + d;
    assert (0x100 * a + b) / 0x100 == a && (0x100 * a + b) % 0x100 == b;
    assert (0x100 * c + d) / 0x100 == c && (0x100 * c + d) % 0x100 == d;
  }

  lemma WordOf(n: uint32, a: byte, b: byte, c: byte, d: byte)
    requires n == BigEndian(a, b, c, d)
    ensures EncodeU32(n) == [a, b, c, d]
  {
    WordLayout(a, b, c, d);
  }

  /** The tag of every alternative, and the bytes of those of fixed size. */
  lemma FieldLayout(f: Field)
    ensures var s := EncodeField(f);
            && s != []
            && s[0] == (if f.Empty? then 0 else if f.Hash? then 1 else if f.Key? then 2 else if f.Bool? then 3
                        else if f.Int? then 4 else if f.Float? then 5 else if f.Null? || f.Obj? then 6
                        else if f.Text? then 7 else if f.Bools? then 8 else if f.Ints? then 9
                        else if f.Floats? then 10 else 11)
            && (f.Empty? ==> s == [0])
            && (f.Bool? ==> s == [3, if f.flag then 1 else 0])
            && (f.Null? ==> s == [6, 0])
            && (f.Obj? ==> s == [6, 1] + EncodeObject(f.obj))
            && (f.Hash? ==> s == [1] + EncodeU32(f.hash)) && (f.Key? ==> s == [2] + EncodeU32(f.key))
            && (f.Int? ==> s == [4] + EncodeU32(if f.number < 0 then f.number + TWO_TO_THE_32 else f.number))
            && (f.Float? ==> s == [5] + EncodeU32(f.bits))
  {
    hide EncodeU32, EncodeObject, EncodeWords, Varint.Encode;
    if f.Obj? {
      assert [6] + ([1] + EncodeObject(f.obj)) == [6, 1] + EncodeObject(f.obj);
    }
  }

  /** The tag, the number of elements, and the elements. */
  predicate Counted(s: Bytes, tag: byte, count: nat, body: Bytes) {
    s == [tag] + Varint.Encode(count) + body
  }

  /** Element `i` of `words`, most significant byte first, is at position `4 * i`. */
  ghost predicate Laid(body: Bytes, words: seq<uint32>) {
    && |body| == 4 * |words|
    && forall i | 0 <= i < |words| :: body[4 * i..4 * i + 4] == EncodeU32(words[i])
  }

  /** Strings, raw bytes and vectors: one byte or four big-endian bytes an element, in order. */
  lemma VectorLayout(f: Field)
    ensures f.Text? ==> Counted(EncodeField(f), 7, |f.text|, f.text)
    ensures f.Raw? ==> Counted(EncodeField(f), 11, |f.raw|, f.raw)
    ensures f.Bools? ==>
              var body := Flags(f.bools);
              Counted(EncodeField(f), 8, |f.bools|, body) &&
              forall i | 0 <= i < |f.bools| :: body[i] == if f.bools[i] then 1 else 0
    ensures f.Ints? ==>
              var words := seq(|f.ints|, i requires 0 <= i < |f.ints| =>
                                 if f.ints[i] < 0 then f.ints[i] + TWO_TO_THE_32 else f.ints[i]);
              Counted(EncodeField(f), 9, |f.ints|, EncodeWords(words)) && Laid(EncodeWords(words), words)
    ensures f.Floats? ==>
              Counted(EncodeField(f), 10, |f.floats|, EncodeWords(f.floats)) && Laid(EncodeWords(f.floats), f.floats)
  {
    hide EncodeU32, EncodeWords, Varint.Encode, Laid;
    if f.Ints? {
      var words := seq(|f.ints|, i requires 0 <= i < |f.ints| =>
                         if f.ints[i] < 0 then f.ints[i] + TWO_TO_THE_32 else f.ints[i]);
      assert words == Patterns(f.ints);
      WordsLaid(words);
    } else if f.Floats? {
      WordsLaid(f.floats);
    }
  }

  lemma WordsLaid(s: seq<uint32>)
    ensures Laid(EncodeWords(s), s)
  {
    hide EncodeU32, EncodeWords;
    WordsLength(s);
    forall i | 0 <= i < |s|
      ensures EncodeWords(s)[4 * i..4 * i + 4] == EncodeU32(s[i])
    {
      WordsLayout(s, i);
    }
  }

  lemma Sliced(a: Bytes, b: Bytes, i: nat)
    requires i + 4 <= |b|
    ensures (a + b)[|a| + i..|a| + i + 4] == b[i..i + 4]
  {
  }

  lemma {:induction false} WordsLayout(s: seq<uint32>, i: nat)
    requires i < |s|
    ensures |EncodeWords(s)| == 4 * |s| && EncodeWords(s)[4 * i..4 * i + 4] == EncodeU32(s[i])
  {
    hide EncodeU32;
    WordsLength(s);
    var (first, rest) := (EncodeU32(s[0]), EncodeWords(s[1..]));
    assert EncodeWords(s) == first + rest;
    if i == 0 {
      assert (first + rest)[0..4] == first;
    } else {
      WordsLayout(s[1..], i - 1);
      Sliced(first, rest, 4 * (i - 1));
    }
  }

  lemma {:induction false} WordsLength(s: seq<uint32>)
    ensures |EncodeWords(s)| == 4 * |s|
  {
    if s != [] {
      WordsLength(s[1..]);
    }
  }

  /** The schema format starts with the namespace and then the class. */
  lemma SchemaHeader(spaces: Registry.Namespaces, own: Fields)
    ensures var s := Schema.EncodeWithSchema(spaces, own);
            |s| >= 8 && s[..4] == EncodeU32(KeyIn(own, NAMESPACE)) && s[4..8] == EncodeU32(KeyIn(own, CLASS))
  {
    hide EncodeU32, Schema.EncodeLayers, Schema.Layers;
    var (a, b) := (EncodeU32(KeyIn(own, NAMESPACE)), EncodeU32(KeyIn(own, CLASS)));
    var rest := Schema.EncodeLayers(own, Schema.Layers(spaces, KeyIn(own, NAMESPACE), KeyIn(own, CLASS)));
    assert Schema.EncodeWithSchema(spaces, own) == a + b + rest;
  }

  /** A tag beyond the twelve alternatives is refused, whatever follows. */
  lemma UnknownTags(global: bool, tag: byte, s: Bytes)
    requires tag > 11
    ensures DecodeField(global, [tag] + s) == Err(UnknownTag)
  {
    assert ([tag] + s)[1..] == s;
  }

  /** Ten bytes that all ask for more are refused. */
  lemma TooManyGroups(s: Bytes)
    requires |s| >= 10 && forall i | 0 <= i < 10 :: s[i] >= 0x80
    ensures Varint.Decode(s) == Err(VarintTooLong)
  {
    TooManyFrom(s, 0);
  }

  lemma {:induction false} TooManyFrom(s: Bytes, n: nat)
    requires n <= 9 && |s| >= 10 - n && forall i | 0 <= i < 10 - n :: s[i] >= 0x80
    ensures Varint.DecodeAt(s, n) == Err(VarintTooLong)
    decreases 9 - n
  {
    if n < 9 {
      TooManyFrom(s[1..], n + 1);
    }
  }

  // ---- The worked examples ----

  /** The count 300. */
  lemma CountExample()
    ensures Varint.Encode(300) == [0xac, 0x02]
  {
    assert Varint.Encode(2) == [2];
  }

  const POINT: Fields := map[0xabcd_1234 := Int(3), 0xabcd_5678 := Int(7)]

  /** Two integers under two keys. */
  lemma ObjectExample()
    ensures EncodeObject(Object(POINT)) ==
            [0x02,
             0xab, 0xcd, 0x12, 0x34, 0x04, 0x00, 0x00, 0x00, 0x03,
             0xab, 0xcd, 0x56, 0x78, 0x04, 0x00, 0x00, 0x00, 0x07]
  {
    hide *;
    var (o, x, y) := (Object(POINT), 0xabcd_1234, 0xabcd_5678);
    PointKeys();
    TwoEntries(o, x, y);
    PointWords();
    SmallInt(3);
    SmallInt(7);
  }

  lemma PointKeys()
    ensures Ascending(POINT.Keys) == [0xabcd_1234, 0xabcd_5678] && |POINT| == 2
    ensures 0xabcd_1234 in POINT && POINT[0xabcd_1234] == Int(3)
    ensures 0xabcd_5678 in POINT && POINT[0xabcd_5678] == Int(7)
  {
    hide Ascending;
    AscendingIs(POINT.Keys, [0xabcd_1234, 0xabcd_5678]);
    assert POINT.Keys == {0xabcd_1234, 0xabcd_5678};
  }

  lemma PointWords()
    ensures EncodeU32(0xabcd_1234) == [0xab, 0xcd, 0x12, 0x34]
    ensures EncodeU32(0xabcd_5678) == [0xab, 0xcd, 0x56, 0x78]
  {
    WordOf(0xabcd_1234, 0xab, 0xcd, 0x12, 0x34);
    WordOf(0xabcd_5678, 0xab, 0xcd, 0x56, 0x78);
  }

  /** The count, then key and field of one entry after the other. */
  lemma TwoEntries(o: Object, x: uint32, y: uint32)
    requires x in o.fields && y in o.fields && Ascending(o.fields.Keys) == [x, y] && |o.fields| == 2
    ensures EncodeObject(o) ==
            [2] + (EncodeU32(x) + EncodeField(o.fields[x]) + (EncodeU32(y) + EncodeField(o.fields[y])))
  {
    hide EncodeU32, EncodeField, Ascending;
    assert Varint.Encode(2) == [2];
    assert [x, y][1..] == [y] && [y][1..] == [];
    assert EncodeEntries(o, []) == [];
    assert EncodeEntries(o, [y]) == EncodeU32(y) + EncodeField(o.fields[y]) + [];
  }

  lemma SmallInt(n: int32)
    requires 0 <= n < 0x100
    ensures EncodeField(Int(n)) == [4, 0, 0, 0, n]
  {
    hide EncodeU32;
    FieldLayout(Int(n));
    WordOf(n, 0, 0, 0, n);
  }

  lemma SmallKey(n: uint32)
    requires n < 0x100
    ensures EncodeField(Key(n)) == [2, 0, 0, 0, n]
  {
    hide EncodeU32;
    FieldLayout(Key(n));
    WordOf(n, 0, 0, 0, n);
  }

  /** The empty string and the null object. */
  lemma FieldExamples()
    ensures EncodeField(Text([])) == [0x07, 0x00] && EncodeField(Null) == [0x06, 0x00]
  {
    assert Varint.Encode(0) == [0];
  }

  // ---- Schema format ----

  const CHILD: Fields := map[CLASS := Key(1), NAMESPACE := Key(0), 7 := Int(5)]

  lemma OneClass()
    ensures Schema.Layers(Witnesses.SPACES, 0, 1) == [Witnesses.FIRST_FIELDS]
  {
    Witnesses.RootChain(Witnesses.BOTH, 1);
  }

  /**
    * An instance of a class with one field of its own. FORMAT.md shows the declared fields alone;
    * the code also writes the three reserved fields, which every registered class holds.
    */
  lemma SchemaExample()
    ensures Schema.EncodeWithSchema(Witnesses.SPACES, CHILD) ==
            [0x00, 0x00, 0x00, 0x00, 0x00, 0x00, 0x00, 0x01,
             0x04, 0x00, 0x00, 0x00, 0x05,
             0x02, 0x00, 0x00, 0x00, 0x01,
             0x02, 0x00, 0x00, 0x00, 0x00,
             0x02, 0x00, 0x00, 0x00, 0x00]
  {
    hide *;
    ChildKind();
    OneClass();
    OneLayer(Witnesses.SPACES, CHILD, 0, 1, Witnesses.FIRST_FIELDS);
    SmallWord(0);
    SmallWord(1);
    LayerExample();
  }

  lemma ChildKind()
    ensures KeyIn(CHILD, NAMESPACE) == 0 && KeyIn(CHILD, CLASS) == 1
  {
    var m := CHILD;
    assert CLASS in m && m[CLASS] == Key(1) && NAMESPACE in m && m[NAMESPACE] == Key(0);
  }

  lemma SmallWord(n: uint32)
    requires n < 0x100
    ensures EncodeU32(n) == [0, 0, 0, n]
  {
    WordOf(n, 0, 0, 0, n);
  }

  lemma OneLayer(spaces: Registry.Namespaces, own: Fields, ns: uint32, klass: uint32, layer: Fields)
    requires KeyIn(own, NAMESPACE) == ns && KeyIn(own, CLASS) == klass && Schema.Layers(spaces, ns, klass) == [layer]
    ensures Schema.EncodeWithSchema(spaces, own) ==
            EncodeU32(ns) + EncodeU32(klass) + Schema.EncodeLayer(own, layer, Ascending(layer.Keys))
  {
    hide Schema.EncodeLayer, Schema.Layers, Ascending, EncodeU32, KeyIn;
    assert [layer][1..] == [];
    assert Schema.EncodeLayers(own, []) == [];
    assert Schema.EncodeLayers(own, [layer]) == Schema.EncodeLayer(own, layer, Ascending(layer.Keys));
  }

  lemma FourFields(own: Fields, layer: Fields, a: uint32, b: uint32, c: uint32, d: uint32)
    requires a in layer && b in layer && c in layer && d in layer
    ensures Schema.EncodeLayer(own, layer, [a, b, c, d]) ==
            EncodeField(Schema.Chosen(own, layer, a)) + (EncodeField(Schema.Chosen(own, layer, b)) +
            (EncodeField(Schema.Chosen(own, layer, c)) + EncodeField(Schema.Chosen(own, layer, d))))
  {
    hide EncodeField, Schema.Chosen;
    assert [a, b, c, d][1..] == [b, c, d] && [b, c, d][1..] == [c, d] && [c, d][1..] == [d] && [d][1..] == [];
    assert Schema.EncodeLayer(own, layer, []) == [];
    assert Schema.EncodeLayer(own, layer, [d]) == EncodeField(Schema.Chosen(own, layer, d));
    assert Schema.EncodeLayer(own, layer, [c, d])
        == EncodeField(Schema.Chosen(own, layer, c)) + EncodeField(Schema.Chosen(own, layer, d));
  }

  /** The keys in the order they are written, and what is written for each. */
  lemma ChildFields()
    ensures var layer := Witnesses.FIRST_FIELDS;
            && Ascending(layer.Keys) == [7, CLASS, NAMESPACE, PARENT]
            && 7 in layer && CLASS in layer && NAMESPACE in layer && PARENT in layer
            && Schema.Chosen(CHILD, layer, 7) == Int(5) && Schema.Chosen(CHILD, layer, CLASS) == Key(1)
            && Schema.Chosen(CHILD, layer, NAMESPACE) == Key(0) && Schema.Chosen(CHILD, layer, PARENT) == Key(0)
  {
    hide Ascending;
    AscendingIs(Witnesses.FIRST_FIELDS.Keys, [7, CLASS, NAMESPACE, PARENT]);
  }

  lemma LayerExample()
    ensures Schema.EncodeLayer(CHILD, Witnesses.FIRST_FIELDS, Ascending(Witnesses.FIRST_FIELDS.Keys)) ==
            [0x04, 0x00, 0x00, 0x00, 0x05,
             0x02, 0x00, 0x00, 0x00, 0x01,
             0x02, 0x00, 0x00, 0x00, 0x00,
             0x02, 0x00, 0x00, 0x00, 0x00]
  {
    hide *;
    ChildFields();
    FourFields(CHILD, Witnesses.FIRST_FIELDS, 7, CLASS, NAMESPACE, PARENT);
    SmallInt(5);
    SmallKey(0);
    SmallKey(1);
  }

  // ---- Trace packets ----

  const SLICE := Perfetto.Packet(1, 1, 1, Perfetto.TrackEvent(1, [0x61]))

  lemma ShortVarint(field: Perfetto.FieldNumber, v: uint64)
    requires field < 16 && v < 0x80
    ensures Perfetto.EncodeRecord(Perfetto.VarintRecord(field, v)) == [8 * field, v]
  {
  }

  lemma ShortBytes(field: Perfetto.FieldNumber, s: Sized<byte>)
    requires field < 16 && |s| < 0x80
    ensures Perfetto.EncodeRecord(Perfetto.BytesRecord(field, s)) == [8 * field + 2, |s|] + s
  {
  }

  lemma EventName()
    ensures Perfetto.EncodeRecord(Perfetto.BytesRecord(23, [0x61])) == [0xba, 0x01, 0x01, 0x61]
  {
    assert Perfetto.Tag(23, 2) == 186;
    assert Varint.Encode(1) == [1];
    assert Varint.Encode(186) == [0x80 + 186 % 0x80] + Varint.Encode(1);
  }

  lemma Records3(a: Perfetto.Record, b: Perfetto.Record, c: Perfetto.Record)
    ensures Perfetto.EncodeRecords([a, b, c]) ==
            Perfetto.EncodeRecord(a) + Perfetto.EncodeRecord(b) + Perfetto.EncodeRecord(c)
  {
    hide Perfetto.EncodeRecord;
    assert [a, b, c][1..] == [b, c] && [b, c][1..] == [c] && [c][1..] == [];
    assert Perfetto.EncodeRecords([]) == [];
    assert Perfetto.EncodeRecords([c]) == Perfetto.EncodeRecord(c);
  }

  lemma SliceInner()
    ensures Perfetto.InnerBytes(SLICE) == [0x48, 0x01, 0x58, 0x01, 0xba, 0x01, 0x01, 0x61]
  {
    hide Perfetto.EncodeRecord, Perfetto.EncodeRecords;
    var (a, b) := (Perfetto.VarintRecord(9, 1), Perfetto.VarintRecord(11, 1));
    var c := Perfetto.BytesRecord(23, [0x61]);
    assert Perfetto.InnerRecords(SLICE) == [a, b, c];
    Records3(a, b, c);
    ShortVarint(9, 1);
    ShortVarint(11, 1);
    EventName();
  }

  /** The start of a slice named `a`. FORMAT.md gives the length of the packet as 0x12; it has 14 bytes. */
  lemma PacketExample()
    ensures Perfetto.EncodeRecord(Perfetto.Framed(SLICE)) ==
            [0x0a, 0x0e, 0x40, 0x01, 0x50, 0x01, 0x5a, 0x08, 0x48, 0x01, 0x58, 0x01, 0xba, 0x01, 0x01, 0x61]
  {
    hide Perfetto.EncodeRecord, Perfetto.EncodeRecords, Perfetto.InnerBytes;
    SliceInner();
    var rs := Perfetto.PacketRecords(SLICE);
    Records3(rs[0], rs[1], rs[2]);
    ShortVarint(8, 1);
    ShortVarint(10, 1);
    ShortBytes(11, Perfetto.InnerBytes(SLICE));
    ShortBytes(1, Perfetto.PacketBytes(SLICE));
  }
}

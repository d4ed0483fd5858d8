/** `buffer_serializer` and `buffer_deserializer`, and the recursive codec that runs on them. */
module Buffers {
  import opened Bytes
  import opened Values
  import opened Wire
  import Varint

  class BufferSerializer {
    var buf: Bytes

    constructor ()
      ensures buf == []
    {
      buf := [];
    }

    method WriteBytes(s: Bytes)
      modifies this
      ensures buf == old(buf) + s
    {
      buf := buf + s;
    }

    method WriteVarint(value: uint64)
      modifies this
      ensures buf == old(buf) + Varint.Encode(value)
    {
      var v: nat := value;
      var more := true;
      while more
        invariant more ==> buf + Varint.Encode(v) == old(buf) + Varint.Encode(value)
        invariant !more ==> buf == old(buf) + Varint.Encode(value)
        decreases if more then 1 + v else 0
      {
        var group := v % 0x80;
        var rest := v / 0x80;
        if rest != 0 {
          assert buf + Varint.Encode(v) == buf + [0x80 + group] + Varint.Encode(rest);
          group := 0x80 + group;
        }
        v := rest;
        buf := buf + [group];
        more := v != 0;
      }
    }

    method WriteWords(s: seq<uint32>)
      modifies this
      ensures buf == old(buf) + EncodeWords(s)
    {
      hide EncodeU32;
      for i := 0 to |s|
        invariant buf + EncodeWords(s[i..]) == old(buf) + EncodeWords(s)
      {
        assert buf + EncodeWords(s[i..]) == buf + EncodeU32(s[i]) + EncodeWords(s[i + 1..]) by {
          assert s[i..][1..] == s[i + 1..];
        }
        WriteBytes(EncodeU32(s[i]));
      }
    }

    /** `write(const std::string&)` and `write` of a vector of one-byte elements. */
    method WriteCounted(s: Sized<byte>)
      modifies this
      ensures buf == old(buf) + (Varint.Encode(|s|) + s)
    {
      hide Varint.Encode;
      WriteVarint(|s|);
      WriteBytes(s);
    }

    /** `write` of a vector of four-byte elements. */
    method WriteWordVector(s: Sized<uint32>)
      modifies this
      ensures buf == old(buf) + (Varint.Encode(|s|) + EncodeWords(s))
    {
      hide Varint.Encode, EncodeWords;
      WriteVarint(|s|);
      WriteWords(s);
    }

    method WritePayload(f: Field)
      modifies this
      ensures buf == old(buf) + EncodePayload(f)
      decreases f, 0
    {
      hide EncodeU32, EncodeWords, Varint.Encode, EncodeObject, Pattern;
      match f {
        case Empty => assert buf == buf + [];
        case Hash(h) => WriteBytes(EncodeU32(h));
        case Key(k) => WriteBytes(EncodeU32(k));
        case Bool(b) => WriteBytes([if b then 1 else 0]);
        case Int(i) => WriteBytes(EncodeU32(Pattern(i)));
        case Float(bits) => WriteBytes(EncodeU32(bits));
        case Null => WriteBytes([0]);
        case Obj(o) =>
          WriteBytes([1]);
          WriteObject(o);
          assert buf == old(buf) + ([1] + EncodeObject(o));
        case Text(s) => WriteCounted(s);
        case Bools(s) => WriteCounted(Flags(s));
        case Ints(s) => WriteWordVector(Patterns(s));
        case Floats(s) => WriteWordVector(s);
        case Raw(s) => WriteCounted(s);
      }
    }

    /** `field::serialize`: the index of the alternative, then its value. */
    method WriteField(f: Field)
      modifies this
      ensures buf == old(buf) + EncodeField(f)
      decreases f, 1
    {
      hide EncodePayload;
      WriteBytes([f.Tag()]);
      WritePayload(f);
      assert buf == old(buf) + ([f.Tag()] + EncodePayload(f));
    }

    /** `dynamic::serialize`: the field count, then every key and field in ascending key order. */
    method WriteObject(o: Object)
      modifies this
      ensures buf == old(buf) + EncodeObject(o)
      decreases o, 1
    {
      hide EncodeU32, EncodeField, Varint.Encode, Ascending;
      FieldCountFits(o.fields);
      WriteVarint(|o.fields|);
      ghost var counted := buf;
      var keys := Ascending(o.fields.Keys);
      for i := 0 to |keys|
        invariant buf + EncodeEntries(o, keys[i..]) == counted + EncodeEntries(o, keys)
      {
        var k := keys[i];
        assert buf + EncodeEntries(o, keys[i..])
            == buf + EncodeU32(k) + EncodeField(o.fields[k]) + EncodeEntries(o, keys[i + 1..]) by {
          assert keys[i..][0] == k && keys[i..][1..] == keys[i + 1..];
        }
        WriteBytes(EncodeU32(k));
        WriteField(o.fields[k]);
      }
      assert buf + EncodeEntries(o, keys[|keys|..]) == buf;
      assert counted + EncodeEntries(o, keys) == old(buf) + (Varint.Encode(|o.fields|) + EncodeEntries(o, keys));
    }
  }

  /** The outcome of a reading method: a value, or the exception it threw. */
  datatype Read<+T> = Got(value: T) | Threw(error: Error) {
    predicate IsFailure() {
      Threw?
    }
    function PropagateFailure<U>(): Read<U>
      requires Threw?
    {
      Threw(error)
    }
    function Extract(): T
      requires Got?
    {
      value
    }
  }

  /** A method returned what `spec` says and stopped where `spec` stops. */
  ghost predicate Agrees<T>(r: Read<T>, left: Bytes, spec: Parsed<T>) {
    match spec
    case Ok(v, rest) => r == Got(v) && left == rest
    case Err(e) => r == Threw(e)
  }

  class BufferDeserializer {
    const data: Bytes
    var pos: nat
    /** Whether the class registry has a global namespace. */
    const global: bool

    ghost predicate Valid()
      reads this
    {
      pos <= |data|
    }

    ghost function Left(): Bytes
      requires Valid()
      reads this
    {
      data[pos..]
    }

    constructor (data: Bytes, global: bool)
      ensures Valid() && Left() == data && this.data == data && this.global == global
    {
      this.data, this.global, pos := data, global, 0;
    }

    method ReadU8() returns (r: Read<byte>)
      requires Valid()
      modifies this
      ensures Valid() && Agrees(r, Left(), DecodeU8(old(Left())))
    {
      if pos >= |data| {
        return Threw(Underflow);
      }
      r := Got(data[pos]);
      pos := pos + 1;
    }

    method ReadU32() returns (r: Read<uint32>)
      requires Valid()
      modifies this
      ensures Valid() && Agrees(r, Left(), DecodeU32(old(Left())))
    {
      if pos + 4 > |data| {
        return Threw(Underflow);
      }
      r := Got(0x1_0000 * Join(data[pos], data[pos + 1]) + Join(data[pos + 2], data[pos + 3]));
      pos := pos + 4;
    }

    /** `result` collects the groups from below; `weight` is two to the power of the shift. */
    method ReadVarint() returns (r: Read<uint64>)
      requires Valid()
      modifies this
      ensures Valid() && Agrees(r, Left(), Varint.Decode(old(Left())))
    {
      hide Weight, Place, Shifted, Varint.DecodeAt;
      var result: nat, groups: nat, weight: nat := 0, 0, 1;
      ghost var start := Left();
      NothingBelow(Varint.DecodeAt(start, 0));
      while true
        invariant Valid() && groups <= 9 && weight == Weight(groups)
        invariant Varint.DecodeAt(start, 0) == Shifted(result, weight, Varint.DecodeAt(Left(), groups))
        decreases 9 - groups
      {
        NextGroup(result, groups, Left());
        if pos >= |data| {
          return Threw(Underflow);
        }
        var b := data[pos];
        assert Left()[0] == b && Left()[1..] == data[pos + 1..];
        pos := pos + 1;
        result := result + Place(b % 0x80, weight);
        if b < 0x80 {
          assert Varint.Decode(start) == Ok(result, Left());
          return Got(result);
        }
        if groups == 9 {
          return Threw(VarintTooLong);
        }
        groups, weight := groups + 1, 0x80 * weight;
      }
    }

    method ReadRaw(n: nat) returns (r: Read<Bytes>)
      requires Valid()
      modifies this
      ensures Valid() && Agrees(r, Left(), DecodeRaw(old(Left()), n))
    {
      if pos + n > |data| {
        return Threw(Underflow);
      }
      assert Left()[..n] == data[pos..pos + n] && Left()[n..] == data[pos + n..];
      r := Got(data[pos..pos + n]);
      pos := pos + n;
    }

    method ReadWords(n: nat) returns (r: Read<seq<uint32>>)
      requires Valid()
      modifies this
      ensures Valid() && Agrees(r, Left(), DecodeWords(old(Left()), n))
    {
      hide DecodeU32;
      var words: seq<uint32> := [];
      AfterNone(DecodeWords(Left(), n));
      for i := 0 to n
        invariant Valid()
        invariant DecodeWords(old(Left()), n) == After(words, DecodeWords(Left(), n - i))
      {
        var w :- ReadU32();
        AfterOne(words, w, DecodeWords(Left(), n - i - 1));
        words := words + [w];
      }
      assert words + [] == words;
      return Got(words);
    }

    method ReadScalar(tag: byte) returns (r: Read<Field>)
      requires Valid() && tag != 6
      modifies this
      ensures Valid() && Agrees(r, Left(), DecodeScalar(tag, old(Left())))
    {
      hide DecodeU8, DecodeU32, DecodeRaw, DecodeWords, Varint.Decode, Signed;
      match tag {
        case 0 => return Got(Empty);
        case 1 => var h :- ReadU32(); return Got(Hash(h));
        case 2 => var k :- ReadU32(); return Got(Key(k));
        case 3 => var b :- ReadU8(); return Got(Bool(b != 0));
        case 4 => var n :- ReadU32(); return Got(Int(Signed(n)));
        case 5 => var bits :- ReadU32(); return Got(Float(bits));
        case 7 => var n :- ReadVarint(); var b :- ReadRaw(n); return Got(Text(b));
        case 8 => var n :- ReadVarint(); var b :- ReadRaw(n); return Got(Bools(Truths(b)));
        case 9 => var n :- ReadVarint(); var w :- ReadWords(n); return Got(Ints(SignedAll(w)));
        case 10 => var n :- ReadVarint(); var w :- ReadWords(n); return Got(Floats(w));
        case 11 => var n :- ReadVarint(); var b :- ReadRaw(n); return Got(Raw(b));
        case _ => return Threw(UnknownTag);
      }
    }

    /** `field::deserialize`. */
    method ReadField() returns (r: Read<Field>)
      requires Valid()
      modifies this
      ensures Valid() && Agrees(r, Left(), DecodeField(global, old(Left())))
      decreases |Left()|, 0
    {
      hide DecodeU8, DecodeScalar, DecodeObject, Instance;
      var tag :- ReadU8();
      if tag != 6 {
        r := ReadScalar(tag);
        return;
      }
      var present :- ReadU8();
      if present == 0 {
        return Got(Null);
      }
      var o :- ReadInstance();
      return Got(Obj(o));
    }

    /** `dynamic::deserialize`: fields overwrite each other in the order they arrive. */
    method ReadObject() returns (r: Read<Object>)
      requires Valid()
      modifies this
      ensures Valid() && Agrees(r, Left(), DecodeObject(global, old(Left())))
      ensures r.Got? ==> CLASS in r.value.fields
      decreases |Left()|, 1
    {
      hide DecodeU32, DecodeField, Varint.Decode;
      var fields: Fields := BLANK;
      var count :- ReadVarint();
      ghost var entries := Left();
      for i := 0 to count
        invariant Valid() && |Left()| <= |entries| && CLASS in fields
        invariant DecodeEntries(global, entries, count, BLANK) == DecodeEntries(global, Left(), count - i, fields)
      {
        var k :- ReadU32();
        var f :- ReadField();
        fields := fields[k := f];
      }
      return Got(Object(fields));
    }

    /** `dynamic::deserialize_instance`. */
    method ReadInstance() returns (r: Read<Object>)
      requires Valid()
      modifies this
      ensures Valid() && Agrees(r, Left(), DecodeInstance(global, old(Left())))
      decreases |Left()|, 2
    {
      hide DecodeObject, Instance;
      var o :- ReadObject();
      match Instance(global, o.fields) {
        case Some(m) => return Got(Object(m));
        case None => return Threw(InvalidType);
      }
    }
  }

  /** The words read before a further read of words. */
  function After(words: seq<uint32>, r: Parsed<seq<uint32>>): Parsed<seq<uint32>> {
    match r
    case Ok(ws, rest) => Ok(words + ws, rest)
    case Err(e) => Err(e)
  }

  lemma AfterNone(r: Parsed<seq<uint32>>)
    ensures After([], r) == r
  {
    if r.Ok? {
      assert [] + r.value == r.value;
    }
  }

  lemma AfterOne(words: seq<uint32>, w: uint32, r: Parsed<seq<uint32>>)
    ensures After(words, After([w], r)) == After(words + [w], r)
  {
    if r.Ok? {
      assert words + ([w] + r.value) == words + [w] + r.value;
    }
  }

  function Weight(groups: nat): nat {
    if groups == 0 then 1 else 0x80 * Weight(groups - 1)
  }

  /** A value read from some bit position on, placed there above the bits below it. */
  function Shifted(low: nat, weight: nat, r: Parsed<nat>): Parsed<nat> {
    match r
    case Ok(v, rest) => Ok(low + weight * v, rest)
    case Err(e) => Err(e)
  }

  /**
    * A group shifted into a 64-bit word. The groups read so far are all below `weight`,
    * so or-ing the shifted group in is adding it.
    */
  function Place(group: nat, weight: nat): nat {
    group * weight % TWO_TO_THE_64
  }

  lemma NothingBelow(r: Parsed<nat>)
    ensures Weight(0) == 1 && Shifted(0, 1, r) == r
  {
  }

  /** One turn of the reading loop, with `low` collected from the first `groups` groups. */
  lemma NextGroup(low: nat, groups: nat, s: Bytes)
    requires groups <= 9
    ensures Weight(groups + 1) == 0x80 * Weight(groups)
    ensures Shifted(low, Weight(groups), Varint.DecodeAt(s, groups)) ==
            if s == [] then Err(Underflow)
            else
              var sum := low + Place(s[0] % 0x80, Weight(groups));
              if s[0] < 0x80 then Ok(sum, s[1..])
              else if groups == 9 then Err(VarintTooLong)
              else Shifted(sum, Weight(groups + 1), Varint.DecodeAt(s[1..], groups + 1))
  {
    hide Weight, Place;
    assert Weight(groups + 1) == 0x80 * Weight(groups) by { WeightGrows(groups); }
    if s != [] {
      if s[0] < 0x80 {
        LastGroup(low, groups, s[0], s[1..]);
      } else if groups < 9 {
        MoreGroups(low, groups, s[0] % 0x80, Varint.DecodeAt(s[1..], groups + 1));
      }
    }
  }

  lemma WeightGrows(groups: nat)
    ensures Weight(groups + 1) == 0x80 * Weight(groups)
  {
  }

  lemma LastGroup(low: nat, groups: nat, group: nat, rest: Bytes)
    requires groups <= 9 && group < 0x80
    ensures Shifted(low, Weight(groups), Ok(if groups == 9 then group % 2 else group, rest)) ==
            Ok(low + Place(group, Weight(groups)), rest)
  {
    GroupFits(groups, group);
  }

  lemma MoreGroups(low: nat, groups: nat, group: nat, r: Parsed<nat>)
    requires groups < 9 && group < 0x80
    ensures Shifted(low, Weight(groups), Shifted(group, 0x80, r)) ==
            Shifted(low + Place(group, Weight(groups)), 0x80 * Weight(groups), r)
  {
    var weight := Weight(groups);
    GroupFits(groups, group);
    if r.Ok? {
      var v := r.value;
      assert weight * (group + 0x80 * v) == group * weight + 0x80 * weight * v;
    }
  }

  /** The accumulator keeps a whole group at every shift but the last, and one bit there. */
  lemma GroupFits(groups: nat, group: nat)
    requires groups <= 9 && group < 0x80
    ensures Place(group, Weight(groups)) == (if groups == 9 then group % 2 else group) * Weight(groups)
  {
    Weights();
    if groups < 9 {
      WeightBelow(groups);
      assert group * Weight(groups) <= 0x7f * Weight(groups);
    } else {
      var half := group / 2;
      assert group * Weight(9) == half * TWO_TO_THE_64 + group % 2 * Weight(9);
    }
  }

  lemma Weights()
    ensures Weight(9) == 0x8000_0000_0000_0000
  {
    assert Weight(1) == 0x80;
    assert Weight(2) == 0x4000;
    assert Weight(3) == 0x20_0000;
    assert Weight(4) == 0x1000_0000;
    assert Weight(5) == 0x8_0000_0000;
    assert Weight(6) == 0x400_0000_0000;
    assert Weight(7) == 0x2_0000_0000_0000;
    assert Weight(8) == 0x100_0000_0000_0000;
  }

  lemma {:induction false} WeightBelow(groups: nat)
    requires groups < 9
    ensures 0 < 0x80 * Weight(groups) <= Weight(9)
    decreases 9 - groups
  {
    Weights();
    if groups < 8 {
      WeightBelow(groups + 1);
    }
  }
}

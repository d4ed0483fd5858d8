/**
  * `stream_deserializer` and the decoders that run on it. A `std::istream` does not throw: a read
  * that comes up short fills what it can, leaves zeros and sets the fail bit, and every later read
  * leaves zeros. The contracts relate each method to the buffer decoder's specification.
  */
module Streams {
  import opened Bytes
  import opened Values
  import opened Wire
  import opened Buffers
  import Varint

  /**
    * The two decoders mean the same: from a good stream, a read that the buffer decoder would
    * complete returns the same value, stops at the same byte and leaves the stream good; any other
    * read throws or leaves the fail bit set. The fail bit is never cleared.
    */
  ghost predicate Mirrors<T>(r: Read<T>, wasGood: bool, good: bool, left: Bytes, spec: Parsed<T>) {
    && (good ==> wasGood)
    && (wasGood ==>
          match spec
          case Ok(v, rest) => r == Got(v) && good && left == rest
          case Err(_) => r.Threw? || !good)
  }

  function Zeros(n: nat): (s: Bytes)
    ensures |s| == n
  {
    seq(n, _ => 0)
  }

  class StreamDeserializer {
    const data: Bytes
    var pos: nat
    var good: bool
    const global: bool

    ghost predicate Valid()
      reads this
    {
      pos <= |data|
    }

    ghost function Left(): Bytes
      requires Valid()
      reads this
    {
      data[pos..]
    }

    constructor (data: Bytes, global: bool)
      ensures Valid() && good && Left() == data && this.global == global
    {
      this.data, this.global, pos, good := data, global, 0, true;
    }

    /** `in_.read` of `n` bytes into zeroed storage. */
    method Fill(n: nat) returns (s: Bytes)
      requires Valid()
      modifies this
      ensures Valid() && |s| == n && |Left()| <= |old(Left())|
      ensures good == (old(good) && n <= |old(Left())|)
      ensures good ==> s == old(Left())[..n] && Left() == old(Left())[n..]
      ensures !old(good) ==> s == Zeros(n)
      ensures old(good) && !good ==> s == old(Left()) + Zeros(n - |old(Left())|) && Left() == []
    {
      if !good {
        return Zeros(n);
      }
      if pos + n > |data| {
        s := data[pos..] + Zeros(n - (|data| - pos));
        pos, good := |data|, false;
      } else {
        assert Left()[..n] == data[pos..pos + n] && Left()[n..] == data[pos + n..];
        s := data[pos..pos + n];
        pos := pos + n;
      }
    }

    method ReadU8() returns (b: byte)
      requires Valid()
      modifies this
      ensures Valid() && Mirrors(Got(b), old(good), good, Left(), DecodeU8(old(Left())))
      ensures (!good ==> b == 0) && |Left()| <= |old(Left())|
    {
      var s := Fill(1);
      return s[0];
    }

    method ReadU32() returns (w: uint32)
      requires Valid()
      modifies this
      ensures Valid() && Mirrors(Got(w), old(good), good, Left(), DecodeU32(old(Left())))
      ensures |Left()| <= |old(Left())|
    {
      var s := Fill(4);
      return 0x1_0000 * Join(s[0], s[1]) + Join(s[2], s[3]);
    }

    method ReadVarint() returns (r: Read<uint64>)
      requires Valid()
      modifies this
      ensures Valid() && Mirrors(r, old(good), good, Left(), Varint.Decode(old(Left())))
      ensures |Left()| <= |old(Left())| && (r.Got? ==> |Left()| < |old(Left())|)
    {
      hide Weight, Place, Shifted, Varint.DecodeAt;
      var result: nat, groups: nat, weight: nat := 0, 0, 1;
      ghost var start := Left();
      NothingBelow(Varint.DecodeAt(start, 0));
      while true
        invariant Valid() && groups <= 9 && weight == Weight(groups)
        invariant good == old(good) && |Left()| <= |start|
        invariant Varint.DecodeAt(start, 0) == Shifted(result, weight, Varint.DecodeAt(Left(), groups))
        decreases 9 - groups
      {
        NextGroup(result, groups, Left());
        if !good || pos >= |data| {
          good := false;
          return Threw(Underflow);
        }
        var b := data[pos];
        assert Left()[0] == b && Left()[1..] == data[pos + 1..];
        pos := pos + 1;
        result := result + Place(b % 0x80, weight);
        if b < 0x80 {
          assert Varint.Decode(start) == Ok(result, Left());
          return Got(result);
        }
        if groups == 9 {
          return Threw(VarintTooLong);
        }
        groups, weight := groups + 1, 0x80 * weight;
      }
    }

    method ReadRaw(n: nat) returns (s: Bytes)
      requires Valid()
      modifies this
      ensures Valid() && Mirrors(Got(s), old(good), good, Left(), DecodeRaw(old(Left()), n))
      ensures |s| == n && |Left()| <= |old(Left())|
    {
      if n == 0 {
        assert Left()[..0] == [] && Left()[0..] == Left();
        return [];
      }
      s := Fill(n);
    }

    method ReadWords(n: nat) returns (words: seq<uint32>)
      requires Valid()
      modifies this
      ensures Valid() && Mirrors(Got(words), old(good), good, Left(), DecodeWords(old(Left()), n))
      ensures |words| == n && |Left()| <= |old(Left())|
    {
      hide DecodeU32;
      words := [];
      AfterNone(DecodeWords(Left(), n));
      for i := 0 to n
        invariant Valid() && |words| == i && |Left()| <= |old(Left())|
        invariant good ==> old(good)
        invariant good ==> DecodeWords(old(Left()), n) == After(words, DecodeWords(Left(), n - i))
        invariant old(good) && !good ==> DecodeWords(old(Left()), n).Err?
      {
        var w := ReadU32();
        AfterOne(words, w, DecodeWords(Left(), n - i - 1));
        words := words + [w];
      }
      assert words + [] == words;
    }

    method ReadScalar(tag: byte) returns (r: Read<Field>)
      requires Valid() && tag != 6
      modifies this
      ensures Valid() && Mirrors(r, old(good), good, Left(), DecodeScalar(tag, old(Left())))
      ensures |Left()| <= |old(Left())|
    {
      hide DecodeU8, DecodeU32, DecodeRaw, DecodeWords, Varint.Decode, Signed;
      match tag {
        case 0 => return Got(Empty);
        case 1 => var h := ReadU32(); return Got(Hash(h));
        case 2 => var k := ReadU32(); return Got(Key(k));
        case 3 => var b := ReadU8(); return Got(Bool(b != 0));
        case 4 => var n := ReadU32(); return Got(Int(Signed(n)));
        case 5 => var bits := ReadU32(); return Got(Float(bits));
        case 7 => var n :- ReadVarint(); var b := ReadRaw(n); return Got(Text(b));
        case 8 => var n :- ReadVarint(); var b := ReadRaw(n); return Got(Bools(Truths(b)));
        case 9 => var n :- ReadVarint(); var w := ReadWords(n); return Got(Ints(SignedAll(w)));
        case 10 => var n :- ReadVarint(); var w := ReadWords(n); return Got(Floats(w));
        case 11 => var n :- ReadVarint(); var b := ReadRaw(n); return Got(Raw(b));
        case _ => return Threw(UnknownTag);
      }
    }

    method ReadField() returns (r: Read<Field>)
      requires Valid()
      modifies this
      ensures Valid() && Mirrors(r, old(good), good, Left(), DecodeField(global, old(Left())))
      ensures |Left()| <= |old(Left())|
      decreases |Left()|, 0
    {
      hide DecodeU8, DecodeScalar, DecodeObject, Instance;
      var tag := ReadU8();
      if tag != 6 {
        r := ReadScalar(tag);
        return;
      }
      var present := ReadU8();
      if present == 0 {
        return Got(Null);
      }
      var o :- ReadInstance();
      return Got(Obj(o));
    }

    method ReadObject() returns (r: Read<Object>)
      requires Valid()
      modifies this
      ensures Valid() && Mirrors(r, old(good), good, Left(), DecodeObject(global, old(Left())))
      ensures r.Got? ==> CLASS in r.value.fields
      ensures |Left()| <= |old(Left())|
      decreases |Left()|, 1
    {
      hide DecodeU32, DecodeField, Varint.Decode;
      var fields: Fields := BLANK;
      var count :- ReadVarint();
      ghost var entries := Left();
      ghost var start := good;
      for i := 0 to count
        invariant Valid() && |Left()| <= |entries| && CLASS in fields
        invariant good ==> start
        invariant good ==>
          DecodeEntries(global, entries, count, BLANK) == DecodeEntries(global, Left(), count - i, fields)
        invariant start && !good ==> DecodeEntries(global, entries, count, BLANK).Err?
      {
        var k := ReadU32();
        var f :- ReadField();
        fields := fields[k := f];
      }
      return Got(Object(fields));
    }

    method ReadInstance() returns (r: Read<Object>)
      requires Valid()
      modifies this
      ensures Valid() && Mirrors(r, old(good), good, Left(), DecodeInstance(global, old(Left())))
      ensures |Left()| <= |old(Left())|
      decreases |Left()|, 2
    {
      hide DecodeObject, Instance;
      var o :- ReadObject();
      match Instance(global, o.fields) {
        case Some(m) => return Got(Object(m));
        case None => return Threw(InvalidType);
      }
    }
  }
}

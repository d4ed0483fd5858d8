/**
  * The five Perfetto packet encoders, against a reader for protobuf records (Protocol Buffers
  * Encoding guide, "Base 128 Varints" and "Length-Delimited Records").
  */
module Perfetto {
  import opened Bytes
  import opened Values
  import Varint
  import Wire

  const TWO_TO_THE_63 := 0x8000_0000_0000_0000

  type int64 = n: int | -TWO_TO_THE_63 <= n < TWO_TO_THE_63

  /** Text short enough for `std::string`, whose size stays below 2^63. */
  type Name = s: Bytes | |s| < TWO_TO_THE_63

  type FieldNumber = n: int | 1 <= n < 0x2000_0000 witness 1

  // ---- Protobuf records ----

  datatype Record =
    | VarintRecord(field: FieldNumber, value: uint64)
    | FixedRecord(field: FieldNumber, bits: uint64)
    | BytesRecord(field: FieldNumber, payload: Sized<byte>)

  function Tag(field: FieldNumber, wire: nat): uint64
    requires wire < 8
  {
    8 * field + wire
  }

  /** `n` bytes of `v`, least significant first. */
  function LittleEndian(v: nat, n: nat): (s: Bytes)
    ensures |s| == n
    decreases n
  {
    if n == 0 then [] else [v % 0x100] + LittleEndian(v / 0x100, n - 1)
  }

  function FromLittleEndian(s: Bytes): nat {
    if s == [] then 0 else s[0] + 0x100 * FromLittleEndian(s[1..])
  }

  function Limit(n: nat): nat {
    if n == 0 then 1 else 0x100 * Limit(n - 1)
  }

  lemma {:induction false} LittleEndianRoundTrip(v: nat, n: nat)
    requires v < Limit(n)
    ensures FromLittleEndian(LittleEndian(v, n)) == v
    decreases n
  {
    if n > 0 {
      LittleEndianRoundTrip(v / 0x100, n - 1);
      assert LittleEndian(v, n)[1..] == LittleEndian(v / 0x100, n - 1);
    }
  }

  /** Byte `i` holds the bits of weight 256 to the power of `i`: the least significant come first. */
  lemma {:induction false} LittleEndianAt(v: nat, n: nat, i: nat)
    requires i < n
    ensures i == 0 ==> LittleEndian(v, n)[i] == v % 0x100
    ensures i > 0 ==> LittleEndian(v, n)[i] == LittleEndian(v / 0x100, n - 1)[i - 1]
    decreases n
  {
  }

  lemma {:induction false} FromLittleEndianBelow(s: Bytes)
    ensures FromLittleEndian(s) < Limit(|s|)
  {
    if s != [] {
      FromLittleEndianBelow(s[1..]);
    }
  }

  lemma EightBytes()
    ensures Limit(8) == TWO_TO_THE_64
  {
    assert Limit(1) == 0x100;
    assert Limit(2) == 0x1_0000;
    assert Limit(3) == 0x100_0000;
    assert Limit(4) == 0x1_0000_0000;
    assert Limit(5) == 0x100_0000_0000;
    assert Limit(6) == 0x1_0000_0000_0000;
    assert Limit(7) == 0x100_0000_0000_0000;
  }

  function EncodeRecord(r: Record): (s: Bytes)
    ensures |s| >= 1
  {
    match r
    case VarintRecord(f, v) => Varint.Encode(Tag(f, 0)) + Varint.Encode(v)
    case FixedRecord(f, bits) => Varint.Encode(Tag(f, 1)) + LittleEndian(bits, 8)
    case BytesRecord(f, p) => Varint.Encode(Tag(f, 2)) + (Varint.Encode(|p|) + p)
  }

  function EncodeRecords(rs: seq<Record>): Bytes {
    if rs == [] then [] else EncodeRecord(rs[0]) + EncodeRecords(rs[1..])
  }

  function DecodeFixed(s: Bytes): (r: Parsed<uint64>)
    ensures r.Ok? ==> |r.rest| <= |s|
  {
    if |s| < 8 then Err(Underflow)
    else
      FromLittleEndianBelow(s[..8]);
      EightBytes();
      Ok(FromLittleEndian(s[..8]), s[8..])
  }

  /** A record of any type the three wire types allow; field number 0 and other types are errors. */
  function DecodeRecord(s: Bytes): (r: Parsed<Record>)
    ensures Shrinks(s, r)
  {
    var (t, s1) :- Varint.Decode(s);
    var (f, wire) := (t / 8, t % 8);
    if !(1 <= f < 0x2000_0000) then Err(UnknownTag)
    else if wire == 0 then var (v, s2) :- Varint.Decode(s1); Ok(VarintRecord(f, v), s2)
    else if wire == 1 then var (bits, s2) :- DecodeFixed(s1); Ok(FixedRecord(f, bits), s2)
    else if wire == 2 then
      var (n, s2) :- Varint.Decode(s1);
      var (p, s3) :- Wire.DecodeRaw(s2, n);
      Ok(BytesRecord(f, p), s3)
    else Err(UnknownTag)
  }

  function DecodeRecords(s: Bytes): Option<seq<Record>>
    decreases |s|
  {
    if s == [] then Some([])
    else
      match DecodeRecord(s)
      case Err(_) => None
      case Ok(r, rest) =>
        match DecodeRecords(rest)
        case None => None
        case Some(rs) => Some([r] + rs)
  }

  lemma RecordRoundTrip(r: Record, tail: Bytes)
    ensures DecodeRecord(EncodeRecord(r) + tail) == Ok(r, tail)
  {
    hide Varint.Encode, Varint.Decode, LittleEndian, FromLittleEndian;
    match r
    case VarintRecord(f, v) =>
      assert EncodeRecord(r) + tail == Varint.Encode(Tag(f, 0)) + (Varint.Encode(v) + tail);
      Varint.RoundTrip(Tag(f, 0), Varint.Encode(v) + tail);
      Varint.RoundTrip(v, tail);
    case FixedRecord(f, bits) =>
      var le := LittleEndian(bits, 8);
      assert EncodeRecord(r) + tail == Varint.Encode(Tag(f, 1)) + (le + tail);
      Varint.RoundTrip(Tag(f, 1), le + tail);
      EightBytes();
      LittleEndianRoundTrip(bits, 8);
      assert (le + tail)[..8] == le && (le + tail)[8..] == tail;
    case BytesRecord(f, p) =>
      assert EncodeRecord(r) + tail == Varint.Encode(Tag(f, 2)) + (Varint.Encode(|p|) + p + tail);
      Varint.RoundTrip(Tag(f, 2), Varint.Encode(|p|) + p + tail);
      Wire.CountedRoundTrip(|p|, p, tail);
      assert (p + tail)[..|p|] == p && (p + tail)[|p|..] == tail;
  }

  /** A record reader recovers any list of records from their concatenation. */
  lemma {:induction false} RecordsRoundTrip(rs: seq<Record>)
    ensures DecodeRecords(EncodeRecords(rs)) == Some(rs)
  {
    hide EncodeRecord, DecodeRecord;
    if rs != [] {
      RecordRoundTrip(rs[0], EncodeRecords(rs[1..]));
      RecordsRoundTrip(rs[1..]);
      assert [rs[0]] + rs[1..] == rs;
    }
  }

  lemma RecordSize(r: Record)
    ensures |EncodeRecord(r)| <= 20 + if r.BytesRecord? then |r.payload| else 0
  {
    hide Varint.Encode;
    match r
    case VarintRecord(f, v) =>
      Varint.RoundTrip(Tag(f, 0), []);
      Varint.RoundTrip(v, []);
    case FixedRecord(f, bits) =>
      Varint.RoundTrip(Tag(f, 1), []);
    case BytesRecord(f, p) =>
      Varint.RoundTrip(Tag(f, 2), []);
      Varint.RoundTrip(|p|, []);
  }

  // ---- Packets ----

  /** `event_type` and `counter_unit`, by their numbers. */
  type EventType = n: int | 0 <= n <= 4
  type CounterUnit = n: int | 0 <= n <= 3
  const SLICE_END: EventType := 2
  const COUNTER: EventType := 4
  const UNSPECIFIED: CounterUnit := 0

  datatype Payload =
    | TrackEvent(kind: EventType, name: Name)
    | TrackDescriptor(trackName: Name)
    | CounterTrackDescriptor(counterName: Name, unit: CounterUnit)
    | CounterEvent(value: int64)
    | DoubleCounterEvent(bits: uint64)

  /** The arguments of one call of an encoder. */
  datatype Packet = Packet(timestamp: uint64, sequence: uint32, track: uint64, payload: Payload)

  function Pattern64(v: int64): uint64 {
    if v < 0 then v + TWO_TO_THE_64 else v
  }

  function Signed64(n: uint64): int64 {
    if n < TWO_TO_THE_63 then n else n - TWO_TO_THE_64
  }

  /** The records of the `CounterDescriptor`, or of none. */
  function UnitRecords(unit: CounterUnit): seq<Record> {
    if unit == UNSPECIFIED then [] else [BytesRecord(8, UnitBytes(unit))]
  }

  function UnitBytes(unit: CounterUnit): (s: Bytes)
    ensures |s| <= 20
  {
    RecordSize(VarintRecord(3, unit));
    EncodeRecord(VarintRecord(3, unit))
  }

  /** The records of the `TrackEvent` or `TrackDescriptor` inside a packet. */
  function InnerRecords(p: Packet): seq<Record> {
    match p.payload
    case TrackEvent(kind, name) =>
      [VarintRecord(9, kind), VarintRecord(11, p.track)] +
      (if kind != SLICE_END && name != [] then [BytesRecord(23, name)] else [])
    case TrackDescriptor(name) => [VarintRecord(1, p.track), BytesRecord(2, name)]
    case CounterTrackDescriptor(name, unit) => [VarintRecord(1, p.track), BytesRecord(2, name)] + UnitRecords(unit)
    case CounterEvent(value) =>
      [VarintRecord(9, COUNTER), VarintRecord(11, p.track), VarintRecord(30, Pattern64(value))]
    case DoubleCounterEvent(bits) => [VarintRecord(9, COUNTER), VarintRecord(11, p.track), FixedRecord(44, bits)]
  }

  function PayloadSize(rs: seq<Record>): nat {
    if rs == [] then 0
    else 20 + (if rs[0].BytesRecord? then |rs[0].payload| else 0) + PayloadSize(rs[1..])
  }

  lemma {:induction false} RecordsSize(rs: seq<Record>)
    ensures |EncodeRecords(rs)| <= PayloadSize(rs)
  {
    hide EncodeRecord;
    if rs != [] {
      RecordSize(rs[0]);
      RecordsSize(rs[1..]);
    }
  }

  lemma AtMostThree(rs: seq<Record>)
    requires |rs| <= 3
    ensures PayloadSize(rs) == 20 * |rs|
              + (if |rs| > 0 && rs[0].BytesRecord? then |rs[0].payload| else 0)
              + (if |rs| > 1 && rs[1].BytesRecord? then |rs[1].payload| else 0)
              + (if |rs| > 2 && rs[2].BytesRecord? then |rs[2].payload| else 0)
  {
    if |rs| > 0 {
      assert |rs| > 1 ==> rs[1..][0] == rs[1];
      assert |rs| > 2 ==> rs[1..][1..][0] == rs[2];
      if |rs| > 1 {
        assert PayloadSize(rs[1..])
            == 20 + (if rs[1].BytesRecord? then |rs[1].payload| else 0) + PayloadSize(rs[1..][1..]);
      }
      assert |rs| > 2 ==> PayloadSize(rs[1..][1..][1..]) == 0;
      assert |rs| == 2 ==> PayloadSize(rs[1..][1..]) == 0;
    }
  }

  function InnerBytes(p: Packet): (s: Bytes)
    ensures |s| < TWO_TO_THE_63 + 100
  {
    hide EncodeRecords;
    RecordsSize(InnerRecords(p));
    AtMostThree(InnerRecords(p));
    EncodeRecords(InnerRecords(p))
  }

  predicate IsEvent(p: Packet) {
    p.payload.TrackEvent? || p.payload.CounterEvent? || p.payload.DoubleCounterEvent?
  }

  /** The records of the `TracePacket`. */
  function PacketRecords(p: Packet): seq<Record> {
    [VarintRecord(8, p.timestamp),
     VarintRecord(10, p.sequence),
     BytesRecord(if IsEvent(p) then 11 else 60, InnerBytes(p))]
  }

  function PacketBytes(p: Packet): (s: Bytes)
    ensures |s| < TWO_TO_THE_63 + 200
  {
    hide EncodeRecords, InnerBytes;
    RecordsSize(PacketRecords(p));
    AtMostThree(PacketRecords(p));
    EncodeRecords(PacketRecords(p))
  }

  function Framed(p: Packet): Record {
    BytesRecord(1, PacketBytes(p))
  }

  function EncodeTrace(ps: seq<Packet>): Bytes {
    if ps == [] then [] else EncodeRecord(Framed(ps[0])) + EncodeTrace(ps[1..])
  }

  // ---- A reader of traces ----

  datatype Event = Event(
    kind: uint64, track: uint64, name: Option<Bytes>, counter: Option<int64>, double: Option<uint64>)
  datatype Descriptor = Descriptor(uuid: uint64, name: Bytes, unit: Option<uint64>)
  datatype Message = Message(timestamp: uint64, sequence: uint64, event: Option<Event>, descriptor: Option<Descriptor>)

  function ReadEvent(e: Event, rs: seq<Record>): Event
    decreases |rs|
  {
    if rs == [] then e
    else
      var e' := match rs[0]
        case VarintRecord(f, v) =>
          if f == 9 then e.(kind := v)
          else if f == 11 then e.(track := v)
          else if f == 30 then e.(counter := Some(Signed64(v)))
          else e
        case FixedRecord(f, bits) => if f == 44 then e.(double := Some(bits)) else e
        case BytesRecord(f, p) => if f == 23 then e.(name := Some(p)) else e;
      ReadEvent(e', rs[1..])
  }

  function ReadUnit(u: Option<uint64>, rs: seq<Record>): Option<uint64>
    decreases |rs|
  {
    if rs == [] then u
    else ReadUnit(if rs[0].VarintRecord? && rs[0].field == 3 then Some(rs[0].value) else u, rs[1..])
  }

  function ReadDescriptor(d: Descriptor, rs: seq<Record>): Option<Descriptor>
    decreases |rs|
  {
    if rs == [] then Some(d)
    else
      match rs[0]
      case VarintRecord(f, v) => ReadDescriptor(if f == 1 then d.(uuid := v) else d, rs[1..])
      case FixedRecord(_, _) => ReadDescriptor(d, rs[1..])
      case BytesRecord(f, p) =>
        if f == 2 then ReadDescriptor(d.(name := p), rs[1..])
        else if f == 8 then
          match DecodeRecords(p)
          case None => None
          case Some(inner) => ReadDescriptor(d.(unit := ReadUnit(None, inner)), rs[1..])
        else ReadDescriptor(d, rs[1..])
  }

  const NO_EVENT := Event(0, 0, None, None, None)
  const NO_DESCRIPTOR := Descriptor(0, [], None)

  function ReadPacket(m: Message, rs: seq<Record>): Option<Message>
    decreases |rs|
  {
    if rs == [] then Some(m)
    else
      match rs[0]
      case VarintRecord(f, v) =>
        ReadPacket(if f == 8 then m.(timestamp := v) else if f == 10 then m.(sequence := v) else m, rs[1..])
      case FixedRecord(_, _) => ReadPacket(m, rs[1..])
      case BytesRecord(f, p) =>
        if f != 11 && f != 60 then ReadPacket(m, rs[1..])
        else
          match DecodeRecords(p)
          case None => None
          case Some(inner) =>
            if f == 11 then ReadPacket(m.(event := Some(ReadEvent(NO_EVENT, inner))), rs[1..])
            else
              match ReadDescriptor(NO_DESCRIPTOR, inner)
              case None => None
              case Some(d) => ReadPacket(m.(descriptor := Some(d)), rs[1..])
  }

  const NO_MESSAGE := Message(0, 0, None, None)

  function ReadPackets(rs: seq<Record>): Option<seq<Message>> {
    if rs == [] then Some([])
    else if !rs[0].BytesRecord? || rs[0].field != 1 then None
    else
      match DecodeRecords(rs[0].payload)
      case None => None
      case Some(inner) =>
        match ReadPacket(NO_MESSAGE, inner)
        case None => None
        case Some(m) =>
          match ReadPackets(rs[1..])
          case None => None
          case Some(ms) => Some([m] + ms)
  }

  function ReadTrace(s: Bytes): Option<seq<Message>> {
    match DecodeRecords(s)
    case None => None
    case Some(rs) => ReadPackets(rs)
  }

  // ---- What a trace says ----

  /** The message a call of an encoder stands for. */
  function Meaning(p: Packet): Message {
    var e := Event(COUNTER, p.track, None, None, None);
    match p.payload
    case TrackEvent(kind, name) =>
      var shown := if kind != SLICE_END && name != [] then Some(name) else None;
      Message(p.timestamp, p.sequence, Some(Event(kind, p.track, shown, None, None)), None)
    case TrackDescriptor(name) =>
      Message(p.timestamp, p.sequence, None, Some(Descriptor(p.track, name, None)))
    case CounterTrackDescriptor(name, unit) =>
      var shown := if unit == UNSPECIFIED then None else Some(unit);
      Message(p.timestamp, p.sequence, None, Some(Descriptor(p.track, name, shown)))
    case CounterEvent(value) => Message(p.timestamp, p.sequence, Some(e.(counter := Some(value))), None)
    case DoubleCounterEvent(bits) => Message(p.timestamp, p.sequence, Some(e.(double := Some(bits))), None)
  }

  function Meanings(ps: seq<Packet>): seq<Message> {
    if ps == [] then [] else [Meaning(ps[0])] + Meanings(ps[1..])
  }

  lemma EventIsRead(p: Packet)
    requires IsEvent(p)
    ensures Some(ReadEvent(NO_EVENT, InnerRecords(p))) == Meaning(p).event && Meaning(p).descriptor == None
  {
    var rs := InnerRecords(p);
    var e1 := NO_EVENT.(kind := rs[0].value);
    var e2 := e1.(track := p.track);
    assert rs[1..][0] == rs[1];
    assert ReadEvent(NO_EVENT, rs) == ReadEvent(e1, rs[1..]) == ReadEvent(e2, rs[1..][1..]);
    if |rs| == 3 {
      assert rs[1..][1..][0] == rs[2] && rs[1..][1..][1..] == [];
      var e3 := Meaning(p).event.value;
      assert ReadEvent(e3, []) == e3;
      assert ReadEvent(e2, rs[1..][1..]) == ReadEvent(e3, []);
    } else {
      assert rs[1..][1..] == [];
      assert ReadEvent(e2, []) == e2;
    }
  }

  lemma UnitIsRead(unit: CounterUnit)
    ensures DecodeRecords(UnitBytes(unit)) == Some([VarintRecord(3, unit)])
  {
    hide EncodeRecord, DecodeRecords;
    RecordsRoundTrip([VarintRecord(3, unit)]);
    assert EncodeRecords([VarintRecord(3, unit)]) == UnitBytes(unit);
  }

  lemma DescriptorIsRead(p: Packet)
    requires !IsEvent(p)
    ensures ReadDescriptor(NO_DESCRIPTOR, InnerRecords(p)) == Meaning(p).descriptor && Meaning(p).event == None
  {
    hide DecodeRecords, UnitBytes;
    var rs := InnerRecords(p);
    var d1 := NO_DESCRIPTOR.(uuid := p.track);
    var d2 := d1.(name := rs[1].payload);
    assert rs[1..][0] == rs[1];
    assert ReadDescriptor(NO_DESCRIPTOR, rs) == ReadDescriptor(d1, rs[1..]) == ReadDescriptor(d2, rs[1..][1..]);
    if |rs| == 3 {
      var unit := p.payload.unit;
      UnitIsRead(unit);
      assert rs[1..][1..][0] == rs[2] && rs[1..][1..][1..] == [];
      assert [VarintRecord(3, unit)][1..] == [];
      assert ReadUnit(None, [VarintRecord(3, unit)]) == ReadUnit(Some(unit), []) == Some(unit);
      var d3 := d2.(unit := Some(unit));
      assert ReadDescriptor(d3, []) == Some(d3);
      assert ReadDescriptor(d2, rs[1..][1..]) == ReadDescriptor(d3, []);
    } else {
      assert rs[1..][1..] == [];
      assert ReadDescriptor(d2, []) == Some(d2);
    }
  }

  lemma PacketIsRead(p: Packet)
    ensures ReadPacket(NO_MESSAGE, PacketRecords(p)) == Some(Meaning(p))
  {
    hide DecodeRecords, EncodeRecords, InnerRecords, ReadEvent, ReadDescriptor;
    var rs := PacketRecords(p);
    var m1 := NO_MESSAGE.(timestamp := p.timestamp);
    var m2 := m1.(sequence := p.sequence);
    assert rs[1..][0] == rs[1];
    assert ReadPacket(NO_MESSAGE, rs) == ReadPacket(m1, rs[1..]) == ReadPacket(m2, rs[1..][1..]);
    assert rs[1..][1..][0] == rs[2] && rs[1..][1..][1..] == [];
    RecordsRoundTrip(InnerRecords(p));
    if IsEvent(p) {
      EventIsRead(p);
    } else {
      DescriptorIsRead(p);
    }
    assert ReadPacket(Meaning(p), []) == Some(Meaning(p));
    assert ReadPacket(m2, rs[1..][1..]) == ReadPacket(Meaning(p), []);
  }

  function Frames(ps: seq<Packet>): seq<Record> {
    if ps == [] then [] else [Framed(ps[0])] + Frames(ps[1..])
  }

  lemma {:induction false} TraceIsFrames(ps: seq<Packet>)
    ensures EncodeTrace(ps) == EncodeRecords(Frames(ps))
    ensures ReadPackets(Frames(ps)) == Some(Meanings(ps))
  {
    hide EncodeRecord, DecodeRecords, PacketRecords, Meaning;
    if ps != [] {
      var (p, rest) := (ps[0], ps[1..]);
      TraceIsFrames(rest);
      assert Frames(ps)[1..] == Frames(rest);
      RecordsRoundTrip(PacketRecords(p));
      PacketIsRead(p);
    }
  }

  /**
    * A protobuf reader finds in any concatenation of encoded packets exactly those packets, in
    * order, with the arguments they were encoded from.
    */
  lemma TraceRoundTrip(ps: seq<Packet>)
    ensures ReadTrace(EncodeTrace(ps)) == Some(Meanings(ps))
  {
    TraceIsFrames(ps);
    RecordsRoundTrip(Frames(ps));
  }

  /**
    * In the numbers of the format: a track event carries its type, and its name unless that is empty
    * or the type is 2, the end of a slice; a counter event carries type 4 and no name; the unit of a
    * counter track is sent unless it is 0.
    */
  lemma SentInNumbers(p: Packet)
    ensures var r := ReadTrace(EncodeTrace([p]));
            && r.Some? && |r.value| == 1
            && var m := r.value[0];
               && m.timestamp == p.timestamp && m.sequence == p.sequence
               && (p.payload.TrackEvent? ==>
                     && m.descriptor == None && m.event.Some?
                     && m.event.value.kind == p.payload.kind && m.event.value.track == p.track
                     && m.event.value.counter == None && m.event.value.double == None
                     && m.event.value.name ==
                        if p.payload.kind == 2 || p.payload.name == [] then None else Some(p.payload.name))
               && (p.payload.CounterEvent? ==>
                     m.descriptor == None && m.event == Some(Event(4, p.track, None, Some(p.payload.value), None)))
               && (p.payload.DoubleCounterEvent? ==>
                     m.descriptor == None && m.event == Some(Event(4, p.track, None, None, Some(p.payload.bits))))
               && (p.payload.TrackDescriptor? ==>
                     m.event == None && m.descriptor == Some(Descriptor(p.track, p.payload.trackName, None)))
               && (p.payload.CounterTrackDescriptor? ==>
                     m.event == None && m.descriptor ==
                     Some(Descriptor(p.track, p.payload.counterName,
                                     if p.payload.unit == 0 then None else Some(p.payload.unit))))
  {
    hide ReadTrace, EncodeTrace;
    TraceRoundTrip([p]);
    assert Meanings([p]) == [Meaning(p)];
  }

  // ---- What tells two traces apart ----

  /** The packet as sent: slice ends lose their name, and a counter track without a unit is a track. */
  function Sent(p: Packet): Packet {
    match p.payload
    case TrackEvent(kind, name) => if kind == SLICE_END then p.(payload := TrackEvent(kind, [])) else p
    case CounterTrackDescriptor(name, unit) =>
      if unit == UNSPECIFIED then p.(payload := TrackDescriptor(name)) else p
    case _ => p
  }

  function AllSent(ps: seq<Packet>): seq<Packet> {
    if ps == [] then [] else [Sent(ps[0])] + AllSent(ps[1..])
  }

  lemma SameMeaningIff(p: Packet, q: Packet)
    ensures Meaning(p) == Meaning(q) <==> Sent(p) == Sent(q)
  {
  }

  lemma SentIsFramedAlike(p: Packet)
    ensures Framed(Sent(p)) == Framed(p)
  {
    hide EncodeRecords, UnitBytes;
    assert InnerRecords(Sent(p)) == InnerRecords(p);
    assert PacketRecords(Sent(p)) == PacketRecords(p);
  }

  lemma {:induction false} SentIsEncodedAlike(ps: seq<Packet>)
    ensures EncodeTrace(AllSent(ps)) == EncodeTrace(ps)
  {
    hide EncodeRecord, Framed, Sent;
    if ps != [] {
      SentIsEncodedAlike(ps[1..]);
      SentIsFramedAlike(ps[0]);
      assert AllSent(ps)[1..] == AllSent(ps[1..]);
    }
  }

  lemma {:induction false} SameMeaningsAreSentAlike(ps: seq<Packet>, qs: seq<Packet>)
    requires Meanings(ps) == Meanings(qs)
    ensures AllSent(ps) == AllSent(qs)
  {
    hide Meaning, Sent;
    if ps != [] && qs != [] {
      assert Meanings(ps)[0] == Meaning(ps[0]) && Meanings(qs)[0] == Meaning(qs[0]);
      assert Meanings(ps)[1..] == Meanings(ps[1..]) && Meanings(qs)[1..] == Meanings(qs[1..]);
      SameMeaningIff(ps[0], qs[0]);
      SameMeaningsAreSentAlike(ps[1..], qs[1..]);
    }
  }

  /** Two traces have the same bytes exactly if they send the same packets in the same order. */
  lemma SameTraceIff(ps: seq<Packet>, qs: seq<Packet>)
    ensures EncodeTrace(ps) == EncodeTrace(qs) <==> AllSent(ps) == AllSent(qs)
  {
    hide *;
    if EncodeTrace(ps) == EncodeTrace(qs) {
      TraceRoundTrip(ps);
      TraceRoundTrip(qs);
      SameMeaningsAreSentAlike(ps, qs);
    }
    SentIsEncodedAlike(ps);
    SentIsEncodedAlike(qs);
  }
}

/** The five packet encoders as they append to their serializers, step by step. */
module PerfettoEncoders {
  import opened Bytes
  import opened Values
  import opened Buffers
  import opened Perfetto
  import Varint

  method WriteVarintField(out: BufferSerializer, field: FieldNumber, value: uint64)
    modifies out
    ensures out.buf == old(out.buf) + EncodeRecord(VarintRecord(field, value))
  {
    hide Varint.Encode;
    out.WriteVarint(Tag(field, 0));
    out.WriteVarint(value);
  }

  method WriteLengthDelimited(out: BufferSerializer, field: FieldNumber, payload: Sized<byte>)
    modifies out
    ensures out.buf == old(out.buf) + EncodeRecord(BytesRecord(field, payload))
  {
    hide Varint.Encode;
    out.WriteVarint(Tag(field, 2));
    out.WriteCounted(payload);
  }

  /** Eight bytes, each the lowest of what is left of the bits after shifting. */
  method FixedBytes(bits: uint64) returns (bytes: Bytes)
    ensures bytes == LittleEndian(bits, 8)
  {
    var shifted: nat := bits;
    bytes := [];
    for i := 0 to 8
      invariant bytes + LittleEndian(shifted, 8 - i) == LittleEndian(bits, 8)
    {
      assert bytes + ([shifted % 0x100] + LittleEndian(shifted / 0x100, 7 - i))
          == bytes + [shifted % 0x100] + LittleEndian(shifted / 0x100, 7 - i);
      bytes, shifted := bytes + [shifted % 0x100], shifted / 0x100;
    }
  }

  method WriteFixed64Field(out: BufferSerializer, field: FieldNumber, bits: uint64)
    modifies out
    ensures out.buf == old(out.buf) + EncodeRecord(FixedRecord(field, bits))
  {
    hide Varint.Encode, LittleEndian;
    out.WriteVarint(Tag(field, 1));
    var bytes := FixedBytes(bits);
    out.WriteBytes(bytes);
  }

  lemma TwoRecords(a: Record, b: Record)
    ensures EncodeRecords([a, b]) == EncodeRecord(a) + EncodeRecord(b)
  {
    hide EncodeRecord;
    assert [a, b][1..] == [b] && [b][1..] == [];
    assert EncodeRecords([b]) == EncodeRecord(b);
  }

  lemma ThreeRecords(a: Record, b: Record, c: Record)
    ensures EncodeRecords([a, b, c]) == EncodeRecord(a) + EncodeRecord(b) + EncodeRecord(c)
  {
    hide EncodeRecord;
    assert [a, b, c][1..] == [b, c];
    TwoRecords(b, c);
  }

  /** The tail of every encoder: the packet around `inner`, framed as one record of the trace. */
  method Frame(p: Packet, inner: Sized<byte>) returns (framed: Bytes)
    requires inner == InnerBytes(p)
    ensures framed == EncodeRecord(Framed(p))
  {
    hide EncodeRecord, EncodeRecords, InnerRecords;
    var packet := new BufferSerializer();
    WriteVarintField(packet, 8, p.timestamp);
    WriteVarintField(packet, 10, p.sequence);
    WriteLengthDelimited(packet, if IsEvent(p) then 11 else 60, inner);
    var rs := PacketRecords(p);
    ThreeRecords(rs[0], rs[1], rs[2]);
    assert packet.buf == PacketBytes(p);
    var out := new BufferSerializer();
    WriteLengthDelimited(out, 1, packet.buf);
    framed := out.buf;
  }

  method EncodeTrackEventPacket(timestamp: uint64, sequence: uint32, track: uint64, kind: EventType, name: Name)
    returns (framed: Bytes)
    ensures framed == EncodeRecord(Framed(Packet(timestamp, sequence, track, TrackEvent(kind, name))))
  {
    hide EncodeRecord, EncodeRecords, Framed;
    var p := Packet(timestamp, sequence, track, TrackEvent(kind, name));
    var event := new BufferSerializer();
    WriteVarintField(event, 9, kind);
    WriteVarintField(event, 11, track);
    TwoRecords(VarintRecord(9, kind), VarintRecord(11, track));
    assert InnerRecords(p)[..2] == [VarintRecord(9, kind), VarintRecord(11, track)];
    if kind != SLICE_END && name != [] {
      WriteLengthDelimited(event, 23, name);
      ThreeRecords(VarintRecord(9, kind), VarintRecord(11, track), BytesRecord(23, name));
      assert InnerRecords(p) == [VarintRecord(9, kind), VarintRecord(11, track), BytesRecord(23, name)];
    } else {
      assert InnerRecords(p) == [VarintRecord(9, kind), VarintRecord(11, track)];
    }
    assert event.buf == InnerBytes(p);
    framed := Frame(p, event.buf);
  }

  method EncodeTrackDescriptorPacket(timestamp: uint64, sequence: uint32, track: uint64, name: Name)
    returns (framed: Bytes)
    ensures framed == EncodeRecord(Framed(Packet(timestamp, sequence, track, TrackDescriptor(name))))
  {
    hide EncodeRecord, EncodeRecords, Framed;
    var p := Packet(timestamp, sequence, track, TrackDescriptor(name));
    var descriptor := new BufferSerializer();
    WriteVarintField(descriptor, 1, track);
    WriteLengthDelimited(descriptor, 2, name);
    TwoRecords(VarintRecord(1, track), BytesRecord(2, name));
    assert descriptor.buf == InnerBytes(p);
    framed := Frame(p, descriptor.buf);
  }

  method EncodeCounterTrackDescriptorPacket(
      timestamp: uint64, sequence: uint32, track: uint64, name: Name, unit: CounterUnit)
    returns (framed: Bytes)
    ensures framed == EncodeRecord(Framed(Packet(timestamp, sequence, track, CounterTrackDescriptor(name, unit))))
  {
    hide EncodeRecord, EncodeRecords, Framed;
    var p := Packet(timestamp, sequence, track, CounterTrackDescriptor(name, unit));
    var descriptor := new BufferSerializer();
    WriteVarintField(descriptor, 1, track);
    WriteLengthDelimited(descriptor, 2, name);
    TwoRecords(VarintRecord(1, track), BytesRecord(2, name));
    if unit != UNSPECIFIED {
      var counter := new BufferSerializer();
      WriteVarintField(counter, 3, unit);
      assert counter.buf == UnitBytes(unit);
      WriteLengthDelimited(descriptor, 8, counter.buf);
      ThreeRecords(VarintRecord(1, track), BytesRecord(2, name), BytesRecord(8, UnitBytes(unit)));
      assert InnerRecords(p) == [VarintRecord(1, track), BytesRecord(2, name), BytesRecord(8, UnitBytes(unit))];
    } else {
      assert InnerRecords(p) == [VarintRecord(1, track), BytesRecord(2, name)];
    }
    assert descriptor.buf == InnerBytes(p);
    framed := Frame(p, descriptor.buf);
  }

  method EncodeCounterEventPacket(timestamp: uint64, sequence: uint32, track: uint64, value: int64)
    returns (framed: Bytes)
    ensures framed == EncodeRecord(Framed(Packet(timestamp, sequence, track, CounterEvent(value))))
  {
    hide EncodeRecord, EncodeRecords, Framed, Pattern64;
    var p := Packet(timestamp, sequence, track, CounterEvent(value));
    var event := new BufferSerializer();
    WriteVarintField(event, 9, COUNTER);
    WriteVarintField(event, 11, track);
    WriteVarintField(event, 30, Pattern64(value));
    ThreeRecords(VarintRecord(9, COUNTER), VarintRecord(11, track), VarintRecord(30, Pattern64(value)));
    assert event.buf == InnerBytes(p);
    framed := Frame(p, event.buf);
  }

  method EncodeDoubleCounterEventPacket(timestamp: uint64, sequence: uint32, track: uint64, bits: uint64)
    returns (framed: Bytes)
    ensures framed == EncodeRecord(Framed(Packet(timestamp, sequence, track, DoubleCounterEvent(bits))))
  {
    hide EncodeRecord, EncodeRecords, Framed;
    var p := Packet(timestamp, sequence, track, DoubleCounterEvent(bits));
    var event := new BufferSerializer();
    WriteVarintField(event, 9, COUNTER);
    WriteVarintField(event, 11, track);
    WriteFixed64Field(event, 44, bits);
    ThreeRecords(VarintRecord(9, COUNTER), VarintRecord(11, track), FixedRecord(44, bits));
    assert event.buf == InnerBytes(p);
    framed := Frame(p, event.buf);
  }
}

/** The loops that pull YAML events from a parser and push them to an emitter. */
module YamlMachines {
  import opened Bytes
  import opened Values
  import opened Wire
  import opened Documents
  import opened Yaml

  // ---- Reading ----

  /** A method result and the events it left, as one outcome; `None` stands for an exception. */
  predicate Matches<T(==)>(r: Option<T>, rest: Events, p: Reading<T>) {
    if r.Some? then p == Read(r.value, rest) else p.Unread?
  }

  function Prepend(items: seq<Field>, p: Reading<seq<Field>>): Reading<seq<Field>> {
    if p.Unread? then Unread else Read(items + p.value, p.rest)
  }

  lemma PrependNone(p: Reading<seq<Field>>)
    ensures Prepend([], p) == p
  {
    if p.Read? {
      assert [] + p.value == p.value;
    }
  }

  lemma PrependOne(host: Host, items: seq<Field>, evs: Events, f: Field, rest: Events)
    requires evs != [] && !evs[0].SequenceEnd? && ParseValue(host, evs) == Read(f, rest)
    ensures Prepend(items, ParseItems(host, evs)) == Prepend(items + [f], ParseItems(host, rest))
  {
    hide ParseValue;
    var p := ParseItems(host, rest);
    if p.Read? {
      assert items + ([f] + p.value) == items + [f] + p.value;
    }
  }

  /** The array-like object of the items of a sequence. */
  method IndexItems(items: seq<Field>) returns (own: Fields)
    ensures own == Indexed(items, |items|)
  {
    own := BLANK;
    for n := 0 to |items|
      invariant own == Indexed(items, n)
    {
      own := own[n % TWO_TO_THE_32 := items[n]];
    }
  }

  /** The classification of a sequence in one pass, and the vector built in a second. */
  method Classify(host: Host, items: Sized<Field>) returns (f: Field)
    ensures f == SequenceField(host, items)
  {
    if items != [] {
      var allBool, allInt, allNumeric := true, true, true;
      for n := 0 to |items|
        invariant allBool == AllBool(items[..n])
        invariant allInt == AllInt(items[..n])
        invariant allNumeric == AllNumeric(items[..n])
      {
        var one := items[n];
        assert items[..n + 1] == items[..n] + [one];
        allBool := allBool && one.Bool?;
        allInt := allInt && one.Int?;
        allNumeric := allNumeric && (one.Int? || one.Float?);
      }
      assert items[..|items|] == items;
      if allBool {
        var v := [];
        for n := 0 to |items|
          invariant v == FlagsOf(items)[..n]
        {
          v := v + [items[n].flag];
        }
        return Bools(v);
      }
      if allInt {
        var v := [];
        for n := 0 to |items|
          invariant v == NumbersOf(items)[..n]
        {
          v := v + [items[n].number];
        }
        return Ints(v);
      }
      if allNumeric {
        var v := [];
        for n := 0 to |items|
          invariant v == FloatsOf(host, items)[..n]
        {
          v := v + [AsFloat(host, items[n])];
        }
        return Floats(v);
      }
    }
    var own := IndexItems(items);
    f := Obj(Object(own));
  }

  /** The parser: the events not yet pulled. */
  class EventReader {
    var events: Events

    constructor (events: Events)
      ensures this.events == events
    {
      this.events := events;
    }

    method Pull() returns (r: Option<Event>)
      modifies this
      ensures if old(events) == [] then r == None && events == []
              else r == Some(old(events)[0]) && events == old(events)[1..]
    {
      if events == [] {
        return None;
      }
      r := Some(events[0]);
      events := events[1..];
    }

    /** The value that starts with the event just pulled. */
    method ReadValue(host: Host, ev: Event) returns (r: Option<Field>)
      modifies this
      ensures |events| <= |old(events)|
      ensures Matches(r, events, ParseValue(host, [ev] + old(events)))
      decreases |events|, 1
    {
      hide ScalarField, ParseMapping, ParseItems, SequenceField;
      assert ([ev] + events)[1..] == events;
      match ev {
        case Scalar(text, plain) =>
          r := if |text| < TWO_TO_THE_64 then Some(ScalarField(host, text, plain)) else None;
        case MappingStart =>
          var own := ReadMapping(host);
          r := if own.Some? then Some(Obj(Object(own.value))) else None;
        case SequenceStart =>
          var items := ReadItems(host);
          if items.None? || |items.value| >= TWO_TO_THE_64 {
            return None;
          }
          var f := Classify(host, items.value);
          r := Some(f);
        case _ =>
          r := Some(Empty);
      }
    }

    method ReadMapping(host: Host) returns (r: Option<Fields>)
      modifies this
      ensures |events| <= |old(events)|
      ensures Matches(r, events, ParseMapping(host, old(events), BLANK))
      decreases |events|, 0
    {
      hide ParseValue, Put, Cut;
      var own: Fields := BLANK;
      while true
        invariant |events| <= |old(events)|
        invariant ParseMapping(host, old(events), BLANK) == ParseMapping(host, events, own)
        decreases |events|
      {
        ghost var before := events;
        var ev := Pull();
        if ev.None? {
          return None;
        }
        if ev.value.MappingEnd? {
          return Some(own);
        }
        if !ev.value.Scalar? {
          return None;
        }
        var key := ev.value.text;
        ghost var tail := events;
        var first := Pull();
        if first.None? {
          NothingToRead(host);
          return None;
        }
        assert tail == [first.value] + events && |events| < |old(events)|;
        var f := ReadValue(host, first.value);
        if f.None? {
          return None;
        }
        var filled := Put(host, own, host.hash(Cut(key)), f.value);
        if filled.None? {
          return None;
        }
        own := filled.value;
      }
    }

    method ReadItems(host: Host) returns (r: Option<seq<Field>>)
      modifies this
      ensures |events| <= |old(events)|
      ensures Matches(r, events, ParseItems(host, old(events)))
      decreases |events|, 0
    {
      hide ParseValue;
      var items: seq<Field> := [];
      PrependNone(ParseItems(host, events));
      while true
        invariant |events| <= |old(events)|
        invariant ParseItems(host, old(events)) == Prepend(items, ParseItems(host, events))
        decreases |events|
      {
        ghost var before := events;
        var ev := Pull();
        if ev.None? {
          return None;
        }
        if ev.value.SequenceEnd? {
          assert items + [] == items;
          return Some(items);
        }
        assert before == [ev.value] + events && |events| < |old(events)|;
        var f := ReadValue(host, ev.value);
        if f.None? {
          return None;
        }
        PrependOne(host, items, before, f.value, events);
        items := items + [f.value];
      }
    }
  }

  lemma NothingToRead(host: Host)
    ensures ParseValue(host, []).Unread?
  {
  }

  // ---- Writing ----

  /** The emitter: the events already pushed. */
  class EventWriter {
    var events: Events

    constructor ()
      ensures events == []
    {
      events := [];
    }

    method Push(ev: Event)
      modifies this
      ensures events == old(events) + [ev]
    {
      events := events + [ev];
    }

    method WriteBools(s: seq<bool>)
      modifies this
      ensures events == old(events) + ([SequenceStart] + EmitBools(s) + [SequenceEnd])
    {
      hide BoolText;
      Push(SequenceStart);
      ghost var start := events;
      for n := 0 to |s|
        invariant events + EmitBools(s[n..]) == start + EmitBools(s)
      {
        assert s[n..][1..] == s[n + 1..];
        Push(Scalar(BoolText(s[n]), true));
      }
      assert events == start + EmitBools(s);
      Push(SequenceEnd);
    }

    method WriteInts(s: seq<int32>)
      modifies this
      ensures events == old(events) + ([SequenceStart] + EmitInts(s) + [SequenceEnd])
    {
      hide IntText;
      Push(SequenceStart);
      ghost var start := events;
      for n := 0 to |s|
        invariant events + EmitInts(s[n..]) == start + EmitInts(s)
      {
        assert s[n..][1..] == s[n + 1..];
        Push(Scalar(IntText(s[n]), true));
      }
      assert events == start + EmitInts(s);
      Push(SequenceEnd);
    }

    method WriteFloats(host: Host, s: seq<uint32>)
      modifies this
      ensures events == old(events) + ([SequenceStart] + EmitFloats(host, s) + [SequenceEnd])
    {
      Push(SequenceStart);
      ghost var start := events;
      for n := 0 to |s|
        invariant events + EmitFloats(host, s[n..]) == start + EmitFloats(host, s)
      {
        assert s[n..][1..] == s[n + 1..];
        Push(Scalar(host.floatText(s[n]), true));
      }
      assert events == start + EmitFloats(host, s);
      Push(SequenceEnd);
    }

    method WriteField(host: Host, names: Names, f: Field)
      modifies this
      ensures events == old(events) + EmitField(host, names, f)
      decreases f, 0
    {
      hide EmitEntries, EmitBools, EmitInts, EmitFloats, ResolveKey, BoolText, IntText, Hex;
      match f {
        case Empty => Push(Scalar(NULL, true));
        case Hash(h) => Push(Scalar(ResolveKey(names, h), true));
        case Key(k) => Push(Scalar(ResolveKey(names, k), true));
        case Bool(b) => Push(Scalar(BoolText(b), true));
        case Int(i) => Push(Scalar(IntText(i), true));
        case Float(bits) => Push(Scalar(host.floatText(bits), true));
        case Null => Push(Scalar(NULL, true));
        case Obj(o) => WriteObject(host, names, o);
        case Text(s) => Push(Scalar(s, false));
        case Bools(s) => WriteBools(s);
        case Ints(s) => WriteInts(s);
        case Floats(s) => WriteFloats(host, s);
        case Raw(s) => Push(Scalar(Hex(s), false));
      }
    }

    method WriteObject(host: Host, names: Names, o: Object)
      modifies this
      ensures events == old(events) + EmitObject(host, names, o)
      decreases o, 1
    {
      hide EmitField, ResolveKey, Bookkeeping, Ascending;
      Push(MappingStart);
      ghost var start := events;
      var keys := Ascending(o.fields.Keys);
      for n := 0 to |keys|
        invariant events + EmitEntries(host, names, o, keys[n..]) == start + EmitEntries(host, names, o, keys)
      {
        var k := keys[n];
        assert keys[n..][0] == k && keys[n..][1..] == keys[n + 1..];
        if !Bookkeeping(k, o.fields[k]) {
          Push(Scalar(ResolveKey(names, k), true));
          WriteField(host, names, o.fields[k]);
        }
      }
      assert events == start + EmitEntries(host, names, o, keys);
      Push(MappingEnd);
    }
  }

  // ---- Round trip through the machines ----

  /** Writing an object and reading the events back gives the object, up to zero bookkeeping fields. */
  method WriteThenRead(host: Host, names: Names, o: Object, rest: Events) returns (r: Option<Field>, left: Events)
    requires AllPlainly(host, names, o)
    ensures r.Some? && r.value.Obj? && Bare(r.value.obj) == Bare(o) && left == rest
  {
    hide ParseValue, EmitObject, AllPlainly, Bare;
    var writer := new EventWriter();
    writer.WriteObject(host, names, o);
    assert writer.events == EmitObject(host, names, o);
    YamlRoundTrip(host, names, o, rest);
    var reader := new EventReader(writer.events + rest);
    ghost var all := reader.events;
    var ev := reader.Pull();
    assert all == [ev.value] + reader.events;
    r := reader.ReadValue(host, ev.value);
    left := reader.events;
  }
}

/** YAML export to, and import from, a stream of parser events. */
module Yaml {
  import opened Bytes
  import opened Values
  import opened Decimals
  import opened Wire
  import opened Documents

  datatype Event = Scalar(text: Bytes, plain: bool) | MappingStart | MappingEnd | SequenceStart | SequenceEnd

  type Events = seq<Event>

  const NULL: Bytes := [0x6e, 0x75, 0x6c, 0x6c]
  const TILDE: Bytes := [0x7e]
  const TRUE: Bytes := [0x74, 0x72, 0x75, 0x65]
  const YES: Bytes := [0x79, 0x65, 0x73]
  const ON: Bytes := [0x6f, 0x6e]
  const FALSE: Bytes := [0x66, 0x61, 0x6c, 0x73, 0x65]
  const NO: Bytes := [0x6e, 0x6f]
  const OFF: Bytes := [0x6f, 0x66, 0x66]

  function BoolText(b: bool): Bytes {
    if b then TRUE else FALSE
  }

  // ---- Emitting ----

  function EmitBools(s: seq<bool>): Events {
    if s == [] then [] else [Scalar(BoolText(s[0]), true)] + EmitBools(s[1..])
  }

  function EmitInts(s: seq<int32>): Events {
    if s == [] then [] else [Scalar(IntText(s[0]), true)] + EmitInts(s[1..])
  }

  function EmitFloats(host: Host, s: seq<uint32>): Events {
    if s == [] then [] else [Scalar(host.floatText(s[0]), true)] + EmitFloats(host, s[1..])
  }

  function EmitField(host: Host, names: Names, f: Field): (r: Events)
    ensures r != []
    decreases f
  {
    match f
    case Empty => [Scalar(NULL, true)]
    case Hash(h) => [Scalar(ResolveKey(names, h), true)]
    case Key(k) => [Scalar(ResolveKey(names, k), true)]
    case Bool(b) => [Scalar(BoolText(b), true)]
    case Int(i) => [Scalar(IntText(i), true)]
    case Float(bits) => [Scalar(host.floatText(bits), true)]
    case Null => [Scalar(NULL, true)]
    case Obj(o) => EmitObject(host, names, o)
    case Text(s) => [Scalar(s, false)]
    case Bools(s) => [SequenceStart] + EmitBools(s) + [SequenceEnd]
    case Ints(s) => [SequenceStart] + EmitInts(s) + [SequenceEnd]
    case Floats(s) => [SequenceStart] + EmitFloats(host, s) + [SequenceEnd]
    case Raw(s) => [Scalar(Hex(s), false)]
  }

  function EmitEntries(host: Host, names: Names, o: Object, keys: seq<uint32>): Events
    requires forall k | k in keys :: k in o.fields
    decreases o, 0, |keys|
  {
    if keys == [] then []
    else if Bookkeeping(keys[0], o.fields[keys[0]]) then EmitEntries(host, names, o, keys[1..])
    else
      [Scalar(ResolveKey(names, keys[0]), true)] + EmitField(host, names, o.fields[keys[0]]) +
      EmitEntries(host, names, o, keys[1..])
  }

  function EmitObject(host: Host, names: Names, o: Object): (r: Events)
    ensures r != []
    decreases o, 1
  {
    [MappingStart] + EmitEntries(host, names, o, Ascending(o.fields.Keys)) + [MappingEnd]
  }

  // ---- Parsing ----

  datatype Reading<+T> = Read(value: T, rest: Events) | Unread

  /** A `long` of 64 bits holds what `strtol` returns, and a cast keeps its lowest 32. */
  function Truncate(v: int): int32 {
    var l := if v < -0x8000_0000_0000_0000 then -0x8000_0000_0000_0000
             else if v >= 0x8000_0000_0000_0000 then 0x7fff_ffff_ffff_ffff
             else v;
    Signed(l % TWO_TO_THE_32)
  }

  /** `strtol` of the whole text, if it is an integer and nothing else. */
  function WholeInt(s: string): Option<int32> {
    var t := SkipSpace(s);
    var negative := t != "" && t[0] == '-';
    var u := if negative || (t != "" && t[0] == '+') then t[1..] else t;
    if u == "" || !AllDigits(u) then None
    else
      var n: int := ReadDigits(u, 0);
      Some(Truncate(if negative then -n else n))
  }

  function ScalarField(host: Host, text: Bytes, plain: bool): Field
    requires |text| < TWO_TO_THE_64
  {
    var value := CutShorter(text);
    if !plain then Text(value)
    else if value == NULL || value == TILDE || value == [] then Null
    else if value == TRUE || value == YES || value == ON then Bool(true)
    else if value == FALSE || value == NO || value == OFF then Bool(false)
    else if WholeInt(Chars(value)).Some? then Int(WholeInt(Chars(value)).value)
    else if host.parseFloat(value).Some? then Float(host.parseFloat(value).value)
    else Text(value)
  }

  function CutShorter(b: Bytes): (c: Bytes)
    ensures c == Cut(b) && |c| <= |b|
  {
    if b == [] || b[0] == 0 then [] else [b[0]] + CutShorter(b[1..])
  }

  predicate AllBool(items: seq<Field>) {
    forall i | 0 <= i < |items| :: items[i].Bool?
  }

  predicate AllInt(items: seq<Field>) {
    forall i | 0 <= i < |items| :: items[i].Int?
  }

  predicate AllNumeric(items: seq<Field>) {
    forall i | 0 <= i < |items| :: items[i].Int? || items[i].Float?
  }

  /** An object with the items under the numeric keys 0, 1, 2, ... */
  function Indexed(items: seq<Field>, n: nat): Fields
    requires n <= |items|
  {
    if n == 0 then BLANK else Indexed(items, n - 1)[(n - 1) % TWO_TO_THE_32 := items[n - 1]]
  }

  /** Every item is found under its index, and no other key but the class of a fresh object. */
  lemma {:induction false} IndexedAt(items: seq<Field>, n: nat)
    requires n <= |items| && n <= TWO_TO_THE_32
    ensures forall i | 0 <= i < n :: i in Indexed(items, n) && Indexed(items, n)[i] == items[i]
    ensures forall k | k in Indexed(items, n) && k >= n :: k == CLASS && Indexed(items, n)[k] == Key(0)
    ensures CLASS in Indexed(items, n)
    decreases n
  {
    if n > 0 {
      IndexedAt(items, n - 1);
      var m := Indexed(items, n - 1);
      assert Indexed(items, n) == m[n - 1 := items[n - 1]];
      hide Indexed;
    }
  }

  function FlagsOf(items: seq<Field>): (s: seq<bool>)
    requires AllBool(items)
    ensures |s| == |items|
  {
    seq(|items|, i requires 0 <= i < |items| => items[i].flag)
  }

  function NumbersOf(items: seq<Field>): (s: seq<int32>)
    requires AllInt(items)
    ensures |s| == |items|
  {
    seq(|items|, i requires 0 <= i < |items| => items[i].number)
  }

  function AsFloat(host: Host, f: Field): uint32
    requires f.Int? || f.Float?
  {
    match f case Int(i) => host.floatOfInt(i) case Float(bits) => bits
  }

  function FloatsOf(host: Host, items: seq<Field>): (s: seq<uint32>)
    requires AllNumeric(items)
    ensures |s| == |items|
  {
    seq(|items|, i requires 0 <= i < |items| => AsFloat(host, items[i]))
  }

  /** The most specific field for the items of a sequence. */
  function SequenceField(host: Host, items: Sized<Field>): Field {
    if items != [] && AllBool(items) then Bools(FlagsOf(items))
    else if items != [] && AllInt(items) then Ints(NumbersOf(items))
    else if items != [] && AllNumeric(items) then Floats(FloatsOf(host, items))
    else Obj(Object(Indexed(items, |items|)))
  }

  /** The value that starts with the first event. */
  function ParseValue(host: Host, evs: Events): (r: Reading<Field>)
    ensures r.Read? ==> |r.rest| < |evs|
    decreases |evs|, 0
  {
    if evs == [] then Unread
    else
      match evs[0]
      case Scalar(text, plain) =>
        if |text| < TWO_TO_THE_64 then Read(ScalarField(host, text, plain), evs[1..]) else Unread
      case MappingStart =>
        (match ParseMapping(host, evs[1..], BLANK)
         case Read(m, rest) => Read(Obj(Object(m)), rest)
         case Unread => Unread)
      case SequenceStart =>
        (match ParseItems(host, evs[1..])
         case Read(items, rest) => if |items| < TWO_TO_THE_64 then Read(SequenceField(host, items), rest) else Unread
         case Unread => Unread)
      case _ => Read(Empty, evs[1..])
  }

  /** The rest of a mapping, added to the fields read so far. */
  function ParseMapping(host: Host, evs: Events, own: Fields): (r: Reading<Fields>)
    ensures r.Read? ==> |r.rest| < |evs|
    decreases |evs|, 1
  {
    if evs == [] then Unread
    else
      match evs[0]
      case MappingEnd => Read(own, evs[1..])
      case Scalar(text, _) =>
        (match ParseValue(host, evs[1..])
         case Unread => Unread
         case Read(f, rest) =>
           match Put(host, own, host.hash(Cut(text)), f)
           case None => Unread
           case Some(own') => ParseMapping(host, rest, own'))
      case _ => Unread
  }

  function ParseItems(host: Host, evs: Events): (r: Reading<seq<Field>>)
    ensures r.Read? ==> |r.rest| < |evs|
    decreases |evs|, 1
  {
    if evs == [] then Unread
    else if evs[0].SequenceEnd? then Read([], evs[1..])
    else
      match ParseValue(host, evs)
      case Unread => Unread
      case Read(f, rest) =>
        match ParseItems(host, rest)
        case Unread => Unread
        case Read(fs, rest') => Read([f] + fs, rest')
  }

  // ---- What a scalar means ----

  /** `b` spells `s` in ASCII. */
  predicate Spells(b: Bytes, s: string) {
    |b| == |s| && forall i | 0 <= i < |s| :: b[i] == s[i] as int
  }

  lemma SpelledAlike(text: Bytes, b: Bytes, s: string)
    requires Spells(b, s)
    ensures text == b <==> Chars(text) == s
  {
    if Chars(text) == s {
      assert |text| == |b|;
      forall i | 0 <= i < |text|
        ensures text[i] == b[i]
      {
        assert Chars(text)[i] == s[i];
      }
    }
  }

  lemma WordsAreSpelled()
    ensures Spells(NULL, "null") && Spells(TILDE, "~")
    ensures Spells(TRUE, "true") && Spells(YES, "yes") && Spells(ON, "on")
    ensures Spells(FALSE, "false") && Spells(NO, "no") && Spells(OFF, "off")
  {
  }

  /** A 64-bit `long` holds the number or the bound it lies beyond; the cast keeps its lowest 32 bits. */
  predicate NarrowsTo(v: int, n: int32) {
    var l := if v > 0x7fff_ffff_ffff_ffff then 0x7fff_ffff_ffff_ffff
             else if v < -0x8000_0000_0000_0000 then -0x8000_0000_0000_0000 else v;
    (l - n) % TWO_TO_THE_32 == 0
  }

  lemma TruncateNarrows(v: int)
    ensures NarrowsTo(v, Truncate(v))
  {
  }

  lemma WholeIntReads(s: string, lead: string, sign: string, digits: string)
    requires Reads(s, lead, sign, digits, "")
    ensures var v: int := Value(digits);
            WholeInt(s) == Some(Truncate(if sign == "-" then -v else v))
  {
    hide SkipSpace, ReadDigits, Value, Truncate;
    TakenApart(s, lead, sign, digits, "");
    assert digits + "" == digits;
    SignedDigits(sign, digits);
  }

  lemma WholeIntNeedsNumber(s: string) returns (lead: string, sign: string, digits: string)
    requires WholeInt(s).Some?
    ensures Reads(s, lead, sign, digits, "")
  {
    hide ReadDigits, Truncate, SkipSpace;
    lead := SkippedIsSpace(s);
    var t := SkipSpace(s);
    var signed := t != "" && (t[0] == '-' || t[0] == '+');
    sign := if signed then t[..1] else "";
    digits := if signed then t[1..] else t;
    assert digits != "" && AllDigits(digits);
    assert t == sign + digits;
    hide WholeInt, AllDigits, AllSpace;
    assert lead + (sign + digits) == lead + sign + digits + "";
    assert sign == "" || sign == "+" || sign == "-";
  }

  /** An integer and nothing else but white space before it. */
  ghost predicate IntegerText(s: string) {
    exists lead, sign, digits :: Reads(s, lead, sign, digits, "")
  }

  predicate WordText(s: string) {
    s in {"null", "~", "", "true", "yes", "on", "false", "no", "off"}
  }

  lemma WholeIntIff(s: string)
    ensures WholeInt(s).Some? <==> IntegerText(s)
    ensures forall lead, sign, digits | Reads(s, lead, sign, digits, "") ::
              var v: int := Value(digits);
              WholeInt(s).Some? && NarrowsTo(if sign == "-" then -v else v, WholeInt(s).value)
  {
    hide WholeInt, Value, NarrowsTo, Truncate;
    if WholeInt(s).Some? {
      var lead, sign, digits := WholeIntNeedsNumber(s);
    }
    forall lead, sign, digits | Reads(s, lead, sign, digits, "")
      ensures var v: int := Value(digits);
              WholeInt(s).Some? && NarrowsTo(if sign == "-" then -v else v, WholeInt(s).value)
    {
      ReadsHasDigits(s, lead, sign, digits);
      WholeIntReads(s, lead, sign, digits);
      var v: int := Value(digits);
      TruncateNarrows(if sign == "-" then -v else v);
    }
  }

  lemma ReadsHasDigits(s: string, lead: string, sign: string, digits: string)
    requires Reads(s, lead, sign, digits, "")
    ensures AllDigits(digits) && s != "" && IsDigit(s[|s| - 1])
  {
    assert s[|s| - 1] == digits[|digits| - 1];
  }

  lemma WordsAreNoIntegers(s: string)
    requires WordText(s)
    ensures !IntegerText(s)
  {
    hide Reads;
    forall lead, sign, digits | Reads(s, lead, sign, digits, "")
      ensures false
    {
      ReadsHasDigits(s, lead, sign, digits);
    }
  }

  /** What a plain scalar of that spelling is read as. */
  ghost predicate PlainMeans(host: Host, text: Sized<byte>, f: Field) {
    var s := Chars(text);
    && (f == Bool(true) <==> s == "true" || s == "yes" || s == "on")
    && (f == Bool(false) <==> s == "false" || s == "no" || s == "off")
    && (f == Null <==> s == "null" || s == "~" || s == "")
    && (f.Int? <==> IntegerText(s))
    && (forall lead, sign, digits | Reads(s, lead, sign, digits, "") ::
          var v: int := Value(digits);
          f.Int? && NarrowsTo(if sign == "-" then -v else v, f.number))
    && (!WordText(s) && !IntegerText(s) ==>
          f == if host.parseFloat(text).Some? then Float(host.parseFloat(text).value) else Text(text))
  }

  lemma PlainScalarMeans(host: Host, text: Bytes)
    requires NulFree(text) && |text| < TWO_TO_THE_64
    ensures PlainMeans(host, text, ScalarField(host, text, true))
  {
    hide WholeInt, IntegerText, NarrowsTo, Reads, Value, Chars;
    NulFreeIsUncut(text);
    WordsAreSpelled();
    SpelledAlike(text, NULL, "null");
    SpelledAlike(text, TILDE, "~");
    SpelledAlike(text, [], "");
    SpelledAlike(text, TRUE, "true");
    SpelledAlike(text, YES, "yes");
    SpelledAlike(text, ON, "on");
    SpelledAlike(text, FALSE, "false");
    SpelledAlike(text, NO, "no");
    SpelledAlike(text, OFF, "off");
    hide Spells;
    WholeIntIff(Chars(text));
    if WordText(Chars(text)) {
      WordsAreNoIntegers(Chars(text));
      NoReading(Chars(text));
    }
  }

  lemma NoReading(s: string)
    requires !IntegerText(s)
    ensures forall lead, sign, digits :: !Reads(s, lead, sign, digits, "")
  {
  }

  /**
    * Every plain scalar without NUL is read by its spelling: the words for null, true and false, an
    * integer, what the float reader accepts, or text. A quoted one is always its text. A NUL ends it.
    */
  lemma ScalarMeans(host: Host, text: Bytes, plain: bool, rest: Events)
    requires |text| < TWO_TO_THE_64
    ensures var r := ParseValue(host, [Scalar(text, plain)] + rest);
            && r.Read? && r.rest == rest
            && (NulFree(text) && plain ==> PlainMeans(host, text, r.value))
            && (NulFree(text) && !plain ==> r.value == Text(text))
            && (forall cut | cut < text && text[|cut|] == 0 && NulFree(cut) ::
                  r == ParseValue(host, [Scalar(cut, plain)] + rest))
  {
    hide ScalarField, PlainMeans, ParseValue;
    ParseScalar(host, text, plain, rest);
    if NulFree(text) {
      if plain {
        PlainScalarMeans(host, text);
      } else {
        TextScalar(host, text);
      }
    }
    forall cut | cut < text && text[|cut|] == 0 && NulFree(cut)
      ensures ParseValue(host, [Scalar(text, plain)] + rest) == ParseValue(host, [Scalar(cut, plain)] + rest)
    {
      ParseScalar(host, cut, plain, rest);
      CutAtNul(text, cut);
      NulFreeIsUncut(cut);
      CutDecides(host, text, cut, plain);
    }
  }

  lemma CutDecides(host: Host, a: Bytes, b: Bytes, plain: bool)
    requires |a| < TWO_TO_THE_64 && |b| < TWO_TO_THE_64 && Cut(a) == Cut(b)
    ensures ScalarField(host, a, plain) == ScalarField(host, b, plain)
  {
  }

  lemma {:induction false} CutAtNul(b: Bytes, cut: Bytes)
    requires cut < b && b[|cut|] == 0 && NulFree(cut)
    ensures Cut(b) == cut
  {
    if cut != [] {
      assert b[0] == cut[0] && cut[1..] < b[1..];
      CutAtNul(b[1..], cut[1..]);
    }
  }

  /** An event that starts no value stands for an empty field; without an event there is no value. */
  lemma OddValueMeans(host: Host, ev: Event, rest: Events)
    requires ev.MappingEnd? || ev.SequenceEnd?
    ensures ParseValue(host, [ev] + rest) == Read(Empty, rest) && ParseValue(host, []).Unread?
  {
    assert ([ev] + rest)[1..] == rest;
  }

  /** A key that is no scalar, or the end of the events, ends the import. */
  lemma MappingRefuses(host: Host, evs: Events, own: Fields)
    requires evs == [] || (!evs[0].Scalar? && !evs[0].MappingEnd?)
    ensures ParseMapping(host, evs, own).Unread?
  {
  }

  /**
    * A sequence becomes a vector of booleans, of integers or of floats if it has elements and all
    * are of that kind, integers among floats being cast, and else an object with the items under
    * their indices.
    */
  lemma SequenceMeans(host: Host, items: Sized<Field>)
    ensures var f := SequenceField(host, items);
            var bools := items != [] && forall i | 0 <= i < |items| :: items[i].Bool?;
            var ints := items != [] && forall i | 0 <= i < |items| :: items[i].Int?;
            var numbers := items != [] && forall i | 0 <= i < |items| :: items[i].Int? || items[i].Float?;
            && (bools ==>
                  f.Bools? && |f.bools| == |items| && forall i | 0 <= i < |items| :: items[i] == Bool(f.bools[i]))
            && (ints ==>
                  f.Ints? && |f.ints| == |items| && forall i | 0 <= i < |items| :: items[i] == Int(f.ints[i]))
            && (numbers && !ints ==>
                  f.Floats? && |f.floats| == |items| &&
                  forall i | 0 <= i < |items| ::
                    f.floats[i] == if items[i].Float? then items[i].bits else host.floatOfInt(items[i].number))
            && (!bools && !numbers ==>
                  && f.Obj?
                  && (|items| <= TWO_TO_THE_32 ==>
                        && (forall i | 0 <= i < |items| :: i in f.obj.fields && f.obj.fields[i] == items[i])
                        && forall k | k in f.obj.fields && k >= |items| :: k == CLASS && f.obj.fields[k] == Key(0)))
  {
    hide Indexed;
    if |items| <= TWO_TO_THE_32 {
      IndexedAt(items, |items|);
    }
    assert AllBool(items) && items != [] ==> items[0].Bool?;
  }

  // ---- What is emitted ----

  /** The events of the values that do not come back as themselves. */
  lemma EmittedAs(host: Host, names: Names, f: Field)
    ensures var evs := EmitField(host, names, f);
            && (f.Empty? || f.Null? ==> |evs| == 1 && evs[0].Scalar? && evs[0].plain && Chars(evs[0].text) == "null")
            && (f.Hash? ==> evs == [Scalar(ResolveKey(names, f.hash), true)])
            && (f.Key? ==> evs == [Scalar(ResolveKey(names, f.key), true)])
            && (f.Float? ==> evs == [Scalar(host.floatText(f.bits), true)])
            && (f.Raw? ==> evs == [Scalar(Hex(f.raw), false)])
            && (f.Floats? ==>
                  && |evs| == |f.floats| + 2 && evs[0] == SequenceStart && evs[|f.floats| + 1] == SequenceEnd
                  && forall i | 0 <= i < |f.floats| :: evs[i + 1] == Scalar(host.floatText(f.floats[i]), true))
  {
    hide ResolveKey, Hex, EmitFloats, EmitEntries, EmitBools, EmitInts;
    WordsAreSpelled();
    SpelledAlike(NULL, NULL, "null");
    if f.Floats? {
      FloatsEmitted(host, f.floats);
    }
  }

  lemma {:induction false} FloatsEmitted(host: Host, s: seq<uint32>)
    ensures |EmitFloats(host, s)| == |s|
    ensures forall i | 0 <= i < |s| :: EmitFloats(host, s)[i] == Scalar(host.floatText(s[i]), true)
  {
    if s != [] {
      FloatsEmitted(host, s[1..]);
    }
  }

  // ---- Round trip ----

  /** The values that keep their kind on the way through YAML. */
  predicate Plainly(host: Host, names: Names, f: Field)
    decreases f
  {
    match f
    case Bool(_) => true
    case Int(_) => true
    case Null => true
    case Text(s) => NulFree(s)
    case Bools(s) => s != []
    case Ints(s) => s != []
    case Obj(o) => AllPlainly(host, names, o)
    case _ => false
  }

  predicate AllPlainly(host: Host, names: Names, o: Object)
    decreases o, 0
  {
    forall k | k in o.fields ::
      Bookkeeping(k, o.fields[k]) ||
      (k != CLASS && k != NAMESPACE && Named(host, names, k) && Plainly(host, names, o.fields[k]))
  }

  /** What comes back for `f`: its objects carry fresh bookkeeping fields. */
  function Image(f: Field): Field
    decreases f
  {
    match f case Obj(o) => Obj(Object(ImageOf(o, Ascending(o.fields.Keys), BLANK))) case _ => f
  }

  function ImageOf(o: Object, keys: seq<uint32>, own: Fields): Fields
    requires forall k | k in keys :: k in o.fields
    decreases o, 0, |keys|
  {
    if keys == [] then own
    else if Bookkeeping(keys[0], o.fields[keys[0]]) then ImageOf(o, keys[1..], own)
    else ImageOf(o, keys[1..], Fill(own, keys[0], Image(o.fields[keys[0]])))
  }

  lemma WholeIntReadsBack(i: int32)
    ensures WholeInt(ToText(i)) == Some(i)
  {
    hide NatText, ReadDigits;
    var n: int := i;
    var digits := NatText(if n < 0 then -n else n);
    NatTextReadsBack(if n < 0 then -n else n);
    assert forall k | 0 <= k < |digits| :: IsDigit(digits[k]);
    var s := ToText(i);
    assert SkipSpace(s) == s;
    if n < 0 {
      assert s[0] == '-' && s[1..] == digits;
    }
    assert Truncate(n) == i;
  }

  lemma IntTextShape(i: int32)
    ensures var b := IntText(i);
            && b != [] && |b| < TWO_TO_THE_64 && NulFree(b)
            && (b[0] == 0x2d || 0x30 <= b[0] <= 0x39)
            && Chars(b) == ToText(i)
  {
    hide NatText;
    var n: int := i;
    var m := if n < 0 then -n else n;
    NatTextIsAscii(m);
    NatTextIsShort(m);
    CodesReadBack(ToText(i));
    var digits := NatText(m);
    assert forall k | 0 <= k < |digits| :: IsDigit(digits[k]);
    assert ToText(i) == if n < 0 then "-" + digits else digits;
  }

  lemma {:induction false} NatTextIsShort(n: nat)
    ensures |NatText(n)| <= n + 1
  {
    if n >= 10 {
      NatTextIsShort(n / 10);
    }
  }

  lemma IntScalar(host: Host, i: int32)
    ensures |IntText(i)| < TWO_TO_THE_64 && ScalarField(host, IntText(i), true) == Int(i)
  {
    hide ToText, WholeInt;
    IntTextShape(i);
    WholeIntReadsBack(i);
    NulFreeIsUncut(IntText(i));
    hide IntText;
    var b := IntText(i);
    assert b[0] !in {NULL[0], TILDE[0], TRUE[0], YES[0], ON[0], FALSE[0], NO[0], OFF[0]};
  }

  lemma NullScalar(host: Host)
    ensures ScalarField(host, NULL, true) == Null
  {
    hide WholeInt;
    NulFreeIsUncut(NULL);
  }

  lemma BoolScalar(host: Host, b: bool)
    ensures |BoolText(b)| < TWO_TO_THE_64 && ScalarField(host, BoolText(b), true) == Bool(b)
  {
    hide WholeInt;
    NulFreeIsUncut(BoolText(b));
    assert BoolText(b)[0] !in {NULL[0], TILDE[0]};
    assert !b ==> FALSE[0] !in {TRUE[0], YES[0], ON[0]};
  }

  lemma ParseScalar(host: Host, text: Bytes, plain: bool, rest: Events)
    requires |text| < TWO_TO_THE_64
    ensures ParseValue(host, [Scalar(text, plain)] + rest) == Read(ScalarField(host, text, plain), rest)
  {
    hide ScalarField;
    assert ([Scalar(text, plain)] + rest)[1..] == rest;
  }

  lemma ParseOneMore(host: Host, text: Bytes, plain: bool, rest: Events, fs: seq<Field>, after: Events)
    requires |text| < TWO_TO_THE_64 && ParseItems(host, rest) == Read(fs, after)
    ensures ParseItems(host, [Scalar(text, plain)] + rest) == Read([ScalarField(host, text, plain)] + fs, after)
  {
    hide ScalarField;
    ParseScalar(host, text, plain, rest);
  }

  lemma ParseEnd(host: Host, rest: Events)
    ensures ParseItems(host, [SequenceEnd] + rest) == Read([], rest)
  {
    assert ([SequenceEnd] + rest)[1..] == rest;
  }

  function BoolFields(s: seq<bool>): seq<Field> {
    seq(|s|, i requires 0 <= i < |s| => Bool(s[i]))
  }

  function IntFields(s: seq<int32>): seq<Field> {
    seq(|s|, i requires 0 <= i < |s| => Int(s[i]))
  }

  lemma {:induction false} BoolsRoundTrip(host: Host, s: seq<bool>, rest: Events)
    ensures ParseItems(host, EmitBools(s) + ([SequenceEnd] + rest)) == Read(BoolFields(s), rest)
  {
    hide ParseItems, ScalarField, BoolText;
    var tail := [SequenceEnd] + rest;
    if s == [] {
      assert EmitBools(s) + tail == tail;
      ParseEnd(host, rest);
      assert BoolFields(s) == [];
    } else {
      BoolsRoundTrip(host, s[1..], rest);
      BoolScalar(host, s[0]);
      assert EmitBools(s) + tail == [Scalar(BoolText(s[0]), true)] + (EmitBools(s[1..]) + tail);
      ParseOneMore(host, BoolText(s[0]), true, EmitBools(s[1..]) + tail, BoolFields(s[1..]), rest);
      assert [Bool(s[0])] + BoolFields(s[1..]) == BoolFields(s);
    }
  }

  lemma {:induction false} IntsRoundTrip(host: Host, s: seq<int32>, rest: Events)
    ensures ParseItems(host, EmitInts(s) + ([SequenceEnd] + rest)) == Read(IntFields(s), rest)
  {
    hide ParseItems, ScalarField, IntText;
    var tail := [SequenceEnd] + rest;
    if s == [] {
      assert EmitInts(s) + tail == tail;
      ParseEnd(host, rest);
      assert IntFields(s) == [];
    } else {
      IntsRoundTrip(host, s[1..], rest);
      IntScalar(host, s[0]);
      assert EmitInts(s) + tail == [Scalar(IntText(s[0]), true)] + (EmitInts(s[1..]) + tail);
      ParseOneMore(host, IntText(s[0]), true, EmitInts(s[1..]) + tail, IntFields(s[1..]), rest);
      assert [Int(s[0])] + IntFields(s[1..]) == IntFields(s);
    }
  }

  lemma SequenceRoundTrip(host: Host, names: Names, f: Field, rest: Events)
    requires (f.Bools? && f.bools != []) || (f.Ints? && f.ints != [])
    ensures ParseValue(host, EmitField(host, names, f) + rest) == Read(f, rest)
  {
    hide ParseItems, EmitBools, EmitInts, AllNumeric;
    var body := if f.Bools? then EmitBools(f.bools) else EmitInts(f.ints);
    var evs := EmitField(host, names, f) + rest;
    assert evs[0] == SequenceStart && evs[1..] == body + ([SequenceEnd] + rest);
    if f.Bools? {
      BoolsRoundTrip(host, f.bools, rest);
      var items := BoolFields(f.bools);
      assert AllBool(items) && FlagsOf(items) == f.bools;
    } else {
      IntsRoundTrip(host, f.ints, rest);
      var items := IntFields(f.ints);
      assert !items[0].Bool?;
      assert AllInt(items) && NumbersOf(items) == f.ints;
    }
  }

  lemma {:induction false} FieldRoundTrip(host: Host, names: Names, f: Field, rest: Events)
    requires Plainly(host, names, f)
    ensures ParseValue(host, EmitField(host, names, f) + rest) == Read(Image(f), rest)
    decreases f, 0
  {
    hide ScalarField, BoolText, IntText, ParseMapping, ParseItems, EmitEntries, AllPlainly, ImageOf;
    match f {
      case Bool(b) =>
        BoolScalar(host, b);
        ParseScalar(host, BoolText(b), true, rest);
      case Int(i) =>
        IntScalar(host, i);
        ParseScalar(host, IntText(i), true, rest);
      case Null =>
        NullScalar(host);
        ParseScalar(host, NULL, true, rest);
      case Text(s) =>
        TextScalar(host, s);
        ParseScalar(host, s, false, rest);
      case Obj(o) =>
        ObjectRoundTrip(host, names, o, rest);
      case _ =>
        SequenceRoundTrip(host, names, f, rest);
    }
  }

  lemma TextScalar(host: Host, s: Sized<byte>)
    ensures ScalarField(host, s, false) == Text(s) <==> NulFree(s)
  {
    if NulFree(s) {
      NulFreeIsUncut(s);
    } else if Cut(s) == s {
      UncutIsNulFree(s);
    }
  }

  lemma ScalarKind(host: Host, text: Bytes, plain: bool)
    requires |text| < TWO_TO_THE_64
    ensures var f := ScalarField(host, text, plain);
            (f.Null? || f.Bool? || f.Int? || f.Float? || f.Text?) && (!plain ==> f.Text?)
  {
  }

  lemma EmptySequence(host: Host, rest: Events)
    ensures ParseValue(host, [SequenceStart] + [] + [SequenceEnd] + rest) == Read(Obj(Object(BLANK)), rest)
  {
    hide ParseItems;
    var evs := [SequenceStart] + [] + [SequenceEnd] + rest;
    assert evs[1..] == [SequenceEnd] + rest;
    ParseEnd(host, rest);
    assert Indexed([], 0) == BLANK;
  }

  /** Of the values that hold neither an object nor a float, exactly these come back as themselves. */
  lemma PlainSurvivesIff(host: Host, names: Names, f: Field, rest: Events)
    requires !f.Obj? && !f.Float? && !f.Floats?
    ensures ParseValue(host, EmitField(host, names, f) + rest) == Read(f, rest) <==> Plainly(host, names, f)
  {
    hide ScalarField, ParseItems, ResolveKey, Hex, BoolText, IntText;
    if Plainly(host, names, f) {
      FieldRoundTrip(host, names, f, rest);
    } else if f.Bools? || f.Ints? {
      assert EmitField(host, names, f) == [SequenceStart] + [] + [SequenceEnd];
      EmptySequence(host, rest);
    } else {
      var ev := EmitField(host, names, f)[0];
      assert EmitField(host, names, f) == [ev];
      if |ev.text| < TWO_TO_THE_64 {
        ParseScalar(host, ev.text, ev.plain, rest);
        ScalarKind(host, ev.text, ev.plain);
        if f.Text? {
          TextScalar(host, f.text);
        }
      }
    }
  }

  /** Parsing the events of an object gives its image and leaves the events that follow. */
  lemma {:induction false} ObjectRoundTrip(host: Host, names: Names, o: Object, rest: Events)
    requires AllPlainly(host, names, o)
    ensures ParseValue(host, EmitObject(host, names, o) + rest) == Read(Image(Obj(o)), rest)
    decreases o, 1
  {
    hide ParseMapping, EmitEntries, ImageOf, AllPlainly, Ascending;
    var keys := Ascending(o.fields.Keys);
    var body := EmitEntries(host, names, o, keys);
    var evs := EmitObject(host, names, o) + rest;
    assert evs[0] == MappingStart && evs[1..] == body + ([MappingEnd] + rest);
    EntriesRoundTrip(host, names, o, keys, BLANK, rest);
  }

  lemma ParseEntry(host: Host, text: Bytes, value: Events, own: Fields, f: Field, rest: Events)
    requires ParseValue(host, value) == Read(f, rest) && Put(host, own, host.hash(Cut(text)), f).Some?
    ensures ParseMapping(host, [Scalar(text, true)] + value, own) ==
            ParseMapping(host, rest, Put(host, own, host.hash(Cut(text)), f).value)
  {
    hide ParseValue, Put;
    assert ([Scalar(text, true)] + value)[1..] == value;
  }

  lemma {:induction false} EntriesRoundTrip(
      host: Host, names: Names, o: Object, keys: seq<uint32>, own: Fields, rest: Events)
    requires AllPlainly(host, names, o) && Ready(own) && forall k | k in keys :: k in o.fields
    ensures ParseMapping(host, EmitEntries(host, names, o, keys) + ([MappingEnd] + rest), own) ==
            Read(ImageOf(o, keys, own), rest)
    decreases o, 0, |keys|
  {
    hide ParseValue, EmitField, Image, Plainly, Put, Opened, Fill, Ready, Bookkeeping;
    var tail := [MappingEnd] + rest;
    if keys == [] {
      assert EmitEntries(host, names, o, keys) + tail == tail;
      assert tail[1..] == rest;
    } else {
      var (k, others) := (keys[0], keys[1..]);
      var f := o.fields[k];
      if Bookkeeping(k, f) {
        EntriesRoundTrip(host, names, o, others, own, rest);
      } else {
        var after := EmitEntries(host, names, o, others) + tail;
        FieldRoundTrip(host, names, f, after);
        assert EmitEntries(host, names, o, keys) + tail
            == [Scalar(ResolveKey(names, k), true)] + (EmitField(host, names, f) + after);
        PutWhenReady(host, own, k, Image(f));
        ParseEntry(host, ResolveKey(names, k), EmitField(host, names, f) + after, own, Image(f), after);
        EntriesRoundTrip(host, names, o, others, Fill(own, k, Image(f)), rest);
      }
    }
  }

  // ---- The image is the object, up to bookkeeping ----

  lemma {:induction false} ImageIsBare(host: Host, names: Names, f: Field)
    requires Plainly(host, names, f)
    ensures BareField(Image(f)) == BareField(f)
    decreases f, 0
  {
    hide ImageOf, AllPlainly, Ascending, Bare;
    if f.Obj? {
      ObjectImageIsBare(host, names, f.obj);
    }
  }

  lemma {:induction false} ObjectImageIsBare(host: Host, names: Names, o: Object)
    requires AllPlainly(host, names, o)
    ensures Bare(Object(ImageOf(o, Ascending(o.fields.Keys), BLANK))) == Bare(o)
    decreases o, 1
  {
    hide ImageOf, AllPlainly, Ascending, BareField;
    var keys := Ascending(o.fields.Keys);
    ImageOfIsBare(host, names, o, keys, BLANK);
    assert Bare(Object(BLANK)).fields == map[];
  }

  lemma {:induction false} ImageOfIsBare(host: Host, names: Names, o: Object, keys: seq<uint32>, own: Fields)
    requires AllPlainly(host, names, o) && forall k | k in keys :: k in o.fields
    ensures Bare(Object(ImageOf(o, keys, own))).fields ==
            Bare(Object(own)).fields +
            map k | k in keys && !Bookkeeping(k, o.fields[k]) :: BareField(o.fields[k])
    decreases o, 0, |keys|
  {
    hide BareField, Image, Plainly, Fill, Bare;
    if keys != [] {
      var (k, others) := (keys[0], keys[1..]);
      var f := o.fields[k];
      assert forall x :: x in keys <==> x == k || x in others;
      if Bookkeeping(k, f) {
        ImageOfIsBare(host, names, o, others, own);
      } else {
        ImageIsBare(host, names, f);
        FillBare(own, k, Image(f));
        ImageOfIsBare(host, names, o, others, Fill(own, k, Image(f)));
      }
    }
  }

  /**
    * Reading the events an object was written as gives that object, up to the bookkeeping fields of
    * class and namespace 0, and leaves the events that follow.
    */
  lemma YamlRoundTrip(host: Host, names: Names, o: Object, rest: Events)
    requires AllPlainly(host, names, o)
    ensures var r := ParseValue(host, EmitObject(host, names, o) + rest);
            r.Read? && r.rest == rest && r.value.Obj? && Bare(r.value.obj) == Bare(o)
  {
    hide ParseValue, EmitObject, ImageOf, AllPlainly, Ascending, Bare;
    ObjectRoundTrip(host, names, o, rest);
    ObjectImageIsBare(host, names, o);
  }
}

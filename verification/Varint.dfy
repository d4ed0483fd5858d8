/** ULEB128 counts: `write_varint` and `read_varint` (DWARF 5, section 7.6). */
module Varint {
  import opened Bytes

  /** Seven bits at a time, least significant group first. */
  function Encode(v: nat): (s: Bytes)
    ensures |s| >= 1
  {
    if v < 0x80 then [v] else [0x80 + v % 0x80] + Encode(v / 0x80)
  }

  /** A reader that has `n` groups behind it can still produce values below this. */
  function Room(n: nat): nat
    requires n <= 9
    decreases 9 - n
  {
    if n == 9 then 2 else 0x80 * Room(n + 1)
  }

  /**
    * Reading the groups from number `n` on, relative to bit position `7 * n`.
    * Group 9 sits at bit 63 of a 64-bit accumulator, so all but its lowest bit are shifted out.
    */
  function DecodeAt(s: Bytes, n: nat): (r: Parsed<nat>)
    requires n <= 9
    ensures Shrinks(s, r)
    decreases 9 - n
  {
    if s == [] then Err(Underflow)
    else if s[0] < 0x80 then Ok(if n == 9 then s[0] % 2 else s[0], s[1..])
    else if n == 9 then Err(VarintTooLong)
    else
      var (v, rest) :- DecodeAt(s[1..], n + 1);
      Ok(s[0] % 0x80 + 0x80 * v, rest)
  }

  lemma {:induction false} DecodeAtBelowRoom(s: Bytes, n: nat)
    requires n <= 9
    ensures DecodeAt(s, n).Ok? ==> DecodeAt(s, n).value < Room(n)
    decreases 9 - n
  {
    if s != [] && n < 9 {
      DecodeAtBelowRoom(s[1..], n + 1);
      RoomPositive(n + 1);
    }
  }

  lemma {:induction false} RoomPositive(n: nat)
    requires n <= 9
    ensures Room(n) >= 2
    decreases 9 - n
  {
    if n < 9 {
      RoomPositive(n + 1);
    }
  }

  lemma RoomAtStart()
    ensures Room(0) == TWO_TO_THE_64
  {
    assert Room(8) == 0x80 * Room(9);
    assert Room(7) == 0x80 * Room(8);
    assert Room(6) == 0x80 * Room(7);
    assert Room(5) == 0x80 * Room(6);
    assert Room(4) == 0x80 * Room(5);
    assert Room(3) == 0x80 * Room(4);
    assert Room(2) == 0x80 * Room(3);
    assert Room(1) == 0x80 * Room(2);
    assert Room(0) == 0x80 * Room(1);
  }

  function Decode(s: Bytes): (r: Parsed<uint64>)
    ensures Shrinks(s, r)
  {
    DecodeAtBelowRoom(s, 0);
    RoomAtStart();
    match DecodeAt(s, 0)
    case Ok(v, rest) => Ok(v, rest)
    case Err(e) => Err(e)
  }

  // ---- Round trip, length and uniqueness of the encoding ----

  lemma {:induction false} RoundTripAt(v: nat, n: nat, tail: Bytes)
    requires n <= 9 && v < Room(n)
    ensures DecodeAt(Encode(v) + tail, n) == Ok(v, tail)
    ensures |Encode(v)| <= 10 - n
    decreases 9 - n
  {
    var s := Encode(v) + tail;
    if v < 0x80 {
      assert s[0] == v && s[1..] == tail;
    } else {
      assert s[0] == 0x80 + v % 0x80 && s[1..] == Encode(v / 0x80) + tail;
      RoundTripAt(v / 0x80, n + 1, tail);
    }
  }

  /** Every 64-bit count is read back, whatever follows it, from at most ten bytes. */
  lemma RoundTrip(v: uint64, tail: Bytes)
    ensures Decode(Encode(v) + tail) == Ok(v, tail)
    ensures 1 <= |Encode(v)| <= 10
  {
    RoomAtStart();
    RoundTripAt(v, 0, tail);
  }

  /** No encoding is a prefix of another one. */
  lemma {:induction false} PrefixFree(v: nat, w: nat)
    requires Encode(v) <= Encode(w)
    ensures v == w
    decreases v
  {
    assert Encode(v)[0] == Encode(w)[0];
    if v >= 0x80 {
      assert Encode(v)[1..] == Encode(v / 0x80);
      assert Encode(w)[1..] == Encode(w / 0x80);
      PrefixFree(v / 0x80, w / 0x80);
    }
  }

  lemma {:induction false} MinimalAt(s: Bytes, n: nat)
    requires n <= 9 && DecodeAt(s, n).Ok?
    ensures |Encode(DecodeAt(s, n).value)| <= |s| - |DecodeAt(s, n).rest|
    decreases 9 - n
  {
    if s[0] >= 0x80 {
      MinimalAt(s[1..], n + 1);
      var v := DecodeAt(s[1..], n + 1).value;
      assert (s[0] % 0x80 + 0x80 * v) / 0x80 == v;
    }
  }

  /** Padded encodings are accepted, but none that is shorter than the one written. */
  lemma Minimal(s: Bytes)
    requires Decode(s).Ok?
    ensures |Encode(Decode(s).value)| <= |s| - |Decode(s).rest|
  {
    MinimalAt(s, 0);
  }

  lemma {:induction false} LocalAt(s: Bytes, n: nat, t: Bytes)
    requires n <= 9 && DecodeAt(s, n).Ok?
    ensures DecodeAt(s + t, n) == Extend(DecodeAt(s, n), t)
    decreases 9 - n
  {
    assert (s + t)[1..] == s[1..] + t;
    if s[0] >= 0x80 {
      LocalAt(s[1..], n + 1, t);
    }
  }

  /** What follows an accepted count does not change how it is read. */
  lemma Local(s: Bytes, t: Bytes)
    requires Decode(s).Ok?
    ensures Decode(s + t) == Extend(Decode(s), t)
  {
    LocalAt(s, 0, t);
  }

  // ---- Values wider than 64 bits ----

  /** The number a ULEB128 string denotes, with no limit on its width. */
  function Denotes(s: Bytes): (v: nat) {
    if s == [] then 0
    else if s[0] < 0x80 then s[0]
    else s[0] % 0x80 + 0x80 * Denotes(s[1..])
  }

  lemma {:induction false} DenotesAt(s: Bytes, n: nat)
    requires n <= 9 && DecodeAt(s, n).Ok?
    ensures |s| - |DecodeAt(s, n).rest| <= 10 - n
    ensures DecodeAt(s, n).value == Denotes(s) <==>
            (|s| - |DecodeAt(s, n).rest| == 10 - n ==> s[9 - n] < 2)
    decreases 9 - n
  {
    if s[0] >= 0x80 {
      DenotesAt(s[1..], n + 1);
    }
  }

  /**
    * FORMAT.md asks readers to reject numbers of more than 64 bits rather than truncate them.
    * The reader meets that for encodings of at most nine bytes and for a tenth byte of 0 or 1,
    * and for nothing else: any other accepted encoding is read as a different number.
    */
  lemma ExactUnlessTenthByteOverflows(s: Bytes)
    requires Decode(s).Ok?
    ensures Decode(s).value == Denotes(s) <==>
            (|s| - |Decode(s).rest| == 10 ==> s[9] < 2)
  {
    DenotesAt(s, 0);
  }

  /** `k` continuation bytes with no payload, then a final 2. */
  function Padded(k: nat): Bytes {
    if k == 0 then [2] else [0x80] + Padded(k - 1)
  }

  lemma {:induction false} PaddedReadsAsZero(n: nat)
    requires n <= 9
    ensures DecodeAt(Padded(9 - n), n) == Ok(0, [])
    decreases 9 - n
  {
    if n < 9 {
      assert Padded(9 - n)[1..] == Padded(8 - n);
      PaddedReadsAsZero(n + 1);
    }
  }

  lemma LastByte()
    ensures Denotes(Padded(0)) == 2
  {
  }

  lemma PaddedDenotes(k: nat)
    ensures k > 0 ==> Denotes(Padded(k)) == 0x80 * Denotes(Padded(k - 1))
  {
    if k > 0 {
      assert Padded(k)[1..] == Padded(k - 1);
    }
  }

  /** Ten bytes that denote two to the power of 64 are accepted, as zero. */
  lemma TruncationExample()
    ensures Decode(Padded(9)) == Ok(0, [])
    ensures Denotes(Padded(9)) == TWO_TO_THE_64
  {
    hide Denotes, Padded;
    PaddedReadsAsZero(0);
    assert Denotes(Padded(0)) == 2 by { LastByte(); }
    PaddedDenotes(1);
    PaddedDenotes(2);
    PaddedDenotes(3);
    PaddedDenotes(4);
    PaddedDenotes(5);
    PaddedDenotes(6);
    PaddedDenotes(7);
    PaddedDenotes(8);
    PaddedDenotes(9);
  }
}

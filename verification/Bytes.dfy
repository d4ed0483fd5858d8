/** Bytes, fixed-width integers and the outcome of a read from a byte string. */
module Bytes {
  type byte = b: int | 0 <= b < 0x100
  type Bytes = seq<byte>

  const TWO_TO_THE_31 := 0x8000_0000
  const TWO_TO_THE_32 := 0x1_0000_0000
  const TWO_TO_THE_64 := 0x1_0000_0000_0000_0000

  type uint32 = n: int | 0 <= n < TWO_TO_THE_32
  type int32 = n: int | -TWO_TO_THE_31 <= n < TWO_TO_THE_31
  type uint64 = n: int | 0 <= n < TWO_TO_THE_64

  /** The reasons for which a decoder throws. */
  datatype Error = Underflow | VarintTooLong | UnknownTag | InvalidType

  /** A value together with the bytes that follow it, or the exception thrown. */
  datatype Parsed<+T> = Ok(value: T, rest: Bytes) | Err(error: Error) {
    predicate IsFailure() {
      Err?
    }
    function PropagateFailure<U>(): Parsed<U>
      requires Err?
    {
      Err(error)
    }
    function Extract(): (T, Bytes)
      requires Ok?
    {
      (value, rest)
    }
  }

  /** Reading `r` from `s` used up at least one byte. */
  ghost predicate Shrinks<T>(s: Bytes, r: Parsed<T>) {
    r.Ok? ==> |r.rest| < |s|
  }

  /** The same read of `s + t` as `r` is of `s`. */
  function Extend<T>(r: Parsed<T>, t: Bytes): Parsed<T> {
    match r
    case Ok(v, rest) => Ok(v, rest + t)
    case Err(e) => Err(e)
  }

  function DecodeU8(s: Bytes): (r: Parsed<byte>)
    ensures Shrinks(s, r)
  {
    if s == [] then Err(Underflow) else Ok(s[0], s[1..])
  }

  /** Big-endian scalars, as `write<T>` and `read<T>` lay them out. */
  function EncodeU32(n: uint32): (s: Bytes)
    ensures |s| == 4
  {
    var (high, low) := (n / 0x1_0000, n % 0x1_0000);
    [high / 0x100, high % 0x100, low / 0x100, low % 0x100]
  }

  function Join(high: int, low: int): int {
    0x100 * high + low
  }

  function DecodeU32(s: Bytes): (r: Parsed<uint32>)
    ensures Shrinks(s, r)
    ensures r.Ok? <==> |s| >= 4
  {
    if |s| < 4 then Err(Underflow)
    else Ok(0x1_0000 * Join(s[0], s[1]) + Join(s[2], s[3]), s[4..])
  }

  lemma U32RoundTrip(n: uint32, tail: Bytes)
    ensures DecodeU32(EncodeU32(n) + tail) == Ok(n, tail)
  {
    var (high, low) := (n / 0x1_0000, n % 0x1_0000);
    assert Join(high / 0x100, high % 0x100) == high;
    assert Join(low / 0x100, low % 0x100) == low;
    assert (EncodeU32(n) + tail)[4..] == tail;
  }

  /** Two's complement: the bit pattern of a signed 32-bit integer and back. */
  function Pattern(i: int32): uint32 {
    if i < 0 then i + TWO_TO_THE_32 else i
  }

  function Signed(n: uint32): int32 {
    if n < TWO_TO_THE_31 then n else n - TWO_TO_THE_32
  }
}

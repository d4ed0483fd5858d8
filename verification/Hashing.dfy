/** Names as keys: `hash`, the 32-bit FNV-1a with its top bit forced. */
module Hashing {
  import opened Bytes
  import opened Values

  const OFFSET_BASIS: uint32 := 0x811c_9dc5

  /** Exclusive or of the lowest `n` bits: each is the parity of the two. */
  function Xor(n: nat, a: nat, b: nat): nat {
    if n == 0 then 0 else (a + b) % 2 + 2 * Xor(n - 1, a / 2, b / 2)
  }

  /**
    * `value ^= c; value *= prime`. A `char` is converted to the 32 bits of the hash; where `char` is
    * signed, a byte from 0x80 on has ones above it, which turn the upper bits of the hash around.
    */
  function Mixed(signed: bool, h: uint32, b: byte): uint32 {
    var upper := if signed && b >= 0x80 then 0xff_ffff - h / 0x100 else h / 0x100;
    (0x100 * upper + Xor(8, h % 0x100, b)) * 0x0100_0193 % TWO_TO_THE_32
  }

  /** The bytes up to the first NUL mixed in, one after the other. */
  function Fnv(signed: bool, h: uint32, s: Bytes): uint32
    decreases |s|
  {
    if s == [] || s[0] == 0 then h else Fnv(signed, Mixed(signed, h, s[0]), s[1..])
  }

  function ForceTop(h: uint32): uint32 {
    if h < TWO_TO_THE_31 then h + TWO_TO_THE_31 else h
  }

  function Hashed(signed: bool, s: Bytes): uint32 {
    ForceTop(Fnv(signed, OFFSET_BASIS, s))
  }

  /** The loop of `hash`. A hashed name is never a numeric index. */
  method Hash(signed: bool, input: Bytes) returns (value: uint32)
    ensures value == Hashed(signed, input) && value >= NAMED == 0x8000_0000
  {
    hide Mixed;
    value := OFFSET_BASIS;
    var i := 0;
    while i < |input| && input[i] != 0
      invariant i <= |input|
      invariant Fnv(signed, value, input[i..]) == Fnv(signed, OFFSET_BASIS, input)
      decreases |input| - i
    {
      assert input[i..][0] == input[i] && input[i..][1..] == input[i + 1..];
      value := Mixed(signed, value, input[i]);
      i := i + 1;
    }
    value := ForceTop(value);
  }

  // ---- Signed and unsigned characters ----

  predicate AllAscii(s: Bytes) {
    forall i | 0 <= i < |s| :: s[i] < 0x80
  }

  /** For a name in ASCII it makes no difference whether `char` is signed. */
  lemma {:induction false} AsciiHashesAlike(h: uint32, s: Bytes)
    requires AllAscii(s)
    ensures Fnv(true, h, s) == Fnv(false, h, s)
    decreases |s|
  {
    hide Xor;
    if s != [] && s[0] != 0 {
      AsciiHashesAlike(Mixed(true, h, s[0]), s[1..]);
    }
  }

  // ---- Hashes of given names ----

  lemma {:induction false} FnvMore(signed: bool, h: uint32, s: Bytes, b: byte)
    requires b != 0 && NoNul(s)
    ensures Fnv(signed, h, s + [b]) == Mixed(signed, Fnv(signed, h, s), b)
    decreases |s|
  {
    hide Mixed;
    if s == [] {
      assert s + [b] == [b] && [b][1..] == [];
      assert Fnv(signed, Mixed(signed, h, b), []) == Mixed(signed, h, b);
    } else {
      assert (s + [b])[0] == s[0] && (s + [b])[1..] == s[1..] + [b];
      FnvMore(signed, Mixed(signed, h, s[0]), s[1..], b);
    }
  }

  predicate NoNul(s: Bytes) {
    forall i | 0 <= i < |s| :: s[i] != 0
  }

  type bit = n: int | 0 <= n < 2

  function Differ(x: bit, y: bit): bit {
    if x == y then 0 else 1
  }

  lemma XorStep(n: nat, a: nat, b: nat, x: bit, y: bit)
    ensures Xor(n + 1, 2 * a + x, 2 * b + y) == 2 * Xor(n, a, b) + Differ(x, y)
  {
    assert (2 * a + x) / 2 == a && (2 * b + y) / 2 == b;
  }

  /** Eight bits, the highest first. */
  datatype Octet = Octet(h: bit, g: bit, f: bit, e: bit, d: bit, c: bit, b: bit, a: bit) {
    function Number(): nat {
      Four(Four(0, h, g, f, e), d, c, b, a)
    }
    function With(o: Octet): Octet {
      Octet(Differ(h, o.h), Differ(g, o.g), Differ(f, o.f), Differ(e, o.e),
            Differ(d, o.d), Differ(c, o.c), Differ(b, o.b), Differ(a, o.a))
    }
  }

  function Four(a: nat, x: bit, y: bit, z: bit, w: bit): nat {
    2 * (2 * (2 * (2 * a + x) + y) + z) + w
  }

  lemma XorFour(n: nat, a: nat, b: nat, x: bit, y: bit, z: bit, w: bit, x': bit, y': bit, z': bit, w': bit)
    ensures Xor(n + 4, Four(a, x, y, z, w), Four(b, x', y', z', w')) ==
            Four(Xor(n, a, b), Differ(x, x'), Differ(y, y'), Differ(z, z'), Differ(w, w'))
  {
    hide Xor, Differ;
    var (a1, b1) := (2 * a + x, 2 * b + x');
    var (a2, b2) := (2 * a1 + y, 2 * b1 + y');
    XorStep(n, a, b, x, x');
    XorStep(n + 1, a1, b1, y, y');
    XorStep(n + 2, a2, b2, z, z');
    XorStep(n + 3, 2 * a2 + z, 2 * b2 + z', w, w');
  }

  lemma XorOctets(p: Octet, q: Octet)
    ensures Xor(8, p.Number(), q.Number()) == p.With(q).Number()
  {
    hide Xor, Differ, Four;
    NoBits();
    XorFour(0, 0, 0, p.h, p.g, p.f, p.e, q.h, q.g, q.f, q.e);
    XorFour(4, Four(0, p.h, p.g, p.f, p.e), Four(0, q.h, q.g, q.f, q.e), p.d, p.c, p.b, p.a, q.d, q.c, q.b, q.a);
  }

  lemma NoBits()
    ensures Xor(0, 0, 0) == 0
  {
  }

  /** One more character of a name: `upper` and `low` make up the hash so far, `carry` what is cut off. */
  lemma Next(signed: bool, s: Bytes, upper: nat, low: Octet, b: Octet, carry: nat, next: uint32)
    requires NoNul(s) && upper < 0x100_0000 && 0 < b.Number() < 0x100 && low.Number() < 0x100
    requires Fnv(signed, OFFSET_BASIS, s) == 0x100 * upper + low.Number()
    requires var u := if signed && b.Number() >= 0x80 then 0xff_ffff - upper else upper;
             (0x100 * u + low.With(b).Number()) * 0x0100_0193 == 0x1_0000_0000 * carry + next
    ensures Fnv(signed, OFFSET_BASIS, s + [b.Number()]) == next && NoNul(s + [b.Number()])
  {
    hide Xor, Fnv, Mixed, Octet.Number, Octet.With;
    XorOctets(low, b);
    MixedIs(signed, upper, low.Number(), b.Number(), low.With(b).Number(), carry, next);
    FnvMore(signed, OFFSET_BASIS, s, b.Number());
  }

  lemma MixedIs(signed: bool, upper: nat, low: byte, b: byte, x: nat, carry: nat, next: uint32)
    requires upper < 0x100_0000 && Xor(8, low, b) == x
    requires var u := if signed && b >= 0x80 then 0xff_ffff - upper else upper;
             (0x100 * u + x) * 0x0100_0193 == 0x1_0000_0000 * carry + next
    ensures Mixed(signed, 0x100 * upper + low, b) == next
  {
    hide Xor;
    var u := if signed && b >= 0x80 then 0xff_ffff - upper else upper;
    Parts(upper, low);
    Remainder((0x100 * u + x) * 0x0100_0193, carry, next);
  }

  lemma Parts(upper: nat, low: byte)
    ensures (0x100 * upper + low) / 0x100 == upper && (0x100 * upper + low) % 0x100 == low
  {
  }

  lemma Remainder(p: nat, carry: nat, next: uint32)
    requires p == 0x1_0000_0000 * carry + next
    ensures p % TWO_TO_THE_32 == next
  {
  }

  lemma Start(signed: bool)
    ensures Fnv(signed, OFFSET_BASIS, []) == OFFSET_BASIS && NoNul([])
  {
  }

  /** The two characters all three names begin with. */
  lemma Underscores()
    ensures Fnv(false, OFFSET_BASIS, [0x5f, 0x5f]) == 0x720ba823
    ensures NoNul([0x5f, 0x5f])
  {
    hide Fnv, NoNul;
    Start(false);
    var s: Bytes := [];
    Next(false, s, 0x811c9d, Octet(1, 1, 0, 0, 0, 1, 0, 1), Octet(0, 1, 0, 1, 1, 1, 1, 1), 0x811d68, 0xda0c196e);
    s := s + [0x5f];
    Next(false, s, 0xda0c19, Octet(0, 1, 1, 0, 1, 1, 1, 0), Octet(0, 1, 0, 1, 1, 1, 1, 1), 0xda0d70, 0x720ba823);
    s := s + [0x5f];
    assert s == [0x5f, 0x5f];
  }

  /** `__class`, whose hash is a reserved key. */
  const CLASS_NAME: Bytes := [0x5f, 0x5f, 0x63, 0x6c, 0x61, 0x73, 0x73]

  lemma ClassPart1()
    ensures Fnv(false, OFFSET_BASIS, [0x5f, 0x5f, 0x63, 0x6c]) == 0x117662c4
    ensures NoNul([0x5f, 0x5f, 0x63, 0x6c])
  {
    hide Fnv, NoNul;
    Underscores();
    var s: Bytes := [0x5f, 0x5f];
    Next(false, s, 0x720ba8, Octet(0, 0, 1, 0, 0, 0, 1, 1), Octet(0, 1, 1, 0, 0, 0, 1, 1), 0x720c5b, 0xc859dcc0);
    s := s + [0x63];
    Next(false, s, 0xc859dc, Octet(1, 1, 0, 0, 0, 0, 0, 0), Octet(0, 1, 1, 0, 1, 1, 0, 0), 0xc85b18, 0x117662c4);
    s := s + [0x6c];
    assert s == [0x5f, 0x5f, 0x63, 0x6c];
  }

  lemma ClassHash()
    ensures Hashed(false, CLASS_NAME) == CLASS
  {
    hide Fnv, NoNul;
    ClassPart1();
    var s: Bytes := [0x5f, 0x5f, 0x63, 0x6c];
    Next(false, s, 0x117662, Octet(1, 1, 0, 0, 0, 1, 0, 0), Octet(0, 1, 1, 0, 0, 0, 0, 1), 0x11767e, 0x225d49bf);
    s := s + [0x61];
    Next(false, s, 0x225d49, Octet(1, 0, 1, 1, 1, 1, 1, 1), Octet(0, 1, 1, 1, 0, 0, 1, 1), 0x225d7f, 0xe4db2c24);
    s := s + [0x73];
    Next(false, s, 0xe4db2c, Octet(0, 0, 1, 0, 0, 1, 0, 0), Octet(0, 1, 1, 1, 0, 0, 1, 1), 0xe4dc94, 0x9c06ccf5);
    s := s + [0x73];
    assert s == CLASS_NAME;
  }

  /** `__parent`, whose hash is a reserved key. */
  const PARENT_NAME: Bytes := [0x5f, 0x5f, 0x70, 0x61, 0x72, 0x65, 0x6e, 0x74]

  lemma ParentPart1()
    ensures Fnv(false, OFFSET_BASIS, [0x5f, 0x5f, 0x70, 0x61, 0x72]) == 0x50fae39e
    ensures NoNul([0x5f, 0x5f, 0x70, 0x61, 0x72])
  {
    hide Fnv, NoNul;
    Underscores();
    var s: Bytes := [0x5f, 0x5f];
    Next(false, s, 0x720ba8, Octet(0, 0, 1, 0, 0, 0, 1, 1), Octet(0, 1, 1, 1, 0, 0, 0, 0), 0x720c5b, 0xdb59faa9);
    s := s + [0x70];
    Next(false, s, 0xdb59fa, Octet(1, 0, 1, 0, 1, 0, 0, 1), Octet(0, 1, 1, 0, 0, 0, 0, 1), 0xdb5b54, 0x16a5c8d8);
    s := s + [0x61];
    Next(false, s, 0x16a5c8, Octet(1, 1, 0, 1, 1, 0, 0, 0), Octet(0, 1, 1, 1, 0, 0, 1, 0), 0x16a5ec, 0x50fae39e);
    s := s + [0x72];
    assert s == [0x5f, 0x5f, 0x70, 0x61, 0x72];
  }

  lemma ParentHash()
    ensures Hashed(false, PARENT_NAME) == PARENT
  {
    hide Fnv, NoNul;
    ParentPart1();
    var s: Bytes := [0x5f, 0x5f, 0x70, 0x61, 0x72];
    Next(false, s, 0x50fae3, Octet(1, 0, 0, 1, 1, 1, 1, 0), Octet(0, 1, 1, 0, 0, 1, 0, 1), 0x50fb63, 0x75f4e421);
    s := s + [0x65];
    Next(false, s, 0x75f4e4, Octet(0, 0, 1, 0, 0, 0, 0, 1), Octet(0, 1, 1, 0, 1, 1, 1, 0), 0x75f59d, 0xff83685d);
    s := s + [0x6e];
    Next(false, s, 0xff8368, Octet(0, 1, 0, 1, 1, 1, 0, 1), Octet(0, 1, 1, 1, 0, 1, 0, 0), 0xff84fa, 0x64dcf88b);
    s := s + [0x74];
    assert s == PARENT_NAME;
  }

  /** `__namespace`, whose hash is a reserved key. */
  const NAMESPACE_NAME: Bytes := [0x5f, 0x5f, 0x6e, 0x61, 0x6d, 0x65, 0x73, 0x70, 0x61, 0x63, 0x65]

  lemma NamespacePart1()
    ensures Fnv(false, OFFSET_BASIS, [0x5f, 0x5f, 0x6e, 0x61, 0x6d]) == 0xb292759d
    ensures NoNul([0x5f, 0x5f, 0x6e, 0x61, 0x6d])
  {
    hide Fnv, NoNul;
    Underscores();
    var s: Bytes := [0x5f, 0x5f];
    Next(false, s, 0x720ba8, Octet(0, 0, 1, 0, 0, 0, 1, 1), Octet(0, 1, 1, 0, 1, 1, 1, 0), 0x720c5b, 0xd559f137);
    s := s + [0x6e];
    Next(false, s, 0xd559f1, Octet(0, 0, 1, 1, 0, 1, 1, 1), Octet(0, 1, 1, 0, 0, 0, 0, 1), 0xd55b41, 0x3296ea62);
    s := s + [0x61];
    Next(false, s, 0x3296ea, Octet(0, 1, 1, 0, 0, 0, 1, 0), Octet(0, 1, 1, 0, 1, 1, 0, 1), 0x329739, 0xb292759d);
    s := s + [0x6d];
    assert s == [0x5f, 0x5f, 0x6e, 0x61, 0x6d];
  }

  lemma NamespacePart2()
    ensures Fnv(false, OFFSET_BASIS, [0x5f, 0x5f, 0x6e, 0x61, 0x6d, 0x65, 0x73, 0x70]) == 0xc776d663
    ensures NoNul([0x5f, 0x5f, 0x6e, 0x61, 0x6d, 0x65, 0x73, 0x70])
  {
    hide Fnv, NoNul;
    NamespacePart1();
    var s: Bytes := [0x5f, 0x5f, 0x6e, 0x61, 0x6d];
    Next(false, s, 0xb29275, Octet(1, 0, 0, 1, 1, 1, 0, 1), Octet(0, 1, 1, 0, 0, 1, 0, 1), 0xb2938f, 0x148fb568);
    s := s + [0x65];
    Next(false, s, 0x148fb5, Octet(0, 1, 1, 0, 1, 0, 0, 0), Octet(0, 1, 1, 1, 0, 0, 1, 1), 0x148fd5, 0x793a1981);
    s := s + [0x73];
    Next(false, s, 0x793a19, Octet(1, 0, 0, 0, 0, 0, 0, 1), Octet(0, 1, 1, 1, 0, 0, 0, 0), 0x793ad8, 0xc776d663);
    s := s + [0x70];
    assert s == [0x5f, 0x5f, 0x6e, 0x61, 0x6d, 0x65, 0x73, 0x70];
  }

  lemma NamespaceHash()
    ensures Hashed(false, NAMESPACE_NAME) == NAMESPACE
  {
    hide Fnv, NoNul;
    NamespacePart2();
    var s: Bytes := [0x5f, 0x5f, 0x6e, 0x61, 0x6d, 0x65, 0x73, 0x70];
    Next(false, s, 0xc776d6, Octet(0, 1, 1, 0, 0, 0, 1, 1), Octet(0, 1, 1, 0, 0, 0, 0, 1), 0xc77810, 0x0212e526);
    s := s + [0x61];
    Next(false, s, 0x0212e5, Octet(0, 0, 1, 0, 0, 1, 1, 0), Octet(0, 1, 1, 0, 0, 0, 1, 1), 0x212e8, 0x88beeb9f);
    s := s + [0x63];
    Next(false, s, 0x88beeb, Octet(1, 0, 0, 1, 1, 1, 1, 1), Octet(0, 1, 1, 0, 0, 1, 0, 1), 0x88bfc3, 0x3e8d7a8e);
    s := s + [0x65];
    assert s == NAMESPACE_NAME;
  }

  /** Outside ASCII the sign matters: the byte 0x80 alone hashes to two different keys. */
  lemma SignMatters()
    ensures Hashed(false, [0x80]) == 0x850b_939f && Hashed(true, [0x80]) == 0x84f3_b29f
  {
    hide Fnv, NoNul;
    Start(false);
    Start(true);
    Next(false, [], 0x811c9d, Octet(1, 1, 0, 0, 0, 1, 0, 1), Octet(1, 0, 0, 0, 0, 0, 0, 0), 0x811d68, 0x850b939f);
    Next(true, [], 0x811c9d, Octet(1, 1, 0, 0, 0, 1, 0, 1), Octet(1, 0, 0, 0, 0, 0, 0, 0), 0x7ee42a, 0x04f3b29f);
    assert [] + [0x80] == [0x80];
  }
}

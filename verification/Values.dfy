/** The values an object can hold, as finite trees, and the key order of `std::map`. */
module Values {
  import opened Bytes

  /** A sequence whose length fits the source's `size_t`. */
  type Sized<T> = s: seq<T> | |s| < TWO_TO_THE_64

  /**
    * The alternatives of `field_base` in declaration order; the two forms of `dynamic_ptr`
    * are `Null` and `Obj`. A float is its 32-bit pattern.
    */
  datatype Field =
    | Empty
    | Hash(hash: uint32)
    | Key(key: uint32)
    | Bool(flag: bool)
    | Int(number: int32)
    | Float(bits: uint32)
    | Null
    | Obj(obj: Object)
    | Text(text: Sized<byte>)
    | Bools(bools: Sized<bool>)
    | Ints(ints: Sized<int32>)
    | Floats(floats: Sized<uint32>)
    | Raw(raw: Sized<byte>)
  {
    /** The index of the active alternative: the one-byte tag on the wire. */
    function Tag(): byte {
      match this
      case Empty => 0
      case Hash(_) => 1
      case Key(_) => 2
      case Bool(_) => 3
      case Int(_) => 4
      case Float(_) => 5
      case Null => 6
      case Obj(_) => 6
      case Text(_) => 7
      case Bools(_) => 8
      case Ints(_) => 9
      case Floats(_) => 10
      case Raw(_) => 11
    }
  }

  type Fields = map<uint32, Field>
  datatype Object = Object(fields: Fields)

  /** The reserved keys: 32-bit FNV-1a of their names with the top bit forced. */
  const CLASS: uint32 := 0x9c06ccf5      // "__class"
  const PARENT: uint32 := 0xe4dcf88b     // "__parent"
  const NAMESPACE: uint32 := 0xbe8d7a8e  // "__namespace"

  /** Keys below this are numeric indices, keys from here on are hashed names. */
  const NAMED: uint32 := 0x8000_0000

  datatype Option<+T> = None | Some(value: T)

  // ---- Keys in ascending order ----

  predicate IsLeast(m: uint32, s: set<uint32>) {
    m in s && forall k | k in s :: m <= k
  }

  lemma {:induction false} LeastExists(s: set<uint32>)
    requires s != {}
    ensures exists m :: IsLeast(m, s)
  {
    var x :| x in s;
    if s == {x} {
      assert IsLeast(x, s);
    } else {
      LeastExists(s - {x});
      var m :| IsLeast(m, s - {x});
      assert forall k | k in s :: k == x || k in s - {x};
      assert IsLeast(if x < m then x else m, s);
    }
  }

  function Least(s: set<uint32>): (m: uint32)
    requires s != {}
    ensures IsLeast(m, s)
  {
    LeastExists(s);
    var m :| m in s && IsLeast(m, s);
    m
  }

  /** The keys of `s` in the order a `std::map` iterates over them. */
  function Ascending(s: set<uint32>): (ks: seq<uint32>)
    ensures forall k :: k in ks <==> k in s
    ensures |ks| == |s|
  {
    if s == {} then [] else [Least(s)] + Ascending(s - {Least(s)})
  }

  lemma {:induction false} AscendingIsSorted(s: set<uint32>)
    ensures forall i, j | 0 <= i < j < |Ascending(s)| :: Ascending(s)[i] < Ascending(s)[j]
  {
    if s != {} {
      var rest := Ascending(s - {Least(s)});
      AscendingIsSorted(s - {Least(s)});
      forall j | 0 < j < |Ascending(s)|
        ensures Least(s) < Ascending(s)[j]
      {
        assert Ascending(s)[j] == rest[j - 1] && rest[j - 1] in rest;
      }
    }
  }

  /** There is only one such order. */
  lemma {:induction false} AscendingIs(s: set<uint32>, ks: seq<uint32>)
    requires forall k :: k in ks <==> k in s
    requires forall i, j | 0 <= i < j < |ks| :: ks[i] < ks[j]
    ensures Ascending(s) == ks
    decreases |ks|
  {
    if ks == [] {
      assert s == {};
    } else {
      assert ks[0] in ks && Least(s) in ks;
      assert Least(s) == ks[0];
      var rest := s - {ks[0]};
      forall k
        ensures k in ks[1..] <==> k in rest
      {
        assert k in ks[1..] ==> exists i :: 0 < i < |ks| && ks[i] == k;
        assert k in ks && k != ks[0] ==> k in ks[1..];
      }
      AscendingIs(rest, ks[1..]);
    }
  }

  lemma {:induction false} KeysBelow(s: set<uint32>, n: nat)
    requires forall k | k in s :: k < n
    ensures |s| <= n
  {
    if n == 0 {
      assert s == {};
    } else {
      KeysBelow(s - {n - 1}, n - 1);
      assert s <= (s - {n - 1}) + {n - 1};
      CardinalityOfSubset(s, (s - {n - 1}) + {n - 1});
    }
  }

  lemma {:induction false} CardinalityOfSubset<T>(a: set<T>, b: set<T>)
    requires a <= b
    ensures |a| <= |b|
  {
    if x :| x in a {
      CardinalityOfSubset(a - {x}, b - {x});
    }
  }

  /** There are only 2^32 keys, so a field count always fits the count on the wire. */
  lemma FieldCountFits(m: Fields)
    ensures |m| == |m.Keys| < TWO_TO_THE_64
  {
    KeysBelow(m.Keys, TWO_TO_THE_32);
  }
}

/**
  * Objects that hold other objects by shared pointer: `clone_ptr`, `clone_into`, the copy
  * constructor, and the cloning of an inherited object default.
  */
module DeepCopy {
  import opened Bytes
  import opened Values

  /** A field that holds no object, or a non-null pointer to one. */
  datatype Slot = Plain(f: Field) | Pointer(node: Node)

  class Node {
    var fields: map<uint32, Slot>
    /** The objects reachable from this one, and the tree of values it stands for. */
    ghost var Repr: set<Node>
    ghost var Value: Object

    /** A finite graph of objects without cycles; an object may be held in several places. */
    ghost predicate Valid()
      reads this, Repr
      decreases Repr, 0
    {
      && this in Repr
      && Value.fields.Keys == fields.Keys
      && forall k | k in fields :: Holds(fields[k], Value.fields[k], Repr - {this})
    }

    /** The slot `s` holds the value `v` and reaches only objects in `parts`. */
    static ghost predicate Holds(s: Slot, v: Field, parts: set<Node>)
      reads parts
      decreases parts, 1
    {
      match s
      case Plain(f) => !f.Obj? && v == f
      case Pointer(c) => c in parts && c.Repr <= parts && c.Valid() && v == Obj(c.Value)
    }

    static lemma HoldsWithMore(s: Slot, v: Field, parts: set<Node>, all: set<Node>)
      requires Holds(s, v, parts) && parts <= all
      ensures Holds(s, v, all)
    {
    }

    static lemma HoldsClone(c: Node, v: Field)
      requires c.Valid() && v == Obj(c.Value)
      ensures Holds(Pointer(c), v, c.Repr)
    {
    }

    lemma Below(k: uint32)
      requires Valid() && k in fields
      ensures fields[k].Plain? ==> Holds(fields[k], Value.fields[k], {})
      ensures fields[k].Pointer? ==>
                var c := fields[k].node;
                c in Repr && c.Repr < Repr && c.Valid() && Value.fields[k] == Obj(c.Value)
    {
      assert Holds(fields[k], Value.fields[k], Repr - {this});
    }

    constructor (klass: uint32)
      ensures Valid() && Repr == {this} && Value == Object(map[CLASS := Key(klass)])
    {
      fields, Value := map[CLASS := Plain(Key(klass))], Object(map[CLASS := Key(klass)]);
      Repr := {this};
    }

    /** The loop of `clone_into`: every pointer is replaced by one to a clone. */
    method CloneFields() returns (m: map<uint32, Slot>, ghost parts: set<Node>)
      requires Valid()
      ensures fresh(parts) && m.Keys == fields.Keys
      ensures forall k | k in m :: Holds(m[k], Value.fields[k], parts)
      decreases Repr, 0
    {
      hide Ascending, Holds;
      m, parts := map[], {};
      var keys := Ascending(fields.Keys);
      for i := 0 to |keys|
        invariant fresh(parts) && m.Keys == set k | k in keys[..i]
        invariant forall k | k in m :: k in fields && Holds(m[k], Value.fields[k], parts)
      {
        var k := keys[i];
        assert keys[..i + 1] == keys[..i] + [k];
        Below(k);
        if fields[k].Pointer? {
          var c := fields[k].node.Clone();
          ghost var all := parts + c.Repr;
          forall l | l in m
            ensures Holds(m[l], Value.fields[l], all)
          {
            HoldsWithMore(m[l], Value.fields[l], parts, all);
          }
          HoldsClone(c, Value.fields[k]);
          HoldsWithMore(Pointer(c), Value.fields[k], c.Repr, all);
          m, parts := m[k := Pointer(c)], all;
        } else {
          HoldsWithMore(fields[k], Value.fields[k], {}, parts);
          m := m[k := fields[k]];
        }
      }
      assert keys[..|keys|] == keys;
    }

    /**
      * `clone_ptr`: a new object for every pointer followed, and the same tree of values. The copy
      * shares no object with anything that existed before.
      */
    method Clone() returns (dst: Node)
      requires Valid()
      ensures dst.Valid() && fresh(dst.Repr)
      ensures dst.Value == Value
      decreases Repr, 1
    {
      hide Holds;
      var m, parts := CloneFields();
      dst := new Node(0);
      dst.fields, dst.Repr, dst.Value := m, {dst} + parts, Value;
      assert dst.Repr - {dst} == parts;
    }

    /** The copy constructor. */
    constructor Copy(that: Node)
      requires that.Valid()
      ensures Valid() && fresh(Repr) && Value == that.Value
    {
      hide Holds;
      var m, parts := that.CloneFields();
      fields, Value := m, that.Value;
      Repr := {this} + parts;
      new;
      assert Repr - {this} == parts;
    }

    /** `fields_[k]` becomes `s`, a slot that holds `v` and reaches only objects in `parts`. */
    method Replace(k: uint32, s: Slot, ghost v: Field, ghost parts: set<Node>)
      requires Valid() && Holds(s, v, parts) && this !in parts
      modifies this
      ensures Valid() && Repr == old(Repr) + parts && fields == old(fields)[k := s]
      ensures Value == Object(old(Value).fields[k := v])
    {
      hide Holds;
      ghost var rest := Repr - {this};
      ghost var all := rest + parts;
      fields, Value, Repr := fields[k := s], Object(Value.fields[k := v]), Repr + parts;
      assert Repr - {this} == all;
      forall l | l in fields
        ensures Holds(fields[l], Value.fields[l], all)
      {
        if l == k {
          HoldsWithMore(s, v, parts, all);
        } else {
          HoldsWithMore(fields[l], Value.fields[l], rest, all);
        }
      }
    }

    /** Replace the field `k` by one that holds no object. */
    method Write(k: uint32, f: Field)
      requires Valid() && !f.Obj?
      modifies this
      ensures Valid() && Repr == old(Repr) && Value == Object(old(Value).fields[k := f])
    {
      Replace(k, Plain(f), f, {});
    }

    /** `findField` reaching a default on the prototype `proto`: the object gets its own copy of it. */
    method Inherit(proto: Node, k: uint32)
      requires Valid() && proto.Valid() && this !in proto.Repr
      requires k !in fields && k in proto.fields
      modifies this
      ensures Valid() && fresh(Repr - old(Repr))
      ensures Value == Object(old(Value).fields[k := proto.Value.fields[k]])
      ensures proto.Valid() && proto.Value == old(proto.Value) && proto.Repr == old(proto.Repr)
    {
      hide Holds;
      proto.Below(k);
      var s := proto.fields[k];
      ghost var parts: set<Node> := {};
      if s.Pointer? {
        var c := s.node.Clone();
        HoldsClone(c, proto.Value.fields[k]);
        s, parts := Pointer(c), c.Repr;
      }
      Replace(k, s, proto.Value.fields[k], parts);
    }
  }

  /** Two objects that inherit the same default share nothing with each other or the prototype. */
  method InheritTwice(a: Node, b: Node, proto: Node, k: uint32)
    requires a.Valid() && b.Valid() && proto.Valid()
    requires a.Repr !! b.Repr !! proto.Repr
    requires k !in a.fields && k !in b.fields && k in proto.fields
    modifies a, b
    ensures a.Valid() && b.Valid() && proto.Valid()
    ensures a.Repr !! b.Repr !! proto.Repr
    ensures a.Value == Object(old(a.Value).fields[k := proto.Value.fields[k]])
    ensures b.Value == Object(old(b.Value).fields[k := proto.Value.fields[k]])
    ensures proto.Value == old(proto.Value)
  {
    a.Inherit(proto, k);
    b.Inherit(proto, k);
  }

  /** Writing to a clone leaves the original as it was. */
  method CloneAndWrite(src: Node, k: uint32, f: Field) returns (c: Node)
    requires src.Valid() && !f.Obj?
    ensures src.Valid() && src.Value == old(src.Value)
    ensures c.Valid() && c.Repr !! src.Repr && c.Value == Object(src.Value.fields[k := f])
  {
    c := src.Clone();
    c.Write(k, f);
  }
}

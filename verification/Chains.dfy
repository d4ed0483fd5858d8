/** Parent chains inside one namespace: a map from class name to prototype. */
module Chains {
  import opened Bytes
  import opened Values

  /** A method is shared and never changed once registered, so its identity stands for it. */
  type MethodId = nat

  datatype Proto = Proto(fields: Fields, methods: map<uint32, MethodId>)
  type Collection = map<uint32, Proto>

  function Parent(p: Proto): uint32 {
    if PARENT in p.fields && p.fields[PARENT].Key? then p.fields[PARENT].key else 0
  }

  /** Following parents from `k` reaches an unregistered name within `n` steps. */
  predicate Ends(col: Collection, k: uint32, n: nat)
    decreases n
  {
    k in col ==> n > 0 && Ends(col, Parent(col[k]), n - 1)
  }

  /** The registered names met on the way, at most `n` of them. */
  function ChainWithin(col: Collection, k: uint32, n: nat): (s: seq<uint32>)
    ensures forall x | x in s :: x in col
    decreases n
  {
    if k in col && n > 0 then [k] + ChainWithin(col, Parent(col[k]), n - 1) else []
  }

  /** The name at which the walk stops. */
  function LastWithin(col: Collection, k: uint32, n: nat): uint32
    decreases n
  {
    if k in col && n > 0 then LastWithin(col, Parent(col[k]), n - 1) else k
  }

  predicate Acyclic(col: Collection) {
    forall k :: Ends(col, k, |col|)
  }

  function Chain(col: Collection, k: uint32): (s: seq<uint32>)
    ensures forall x | x in s :: x in col
  {
    ChainWithin(col, k, |col|)
  }

  function Last(col: Collection, k: uint32): uint32 {
    LastWithin(col, k, |col|)
  }

  lemma {:induction false} MoreSteps(col: Collection, k: uint32, n: nat, m: nat)
    requires Ends(col, k, n) && n <= m
    ensures Ends(col, k, m)
    ensures ChainWithin(col, k, m) == ChainWithin(col, k, n)
    ensures LastWithin(col, k, m) == LastWithin(col, k, n) && LastWithin(col, k, n) !in col
    decreases n
  {
    if k in col {
      MoreSteps(col, Parent(col[k]), n - 1, m - 1);
    }
  }

  /** Each name on a chain has its own, shorter chain, so no name occurs twice. */
  lemma {:induction false} ChainIsDistinct(col: Collection, k: uint32, n: nat, i: nat)
    requires Ends(col, k, n) && i < |ChainWithin(col, k, n)|
    ensures ChainWithin(col, k, n)[i] in col
    ensures |ChainWithin(col, ChainWithin(col, k, n)[i], n)| == |ChainWithin(col, k, n)| - i
    decreases n
  {
    if i > 0 {
      var p := Parent(col[k]);
      ChainIsDistinct(col, p, n - 1, i - 1);
      var x := ChainWithin(col, p, n - 1)[i - 1];
      EndsAlong(col, p, n - 1, i - 1);
      MoreSteps(col, x, n - 1, n);
    }
  }

  lemma {:induction false} EndsAlong(col: Collection, k: uint32, n: nat, i: nat)
    requires Ends(col, k, n) && i < |ChainWithin(col, k, n)|
    ensures Ends(col, ChainWithin(col, k, n)[i], n)
    decreases n
  {
    if i > 0 {
      EndsAlong(col, Parent(col[k]), n - 1, i - 1);
      MoreSteps(col, ChainWithin(col, Parent(col[k]), n - 1)[i - 1], n - 1, n);
    }
  }

  lemma {:induction false} DistinctFits(s: seq<uint32>, keys: set<uint32>)
    requires forall i | 0 <= i < |s| :: s[i] in keys
    requires forall i, j | 0 <= i < j < |s| :: s[i] != s[j]
    ensures |s| <= |keys|
  {
    if s != [] {
      var last := s[|s| - 1];
      DistinctFits(s[..|s| - 1], keys - {last});
    }
  }

  /** A walk that ends at all ends within the number of registered classes. */
  lemma EndsSoon(col: Collection, k: uint32, n: nat)
    requires Ends(col, k, n)
    ensures Ends(col, k, |col|) && |Chain(col, k)| <= |col|
    ensures Chain(col, k) == ChainWithin(col, k, n) && Last(col, k) == LastWithin(col, k, n)
  {
    hide Parent;
    var s := ChainWithin(col, k, n);
    forall i | 0 <= i < |s|
      ensures s[i] in col && |ChainWithin(col, s[i], n)| == |s| - i
    {
      ChainIsDistinct(col, k, n, i);
    }
    DistinctFits(s, col.Keys);
    EndsInLength(col, k, n);
    if n <= |col| {
      MoreSteps(col, k, n, |col|);
    } else {
      MoreSteps(col, k, |s|, |col|);
      MoreSteps(col, k, |s|, n);
    }
  }

  lemma {:induction false} EndsInLength(col: Collection, k: uint32, n: nat)
    requires Ends(col, k, n)
    ensures Ends(col, k, |ChainWithin(col, k, n)|)
    decreases n
  {
    if k in col {
      EndsInLength(col, Parent(col[k]), n - 1);
    }
  }

  // ---- The same, by counting steps ----

  /** The name `n` parent links above `k`, if there are that many links. */
  function Above(col: Collection, k: uint32, n: nat): Option<uint32>
    decreases n
  {
    if n == 0 then Some(k)
    else if k in col then Above(col, Parent(col[k]), n - 1)
    else None
  }

  /** The chain and the name after it list every name above `k`, and nothing else is. */
  lemma {:induction false} AboveIsChain(col: Collection, k: uint32, n: nat, i: nat)
    requires Ends(col, k, n)
    ensures var s := ChainWithin(col, k, n);
            Above(col, k, i) ==
            if i < |s| then Some(s[i]) else if i == |s| then Some(LastWithin(col, k, n)) else None
    decreases n
  {
    if i > 0 && k in col {
      AboveIsChain(col, Parent(col[k]), n - 1, i - 1);
    }
  }

  lemma {:induction false} AboveAbove(col: Collection, k: uint32, m: nat, n: nat)
    requires Above(col, k, m).Some?
    ensures Above(col, k, m + n) == Above(col, Above(col, k, m).value, n)
    decreases m
  {
    if m > 0 {
      AboveAbove(col, Parent(col[k]), m - 1, n);
    }
  }

  /** No class is its own proper ancestor. */
  ghost predicate NoCycle(col: Collection) {
    forall k, n: nat | k in col && n > 0 :: Above(col, k, n) != Some(k)
  }

  lemma {:induction false} WalkSoFar(col: Collection, k: uint32, n: nat)
    requires !Ends(col, k, n)
    ensures |ChainWithin(col, k, n)| == n
    ensures forall i | 0 <= i <= n :: Above(col, k, i).Some? && Above(col, k, i).value in col
    decreases n
  {
    if n > 0 {
      var p := Parent(col[k]);
      WalkSoFar(col, p, n - 1);
      forall i | 0 < i <= n
        ensures Above(col, k, i).Some? && Above(col, k, i).value in col
      {
        assert Above(col, k, i) == Above(col, p, i - 1);
      }
    }
  }

  /** Acyclic collections are exactly those without a class that is its own proper ancestor. */
  lemma AcyclicIffNoCycle(col: Collection)
    ensures Acyclic(col) <==> NoCycle(col)
  {
    hide Parent, ChainWithin;
    var n := |col|;
    if Acyclic(col) {
      forall k, i: nat | k in col && i > 0
        ensures Above(col, k, i) != Some(k)
      {
        AboveIsChain(col, k, n, i);
        MoreSteps(col, k, n, n);
        if i < |ChainWithin(col, k, n)| {
          ChainIsDistinct(col, k, n, i);
        }
      }
    }
    if NoCycle(col) {
      forall k
        ensures Ends(col, k, n)
      {
        if !Ends(col, k, n) {
          WalkSoFar(col, k, n);
          var s := seq(n + 1, i requires 0 <= i <= n => Above(col, k, i).value);
          forall i, j | 0 <= i < j < |s|
            ensures s[i] != s[j]
          {
            AboveAbove(col, k, i, j - i);
          }
          DistinctFits(s, col.Keys);
        }
      }
    }
  }

  // ---- Adding a class, and rewriting the parent of one ----

  /** `col` with one more class in it. */
  ghost predicate Extends(col: Collection, col': Collection, name: uint32, parent: uint32) {
    && name !in col
    && name in col' && Parent(col'[name]) == parent
    && col'.Keys == col.Keys + {name}
    && forall k | k in col :: col'[k] == col[k]
  }

  lemma {:induction false} WalkInExtension(
      col: Collection, col': Collection, name: uint32, parent: uint32, k: uint32, n: nat)
    requires Extends(col, col', name, parent) && Ends(col, k, n)
    ensures LastWithin(col, k, n) != name ==>
              && Ends(col', k, n)
              && ChainWithin(col', k, n) == ChainWithin(col, k, n)
              && LastWithin(col', k, n) == LastWithin(col, k, n)
    decreases n
  {
    if k in col {
      WalkInExtension(col, col', name, parent, Parent(col[k]), n - 1);
    }
  }

  lemma {:induction false} WalkThroughNew(
      col: Collection, col': Collection, name: uint32, parent: uint32, k: uint32, n: nat, m: nat)
    requires Extends(col, col', name, parent)
    requires Ends(col, k, n) && LastWithin(col, k, n) == name
    requires Ends(col', parent, m)
    ensures Ends(col', k, n + m + 1)
    ensures ChainWithin(col', k, n + m + 1) == ChainWithin(col, k, n) + ([name] + ChainWithin(col', parent, m))
    decreases n
  {
    hide Parent;
    if k in col {
      var p := Parent(col[k]);
      WalkThroughNew(col, col', name, parent, p, n - 1, m);
      assert [k] + (ChainWithin(col, p, n - 1) + ([name] + ChainWithin(col', parent, m)))
          == [k] + ChainWithin(col, p, n - 1) + ([name] + ChainWithin(col', parent, m));
    } else {
      MoreSteps(col', parent, m, n + m);
      assert ChainWithin(col, k, n) == [];
    }
  }

  /** A class whose ancestry does not lead to its own name keeps the collection acyclic. */
  lemma ExtensionIsAcyclic(col: Collection, col': Collection, name: uint32, parent: uint32)
    requires Acyclic(col) && Extends(col, col', name, parent) && Last(col, parent) != name
    ensures Acyclic(col')
    ensures forall k :: Chain(col', k) ==
              if Last(col, k) == name then Chain(col, k) + ([name] + Chain(col, parent)) else Chain(col, k)
  {
    var n := |col|;
    WalkInExtension(col, col', name, parent, parent, n);
    forall k
      ensures Ends(col', k, |col'|)
      ensures Chain(col', k) ==
              if Last(col, k) == name then Chain(col, k) + ([name] + Chain(col, parent)) else Chain(col, k)
    {
      if Last(col, k) == name {
        WalkThroughNew(col, col', name, parent, k, n, n);
        EndsSoon(col', k, n + n + 1);
      } else {
        WalkInExtension(col, col', name, parent, k, n);
        EndsSoon(col', k, n);
      }
    }
  }

  /** `col` after `addClass` overwrote the parent of a prototype that was registered already. */
  function Reparented(col: Collection, name: uint32, parent: uint32): Collection
    requires name in col
  {
    col[name := col[name].(fields := col[name].fields[PARENT := Key(parent)])]
  }

  lemma {:induction false} WalkAvoiding(col: Collection, name: uint32, parent: uint32, k: uint32, n: nat)
    requires name in col && Ends(col, k, n) && name !in ChainWithin(col, k, n)
    ensures Ends(Reparented(col, name, parent), k, n)
    decreases n
  {
    if k in col {
      assert ChainWithin(col, k, n) == [k] + ChainWithin(col, Parent(col[k]), n - 1);
      WalkAvoiding(col, name, parent, Parent(col[k]), n - 1);
    }
  }

  lemma {:induction false} WalkThroughReparented(
      col: Collection, name: uint32, parent: uint32, k: uint32, n: nat, m: nat)
    requires name in col && Ends(col, k, n) && Ends(Reparented(col, name, parent), parent, m)
    ensures Ends(Reparented(col, name, parent), k, n + m + 1)
    decreases n
  {
    var col' := Reparented(col, name, parent);
    if k == name {
      MoreSteps(col', parent, m, n + m);
    } else if k in col {
      WalkThroughReparented(col, name, parent, Parent(col[k]), n - 1, m);
    }
  }

  lemma {:induction false} WalkBackToName(col: Collection, name: uint32, parent: uint32, k: uint32, n: nat, m: nat)
    requires name in col && Ends(col, k, n) && name in ChainWithin(col, k, n)
    requires Ends(Reparented(col, name, parent), k, m)
    ensures exists j | 0 <= j <= m :: Ends(Reparented(col, name, parent), name, j)
    decreases n
  {
    if k == name {
      assert Ends(Reparented(col, name, parent), name, m);
    } else {
      assert ChainWithin(col, k, n) == [k] + ChainWithin(col, Parent(col[k]), n - 1);
      WalkBackToName(col, name, parent, Parent(col[k]), n - 1, m - 1);
    }
  }

  lemma {:induction false} LoopNeverEnds(col: Collection, name: uint32, parent: uint32, m: nat)
    requires Acyclic(col) && name in col && name in Chain(col, parent)
    ensures !Ends(Reparented(col, name, parent), name, m)
  {
    var col' := Reparented(col, name, parent);
    if Ends(col', name, m) {
      assert Ends(col', parent, m - 1);
      WalkBackToName(col, name, parent, parent, |col|, m - 1);
      var j :| 0 <= j <= m - 1 && Ends(col', name, j);
      LoopNeverEnds(col, name, parent, j);
    }
  }

  /**
    * Passing a registered prototype to `addClass` again overwrites its parent before anything is
    * checked. That keeps the collection acyclic exactly when the class is not already an ancestor
    * of its new parent.
    */
  lemma ReparentingIsSafeIff(col: Collection, name: uint32, parent: uint32)
    requires Acyclic(col) && name in col
    ensures Acyclic(Reparented(col, name, parent)) <==> name !in Chain(col, parent)
  {
    var col' := Reparented(col, name, parent);
    var n := |col|;
    if name in Chain(col, parent) {
      LoopNeverEnds(col, name, parent, |col'|);
    } else {
      WalkAvoiding(col, name, parent, parent, n);
      forall k
        ensures Ends(col', k, |col'|)
      {
        WalkThroughReparented(col, name, parent, k, n, n);
        EndsSoon(col', k, n + n + 1);
      }
    }
  }
}

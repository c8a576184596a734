/** The forest that the pools of a process form, and the order in which a teardown goes through it. */
module PoolForest {
  import opened PoolTheorems
  import opened PoolTree

  // ------------------------------------------------------------ the forest of pools

  /** The children of each pool, newest first. A child is created after its parent, and has only one. */
  ghost predicate Forest(kids: seq<seq<nat>>) {
    && (forall k, i | 0 <= k < |kids| && 0 <= i < |kids[k]| :: k < kids[k][i] < |kids|)
    && (forall k, i, j | 0 <= k < |kids| && 0 <= i < j < |kids[k]| :: kids[k][i] != kids[k][j])
    && (forall k, m, c | 0 <= k < |kids| && 0 <= m < |kids| && c in kids[k] && c in kids[m] :: k == m)
  }

  ghost predicate From(kids: seq<seq<nat>>, lo: nat, ks: seq<nat>) {
    forall i | 0 <= i < |ks| :: lo <= ks[i] < |kids|
  }

  /** The pools of ks, each followed by those below it. */
  ghost function Below(kids: seq<seq<nat>>, lo: nat, ks: seq<nat>): seq<nat>
    requires Forest(kids) && From(kids, lo, ks)
    decreases |kids| - lo, |ks|
  {
    if ks == [] then [] else [ks[0]] + Below(kids, ks[0] + 1, kids[ks[0]]) + Below(kids, lo, ks[1..])
  }

  /** The same pools as the tree that the pointers form. */
  ghost function TreeOf(s: Process, kids: seq<seq<nat>>, lo: nat, ks: seq<nat>): Tree
    requires Forest(kids) && From(kids, lo, ks) && |kids| == |s.pools|
    decreases |kids| - lo, |ks|
  {
    if ks == [] then Nil
    else Cons(s.pools[ks[0]].pool, TreeOf(s, kids, ks[0] + 1, kids[ks[0]]), TreeOf(s, kids, lo, ks[1..]))
  }

  ghost predicate Valid(s: Process, ks: seq<nat>) {
    forall i | 0 <= i < |ks| :: ks[i] < |s.pools|
  }

  lemma {:induction false} BelowInRange(kids: seq<seq<nat>>, lo: nat, ks: seq<nat>)
    requires Forest(kids) && From(kids, lo, ks)
    ensures From(kids, lo, Below(kids, lo, ks))
    decreases |kids| - lo, |ks|
  {
    if ks != [] {
      BelowInRange(kids, ks[0] + 1, kids[ks[0]]);
      BelowInRange(kids, lo, ks[1..]);
    }
  }

  lemma {:induction false} PreorderIsBelow(s: Process, kids: seq<seq<nat>>, lo: nat, ks: seq<nat>)
    requires Forest(kids) && From(kids, lo, ks) && |kids| == |s.pools|
    ensures Valid(s, Below(kids, lo, ks))
    ensures Preorder(TreeOf(s, kids, lo, ks)) == Picked(s, Below(kids, lo, ks))
    decreases |kids| - lo, |ks|
  {
    BelowInRange(kids, lo, ks);
    if ks != [] {
      PreorderIsBelow(s, kids, ks[0] + 1, kids[ks[0]]);
      PreorderIsBelow(s, kids, lo, ks[1..]);
    }
  }

  // ------------------------------------------------------------ no pool is below itself or below two

  ghost predicate Under(kids: seq<seq<nat>>, k: nat, x: nat)
    decreases x
  {
    x == k || exists p: nat :: p < x && p < |kids| && x in kids[p] && Under(kids, k, p)
  }

  lemma {:induction false} UnderIsLater(kids: seq<seq<nat>>, k: nat, x: nat)
    requires Under(kids, k, x)
    ensures x >= k
    decreases x
  {
    if x != k {
      var p: nat :| p < x && p < |kids| && x in kids[p] && Under(kids, k, p);
      UnderIsLater(kids, k, p);
    }
  }

  lemma {:induction false} UnderParent(kids: seq<seq<nat>>, k: nat, c: nat, x: nat)
    requires Forest(kids) && k < |kids| && c in kids[k] && Under(kids, c, x)
    ensures Under(kids, k, x)
    decreases x
  {
    if x != c {
      var p: nat :| p < x && p < |kids| && x in kids[p] && Under(kids, c, p);
      UnderParent(kids, k, c, p);
    } else {
      var i :| 0 <= i < |kids[k]| && kids[k][i] == c;
      assert Under(kids, k, k);
    }
  }

  lemma {:induction false} BelowIsUnder(kids: seq<seq<nat>>, lo: nat, ks: seq<nat>, x: nat) returns (i: nat)
    requires Forest(kids) && From(kids, lo, ks) && x in Below(kids, lo, ks)
    ensures i < |ks| && Under(kids, ks[i], x)
    decreases |kids| - lo, |ks|
  {
    if x == ks[0] {
      i := 0;
    } else if x in Below(kids, ks[0] + 1, kids[ks[0]]) {
      var j := BelowIsUnder(kids, ks[0] + 1, kids[ks[0]], x);
      UnderParent(kids, ks[0], kids[ks[0]][j], x);
      i := 0;
    } else {
      i := BelowIsUnder(kids, lo, ks[1..], x);
      i := i + 1;
    }
  }

  /** Of two pools with something below both one is below the other. */
  lemma {:induction false} OneIsUnder(kids: seq<seq<nat>>, a: nat, b: nat, x: nat)
    requires Forest(kids) && Under(kids, a, x) && Under(kids, b, x)
    ensures Under(kids, a, b) || Under(kids, b, a)
    decreases x
  {
    if x != a && x != b {
      var p: nat :| p < x && p < |kids| && x in kids[p] && Under(kids, a, p);
      var q: nat :| q < x && q < |kids| && x in kids[q] && Under(kids, b, q);
      OneIsUnder(kids, a, b, p);
    }
  }

  lemma NotUnderSibling(kids: seq<seq<nat>>, q: nat, a: nat, b: nat)
    requires Forest(kids) && q < |kids| && a in kids[q] && b in kids[q] && a != b
    ensures !Under(kids, a, b)
  {
    if Under(kids, a, b) {
      var p: nat :| p < b && p < |kids| && b in kids[p] && Under(kids, a, p);
      UnderIsLater(kids, a, p);
    }
  }

  ghost predicate Distinct(ks: seq<nat>) {
    forall i, j | 0 <= i < j < |ks| :: ks[i] != ks[j]
  }

  /** One pool, or children of the same. */
  ghost predicate Siblings(kids: seq<seq<nat>>, ks: seq<nat>) {
    Distinct(ks) && (|ks| <= 1 || exists q: nat :: q < |kids| && forall i | 0 <= i < |ks| :: ks[i] in kids[q])
  }

  lemma SiblingsApart(kids: seq<seq<nat>>, ks: seq<nat>, i: nat, j: nat, x: nat)
    requires Forest(kids) && Siblings(kids, ks) && i < j < |ks|
    requires Under(kids, ks[i], x)
    ensures !Under(kids, ks[j], x)
  {
    var q: nat :| q < |kids| && forall i | 0 <= i < |ks| :: ks[i] in kids[q];
    NotUnderSibling(kids, q, ks[i], ks[j]);
    NotUnderSibling(kids, q, ks[j], ks[i]);
    if Under(kids, ks[j], x) {
      OneIsUnder(kids, ks[i], ks[j], x);
    }
  }

  lemma DistinctConcat(a: seq<nat>, b: seq<nat>)
    requires Distinct(a) && Distinct(b) && forall x | x in a :: x !in b
    ensures Distinct(a + b)
  {
    var c := a + b;
    forall i, j | 0 <= i < j < |c| ensures c[i] != c[j] {
      if i < |a| && j >= |a| {
        assert a[i] in a && b[j - |a|] in b;
      }
    }
  }

  lemma FirstIsUnder(kids: seq<seq<nat>>, k: nat, x: nat)
    requires Forest(kids) && k < |kids| && x in [k] + Below(kids, k + 1, kids[k])
    ensures Under(kids, k, x)
  {
    if x != k {
      var i := BelowIsUnder(kids, k + 1, kids[k], x);
      UnderParent(kids, k, kids[k][i], x);
    }
  }

  lemma FirstApart(kids: seq<seq<nat>>, lo: nat, ks: seq<nat>, x: nat)
    requires Forest(kids) && From(kids, lo, ks) && Siblings(kids, ks) && ks != []
    requires x in [ks[0]] + Below(kids, ks[0] + 1, kids[ks[0]])
    ensures x !in Below(kids, lo, ks[1..])
  {
    FirstIsUnder(kids, ks[0], x);
    if x in Below(kids, lo, ks[1..]) {
      var j := BelowIsUnder(kids, lo, ks[1..], x);
      SiblingsApart(kids, ks, 0, j + 1, x);
    }
  }

  lemma {:induction false} BelowIsDistinct(kids: seq<seq<nat>>, lo: nat, ks: seq<nat>)
    requires Forest(kids) && From(kids, lo, ks) && Siblings(kids, ks)
    ensures Distinct(Below(kids, lo, ks))
    decreases |kids| - lo, |ks|
  {
    if ks != [] {
      var k, rest := ks[0], ks[1..];
      var below := Below(kids, k + 1, kids[k]);
      BelowIsDistinct(kids, k + 1, kids[k]);
      BelowIsDistinct(kids, lo, rest);
      BelowInRange(kids, k + 1, kids[k]);
      DistinctConcat([k], below);
      forall x | x in [k] + below ensures x !in Below(kids, lo, rest) {
        FirstApart(kids, lo, ks, x);
      }
      DistinctConcat([k] + below, Below(kids, lo, rest));
    }
  }
}

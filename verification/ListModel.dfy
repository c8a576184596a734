/** What the list operations do, stated on a sequence of nodes and the stored size. */
module ListModel {
  import opened Basics
  import SizedSort

  function Inc(n: nat): nat {
    if n + 1 == SIZE_MOD then 0 else n + 1
  }

  function Dec(n: nat): nat {
    if n == 0 then SIZE_MOD - 1 else n - 1
  }

  /** size is what a size_t holds of an unbounded count after it has wrapped that many times. */
  predicate Wrapped(size: nat, count: int, wraps: int) {
    size < SIZE_MOD && size == count - SIZE_MOD * wraps
  }

  /** The nodes in order, and the count the size field keeps modulo SIZE_MOD. */
  datatype Abs<T> = Abs(nodes: seq<T>, count: int)

  datatype Op<!T> =
    | PushFrontOp(node: T)
    | PushBackOp(node: T)
    | RemoveOp(node: T)
    | InsertBeforeOp(before: T, node: T)
    | InsertAfterOp(after: T, node: T)
    | RemoveFirstOp(p: T -> bool)
    | RemoveLastOp(p: T -> bool)
    | SortOp(cmp: (T, T) -> int)

  /** No element occurs twice. */
  ghost predicate Distinct<T>(s: seq<T>) {
    |set x | x in s| == |s|
  }

  function IndexOf<T(==)>(s: seq<T>, x: T): (k: nat)
    requires x in s
    ensures k < |s| && s[k] == x && x !in s[..k]
  {
    if s[0] == x then 0 else 1 + IndexOf(s[1..], x)
  }

  function FirstMatch<T>(p: T -> bool, s: seq<T>): Option<T> {
    if s == [] then None else if p(s[0]) then Some(s[0]) else FirstMatch(p, s[1..])
  }

  function LastMatch<T>(p: T -> bool, s: seq<T>): Option<T> {
    if s == [] then None else if p(s[|s| - 1]) then Some(s[|s| - 1]) else LastMatch(p, s[..|s| - 1])
  }

  function Without<T(==)>(s: seq<T>, x: T): seq<T> {
    if x in s then s[..IndexOf(s, x)] + s[IndexOf(s, x) + 1..] else s
  }

  /** What the size field holds of the unbounded count. */
  function Stored(count: int): nat {
    count % SIZE_MOD
  }

  lemma StoredIs(size: nat, count: int, wraps: int)
    requires Wrapped(size, count, wraps)
    ensures Stored(count) == size
  {
    if wraps >= 0 {
      StoredUp(size, wraps);
    } else {
      StoredDown(size, -wraps);
    }
  }

  lemma {:induction false} StoredUp(size: nat, wraps: nat)
    requires size < SIZE_MOD
    ensures Stored(size + SIZE_MOD * wraps) == size
  {
    if wraps > 0 {
      StoredUp(size, wraps - 1);
      assert size + SIZE_MOD * wraps == (size + SIZE_MOD * (wraps - 1)) + SIZE_MOD;
    }
  }

  lemma {:induction false} StoredDown(size: nat, wraps: nat)
    requires size < SIZE_MOD
    ensures Stored(size - SIZE_MOD * wraps) == size
  {
    if wraps > 0 {
      StoredDown(size, wraps - 1);
      assert size - SIZE_MOD * wraps == (size - SIZE_MOD * (wraps - 1)) - SIZE_MOD;
    }
  }

  /** The operation's effect. Removal only counts down when it removes; insertion before or after
      a node never counts; sorting goes by the stored size and counts every node again. */
  function Apply<T(==)>(op: Op<T>, a: Abs<T>): Abs<T> {
    match op
    case PushFrontOp(n) => Abs([n] + a.nodes, a.count + 1)
    case PushBackOp(n) => Abs(a.nodes + [n], a.count + 1)
    case RemoveOp(n) => Abs(Without(a.nodes, n), a.count - 1)
    case InsertBeforeOp(b, n) =>
      if b in a.nodes then
        var k := IndexOf(a.nodes, b);
        Abs(a.nodes[..k] + [n] + a.nodes[k..], a.count)
      else a
    case InsertAfterOp(b, n) =>
      if b in a.nodes then
        var k := IndexOf(a.nodes, b) + 1;
        Abs(a.nodes[..k] + [n] + a.nodes[k..], a.count)
      else a
    case RemoveFirstOp(p) =>
      (match FirstMatch(p, a.nodes)
       case None => a
       case Some(n) => Abs(Without(a.nodes, n), a.count - 1))
    case RemoveLastOp(p) =>
      (match LastMatch(p, a.nodes)
       case None => a
       case Some(n) => Abs(Without(a.nodes, n), a.count - 1))
    case SortOp(cmp) =>
      var size := Stored(a.count);
      if size < 2 || !SizedSort.Fits(size, |a.nodes|) then a
      else Abs(SizedSort.SortSized(cmp, a.nodes, size), a.count + |a.nodes|)
  }

  lemma {:induction false} DistinctIff<T>(s: seq<T>)
    ensures Distinct(s) <==> forall i, j | 0 <= i < j < |s| :: s[i] != s[j]
    ensures |set x | x in s| <= |s|
  {
    if s != [] {
      var t := s[..|s| - 1];
      var last := s[|s| - 1];
      DistinctIff(t);
      assert (set x | x in s) == (set x | x in t) + {last};
      if last in t {
        var i :| 0 <= i < |t| && t[i] == last;
        assert s[i] == s[|s| - 1];
        assert (set x | x in s) == (set x | x in t);
      }
    }
  }

  lemma DistinctFrom<T>(s: seq<T>, k: nat)
    requires Distinct(s) && k < |s|
    ensures forall i | 0 <= i < |s| && i != k :: s[i] != s[k]
  {
    DistinctIff(s);
  }

  lemma DistinctCut<T>(s: seq<T>, k: nat)
    requires Distinct(s) && k < |s|
    ensures Distinct(s[..k] + s[k + 1..]) && s[k] !in s[..k] + s[k + 1..]
  {
    DistinctIff(s);
    DistinctIff(s[..k] + s[k + 1..]);
  }

  lemma DistinctSplice<T>(s: seq<T>, k: nat, x: T)
    requires Distinct(s) && k <= |s| && x !in s
    ensures Distinct(s[..k] + [x] + s[k..])
  {
    DistinctIff(s);
    DistinctIff(s[..k] + [x] + s[k..]);
  }

  /** Cut a duplicate-free sequence in two: the halves share no element. */
  lemma DistinctApart<T>(a: seq<T>, b: seq<T>)
    requires Distinct(a + b)
    ensures Distinct(a) && Distinct(b)
    ensures forall x | x in b :: x !in a
  {
    DistinctIff(a + b);
    forall i, j | 0 <= i < j < |a| ensures a[i] != a[j] {
      assert (a + b)[i] != (a + b)[j];
    }
    DistinctIff(a);
    forall i, j | 0 <= i < j < |b| ensures b[i] != b[j] {
      assert (a + b)[|a| + i] != (a + b)[|a| + j];
    }
    DistinctIff(b);
    forall i, j | 0 <= i < |a| && 0 <= j < |b| ensures a[i] != b[j] {
      assert (a + b)[i] != (a + b)[|a| + j];
    }
  }

  /** Moving the head of `own` to the end of `ns` keeps the three parts apart. */
  lemma MovedApart<T>(ns: seq<T>, own: seq<T>, other: seq<T>)
    requires own != [] && Distinct(ns + own + other)
    ensures own[0] !in ns && ns + own == ns + [own[0]] + own[1..]
    ensures forall x | x in own[1..] || x in other :: x != own[0] && x !in ns
    ensures Distinct(ns + [own[0]] + own[1..] + other)
  {
    assert own == [own[0]] + own[1..];
    var left, right := ns + [own[0]], own[1..] + other;
    assert ns + own + other == left + right == ns + [own[0]] + own[1..] + other;
    DistinctApart(left, right);
    assert forall x | x in own[1..] || x in other :: x in right;
    DistinctApart(ns, [own[0]]);
  }

  lemma SwapTail<T>(ns: seq<T>, a: seq<T>, b: seq<T>)
    requires Distinct(ns + a + b)
    ensures Distinct(ns + b + a)
  {
    assert multiset(ns + a + b) == multiset(ns + b + a);
    DistinctPermutation(ns + a + b, ns + b + a);
  }

  lemma DistinctPermutation<T>(s: seq<T>, t: seq<T>)
    requires multiset(s) == multiset(t) && Distinct(s)
    ensures Distinct(t)
  {
    assert |s| == |multiset(s)| && |t| == |multiset(t)|;
    assert (set x | x in s) == (set x | x in t) by {
      forall x ensures x in s <==> x in t {
        assert x in s <==> x in multiset(s);
        assert x in t <==> x in multiset(t);
      }
    }
  }

  lemma FirstMatchAt<T>(p: T -> bool, s: seq<T>, k: nat)
    requires k < |s| && p(s[k]) && forall x | x in s[..k] :: !p(x)
    ensures FirstMatch(p, s) == Some(s[k])
  {
    if k > 0 {
      assert s[0] in s[..k];
      assert s[1..][..k - 1] == s[..k][1..];
      FirstMatchAt(p, s[1..], k - 1);
    }
  }

  lemma NoFirstMatch<T>(p: T -> bool, s: seq<T>)
    requires forall x | x in s :: !p(x)
    ensures FirstMatch(p, s) == None
  {
  }

  lemma LastMatchAt<T>(p: T -> bool, s: seq<T>, k: nat)
    requires k < |s| && p(s[k]) && forall i | k < i < |s| :: !p(s[i])
    ensures LastMatch(p, s) == Some(s[k])
  {
  }

  lemma NoLastMatch<T>(p: T -> bool, s: seq<T>)
    requires forall i | 0 <= i < |s| :: !p(s[i])
    ensures LastMatch(p, s) == None
  {
  }
}

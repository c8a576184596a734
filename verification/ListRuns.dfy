/** What every run of list operations keeps, on the abstract list. */
module ListRuns {
  import opened Basics
  import opened ListModel
  import MergeSpec

  /** What the code asks of its caller: a node to be added is not in the list, a node named as a place is,
      and the stored size does not lead the sort through NULL. */
  ghost predicate Legal<T>(op: Op<T>, a: Abs<T>) {
    match op
    case PushFrontOp(n) => n !in a.nodes
    case PushBackOp(n) => n !in a.nodes
    case RemoveOp(n) => n in a.nodes
    case InsertBeforeOp(b, n) => b in a.nodes && n !in a.nodes
    case InsertAfterOp(b, n) => b in a.nodes && n !in a.nodes
    case RemoveFirstOp(_) => true
    case RemoveLastOp(_) => true
    case SortOp(_) => SizedSort.Fits(Stored(a.count), |a.nodes|)
  }

  ghost predicate LegalRun<T>(ops: seq<Op<T>>, a: Abs<T>) {
    ops == [] || (Legal(ops[0], a) && LegalRun(ops[1..], Apply(ops[0], a)))
  }

  function Run<T(==)>(ops: seq<Op<T>>, a: Abs<T>): Abs<T> {
    if ops == [] then a else Run(ops[1..], Apply(ops[0], a))
  }

  /** How many nodes an operation adds behind the back of the size field. */
  function Uncounted<T>(op: Op<T>, a: Abs<T>): int {
    match op
    case InsertBeforeOp(_, _) => 1
    case InsertAfterOp(_, _) => 1
    case SortOp(_) => if Stored(a.count) < 2 then 0 else -|a.nodes|
    case _ => 0
  }

  function TotalUncounted<T(==)>(ops: seq<Op<T>>, a: Abs<T>): int {
    if ops == [] then 0 else Uncounted(ops[0], a) + TotalUncounted(ops[1..], Apply(ops[0], a))
  }

  function Drift<T>(a: Abs<T>): int {
    |a.nodes| - a.count
  }

  lemma {:induction false} MatchIsElement<T>(p: T -> bool, s: seq<T>)
    ensures FirstMatch(p, s).Some? ==> FirstMatch(p, s).value in s
    ensures LastMatch(p, s).Some? ==> LastMatch(p, s).value in s
  {
    if s != [] {
      MatchIsElement(p, s[1..]);
      MatchIsElement(p, s[..|s| - 1]);
    }
  }

  lemma WithoutElement<T>(s: seq<T>, x: T)
    requires x in s
    ensures |Without(s, x)| == |s| - 1
    ensures Distinct(s) ==> Distinct(Without(s, x))
  {
    if Distinct(s) {
      DistinctCut(s, IndexOf(s, x));
    }
  }

  /** One operation keeps the nodes distinct and moves the drift by what it does not count. */
  lemma StepKeeps<T>(op: Op<T>, a: Abs<T>)
    requires Legal(op, a)
    ensures Drift(Apply(op, a)) == Drift(a) + Uncounted(op, a)
    ensures Distinct(a.nodes) ==> Distinct(Apply(op, a).nodes)
  {
    match op
    case PushFrontOp(n) =>
      if Distinct(a.nodes) {
        DistinctSplice(a.nodes, 0, n);
        assert a.nodes[..0] + [n] + a.nodes[0..] == [n] + a.nodes;
      }
    case PushBackOp(n) =>
      if Distinct(a.nodes) {
        DistinctSplice(a.nodes, |a.nodes|, n);
        assert a.nodes[..|a.nodes|] + [n] + a.nodes[|a.nodes|..] == a.nodes + [n];
      }
    case RemoveOp(n) => WithoutElement(a.nodes, n);
    case InsertBeforeOp(b, n) =>
      if Distinct(a.nodes) {
        DistinctSplice(a.nodes, IndexOf(a.nodes, b), n);
      }
    case InsertAfterOp(b, n) =>
      if Distinct(a.nodes) {
        DistinctSplice(a.nodes, IndexOf(a.nodes, b) + 1, n);
      }
    case RemoveFirstOp(p) =>
      MatchIsElement(p, a.nodes);
      if FirstMatch(p, a.nodes).Some? {
        WithoutElement(a.nodes, FirstMatch(p, a.nodes).value);
      }
    case RemoveLastOp(p) =>
      MatchIsElement(p, a.nodes);
      if LastMatch(p, a.nodes).Some? {
        WithoutElement(a.nodes, LastMatch(p, a.nodes).value);
      }
    case SortOp(cmp) =>
      if Stored(a.count) >= 2 {
        SizedSort.SortSizedPermutes(cmp, a.nodes, Stored(a.count));
        SizedSort.SortSizedLength(cmp, a.nodes, Stored(a.count));
        if Distinct(a.nodes) {
          DistinctPermutation(a.nodes, SizedSort.SortSized(cmp, a.nodes, Stored(a.count)));
        }
      }
  }

  /** Over any legal run the nodes stay distinct, and the size field is off by exactly the number
      of insertions less the nodes that were sorted. */
  lemma {:induction false} RunKeeps<T>(ops: seq<Op<T>>, a: Abs<T>)
    requires LegalRun(ops, a)
    ensures Drift(Run(ops, a)) == Drift(a) + TotalUncounted(ops, a)
    ensures Distinct(a.nodes) ==> Distinct(Run(ops, a).nodes)
  {
    if ops != [] {
      StepKeeps(ops[0], a);
      RunKeeps(ops[1..], Apply(ops[0], a));
    }
  }

  /** So the size field, right at first, is right at the end exactly when the insertions made up for what
      the sorts counted twice. */
  lemma SizeRightExactly<T>(ops: seq<Op<T>>, a: Abs<T>)
    requires LegalRun(ops, a) && a.count == |a.nodes|
    ensures Run(ops, a).count == |Run(ops, a).nodes| <==> TotalUncounted(ops, a) == 0
  {
    RunKeeps(ops, a);
  }

  /** In particular when there were neither insertions nor sorts. */
  lemma {:induction false} SizeStaysRight<T>(ops: seq<Op<T>>, a: Abs<T>)
    requires LegalRun(ops, a) && a.count == |a.nodes|
    requires forall i | 0 <= i < |ops| :: !ops[i].InsertBeforeOp? && !ops[i].InsertAfterOp? && !ops[i].SortOp?
    ensures Run(ops, a).count == |Run(ops, a).nodes|
  {
    if ops != [] {
      StepKeeps(ops[0], a);
      SizeStaysRight(ops[1..], Apply(ops[0], a));
    }
  }

  // ------------------------------------------------------------ sorting by a wrong size

  lemma StoredSmall(count: int)
    requires 0 <= count < SIZE_MOD
    ensures Stored(count) == count
  {
  }

  /** Once a list has been sorted by the right size, sorting it again reads through NULL exactly when it
      has two nodes or more. */
  lemma SortSpoilsSize<T>(a: Abs<T>, cmp: (T, T) -> int, again: (T, T) -> int)
    requires a.count == |a.nodes| && 2 * |a.nodes| < SIZE_MOD
    ensures Apply(SortOp(cmp), a).nodes == MergeSpec.Sort(cmp, a.nodes)
    ensures !Legal(SortOp(again), Apply(SortOp(cmp), a)) <==> |a.nodes| >= 2
  {
    StoredSmall(a.count);
    StoredSmall(2 * a.count);
    SizedSort.SortSizedRight(cmp, a.nodes);
    MergeSpec.SortPermutes(cmp, a.nodes);
    SizedSort.FaultsExactly(2 * a.count, |a.nodes|);
    StoredSmall(|a.nodes|);
    SizedSort.FaultsExactly(|a.nodes|, |a.nodes|);
  }

  /** The sort reads through NULL exactly when the stored size exceeds the number of nodes by two or more
      (and is not below two). A size that insertions have left too small is safe, and orders the list
      exactly when the nodes that it leaves unsplit are ordered already. */
  lemma SortBySize<T>(a: Abs<T>, cmp: (T, T) -> int)
    requires 0 <= a.count < SIZE_MOD
    ensures Legal(SortOp(cmp), a) <==> a.count < 2 || a.count <= |a.nodes| + 1
    ensures Legal(SortOp(cmp), a) ==> multiset(Apply(SortOp(cmp), a).nodes) == multiset(a.nodes)
    ensures Legal(SortOp(cmp), a) && MergeSpec.Preorder(cmp, a.nodes) ==>
              (MergeSpec.Ordered(cmp, Apply(SortOp(cmp), a).nodes) <==>
               SizedSort.OrderedFrom(cmp, a.nodes, SizedSort.LastRun(a.count)))
  {
    StoredSmall(a.count);
    SizedSort.FaultsExactly(a.count, |a.nodes|);
    if Legal(SortOp(cmp), a) {
      SizedSort.SortSizedPermutes(cmp, a.nodes, a.count);
      if MergeSpec.Preorder(cmp, a.nodes) {
        SizedSort.SortSizedOrdersExactly(cmp, a.nodes, a.count);
      }
    }
  }

  lemma {:induction false} FirstMatchPosition<T>(p: T -> bool, s: seq<T>) returns (k: nat)
    requires FirstMatch(p, s).Some?
    ensures k < |s| && s[k] == FirstMatch(p, s).value && p(s[k])
    ensures forall i | 0 <= i < k :: !p(s[i])
  {
    if p(s[0]) {
      k := 0;
    } else {
      k := FirstMatchPosition(p, s[1..]);
      k := k + 1;
    }
  }

  lemma {:induction false} LastMatchPosition<T>(p: T -> bool, s: seq<T>) returns (k: nat)
    requires LastMatch(p, s).Some?
    ensures k < |s| && s[k] == LastMatch(p, s).value && p(s[k])
    ensures forall i | k < i < |s| :: !p(s[i])
  {
    if p(s[|s| - 1]) {
      k := |s| - 1;
    } else {
      k := LastMatchPosition(p, s[..|s| - 1]);
    }
  }

  lemma WithoutAt<T>(s: seq<T>, k: nat)
    requires Distinct(s) && k < |s|
    ensures Without(s, s[k]) == s[..k] + s[k + 1..]
  {
    DistinctFrom(s, k);
    assert IndexOf(s, s[k]) == k;
  }

  /** A pushed node comes before or behind all others, which keep their order, and is counted. */
  lemma PushPositions<T>(a: Abs<T>, n: T)
    ensures var s, t := a.nodes, Apply(PushFrontOp(n), a).nodes;
            |t| == |s| + 1 && t[0] == n && forall i | 0 <= i < |s| :: t[i + 1] == s[i]
    ensures var s, t := a.nodes, Apply(PushBackOp(n), a).nodes;
            |t| == |s| + 1 && t[|s|] == n && forall i | 0 <= i < |s| :: t[i] == s[i]
    ensures Apply(PushFrontOp(n), a).count == Apply(PushBackOp(n), a).count == a.count + 1
  {
  }

  /** A node inserted before or after another one comes right there, between the same neighbours, and is not
      counted. */
  lemma InsertPositions<T>(a: Abs<T>, k: nat, n: T)
    requires Distinct(a.nodes) && k < |a.nodes|
    ensures var s, t := a.nodes, Apply(InsertBeforeOp(a.nodes[k], n), a).nodes;
            |t| == |s| + 1 && t[k] == n && forall i | 0 <= i < |s| :: t[if i < k then i else i + 1] == s[i]
    ensures var s, t := a.nodes, Apply(InsertAfterOp(a.nodes[k], n), a).nodes;
            |t| == |s| + 1 && t[k + 1] == n && forall i | 0 <= i < |s| :: t[if i <= k then i else i + 1] == s[i]
    ensures Apply(InsertBeforeOp(a.nodes[k], n), a).count == a.count
    ensures Apply(InsertAfterOp(a.nodes[k], n), a).count == a.count
  {
    DistinctFrom(a.nodes, k);
  }

  /** A removed node is taken out from between its neighbours, and counted off. */
  lemma RemovePositions<T>(a: Abs<T>, k: nat)
    requires Distinct(a.nodes) && k < |a.nodes|
    ensures var s, t := a.nodes, Apply(RemoveOp(a.nodes[k]), a).nodes;
            |t| == |s| - 1 && forall i | 0 <= i < |s| && i != k :: t[if i < k then i else i - 1] == s[i]
    ensures Apply(RemoveOp(a.nodes[k]), a).count == a.count - 1
  {
    WithoutAt(a.nodes, k);
  }

  /** remove_first deletes the one node at the first matching position, or nothing. */
  lemma RemoveFirstIsExact<T>(p: T -> bool, a: Abs<T>)
    requires Distinct(a.nodes)
    ensures var t := Apply(RemoveFirstOp(p), a);
            t.count == if |t.nodes| == |a.nodes| then a.count else a.count - 1
    ensures var s, t := a.nodes, Apply(RemoveFirstOp(p), a).nodes;
            || (t == s && forall i | 0 <= i < |s| :: !p(s[i]))
            || exists k {:trigger s[k]} | 0 <= k < |s| ::
                 p(s[k]) && (forall i | 0 <= i < k :: !p(s[i])) && t == s[..k] + s[k + 1..]
  {
    if FirstMatch(p, a.nodes).Some? {
      var k := FirstMatchPosition(p, a.nodes);
      WithoutAt(a.nodes, k);
    } else {
      NoneMatches(p, a.nodes);
    }
  }

  /** remove_last deletes the one node at the last matching position, or nothing. */
  lemma RemoveLastIsExact<T>(p: T -> bool, a: Abs<T>)
    requires Distinct(a.nodes)
    ensures var t := Apply(RemoveLastOp(p), a);
            t.count == if |t.nodes| == |a.nodes| then a.count else a.count - 1
    ensures var s, t := a.nodes, Apply(RemoveLastOp(p), a).nodes;
            || (t == s && forall i | 0 <= i < |s| :: !p(s[i]))
            || exists k {:trigger s[k]} | 0 <= k < |s| ::
                 p(s[k]) && (forall i | k < i < |s| :: !p(s[i])) && t == s[..k] + s[k + 1..]
  {
    if LastMatch(p, a.nodes).Some? {
      var k := LastMatchPosition(p, a.nodes);
      WithoutAt(a.nodes, k);
    } else {
      NoneMatches(p, a.nodes);
    }
  }

  lemma {:induction false} NoneMatches<T>(p: T -> bool, s: seq<T>)
    ensures FirstMatch(p, s).None? ==> forall i | 0 <= i < |s| :: !p(s[i])
    ensures LastMatch(p, s).None? ==> forall i | 0 <= i < |s| :: !p(s[i])
  {
    if s != [] {
      NoneMatches(p, s[1..]);
      NoneMatches(p, s[..|s| - 1]);
      if FirstMatch(p, s).None? {
        forall i | 0 <= i < |s| ensures !p(s[i]) {
          assert i > 0 ==> s[i] == s[1..][i - 1];
        }
      }
    }
  }
}

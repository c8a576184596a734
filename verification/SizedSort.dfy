/** The merge sort when the stored size need not be the number of nodes. */
module SizedSort {
  import opened MergeSpec

  function Half(n: nat): (m: nat)
    ensures 2 * m <= n <= 2 * m + 1
  {
    n / 2
  }

  /** Sorting n nodes by a stored size reads through NULL: the walk to the middle leaves the chain, here
      or in one of the halves. The first half is cut off with as many nodes as its size says, the second
      gets what is left. */
  predicate Faults(size: nat, n: int)
    decreases size
  {
    size >= 2 && (n < Half(size) || Faults(Half(size), Half(size)) || Faults(size - Half(size), n - Half(size)))
  }

  /** The size is not too large by two or more. */
  predicate Fits(size: nat, n: int) {
    size < 2 || size <= n + 1
  }

  /** The sort reads through NULL exactly when its size does not fit. */
  lemma {:induction false} FaultsExactly(size: nat, n: nat)
    ensures Faults(size, n) <==> !Fits(size, n)
    decreases size
  {
    if size >= 2 && n >= Half(size) {
      FaultsExactly(Half(size), Half(size));
      FaultsExactly(size - Half(size), n - Half(size));
    }
  }

  /** What the sort makes of a chain whose stored size may be wrong. */
  function SortSized<T>(cmp: (T, T) -> int, s: seq<T>, size: nat): seq<T>
    requires Fits(size, |s|)
    decreases size
  {
    if size < 2 then s
    else
      var m := Half(size);
      Merge(cmp, SortSized(cmp, s[..m], m), SortSized(cmp, s[m..], size - m))
  }

  /** One step of it. */
  lemma SortSizedStep<T>(cmp: (T, T) -> int, s: seq<T>, size: nat, l: seq<T>, r: seq<T>)
    requires size >= 2 && Fits(size, |s|)
    requires l == SortSized(cmp, s[..Half(size)], Half(size)) && r == SortSized(cmp, s[Half(size)..], size - Half(size))
    ensures SortSized(cmp, s, size) == Merge(cmp, l, r)
  {
  }

  lemma SplitMultiset<T>(s: seq<T>, m: nat)
    requires m <= |s|
    ensures multiset(s[..m]) + multiset(s[m..]) == multiset(s)
  {
    assert s == s[..m] + s[m..];
  }

  /** No node is lost, however wrong the size, as long as the sort comes to an end. */
  lemma {:induction false} SortSizedPermutes<T>(cmp: (T, T) -> int, s: seq<T>, size: nat)
    requires Fits(size, |s|)
    ensures multiset(SortSized(cmp, s, size)) == multiset(s)
    decreases size
  {
    if size >= 2 {
      var m := Half(size);
      var l, r := SortSized(cmp, s[..m], m), SortSized(cmp, s[m..], size - m);
      SortSizedPermutes(cmp, s[..m], m);
      SortSizedPermutes(cmp, s[m..], size - m);
      MergePermutes(cmp, l, r);
      SplitMultiset(s, m);
      SortSizedStep(cmp, s, size, l, r);
    }
  }

  lemma SortSizedLength<T>(cmp: (T, T) -> int, s: seq<T>, size: nat)
    requires Fits(size, |s|)
    ensures |SortSized(cmp, s, size)| == |s|
  {
    SortSizedPermutes(cmp, s, size);
    assert |multiset(SortSized(cmp, s, size))| == |multiset(s)|;
  }

  lemma SortSizedElements<T>(cmp: (T, T) -> int, s: seq<T>, size: nat, x: T)
    requires Fits(size, |s|)
    ensures x in SortSized(cmp, s, size) <==> x in s
  {
    SortSizedPermutes(cmp, s, size);
    assert x in SortSized(cmp, s, size) <==> x in multiset(SortSized(cmp, s, size));
  }

  /** With the right size it is the sort. */
  lemma {:induction false} SortSizedRight<T>(cmp: (T, T) -> int, s: seq<T>)
    ensures SortSized(cmp, s, |s|) == Sort(cmp, s)
    decreases |s|
  {
    if |s| >= 2 {
      SortSizedRight(cmp, s[..|s| / 2]);
      SortSizedRight(cmp, s[|s| / 2..]);
    }
  }

  /** From the given place on, if it is one, s is ordered. */
  ghost predicate OrderedFrom<T>(cmp: (T, T) -> int, s: seq<T>, k: nat) {
    k <= |s| ==> Ordered(cmp, s[k..])
  }

  lemma DropOrdered<T>(cmp: (T, T) -> int, s: seq<T>, k: nat, m: nat)
    requires m <= k && m <= |s|
    ensures OrderedFrom(cmp, s[m..], k - m) <==> OrderedFrom(cmp, s, k)
  {
    if k <= |s| {
      assert s[m..][k - m..] == s[k..];
    }
  }

  /** All elements of s are among those of t. */
  ghost predicate Among<T>(s: seq<T>, t: seq<T>) {
    forall x | x in s :: x in t
  }

  lemma FullOrders<T>(cmp: (T, T) -> int, all: seq<T>, s: seq<T>)
    requires Preorder(cmp, all) && Among(s, all)
    ensures Ordered(cmp, SortSized(cmp, s, |s|))
  {
    PreorderSubset(cmp, all, s);
    SortSizedRight(cmp, s);
    SortOrders(cmp, s);
  }

  lemma OrdersStep<T>(cmp: (T, T) -> int, all: seq<T>, s: seq<T>, size: nat, l: seq<T>, r: seq<T>)
    requires size >= 2 && Fits(size, |s|) && Preorder(cmp, all) && Among(s, all)
    requires l == SortSized(cmp, s[..Half(size)], Half(size)) && r == SortSized(cmp, s[Half(size)..], size - Half(size))
    requires Ordered(cmp, l) && Ordered(cmp, r)
    ensures Ordered(cmp, SortSized(cmp, s, size))
  {
    var m := Half(size);
    forall x | x in l + r ensures x in all {
      SortSizedElements(cmp, s[..m], m, x);
      SortSizedElements(cmp, s[m..], size - m, x);
    }
    PreorderSubset(cmp, all, l + r);
    MergeOrdered(cmp, l, r);
    SortSizedStep(cmp, s, size, l, r);
  }

  lemma HalvesAmong<T>(s: seq<T>, all: seq<T>, m: nat)
    requires m <= |s| && Among(s, all)
    ensures Among(s[..m], all) && Among(s[m..], all)
  {
  }

  lemma {:induction false} OrdersAmong<T>(cmp: (T, T) -> int, all: seq<T>, s: seq<T>, size: nat)
    requires Fits(size, |s|) && size >= 1 && Preorder(cmp, all) && Among(s, all)
    requires OrderedFrom(cmp, s, size - 1)
    ensures Ordered(cmp, SortSized(cmp, s, size))
    decreases size
  {
    if size == 1 {
      assert s[0..] == s;
    } else {
      var m := Half(size);
      HalvesAmong(s, all, m);
      FullOrders(cmp, all, s[..m]);
      DropOrdered(cmp, s, size - 1, m);
      OrdersAmong(cmp, all, s[m..], size - m);
      OrdersStep(cmp, all, s, size, SortSized(cmp, s[..m], m), SortSized(cmp, s[m..], size - m));
    }
  }

  /** A merge keeps the order of its right chain. */
  lemma {:induction false} MergeKeepsRight<T>(cmp: (T, T) -> int, l: seq<T>, r: seq<T>)
    requires Ordered(cmp, Merge(cmp, l, r))
    ensures Ordered(cmp, r)
    decreases |l| + |r|
  {
    if l != [] && r != [] {
      var rest := Merge(cmp, l, r)[1..];
      if Before(cmp, l[0], r[0]) {
        assert rest == Merge(cmp, l[1..], r);
        MergeKeepsRight(cmp, l[1..], r);
      } else {
        assert rest == Merge(cmp, l, r[1..]);
        MergeKeepsRight(cmp, l, r[1..]);
        MergePermutes(cmp, l, r[1..]);
        forall j | 0 < j < |r| ensures !Before(cmp, r[j], r[0]) {
          assert r[1..][j - 1] in multiset(rest);
          var k :| 0 <= k < |rest| && rest[k] == r[j];
          assert Merge(cmp, l, r)[0] == r[0] && Merge(cmp, l, r)[k + 1] == r[j];
        }
      }
    }
  }

  lemma {:induction false} OrderedOnlyIf<T>(cmp: (T, T) -> int, s: seq<T>, size: nat)
    requires Fits(size, |s|) && size >= 1 && Ordered(cmp, SortSized(cmp, s, size))
    ensures OrderedFrom(cmp, s, size - 1)
    decreases size
  {
    if size == 1 {
      assert s[0..] == s;
    } else {
      var m := Half(size);
      var l, r := SortSized(cmp, s[..m], m), SortSized(cmp, s[m..], size - m);
      SortSizedStep(cmp, s, size, l, r);
      MergeKeepsRight(cmp, l, r);
      OrderedOnlyIf(cmp, s[m..], size - m);
      DropOrdered(cmp, s, size - 1, m);
    }
  }

  /** Where the last run begins that is not split any further. */
  function LastRun(size: nat): nat {
    if size < 2 then 0 else size - 1
  }

  /** With a size that is too small the last run is more than one node. The result is ordered exactly when
      that run is ordered from the start. */
  lemma SortSizedOrdersExactly<T>(cmp: (T, T) -> int, s: seq<T>, size: nat)
    requires Fits(size, |s|) && Preorder(cmp, s)
    ensures Ordered(cmp, SortSized(cmp, s, size)) <==> OrderedFrom(cmp, s, LastRun(size))
  {
    if size == 0 {
      assert s[0..] == s;
    } else {
      if OrderedFrom(cmp, s, size - 1) {
        OrdersAmong(cmp, s, s, size);
      }
      if Ordered(cmp, SortSized(cmp, s, size)) {
        OrderedOnlyIf(cmp, s, size);
      }
    }
  }
}

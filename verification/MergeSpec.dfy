/** The pure half of the list's merge sort: what the in-place code computes on the sequence of
    nodes, and what that result is. The comparator is any function; only the value -1 counts. */
module MergeSpec {

  /** The comparator says that a comes strictly before b: the code tests for exactly -1. */
  predicate Before<T>(cmp: (T, T) -> int, a: T, b: T) {
    cmp(a, b) == -1
  }

  /** Neither element comes strictly before the other. */
  predicate Tied<T>(cmp: (T, T) -> int, a: T, b: T) {
    !Before(cmp, a, b) && !Before(cmp, b, a)
  }

  /** On the elements of s the comparator is a total preorder reported through -1:
      "before" is asymmetric and "not after" is transitive. */
  ghost predicate Preorder<T>(cmp: (T, T) -> int, s: seq<T>) {
    && (forall a, b | a in s && b in s :: Before(cmp, a, b) ==> !Before(cmp, b, a))
    && (forall a, b, c | a in s && b in s && c in s ::
          !Before(cmp, b, a) && !Before(cmp, c, b) ==> !Before(cmp, c, a))
  }

  /** No element of s comes strictly before one that stands to its left. */
  ghost predicate Ordered<T>(cmp: (T, T) -> int, s: seq<T>) {
    forall i, j | 0 <= i < j < |s| :: !Before(cmp, s[j], s[i])
  }

  /** One run of the merge loop: the right head wins unless the left one is strictly before it. */
  function Merge<T>(cmp: (T, T) -> int, l: seq<T>, r: seq<T>): seq<T>
    decreases |l| + |r|
  {
    if l == [] then r
    else if r == [] then l
    else if Before(cmp, l[0], r[0]) then [l[0]] + Merge(cmp, l[1..], r)
    else [r[0]] + Merge(cmp, l, r[1..])
  }

  function Sort<T>(cmp: (T, T) -> int, s: seq<T>): seq<T>
    decreases |s|
  {
    if |s| < 2 then s
    else
      var m := |s| / 2;
      Merge(cmp, Sort(cmp, s[..m]), Sort(cmp, s[m..]))
  }

  function Reverse<T>(s: seq<T>): seq<T> {
    if s == [] then [] else Reverse(s[1..]) + [s[0]]
  }

  /** The elements of s tied with x, in the order they have in s. */
  function Ties<T>(cmp: (T, T) -> int, x: T, s: seq<T>): seq<T> {
    if s == [] then []
    else (if Tied(cmp, s[0], x) then [s[0]] else []) + Ties(cmp, x, s[1..])
  }

  // ---------------------------------------------------------------- permutation

  lemma {:induction false} MergePermutes<T>(cmp: (T, T) -> int, l: seq<T>, r: seq<T>)
    ensures multiset(Merge(cmp, l, r)) == multiset(l) + multiset(r)
    decreases |l| + |r|
  {
    if l != [] && r != [] {
      if Before(cmp, l[0], r[0]) {
        MergePermutes(cmp, l[1..], r);
        FirstAndRest(l);
      } else {
        MergePermutes(cmp, l, r[1..]);
        FirstAndRest(r);
      }
    }
  }

  lemma FirstAndRest<T>(s: seq<T>)
    requires s != []
    ensures multiset(s) == multiset{s[0]} + multiset(s[1..])
  {
    assert s == [s[0]] + s[1..];
  }

  /** The sort rearranges: no node is lost, added or repeated. */
  lemma {:induction false} SortPermutes<T>(cmp: (T, T) -> int, s: seq<T>)
    ensures multiset(Sort(cmp, s)) == multiset(s)
    ensures |Sort(cmp, s)| == |s|
    decreases |s|
  {
    if |s| >= 2 {
      var m := |s| / 2;
      SortPermutes(cmp, s[..m]);
      SortPermutes(cmp, s[m..]);
      MergePermutes(cmp, Sort(cmp, s[..m]), Sort(cmp, s[m..]));
      assert s == s[..m] + s[m..];
    }
    assert |multiset(Sort(cmp, s))| == |Sort(cmp, s)| && |multiset(s)| == |s|;
  }

  lemma SortElements<T>(cmp: (T, T) -> int, s: seq<T>, x: T)
    ensures x in Sort(cmp, s) <==> x in s
  {
    SortPermutes(cmp, s);
    assert x in Sort(cmp, s) <==> x in multiset(Sort(cmp, s));
    assert x in s <==> x in multiset(s);
  }

  // ---------------------------------------------------------------- order

  lemma MergeElements<T>(cmp: (T, T) -> int, l: seq<T>, r: seq<T>, x: T)
    ensures x in Merge(cmp, l, r) <==> x in l || x in r
  {
  }

  lemma OrderedCons<T>(cmp: (T, T) -> int, x: T, s: seq<T>)
    requires Ordered(cmp, s)
    requires forall y | y in s :: !Before(cmp, y, x)
    ensures Ordered(cmp, [x] + s)
  {
  }

  lemma HeadIsLeast<T>(cmp: (T, T) -> int, s: seq<T>, y: T)
    requires y in s && Ordered(cmp, s) && Preorder(cmp, s)
    ensures !Before(cmp, y, s[0])
  {
  }

  lemma PreorderSubset<T>(cmp: (T, T) -> int, s: seq<T>, t: seq<T>)
    requires Preorder(cmp, s) && forall x | x in t :: x in s
    ensures Preorder(cmp, t)
  {
  }

  lemma {:induction false} MergeOrdered<T>(cmp: (T, T) -> int, l: seq<T>, r: seq<T>)
    requires Preorder(cmp, l + r)
    requires Ordered(cmp, l) && Ordered(cmp, r)
    ensures Ordered(cmp, Merge(cmp, l, r))
    decreases |l| + |r|
  {
    if l != [] && r != [] {
      assert forall x :: x in l || x in r ==> x in l + r;
      PreorderSubset(cmp, l + r, l);
      PreorderSubset(cmp, l + r, r);
      if Before(cmp, l[0], r[0]) {
        MergeOrdered(cmp, l[1..], r);
        forall y | y in Merge(cmp, l[1..], r) ensures !Before(cmp, y, l[0]) {
          MergeElements(cmp, l[1..], r, y);
          if y in r {
            HeadIsLeast(cmp, r, y);
          } else {
            assert y in l[1..];
            HeadIsLeast(cmp, l, y);
          }
        }
        OrderedCons(cmp, l[0], Merge(cmp, l[1..], r));
      } else {
        MergeOrdered(cmp, l, r[1..]);
        forall y | y in Merge(cmp, l, r[1..]) ensures !Before(cmp, y, r[0]) {
          MergeElements(cmp, l, r[1..], y);
          if y in l {
            HeadIsLeast(cmp, l, y);
          } else {
            assert y in r[1..];
            HeadIsLeast(cmp, r, y);
          }
        }
        OrderedCons(cmp, r[0], Merge(cmp, l, r[1..]));
      }
    }
  }

  /** The sort orders by every total preorder its comparator reports through -1. */
  lemma {:induction false} SortOrders<T>(cmp: (T, T) -> int, s: seq<T>)
    requires Preorder(cmp, s)
    ensures Ordered(cmp, Sort(cmp, s))
    decreases |s|
  {
    if |s| >= 2 {
      var m := |s| / 2;
      var l, r := Sort(cmp, s[..m]), Sort(cmp, s[m..]);
      SortOrders(cmp, s[..m]);
      SortOrders(cmp, s[m..]);
      forall x | x in l + r ensures x in s {
        SortElements(cmp, s[..m], x);
        SortElements(cmp, s[m..], x);
      }
      PreorderSubset(cmp, s, l + r);
      MergeOrdered(cmp, l, r);
    }
  }

  // ---------------------------------------------------------------- ties

  lemma {:induction false} TiesConcat<T>(cmp: (T, T) -> int, x: T, a: seq<T>, b: seq<T>)
    ensures Ties(cmp, x, a + b) == Ties(cmp, x, a) + Ties(cmp, x, b)
  {
    if a == [] {
      assert a + b == b;
    } else {
      TiesConcat(cmp, x, a[1..], b);
      assert (a + b)[0] == a[0] && (a + b)[1..] == a[1..] + b;
      var h := if Tied(cmp, a[0], x) then [a[0]] else [];
      assert h + (Ties(cmp, x, a[1..]) + Ties(cmp, x, b)) == (h + Ties(cmp, x, a[1..])) + Ties(cmp, x, b);
    }
  }

  lemma {:induction false} ReverseConcat<T>(a: seq<T>, b: seq<T>)
    ensures Reverse(a + b) == Reverse(b) + Reverse(a)
  {
    if a == [] {
      assert a + b == b;
    } else {
      ReverseConcat(a[1..], b);
      assert (a + b)[1..] == a[1..] + b;
    }
  }

  lemma {:induction false} NoTies<T>(cmp: (T, T) -> int, x: T, s: seq<T>)
    requires forall y | y in s :: !Tied(cmp, y, x)
    ensures Ties(cmp, x, s) == []
  {
    if s != [] {
      NoTies(cmp, x, s[1..]);
    }
  }

  /** Merging ordered halves puts the right half's ties first. */
  lemma {:induction false} MergeTies<T>(cmp: (T, T) -> int, x: T, l: seq<T>, r: seq<T>)
    requires Preorder(cmp, [x] + l + r)
    requires Ordered(cmp, l) && Ordered(cmp, r)
    ensures Ties(cmp, x, Merge(cmp, l, r)) == Ties(cmp, x, r) + Ties(cmp, x, l)
    decreases |l| + |r|
  {
    if l != [] && r != [] {
      assert forall y :: y == x || y in l || y in r ==> y in [x] + l + r;
      if Before(cmp, l[0], r[0]) {
        MergeTies(cmp, x, l[1..], r);
        if Tied(cmp, l[0], x) {
          // everything in r is above l[0], hence above x
          forall y | y in r ensures !Tied(cmp, y, x) {
            assert !Before(cmp, y, r[0]);
          }
          NoTies(cmp, x, r);
        }
      } else {
        MergeTies(cmp, x, l, r[1..]);
        assert Ties(cmp, x, [r[0]] + Merge(cmp, l, r[1..])) ==
               (if Tied(cmp, r[0], x) then [r[0]] else []) + Ties(cmp, x, Merge(cmp, l, r[1..]));
      }
    }
  }

  /** The sort is exactly anti-stable: elements tied with each other come out in the reverse of
      the order they had. Together with SortOrders and SortPermutes this fixes the result. */
  lemma {:induction false} SortReversesTies<T>(cmp: (T, T) -> int, x: T, s: seq<T>)
    requires x in s && Preorder(cmp, s)
    ensures Ties(cmp, x, Sort(cmp, s)) == Reverse(Ties(cmp, x, s))
  {
    TiesOfSort(cmp, x, s);
  }

  lemma {:induction false} TiesMember<T>(cmp: (T, T) -> int, x: T, s: seq<T>, y: T)
    ensures y in Ties(cmp, x, s) <==> y in s && Tied(cmp, y, x)
  {
    if s != [] {
      TiesMember(cmp, x, s[1..], y);
    }
  }

  /** Two ordered sequences with the same ties in the same order are equal, so order and tie order
      leave the sort no freedom at all. */
  lemma {:induction false} OrderAndTiesDetermine<T>(cmp: (T, T) -> int, t: seq<T>, u: seq<T>)
    requires Preorder(cmp, t + u)
    requires Ordered(cmp, t) && Ordered(cmp, u)
    requires forall x | x in t + u :: Ties(cmp, x, t) == Ties(cmp, x, u)
    ensures t == u
    decreases |t|
  {
    if t == [] {
      assert forall x | x in u :: x in t + u;
    } else {
      assert t[0] in t + u;
      TiesMember(cmp, t[0], t, t[0]);
      TiesMember(cmp, t[0], u, t[0]);
      assert u[0] in t + u;
      TiesMember(cmp, u[0], u, u[0]);
      TiesMember(cmp, u[0], t, u[0]);
      PreorderSubset(cmp, t + u, t);
      PreorderSubset(cmp, t + u, u);
      HeadIsLeast(cmp, t, u[0]);
      HeadIsLeast(cmp, u, t[0]);
      assert Ties(cmp, t[0], t)[0] == t[0] && Ties(cmp, t[0], u)[0] == u[0];
      forall x | x in t[1..] + u[1..] ensures Ties(cmp, x, t[1..]) == Ties(cmp, x, u[1..]) {
        assert x in t + u;
        var h := if Tied(cmp, t[0], x) then [t[0]] else [];
        assert Ties(cmp, x, t) == h + Ties(cmp, x, t[1..]);
        assert Ties(cmp, x, u) == h + Ties(cmp, x, u[1..]);
        assert Ties(cmp, x, t[1..]) == Ties(cmp, x, t)[|h|..];
      }
      PreorderSubset(cmp, t + u, t[1..] + u[1..]);
      OrderAndTiesDetermine(cmp, t[1..], u[1..]);
    }
  }

  lemma {:induction false} TiesOfSort<T>(cmp: (T, T) -> int, x: T, s: seq<T>)
    requires Preorder(cmp, [x] + s)
    ensures Ties(cmp, x, Sort(cmp, s)) == Reverse(Ties(cmp, x, s))
    decreases |s|
  {
    if |s| >= 2 {
      var m := |s| / 2;
      var a, b := s[..m], s[m..];
      assert s == a + b;
      PreorderHalves(cmp, x, a, b);
      TiesOfSort(cmp, x, a);
      TiesOfSort(cmp, x, b);
      TiesOfHalves(cmp, x, a, b);
      TiesConcat(cmp, x, a, b);
      ReverseConcat(Ties(cmp, x, a), Ties(cmp, x, b));
    }
  }

  lemma PreorderHalves<T>(cmp: (T, T) -> int, x: T, a: seq<T>, b: seq<T>)
    requires Preorder(cmp, [x] + (a + b))
    ensures Preorder(cmp, [x] + a) && Preorder(cmp, [x] + b) && Preorder(cmp, a) && Preorder(cmp, b)
    ensures Preorder(cmp, [x] + Sort(cmp, a) + Sort(cmp, b))
  {
    forall y | y in [x] + Sort(cmp, a) + Sort(cmp, b) ensures y in [x] + (a + b) {
      SortElements(cmp, a, y);
      SortElements(cmp, b, y);
    }
    PreorderSubset(cmp, [x] + (a + b), [x] + Sort(cmp, a) + Sort(cmp, b));
    PreorderSubset(cmp, [x] + (a + b), [x] + a);
    PreorderSubset(cmp, [x] + (a + b), [x] + b);
    PreorderSubset(cmp, [x] + (a + b), a);
    PreorderSubset(cmp, [x] + (a + b), b);
  }

  lemma TiesOfHalves<T>(cmp: (T, T) -> int, x: T, a: seq<T>, b: seq<T>)
    requires Preorder(cmp, [x] + Sort(cmp, a) + Sort(cmp, b)) && Preorder(cmp, a) && Preorder(cmp, b)
    ensures Ties(cmp, x, Merge(cmp, Sort(cmp, a), Sort(cmp, b))) == Ties(cmp, x, Sort(cmp, b)) + Ties(cmp, x, Sort(cmp, a))
  {
    SortOrders(cmp, a);
    SortOrders(cmp, b);
    MergeTies(cmp, x, Sort(cmp, a), Sort(cmp, b));
  }

  /** A comparator that never answers exactly -1 does not sort: the list comes out reversed. */
  lemma {:induction false} OtherNegativeValuesReverse<T>(cmp: (T, T) -> int, s: seq<T>)
    requires NeverBefore(cmp, s, s)
    ensures Sort(cmp, s) == Reverse(s)
    decreases |s|
  {
    if |s| >= 2 {
      var m := |s| / 2;
      var a, b := s[..m], s[m..];
      assert s == a + b;
      OtherNegativeValuesReverse(cmp, a);
      OtherNegativeValuesReverse(cmp, b);
      ReverseElements(a);
      ReverseElements(b);
      MergeOfTiedHalves(cmp, Reverse(a), Reverse(b));
      ReverseConcat(a, b);
    } else if |s| == 1 {
      assert Reverse(s) == s;
    }
  }

  ghost predicate NeverBefore<T>(cmp: (T, T) -> int, l: seq<T>, r: seq<T>) {
    forall i, j | 0 <= i < |l| && 0 <= j < |r| :: cmp(l[i], r[j]) != -1
  }

  lemma {:induction false} ReverseElements<T>(s: seq<T>)
    ensures |Reverse(s)| == |s|
    ensures forall i | 0 <= i < |s| :: Reverse(s)[i] == s[|s| - 1 - i]
  {
    if s != [] {
      ReverseElements(s[1..]);
    }
  }

  lemma {:induction false} MergeOfTiedHalves<T>(cmp: (T, T) -> int, l: seq<T>, r: seq<T>)
    requires NeverBefore(cmp, l, r)
    ensures Merge(cmp, l, r) == r + l
    decreases |r|
  {
    if l == [] || r == [] {
      assert r + l == if l == [] then r else l;
    } else {
      MergeOfTiedHalves(cmp, l, r[1..]);
      assert r + l == [r[0]] + (r[1..] + l);
    }
  }

  // ---------------------------------------------------------------- comparators that go by sign

  /** By its sign the comparator is a total preorder on the elements in question. */
  ghost predicate SignPreorder<T(!new)>(cmp: (T, T) -> int, dom: T -> bool) {
    && (forall a, b | dom(a) && dom(b) :: cmp(a, b) < 0 <==> cmp(b, a) > 0)
    && (forall a, b, c | dom(a) && dom(b) && dom(c) :: cmp(a, b) <= 0 && cmp(b, c) <= 0 ==> cmp(a, c) <= 0)
  }

  ghost predicate OrderedBySign<T>(cmp: (T, T) -> int, s: seq<T>) {
    forall i, j | 0 <= i < j < |s| :: cmp(s[i], s[j]) <= 0
  }

  ghost predicate Over<T>(s: seq<T>, dom: T -> bool) {
    forall x | x in s :: dom(x)
  }

  /** It answers no negative number but -1. */
  ghost predicate MinusOneOnly<T(!new)>(cmp: (T, T) -> int, dom: T -> bool) {
    forall a, b | dom(a) && dom(b) && cmp(a, b) < 0 :: cmp(a, b) == -1
  }

  lemma MinusOneSorts<T(!new)>(cmp: (T, T) -> int, dom: T -> bool, s: seq<T>)
    requires SignPreorder(cmp, dom) && MinusOneOnly(cmp, dom) && Over(s, dom)
    ensures OrderedBySign(cmp, Sort(cmp, s))
  {
    assert Preorder(cmp, s);
    SortOrders(cmp, s);
    var t := Sort(cmp, s);
    forall i, j | 0 <= i < j < |t| ensures cmp(t[i], t[j]) <= 0 {
      SortElements(cmp, s, t[i]);
      SortElements(cmp, s, t[j]);
      assert !Before(cmp, t[j], t[i]);
    }
  }

  lemma SortOfTwo<T>(cmp: (T, T) -> int, a: T, b: T)
    ensures Sort(cmp, [a, b]) == if Before(cmp, a, b) then [a, b] else [b, a]
  {
    var s := [a, b];
    assert |s| / 2 == 1 && s[..1] == [a] && s[1..] == [b];
    assert Sort(cmp, s) == Merge(cmp, Sort(cmp, [a]), Sort(cmp, [b])) == Merge(cmp, [a], [b]);
    assert [a][1..] == [] && [b][1..] == [];
    assert Merge(cmp, [], [b]) == [b] && Merge(cmp, [a], []) == [a];
    assert [a] + [b] == [a, b] && [b] + [a] == [b, a];
  }

  /** Every list of such elements comes out ordered exactly when the comparator answers no negative
      number but -1 on them; a difference of keys, for one, does not sort. */
  lemma SortsBySignExactly<T(!new)>(cmp: (T, T) -> int, dom: T -> bool)
    requires SignPreorder(cmp, dom)
    ensures (forall s: seq<T> | Over(s, dom) :: OrderedBySign(cmp, Sort(cmp, s))) <==> MinusOneOnly(cmp, dom)
  {
    if MinusOneOnly(cmp, dom) {
      forall s: seq<T> | Over(s, dom) ensures OrderedBySign(cmp, Sort(cmp, s)) {
        MinusOneSorts(cmp, dom, s);
      }
    } else {
      var a, b :| dom(a) && dom(b) && cmp(a, b) < 0 && cmp(a, b) != -1;
      SortOfTwo(cmp, a, b);
      assert Over([a, b], dom) && cmp(b, a) > 0;
      assert Sort(cmp, [a, b]) == [b, a];
      assert cmp([b, a][0], [b, a][1]) > 0;
      assert !OrderedBySign(cmp, [b, a]);
    }
  }
}

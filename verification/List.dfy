/** The intrusive doubly linked list: the operations rewrite next, prev, head, tail and size in
    place. The ghost field `nodes` is the sequence the links stand for. */
module List {
  import opened Basics
  import opened ListModel
  import MergeSpec

  class Node {
    var next: Node?
    var prev: Node?
  }

  ghost predicate Chain(ns: seq<Node>)
    reads ns
  {
    forall i {:trigger ns[i].next} | 0 <= i < |ns| :: ns[i].next == if i + 1 < |ns| then ns[i + 1] else null
  }

  ghost predicate BackChain(ns: seq<Node>)
    reads ns
  {
    forall i {:trigger ns[i].prev} | 0 <= i < |ns| :: ns[i].prev == if i > 0 then ns[i - 1] else null
  }

  function First(ns: seq<Node>): Node? {
    if ns == [] then null else ns[0]
  }

  /** The node at index i, or none outside the sequence. */
  function At(ns: seq<Node>, i: int): Node? {
    if 0 <= i < |ns| then ns[i] else null
  }

  function Last(ns: seq<Node>): Node? {
    if ns == [] then null else ns[|ns| - 1]
  }

  /** Splicing node in at k: only its two neighbours' links changed, so the new sequence is linked. */
  lemma Relinked(was: seq<Node>, k: nat, node: Node)
    requires k <= |was|
    requires node.next == At(was, k)
    requires node.prev == At(was, k - 1)
    requires k > 0 ==> was[k - 1].next == node
    requires k < |was| ==> was[k].prev == node
    requires forall i {:trigger was[i].next} | 0 <= i < |was| && i != k - 1 ::
               was[i].next == if i + 1 < |was| then was[i + 1] else null
    requires forall i {:trigger was[i].prev} | 0 <= i < |was| && i != k ::
               was[i].prev == if i > 0 then was[i - 1] else null
    ensures Chain(was[..k] + [node] + was[k..]) && BackChain(was[..k] + [node] + was[k..])
  {
  }

  /** Cutting out the node at k: once its neighbours point past it, the rest is linked. */
  lemma Unlinked(was: seq<Node>, k: nat)
    requires k < |was|
    requires k > 0 ==> was[k - 1].next == if k + 1 < |was| then was[k + 1] else null
    requires k + 1 < |was| ==> was[k + 1].prev == if k > 0 then was[k - 1] else null
    requires forall i {:trigger was[i].next} | 0 <= i < |was| && i != k - 1 && i != k ::
               was[i].next == if i + 1 < |was| then was[i + 1] else null
    requires forall i {:trigger was[i].prev} | 0 <= i < |was| && i != k && i != k + 1 ::
               was[i].prev == if i > 0 then was[i - 1] else null
    ensures Chain(was[..k] + was[k + 1..]) && BackChain(was[..k] + was[k + 1..])
  {
  }

  ghost predicate Within(ns: seq<Node>, frame: set<Node>) {
    forall i | 0 <= i < |ns| :: ns[i] in frame
  }

  lemma ChainTail(ns: seq<Node>)
    requires Chain(ns) && ns != []
    ensures Chain(ns[1..]) && ns[0].next == First(ns[1..])
  {
  }

  /** Cut between m - 1 and m: both halves are chains. */
  lemma SplitChain(ns: seq<Node>, m: nat)
    requires 0 < m <= |ns| && ns[m - 1].next == null
    requires forall i {:trigger ns[i].next} | 0 <= i < |ns| && i != m - 1 ::
               ns[i].next == if i + 1 < |ns| then ns[i + 1] else null
    ensures Chain(ns[..m]) && Chain(ns[m..])
  {
  }

  /** Sorting one half at a time keeps the halves apart. */
  lemma SortPermutes(a: seq<Node>, b: seq<Node>, m: nat, n: nat, cmp: (Node, Node) -> int)
    requires Distinct(a + b) && SizedSort.Fits(m, |a|) && SizedSort.Fits(n, |b|)
    ensures Distinct(SizedSort.SortSized(cmp, a, m) + b)
    ensures Distinct(SizedSort.SortSized(cmp, a, m) + SizedSort.SortSized(cmp, b, n))
  {
    SizedSort.SortSizedPermutes(cmp, a, m);
    SizedSort.SortSizedPermutes(cmp, b, n);
    DistinctPermutation(a + b, SizedSort.SortSized(cmp, a, m) + b);
    DistinctPermutation(a + b, SizedSort.SortSized(cmp, a, m) + SizedSort.SortSized(cmp, b, n));
  }

  /** Sorting the halves keeps their length and brings in no other node. */
  lemma SortWithin(cmp: (Node, Node) -> int, ns: seq<Node>, size: nat, a: seq<Node>, b: seq<Node>)
    requires size >= 2 && SizedSort.Fits(size, |ns|)
    requires a == SizedSort.SortSized(cmp, ns[..size / 2], size / 2)
    requires b == SizedSort.SortSized(cmp, ns[size / 2..], size - size / 2)
    ensures |a| + |b| == |ns| && SizedSort.SortSized(cmp, ns, size) == MergeSpec.Merge(cmp, a, b)
    ensures (forall i | 0 <= i < |a| :: a[i] in ns) && (forall i | 0 <= i < |b| :: b[i] in ns)
  {
    var m := size / 2;
    SizedSort.SortSizedLength(cmp, ns[..m], m);
    SizedSort.SortSizedLength(cmp, ns[m..], size - m);
    forall i | 0 <= i < |a| ensures a[i] in ns {
      SizedSort.SortSizedElements(cmp, ns[..m], m, a[i]);
    }
    forall i | 0 <= i < |b| ensures b[i] in ns {
      SizedSort.SortSizedElements(cmp, ns[m..], size - m, b[i]);
    }
  }

  /** Make the neighbours of the node at k point past it. */
  method Detach(node: Node, ghost was: seq<Node>, ghost k: nat)
    requires k < |was| && was[k] == node
    requires Distinct(was) && Chain(was) && BackChain(was)
    modifies node.next, node.prev
    ensures Chain(was[..k] + was[k + 1..]) && BackChain(was[..k] + was[k + 1..])
    ensures node.next == old(node.next) == At(was, k + 1)
    ensures node.prev == old(node.prev) == At(was, k - 1)
  {
    assert was[k].next == node.next && was[k].prev == node.prev;
    DistinctFrom(was, k);
    if k > 0 {
      DistinctFrom(was, k - 1);
    }
    if k + 1 < |was| {
      DistinctFrom(was, k + 1);
    }
    if node.next != null {
      node.next.prev := node.prev;
    }
    if node.prev != null {
      node.prev.next := node.next;
    }
    Unlinked(was, k);
  }

  /** Hook node in between two neighbours, either of which may be missing. */
  method Attach(prev: Node?, node: Node, next: Node?, ghost was: seq<Node>, ghost k: nat)
    requires k <= |was| && Distinct(was) && Chain(was) && BackChain(was) && node !in was
    requires prev == At(was, k - 1) && next == At(was, k)
    modifies node, prev, next
    ensures Chain(was[..k] + [node] + was[k..]) && BackChain(was[..k] + [node] + was[k..])
  {
    if k > 0 {
      DistinctFrom(was, k - 1);
    }
    if k < |was| {
      DistinctFrom(was, k);
    }
    node.prev, node.next := prev, next;
    if prev != null {
      prev.next := node;
    }
    if next != null {
      next.prev := node;
    }
    Relinked(was, k, node);
  }

  lemma PartsWithin(s: seq<Node>, m: nat)
    requires m <= |s|
    ensures forall x | x in s[..m] :: x in s
    ensures forall x | x in s[m..] :: x in s
  {
  }

  class List {
    var head: Node?
    var tail: Node?
    var size: nat
    ghost var nodes: seq<Node>
    ghost var count: int
    ghost var wraps: int

    /** The forward links, the head and the absence of cycles: what the sort goes by. */
    ghost predicate Ahead()
      reads this, nodes
    {
      && Distinct(nodes)
      && Chain(nodes)
      && head == First(nodes)
      && Wrapped(size, count, wraps)
    }

    /** The end pointer as well. */
    ghost predicate Forward()
      reads this, nodes
    {
      Ahead() && tail == Last(nodes)
    }

    /** A well-formed doubly linked list: next and prev are mutually inverse. */
    ghost predicate Linked()
      reads this, nodes
    {
      Forward() && BackChain(nodes)
    }

    ghost function View(): Abs<Node>
      reads this
    {
      Abs(nodes, count)
    }

    constructor ()
      ensures Linked() && View() == Abs([], 0)
    {
      head, tail, size := null, null, 0;
      nodes, count, wraps := [], 0, 0;
    }

    /** A list over a chain that already exists. */
    constructor Borrow(head: Node?, tail: Node?, size: nat, ghost nodes: seq<Node>)
      requires Distinct(nodes) && Chain(nodes) && head == First(nodes) && size < SIZE_MOD
      ensures Ahead() && this.nodes == nodes && this.size == size
    {
      this.head, this.tail, this.size := head, tail, size;
      this.nodes, this.count, this.wraps := nodes, size, 0;
    }

    method CountUp()
      requires Wrapped(size, count, wraps)
      modifies `size, `count, `wraps
      ensures Wrapped(size, count, wraps) && count == old(count) + 1
    {
      size := Inc(size);
      count, wraps := count + 1, if size == 0 then wraps + 1 else wraps;
    }

    method CountDown()
      requires Wrapped(size, count, wraps)
      modifies `size, `count, `wraps
      ensures Wrapped(size, count, wraps) && count == old(count) - 1
    {
      count, wraps := count - 1, if size == 0 then wraps - 1 else wraps;
      size := Dec(size);
    }

    method PushFront(node: Node)
      requires Linked() && node !in nodes
      modifies this, node, head
      ensures Linked() && View() == Apply(PushFrontOp(node), old(View()))
    {
      ghost var was := nodes;
      DistinctSplice(was, 0, node);
      assert [node] + was == was[..0] + [node] + was[0..];
      if head == null {
        tail := node;
      }
      Attach(null, node, head, was, 0);
      head := node;
      CountUp();
      nodes := [node] + was;
    }

    method PushBack(node: Node)
      requires Linked() && node !in nodes
      modifies this, node, tail
      ensures Linked() && View() == Apply(PushBackOp(node), old(View()))
    {
      ghost var was := nodes;
      DistinctSplice(was, |was|, node);
      assert was + [node] == was[..|was|] + [node] + was[|was|..];
      if tail == null {
        head := node;
      }
      Attach(tail, node, null, was, |was|);
      tail := node;
      CountUp();
      nodes := was + [node];
    }

    /** The removed node keeps its own links, so a caller may still walk on from it. */
    method Remove(node: Node)
      requires Linked() && node in nodes
      modifies this, node.next, node.prev
      ensures Linked() && View() == Apply(RemoveOp(node), old(View()))
      ensures node.next == old(node.next) && node.prev == old(node.prev)
    {
      ghost var k, was := IndexOf(nodes, node), nodes;
      DistinctCut(was, k);
      DistinctFrom(was, k);
      ghost var ns := was[..k] + was[k + 1..];
      Detach(node, was, k);
      if head == node {
        head := node.next;
      }
      if tail == node {
        tail := node.prev;
      }
      assert head == First(ns) && tail == Last(ns);
      CountDown();
      nodes := ns;
    }

    method Clear()
      modifies this
      ensures Linked() && View() == Abs([], 0)
    {
      head, tail, size := null, null, 0;
      nodes, count, wraps := [], 0, 0;
    }

    method Find(p: Node -> bool) returns (r: Node?)
      requires Linked()
      ensures r == null <==> forall n | n in nodes :: !p(n)
      ensures r != null ==> FirstMatch(p, nodes) == Some(r)
    {
      r := head;
      ghost var k := 0;
      while r != null
        invariant 0 <= k <= |nodes|
        invariant r == First(nodes[k..])
        invariant forall n | n in nodes[..k] :: !p(n)
        decreases |nodes| - k
      {
        assert r == nodes[k];
        if p(r) {
          FirstMatchAt(p, nodes, k);
          return;
        }
        r := r.next;
        k := k + 1;
      }
    }

    /** size is not touched here. */
    method InsertBefore(before: Node, node: Node)
      requires Linked() && before in nodes && node !in nodes
      modifies this, node, before, before.prev
      ensures Linked() && View() == Apply(InsertBeforeOp(before, node), old(View()))
    {
      ghost var k, was := IndexOf(nodes, before), nodes;
      DistinctSplice(was, k, node);
      assert was[k].prev == before.prev;
      if before.prev == null {
        head := node;
      }
      Attach(before.prev, node, before, was, k);
      ghost var ns := was[..k] + [node] + was[k..];
      assert head == First(ns) && tail == Last(ns);
      nodes := ns;
    }

    /** Nor here. */
    method InsertAfter(after: Node, node: Node)
      requires Linked() && after in nodes && node !in nodes
      modifies this, node, after, after.next
      ensures Linked() && View() == Apply(InsertAfterOp(after, node), old(View()))
    {
      ghost var k, was := IndexOf(nodes, after), nodes;
      DistinctSplice(was, k + 1, node);
      assert was[k].next == after.next;
      if after.next == null {
        tail := node;
      }
      Attach(after, node, after.next, was, k + 1);
      ghost var ns := was[..k + 1] + [node] + was[k + 1..];
      assert head == First(ns) && tail == Last(ns);
      nodes := ns;
    }

    method RemoveFirst(p: Node -> bool) returns (ok: bool)
      requires Linked()
      modifies this, nodes
      ensures Linked() && View() == Apply(RemoveFirstOp(p), old(View()))
      ensures ok <==> exists n | n in old(nodes) :: p(n)
    {
      var temp := head;
      var found := false;
      ghost var k := 0;
      while temp != null
        invariant 0 <= k <= |nodes|
        invariant temp == First(nodes[k..])
        invariant forall n | n in nodes[..k] :: !p(n)
        invariant !found
        decreases |nodes| - k
      {
        assert temp == nodes[k];
        if p(temp) {
          FirstMatchAt(p, nodes, k);
          found := true;
          break;
        }
        temp := temp.next;
        k := k + 1;
      }
      if !found {
        NoFirstMatch(p, nodes);
        return false;
      }
      Remove(temp);
      return true;
    }

    method RemoveLast(p: Node -> bool) returns (ok: bool)
      requires Linked()
      modifies this, nodes
      ensures Linked() && View() == Apply(RemoveLastOp(p), old(View()))
      ensures ok <==> exists n | n in old(nodes) :: p(n)
    {
      var temp := tail;
      var found := false;
      ghost var k := |nodes|;
      while temp != null
        invariant 0 <= k <= |nodes|
        invariant temp == Last(nodes[..k])
        invariant forall i | k <= i < |nodes| :: !p(nodes[i])
        invariant !found
        decreases k
      {
        assert temp == nodes[k - 1];
        if p(temp) {
          LastMatchAt(p, nodes, k - 1);
          found := true;
          break;
        }
        temp := temp.prev;
        k := k - 1;
      }
      if !found {
        NoLastMatch(p, nodes);
        return false;
      }
      Remove(temp);
      return true;
    }

    /** One step of the merge: move the head of the chain `own` to the end of this list and return
        the rest of that chain. The chain `other` is not disturbed. */
    method Move(node: Node, ghost own: seq<Node>, ghost other: seq<Node>) returns (next: Node?)
      requires Linked() && own != [] && node == own[0]
      requires Chain(own) && Chain(other) && Distinct(nodes + own + other)
      modifies this, node, tail
      ensures Linked() && nodes == old(nodes) + [node] && count == old(count) + 1
      ensures Chain(own[1..]) && next == First(own[1..]) && Chain(other)
      ensures Distinct(nodes + own[1..] + other)
    {
      MovedApart(nodes, own, other);
      assert tail != null ==> tail in nodes;
      ChainTail(own);
      next := node.next;
      PushBack(node);
    }

    /** Move a whole chain. */
    method Drain(from: Node?, ghost rest: seq<Node>)
      requires Linked() && Chain(rest) && from == First(rest) && Distinct(nodes + rest)
      modifies this, nodes, rest
      ensures Linked() && nodes == old(nodes) + rest
      ensures count == old(count) + |rest|
    {
      ghost var left, was := rest, nodes;
      var node := from;
      while node != null
        invariant Linked() && Chain(left) && node == First(left)
        invariant Distinct(nodes + left) && nodes + left == was + rest
        invariant count == old(count) + |nodes| - |was|
        decreases |left|
      {
        assert nodes + left + [] == nodes + left;
        MovedApart(nodes, left, []);
        assert node in nodes + left && (tail != null ==> tail in nodes + left);
        node := Move(node, left, []);
        left := left[1..];
        assert nodes + left + [] == nodes + left;
      }
    }

    /** One comparison of the merge: the smaller head moves over. */
    method MergeStep(left: Node, right: Node, ghost ls: seq<Node>, ghost rs: seq<Node>,
                     ghost frame: set<Node>, cmp: (Node, Node) -> int)
      returns (lnext: Node?, rnext: Node?, ghost ls': seq<Node>, ghost rs': seq<Node>)
      requires Linked() && Chain(ls) && Chain(rs) && Distinct(nodes + ls + rs)
      requires ls != [] && rs != [] && left == ls[0] && right == rs[0]
      requires Within(nodes, frame) && Within(ls, frame) && Within(rs, frame)
      modifies this, left, right, tail
      ensures Within(nodes, frame) && Within(ls', frame) && Within(rs', frame)
      ensures Linked() && Chain(ls') && Chain(rs') && Distinct(nodes + ls' + rs')
      ensures lnext == First(ls') && rnext == First(rs')
      ensures nodes + MergeSpec.Merge(cmp, ls', rs') == old(nodes) + MergeSpec.Merge(cmp, ls, rs)
      ensures (nodes == old(nodes) + [left] && ls' == ls[1..] && rs' == rs)
           || (nodes == old(nodes) + [right] && ls' == ls && rs' == rs[1..])
      ensures count == old(count) + 1
    {
      ghost var was := nodes;
      lnext, rnext, ls', rs' := left, right, ls, rs;
      if cmp(left, right) == -1 {
        lnext := Move(left, ls, rs);
        ls' := ls[1..];
        assert was + ([left] + MergeSpec.Merge(cmp, ls', rs)) == nodes + MergeSpec.Merge(cmp, ls', rs);
      } else {
        SwapTail(nodes, ls, rs);
        rnext := Move(right, rs, ls);
        rs' := rs[1..];
        SwapTail(nodes, rs', ls);
        assert was + ([right] + MergeSpec.Merge(cmp, ls, rs')) == nodes + MergeSpec.Merge(cmp, ls, rs');
      }
    }

    /** The first loop of the merge: compare heads until one chain runs out. */
    method MergeHeads(left: Node?, right: Node?, ghost l: seq<Node>, ghost r: seq<Node>, cmp: (Node, Node) -> int)
      returns (lrest: Node?, rrest: Node?, ghost ls: seq<Node>, ghost rs: seq<Node>)
      requires Linked() && nodes == [] && Chain(l) && Chain(r) && Distinct(l + r)
      requires left == First(l) && right == First(r)
      modifies this, l, r
      ensures Linked() && Chain(ls) && Chain(rs) && Distinct(nodes + ls + rs)
      ensures lrest == First(ls) && rrest == First(rs) && (ls == [] || rs == [])
      ensures nodes + MergeSpec.Merge(cmp, ls, rs) == MergeSpec.Merge(cmp, l, r)
      ensures nodes + (ls + rs) == MergeSpec.Merge(cmp, l, r)
      ensures var frame := (set x | x in l) + (set x | x in r);
              Within(nodes, frame) && Within(ls, frame) && Within(rs, frame)
      ensures |nodes| + |ls| + |rs| == |l| + |r|
      ensures count == old(count) + |nodes|
    {
      lrest, rrest, ls, rs := left, right, l, r;
      ghost var frame := (set x | x in l) + (set x | x in r);
      assert [] + l + r == l + r;
      while lrest != null && rrest != null
        invariant Linked() && Chain(ls) && Chain(rs)
        invariant lrest == First(ls) && rrest == First(rs)
        invariant Distinct(nodes + ls + rs)
        invariant Within(nodes, frame) && Within(ls, frame) && Within(rs, frame)
        invariant nodes + MergeSpec.Merge(cmp, ls, rs) == MergeSpec.Merge(cmp, l, r)
        invariant |nodes| + |ls| + |rs| == |l| + |r|
        invariant count == old(count) + |nodes|
        decreases |ls| + |rs|
      {
        assert lrest in frame && rrest in frame && (tail != null ==> tail in frame);
        lrest, rrest, ls, rs := MergeStep(lrest, rrest, ls, rs, frame, cmp);
      }
      assert ls + rs == MergeSpec.Merge(cmp, ls, rs);
    }

    /** The two loops after it: whatever either chain has left moves over as it stands. */
    method DrainBoth(left: Node?, right: Node?, ghost ls: seq<Node>, ghost rs: seq<Node>)
      requires Linked() && Chain(ls) && Chain(rs) && Distinct(nodes + ls + rs)
      requires left == First(ls) && right == First(rs)
      modifies this, nodes, ls, rs
      ensures Linked() && nodes == old(nodes) + (ls + rs)
      ensures count == old(count) + |ls| + |rs|
    {
      DistinctApart(nodes + ls, rs);
      forall i | 0 <= i < |rs| ensures rs[i] !in nodes && rs[i] !in ls {
        assert rs[i] in rs && rs[i] !in nodes + ls;
      }
      Drain(left, ls);
      assert Chain(rs);
      Drain(right, rs);
      assert nodes == old(nodes) + ls + rs == old(nodes) + (ls + rs);
    }

    /** The merge. The end pointers are cleared first, but size is not, so it counts the nodes on
        top of what it held. */
    method MergeFrom(left: Node?, right: Node?, ghost l: seq<Node>, ghost r: seq<Node>, cmp: (Node, Node) -> int)
      requires Chain(l) && Chain(r) && Distinct(l + r)
      requires left == First(l) && right == First(r) && Wrapped(size, count, wraps)
      modifies this, l, r
      ensures Linked() && nodes == MergeSpec.Merge(cmp, l, r)
      ensures count == old(count) + |l| + |r|
    {
      head, tail := null, null;
      nodes := [];
      var lrest, rrest;
      ghost var ls, rs;
      lrest, rrest, ls, rs := MergeHeads(left, right, l, r, cmp);
      DrainBoth(lrest, rrest, ls, rs);
    }

    /** The two recursive calls: they work on disjoint chains. */
    static method SortHalves(list1: List, list2: List, ghost a': seq<Node>, ghost b': seq<Node>, cmp: (Node, Node) -> int)
      requires list1 != list2 && list1.Ahead() && list2.Ahead()
      requires 1 <= list1.size && SizedSort.Fits(list1.size, |list1.nodes|)
      requires 1 <= list2.size && SizedSort.Fits(list2.size, |list2.nodes|)
      requires Distinct(list1.nodes + list2.nodes)
      requires a' == SizedSort.SortSized(cmp, list1.nodes, list1.size)
      requires b' == SizedSort.SortSized(cmp, list2.nodes, list2.size)
      modifies list1, list2, list1.nodes, list2.nodes
      ensures list1.Ahead() && list2.Ahead()
      ensures list1.nodes == a' && list2.nodes == b'
      ensures Distinct(list1.nodes + list2.nodes)
      decreases list1.size + list2.size, 0
    {
      ghost var a, b := list1.nodes, list2.nodes;
      SortPermutes(a, b, list1.size, list2.size, cmp);
      DistinctApart(a, b);
      assert forall i | 0 <= i < |b| :: b[i] in b && b[i] !in a;
      list1.SortAhead(cmp);
      assert list2.nodes == b && Chain(b);
      DistinctApart(a', b);
      assert forall i | 0 <= i < |a'| :: a'[i] in a' && a'[i] !in b;
      list2.SortAhead(cmp);
      assert list1.nodes == a' && Chain(a');
    }

    /** Walk to the m-th node. */
    method Walk(m: nat) returns (node: Node)
      requires Ahead() && 1 <= m <= |nodes|
      ensures node == nodes[m - 1]
    {
      node := head;
      var i := 1;
      while i < m
        invariant 1 <= i <= m && node == nodes[i - 1]
      {
        assert nodes[i - 1].next == nodes[i];
        node := node.next;
        i := i + 1;
      }
    }

    /** Cut the chain in the middle, as the size has it, into two lists that borrow its nodes. The second
        may be left with no node, and its end pointer with one that is not its own. */
    method Cut() returns (list1: List, list2: List)
      requires Ahead() && 2 <= size && size / 2 <= |nodes|
      modifies nodes
      ensures fresh(list1) && fresh(list2) && list1 != list2
      ensures list1.Ahead() && list2.Ahead()
      ensures list1.size == size / 2 && list2.size == size - size / 2
      ensures list1.nodes == nodes[..size / 2] && list2.nodes == nodes[size / 2..]
      ensures Distinct(list1.nodes + list2.nodes)
    {
      var m := size / 2;
      var node := Walk(m);
      ghost var a, b := nodes[..m], nodes[m..];
      assert nodes == a + b;
      DistinctApart(a, b);
      DistinctFrom(nodes, m - 1);
      assert node.next == First(b) by { assert nodes[m - 1].next == At(nodes, m); }
      var right := node.next;
      node.next := null;
      SplitChain(nodes, m);
      list1 := new List.Borrow(head, node, m, a);
      list2 := new List.Borrow(right, tail, size - m, b);
    }

    /** The in-place merge sort. It goes by the size, which must not lead it through NULL, only needs the
        forward links, and leaves both directions right when there was anything to do. */
    method MergeSort(cmp: (Node, Node) -> int)
      requires Linked() && SizedSort.Fits(size, |nodes|)
      modifies this, nodes
      ensures Linked() && View() == Apply(SortOp(cmp), old(View()))
    {
      StoredIs(size, count, wraps);
      SortAhead(cmp);
    }

    method SortAhead(cmp: (Node, Node) -> int)
      requires Ahead() && SizedSort.Fits(size, |nodes|)
      modifies this, nodes
      ensures Ahead() && nodes == SizedSort.SortSized(cmp, old(nodes), old(size))
      ensures count == old(count) + if old(size) < 2 then 0 else old(|nodes|)
      ensures old(size) >= 2 || old(Linked()) ==> Linked()
      decreases size, 3
    {
      if size < 2 {
        return;
      }
      SortAndMerge(cmp);
    }

    /** The body of the sort when the size is two or more. */
    method SortAndMerge(cmp: (Node, Node) -> int)
      requires Ahead() && 2 <= size && SizedSort.Fits(size, |nodes|)
      modifies this, nodes
      ensures Linked() && nodes == SizedSort.SortSized(cmp, old(nodes), old(size))
      ensures count == old(count) + old(|nodes|)
      decreases size, 2
    {
      ghost var a := SizedSort.SortSized(cmp, nodes[..size / 2], size / 2);
      ghost var b := SizedSort.SortSized(cmp, nodes[size / 2..], size - size / 2);
      SortWithin(cmp, nodes, size, a, b);
      var left, right := SortParts(a, b, cmp);
      MergeFrom(left, right, a, b, cmp);
    }

    /** The chain is cut and each part sorted. */
    method SortParts(ghost a: seq<Node>, ghost b: seq<Node>, cmp: (Node, Node) -> int)
      returns (left: Node?, right: Node?)
      requires Ahead() && 2 <= size && SizedSort.Fits(size, |nodes|)
      requires a == SizedSort.SortSized(cmp, nodes[..size / 2], size / 2)
      requires b == SizedSort.SortSized(cmp, nodes[size / 2..], size - size / 2)
      modifies nodes
      ensures Chain(a) && Chain(b) && Distinct(a + b) && left == First(a) && right == First(b)
      decreases size, 1
    {
      PartsWithin(nodes, size / 2);
      var list1, list2 := Cut();
      SortHalves(list1, list2, a, b, cmp);
      left, right := list1.head, list2.head;
    }
  }
}

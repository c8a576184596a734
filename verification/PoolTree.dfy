/** Clearing and destroying a tree of pools, on values. */
module PoolTree {
  import opened PoolModel
  import opened PoolRuns
  import opened PoolTheorems

  /** First child, next brother. */
  datatype Tree = Nil | Cons(pool: Pool, child: Tree, brother: Tree)

  /** What happens during a teardown: a cleanup runs, a memnode goes back to the system, or the slots
      in a pool's header, which lies in the region home, are looked at. */
  datatype Event = Ran(task: Task) | Freed(region: nat) | Looked(home: nat)

  function Rans(cs: seq<Cleanup>): seq<Event> {
    if cs == [] then [] else [Ran(cs[0].task)] + Rans(cs[1..])
  }

  function ChainFrees(c: seq<Node>): seq<Event> {
    if c == [] then [] else [Freed(c[0].region)] + ChainFrees(c[1..])
  }

  function Frees(home: nat, s: Slots): seq<Event> {
    if s == [] then [] else [Looked(home)] + ChainFrees(s[0]) + Frees(home, s[1..])
  }

  lemma ChainFreesNext(c: seq<Node>, j: nat, done: seq<Event>)
    requires j < |c|
    ensures done + ChainFrees(c[j..]) == (done + [Freed(c[j].region)]) + ChainFrees(c[j + 1..])
  {
  }

  lemma FreesNext(home: nat, s: Slots, i: nat, done: seq<Event>)
    requires i < |s|
    ensures done + Frees(home, s[i..]) == (done + [Looked(home)] + ChainFrees(s[i])) + Frees(home, s[i + 1..])
  {
    assert s[i..][1..] == s[i + 1..];
  }

  /** fpx_pool_clear on the first pool of t, its descendants, and the brothers after it. */
  function ClearEvents(t: Tree): seq<Event> {
    match t
    case Nil => []
    case Cons(p, child, brother) => Rans(p.cleanups) + ClearEvents(child) + ClearEvents(brother)
  }

  /** fpx_pool_destroy likewise. */
  function DestroyEvents(t: Tree): seq<Event> {
    match t
    case Nil => []
    case Cons(p, child, brother) => Rans(p.cleanups) + DestroyEvents(child) + Frees(p.home, p.slots) + DestroyEvents(brother)
  }

  function ClearedTree(t: Tree): Tree {
    match t
    case Nil => Nil
    case Cons(p, child, brother) => Cons(Cleared(p), ClearedTree(child), ClearedTree(brother))
  }

  /** A pool before its descendants, these before its brothers. */
  function Preorder(t: Tree): seq<Pool> {
    match t
    case Nil => []
    case Cons(p, child, brother) => [p] + Preorder(child) + Preorder(brother)
  }

  lemma ClearFirst(p: Pool, child: Tree, before: seq<Event>)
    ensures before + ClearEvents(Cons(p, child, Nil)) == before + Rans(p.cleanups) + ClearEvents(child)
  {
  }

  lemma ClearNext(p: Pool, child: Tree, brother: Tree, before: seq<Event>)
    ensures before + ClearEvents(Cons(p, child, brother)) ==
            before + ClearEvents(Cons(p, child, Nil)) + ClearEvents(brother)
  {
  }

  lemma DestroyFirst(p: Pool, child: Tree, before: seq<Event>)
    ensures before + DestroyEvents(Cons(p, child, Nil)) ==
            before + Rans(p.cleanups) + DestroyEvents(child) + Frees(p.home, p.slots)
  {
  }

  lemma DestroyNext(p: Pool, child: Tree, brother: Tree, before: seq<Event>)
    ensures before + DestroyEvents(Cons(p, child, brother)) ==
            before + DestroyEvents(Cons(p, child, Nil)) + DestroyEvents(brother)
  {
  }

  // ------------------------------------------------------------ cleanups

  /** The cleanups that ran, in order. */
  function TasksRun(es: seq<Event>): seq<Task> {
    if es == [] then []
    else (if es[0].Ran? then [es[0].task] else []) + TasksRun(es[1..])
  }

  /** The cleanups registered with the pools, pool by pool, last-added first. */
  function Registered(ps: seq<Pool>): seq<Task> {
    if ps == [] then [] else Tasks(ps[0].cleanups) + Registered(ps[1..])
  }

  lemma {:induction false} TasksRunConcat(a: seq<Event>, b: seq<Event>)
    ensures TasksRun(a + b) == TasksRun(a) + TasksRun(b)
  {
    if a == [] {
      assert a + b == b;
    } else {
      assert (a + b)[0] == a[0] && (a + b)[1..] == a[1..] + b;
      TasksRunConcat(a[1..], b);
    }
  }

  lemma {:induction false} RegisteredConcat(a: seq<Pool>, b: seq<Pool>)
    ensures Registered(a + b) == Registered(a) + Registered(b)
  {
    if a == [] {
      assert a + b == b;
    } else {
      assert (a + b)[0] == a[0] && (a + b)[1..] == a[1..] + b;
      RegisteredConcat(a[1..], b);
    }
  }

  lemma {:induction false} RansRun(cs: seq<Cleanup>)
    ensures TasksRun(Rans(cs)) == Tasks(cs)
  {
    if cs != [] {
      RansRun(cs[1..]);
      assert Tasks(cs) == [cs[0].task] + Tasks(cs[1..]);
    }
  }

  lemma {:induction false} ChainFreesRun(c: seq<Node>)
    ensures TasksRun(ChainFrees(c)) == []
  {
    if c != [] {
      ChainFreesRun(c[1..]);
    }
  }

  lemma {:induction false} FreesRun(home: nat, s: Slots)
    ensures TasksRun(Frees(home, s)) == []
  {
    if s != [] {
      FreesRun(home, s[1..]);
      ChainFreesRun(s[0]);
      TasksRunConcat([Looked(home)] + ChainFrees(s[0]), Frees(home, s[1..]));
      TasksRunConcat([Looked(home)], ChainFrees(s[0]));
    }
  }

  lemma RegisteredCons(p: Pool, child: Tree, brother: Tree)
    ensures Registered(Preorder(Cons(p, child, brother))) ==
            Tasks(p.cleanups) + Registered(Preorder(child)) + Registered(Preorder(brother))
  {
    RegisteredConcat([p] + Preorder(child), Preorder(brother));
    RegisteredConcat([p], Preorder(child));
    assert Registered([p]) == Tasks(p.cleanups) + [];
  }

  /** Clear runs every cleanup registered with the pools of the tree exactly once, in preorder and,
      within a pool, last-added first. */
  lemma {:induction false} ClearRunsInPreorder(t: Tree)
    ensures TasksRun(ClearEvents(t)) == Registered(Preorder(t))
  {
    match t {
      case Nil =>
      case Cons(p, child, brother) =>
        ClearRunsInPreorder(child);
        ClearRunsInPreorder(brother);
        TasksRunConcat(Rans(p.cleanups) + ClearEvents(child), ClearEvents(brother));
        TasksRunConcat(Rans(p.cleanups), ClearEvents(child));
        RansRun(p.cleanups);
        RegisteredCons(p, child, brother);
    }
  }

  /** So does destroy. */
  lemma {:induction false} DestroyRunsInPreorder(t: Tree)
    ensures TasksRun(DestroyEvents(t)) == Registered(Preorder(t))
  {
    match t {
      case Nil =>
      case Cons(p, child, brother) =>
        DestroyRunsInPreorder(child);
        DestroyRunsInPreorder(brother);
        TasksRunConcat(Rans(p.cleanups) + DestroyEvents(child) + Frees(p.home, p.slots), DestroyEvents(brother));
        TasksRunConcat(Rans(p.cleanups) + DestroyEvents(child), Frees(p.home, p.slots));
        TasksRunConcat(Rans(p.cleanups), DestroyEvents(child));
        RansRun(p.cleanups);
        FreesRun(p.home, p.slots);
        RegisteredCons(p, child, brother);
    }
  }

  // ------------------------------------------------------------ releases

  /** The regions given back to the system, by a cleanup or by destroy itself. */
  function Released(es: seq<Event>): seq<nat> {
    if es == [] then []
    else
      (match es[0]
       case Freed(region) => [region]
       case Ran(Release(region)) => [region]
       case Ran(Call(_, _)) => []
       case Looked(_) => []) + Released(es[1..])
  }

  function Releases(cs: seq<Cleanup>): seq<nat> {
    if cs == [] then []
    else (if cs[0].task.Release? then [cs[0].task.region] else []) + Releases(cs[1..])
  }

  function ChainRegions(c: seq<Node>): seq<nat> {
    if c == [] then [] else [c[0].region] + ChainRegions(c[1..])
  }

  function NodeRegions(s: Slots): seq<nat> {
    if s == [] then [] else ChainRegions(s[0]) + NodeRegions(s[1..])
  }

  /** What a pool owns, each region as often as it will be released. */
  function Owned(p: Pool): multiset<nat> {
    multiset(Releases(p.cleanups)) + multiset(NodeRegions(p.slots))
  }

  function AllOwned(ps: seq<Pool>): multiset<nat> {
    if ps == [] then multiset{} else Owned(ps[0]) + AllOwned(ps[1..])
  }

  lemma {:induction false} ReleasedConcat(a: seq<Event>, b: seq<Event>)
    ensures Released(a + b) == Released(a) + Released(b)
  {
    if a == [] {
      assert a + b == b;
    } else {
      assert (a + b)[0] == a[0] && (a + b)[1..] == a[1..] + b;
      ReleasedConcat(a[1..], b);
    }
  }

  lemma {:induction false} AllOwnedConcat(a: seq<Pool>, b: seq<Pool>)
    ensures AllOwned(a + b) == AllOwned(a) + AllOwned(b)
  {
    if a == [] {
      assert a + b == b;
    } else {
      assert (a + b)[0] == a[0] && (a + b)[1..] == a[1..] + b;
      AllOwnedConcat(a[1..], b);
    }
  }

  lemma {:induction false} RansRelease(cs: seq<Cleanup>)
    ensures Released(Rans(cs)) == Releases(cs)
  {
    if cs != [] {
      RansRelease(cs[1..]);
    }
  }

  lemma {:induction false} ChainFreesRelease(c: seq<Node>)
    ensures Released(ChainFrees(c)) == ChainRegions(c)
  {
    if c != [] {
      ChainFreesRelease(c[1..]);
    }
  }

  lemma {:induction false} FreesRelease(home: nat, s: Slots)
    ensures Released(Frees(home, s)) == NodeRegions(s)
  {
    if s != [] {
      FreesRelease(home, s[1..]);
      ChainFreesRelease(s[0]);
      ReleasedConcat([Looked(home)] + ChainFrees(s[0]), Frees(home, s[1..]));
      ReleasedConcat([Looked(home)], ChainFrees(s[0]));
    }
  }

  lemma ReleasedCons(p: Pool, child: Tree, brother: Tree)
    ensures Released(DestroyEvents(Cons(p, child, brother))) ==
            Releases(p.cleanups) + Released(DestroyEvents(child)) + NodeRegions(p.slots) + Released(DestroyEvents(brother))
  {
    ReleasedConcat(Rans(p.cleanups) + DestroyEvents(child) + Frees(p.home, p.slots), DestroyEvents(brother));
    ReleasedConcat(Rans(p.cleanups) + DestroyEvents(child), Frees(p.home, p.slots));
    ReleasedConcat(Rans(p.cleanups), DestroyEvents(child));
    RansRelease(p.cleanups);
    FreesRelease(p.home, p.slots);
  }

  lemma OwnedCons(p: Pool, child: Tree, brother: Tree)
    ensures AllOwned(Preorder(Cons(p, child, brother))) ==
            Owned(p) + AllOwned(Preorder(child)) + AllOwned(Preorder(brother))
  {
    AllOwnedConcat([p] + Preorder(child), Preorder(brother));
    AllOwnedConcat([p], Preorder(child));
    assert AllOwned([p]) == Owned(p) + multiset{};
  }

  /** Destroy gives back what the pools of the tree own, and nothing else. */
  lemma {:induction false} DestroyReleasesOwned(t: Tree)
    ensures multiset(Released(DestroyEvents(t))) == AllOwned(Preorder(t))
  {
    match t {
      case Nil =>
      case Cons(p, child, brother) =>
        DestroyReleasesOwned(child);
        DestroyReleasesOwned(brother);
        ReleasedCons(p, child, brother);
        OwnedCons(p, child, brother);
    }
  }

  // ------------------------------------------------------------ exactly once

  lemma {:induction false} InChainRegions(c: seq<Node>, region: nat)
    ensures region in ChainRegions(c) <==> exists j :: 0 <= j < |c| && c[j].region == region
  {
    if c != [] {
      InChainRegions(c[1..], region);
      if j: int :| 0 <= j < |c[1..]| && c[1..][j].region == region {
        assert c[j + 1].region == region;
      }
      if j: int :| 0 <= j < |c| && c[j].region == region && j > 0 {
        assert c[1..][j - 1].region == region;
      }
    }
  }

  lemma {:induction false} InNodeRegions(s: Slots, region: nat)
    ensures region in NodeRegions(s) <==> NodeRegion(s, region)
  {
    if s != [] {
      InChainRegions(s[0], region);
      InNodeRegions(s[1..], region);
      if j: int :| 0 <= j < |s[0]| && s[0][j].region == region {
        assert At(s, 0, j);
      }
      if i: int, j: int :| At(s[1..], i, j) && s[1..][i][j].region == region {
        assert At(s, i + 1, j);
      }
      if i: int, j: int :| At(s, i, j) && s[i][j].region == region && i > 0 {
        assert At(s[1..], i - 1, j);
      }
    }
  }

  lemma {:induction false} ChainOnce(c: seq<Node>, region: nat)
    requires forall j, k | 0 <= j < |c| && 0 <= k < |c| && c[j].region == c[k].region :: j == k
    ensures multiset(ChainRegions(c))[region] <= 1
  {
    if c != [] {
      forall j, k | 0 <= j < |c[1..]| && 0 <= k < |c[1..]| && c[1..][j].region == c[1..][k].region ensures j == k {
        assert c[j + 1].region == c[k + 1].region;
      }
      ChainOnce(c[1..], region);
      InChainRegions(c[1..], region);
    }
  }

  lemma {:induction false} NodesOnce(s: Slots, region: nat)
    requires Unique(s)
    ensures multiset(NodeRegions(s))[region] <= 1
  {
    if s != [] {
      forall j, k | 0 <= j < |s[0]| && 0 <= k < |s[0]| && s[0][j].region == s[0][k].region ensures j == k {
        assert At(s, 0, j) && At(s, 0, k);
      }
      ChainOnce(s[0], region);
      forall i, j, k, l | At(s[1..], i, j) && At(s[1..], k, l) && s[1..][i][j].region == s[1..][k][l].region
        ensures i == k && j == l
      {
        assert At(s, i + 1, j) && At(s, k + 1, l);
      }
      NodesOnce(s[1..], region);
      NotTwice(s, region);
    }
  }

  lemma NotTwice(s: Slots, region: nat)
    requires Unique(s) && s != []
    ensures !(region in ChainRegions(s[0]) && region in NodeRegions(s[1..]))
  {
    InChainRegions(s[0], region);
    InNodeRegions(s[1..], region);
  }

  lemma {:induction false} ReleasesOnce(cs: seq<Cleanup>, region: nat)
    requires forall x, y | 0 <= x < y < |cs| && cs[x].task.Release? :: cs[x].task != cs[y].task
    ensures multiset(Releases(cs))[region] == if HasRelease(cs, region) then 1 else 0
  {
    if cs != [] {
      ReleasesOnce(cs[1..], region);
      if HasRelease(cs[1..], region) {
        var x :| 0 <= x < |cs[1..]| && cs[1..][x].task == Release(region);
        assert cs[x + 1].task == Release(region);
      }
      if x: int :| 0 <= x < |cs| && cs[x].task == Release(region) && x > 0 {
        assert cs[1..][x - 1].task == Release(region);
      }
    }
  }

  lemma OwnedOnce(l: Live, issued: nat, region: nat)
    requires PoolOk(l, issued)
    ensures Owned(l.pool)[region] == if Owns(l.pool, region) then 1 else 0
  {
    NodesOnce(l.pool.slots, region);
    InNodeRegions(l.pool.slots, region);
    ReleasesOnce(l.pool.cleanups, region);
  }

  /** The pools at the given places of a process. */
  function Picked(s: Process, ks: seq<nat>): seq<Pool>
    requires forall x | 0 <= x < |ks| :: ks[x] < |s.pools|
  {
    seq(|ks|, x requires 0 <= x < |ks| => s.pools[ks[x]].pool)
  }

  lemma {:induction false} PickedOnce(s: Process, ks: seq<nat>, region: nat)
    requires ProcessOk(s) && (forall x | 0 <= x < |ks| :: ks[x] < |s.pools|)
    requires forall x, y | 0 <= x < y < |ks| :: ks[x] != ks[y]
    ensures AllOwned(Picked(s, ks))[region] ==
            if exists x :: 0 <= x < |ks| && Owns(s.pools[ks[x]].pool, region) then 1 else 0
  {
    if ks != [] {
      var rest := ks[1..];
      assert Picked(s, ks)[1..] == Picked(s, rest);
      forall x, y | 0 <= x < y < |rest| ensures rest[x] != rest[y] {
        assert ks[x + 1] != ks[y + 1];
      }
      PickedOnce(s, rest, region);
      OwnedOnce(s.pools[ks[0]], s.issued, region);
      if x: int :| 0 <= x < |rest| && Owns(s.pools[rest[x]].pool, region) {
        assert rest[x] == ks[x + 1] && ks[0] != ks[x + 1];
        if Owns(s.pools[ks[0]].pool, region) {
          OneOwner(s, ks[0], ks[x + 1], region);
        }
      }
      if x: int :| 0 <= x < |ks| && Owns(s.pools[ks[x]].pool, region) && x > 0 {
        assert rest[x - 1] == ks[x];
      }
    }
  }

  /** After any run, destroying a tree of pools of the process gives back every memnode and every
      oversized block of these pools exactly once, and no other region. */
  lemma DestroyReleasesOnce(acts: seq<Act>, t: Tree, ks: seq<nat>, region: nat)
    requires LegalRun(INITIAL, acts) && AllTame(acts)
    requires forall x | 0 <= x < |ks| :: ks[x] < |Run(INITIAL, acts).pools|
    requires forall x, y | 0 <= x < y < |ks| :: ks[x] != ks[y]
    requires Preorder(t) == Picked(Run(INITIAL, acts), ks)
    ensures multiset(Released(DestroyEvents(t)))[region] ==
            if exists x :: 0 <= x < |ks| && Owns(Run(INITIAL, acts).pools[ks[x]].pool, region) then 1 else 0
  {
    RunKeeps(INITIAL, acts);
    DestroyReleasesOwned(t);
    PickedOnce(Run(INITIAL, acts), ks, region);
  }

  /** Clear leaves every pool of the tree with no cleanups and every memnode full. */
  lemma {:induction false} ClearLeavesAllFull(t: Tree, k: int)
    requires 0 <= k < |Preorder(ClearedTree(t))|
    ensures var p := Preorder(ClearedTree(t))[k];
            && p.cleanups == []
            && forall i, j | At(p.slots, i, j) ::
                 p.slots[i][j].firstAvail == p.slots[i][j].begin && p.slots[i][j].sizeAvail == p.slots[i][j].size
  {
    match t {
      case Cons(p, child, brother) =>
        if k == 0 {
        } else if k <= |Preorder(ClearedTree(child))| {
          ClearLeavesAllFull(child, k - 1);
        } else {
          ClearLeavesAllFull(brother, k - 1 - |Preorder(ClearedTree(child))|);
        }
    }
  }

  // ------------------------------------------------------------ the order in which memnodes go back

  /** The memnodes given back, in order. */
  function FreedIn(es: seq<Event>): seq<nat> {
    if es == [] then [] else (if es[0].Freed? then [es[0].region] else []) + FreedIn(es[1..])
  }

  /** A pool after its descendants, and before its brothers. */
  function Postorder(t: Tree): seq<Pool> {
    match t
    case Nil => []
    case Cons(p, child, brother) => Postorder(child) + [p] + Postorder(brother)
  }

  /** The memnodes of the pools, pool by pool, slot by slot, newest first. */
  function AllNodes(ps: seq<Pool>): seq<nat> {
    if ps == [] then [] else NodeRegions(ps[0].slots) + AllNodes(ps[1..])
  }

  lemma {:induction false} FreedInConcat(a: seq<Event>, b: seq<Event>)
    ensures FreedIn(a + b) == FreedIn(a) + FreedIn(b)
  {
    if a == [] {
      assert a + b == b;
    } else {
      assert (a + b)[0] == a[0] && (a + b)[1..] == a[1..] + b;
      FreedInConcat(a[1..], b);
    }
  }

  lemma {:induction false} AllNodesConcat(a: seq<Pool>, b: seq<Pool>)
    ensures AllNodes(a + b) == AllNodes(a) + AllNodes(b)
  {
    if a == [] {
      assert a + b == b;
    } else {
      assert (a + b)[0] == a[0] && (a + b)[1..] == a[1..] + b;
      AllNodesConcat(a[1..], b);
    }
  }

  lemma {:induction false} NoneFreed(cs: seq<Cleanup>)
    ensures FreedIn(Rans(cs)) == []
  {
    if cs != [] {
      NoneFreed(cs[1..]);
    }
  }

  lemma {:induction false} ChainFreed(c: seq<Node>)
    ensures FreedIn(ChainFrees(c)) == ChainRegions(c)
  {
    if c != [] {
      ChainFreed(c[1..]);
    }
  }

  lemma {:induction false} SlotsFreed(home: nat, s: Slots)
    ensures FreedIn(Frees(home, s)) == NodeRegions(s)
  {
    if s != [] {
      SlotsFreed(home, s[1..]);
      ChainFreed(s[0]);
      FreedInConcat([Looked(home)] + ChainFrees(s[0]), Frees(home, s[1..]));
      FreedInConcat([Looked(home)], ChainFrees(s[0]));
    }
  }

  lemma FreedParts(a: seq<Event>, b: seq<Event>, c: seq<Event>, d: seq<Event>)
    ensures FreedIn(a + b + c + d) == FreedIn(a) + FreedIn(b) + FreedIn(c) + FreedIn(d)
  {
    FreedInConcat(a + b + c, d);
    FreedInConcat(a + b, c);
    FreedInConcat(a, b);
  }

  lemma FreedPool(p: Pool, below: seq<Event>, after: seq<Event>)
    ensures FreedIn(Rans(p.cleanups) + below + Frees(p.home, p.slots) + after) ==
            FreedIn(below) + NodeRegions(p.slots) + FreedIn(after)
  {
    FreedParts(Rans(p.cleanups), below, Frees(p.home, p.slots), after);
    NoneFreed(p.cleanups);
    SlotsFreed(p.home, p.slots);
  }

  lemma NodesPool(p: Pool, below: seq<Pool>, after: seq<Pool>)
    ensures AllNodes(below + [p] + after) == AllNodes(below) + NodeRegions(p.slots) + AllNodes(after)
  {
    AllNodesConcat(below + [p], after);
    AllNodesConcat(below, [p]);
    assert AllNodes([p]) == NodeRegions(p.slots) + [];
  }

  /** Destroy gives no memnode of a pool back before those of all pools below it, while cleanups run from the
      top down. */
  lemma {:induction false} DestroyFreesInPostorder(t: Tree)
    ensures FreedIn(DestroyEvents(t)) == AllNodes(Postorder(t))
  {
    match t {
      case Nil =>
      case Cons(p, child, brother) =>
        DestroyFreesInPostorder(child);
        DestroyFreesInPostorder(brother);
        FreedPool(p, DestroyEvents(child), DestroyEvents(brother));
        NodesPool(p, Postorder(child), Postorder(brother));
    }
  }
}

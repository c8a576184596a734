/** The pool header lies in the pool's first memnode. Destroy looks at it once for every slot, also
    after that memnode has gone back to the system, unless no slot is left. */
module PoolHeader {
  import opened Basics
  import opened PoolSizes
  import opened PoolModel
  import opened PoolRuns
  import opened PoolTheorems
  import opened PoolTree

  predicate GivesBack(es: seq<Event>, home: nat) {
    exists x :: 0 <= x < |es| && (es[x] == Freed(home) || es[x] == Ran(Release(home)))
  }

  predicate Looks(es: seq<Event>, home: nat) {
    exists y :: 0 <= y < |es| && es[y] == Looked(home)
  }

  /** The header in the region home is looked at after the region was given back. */
  predicate LooksLate(es: seq<Event>, home: nat) {
    exists x, y :: 0 <= x < y < |es| && (es[x] == Freed(home) || es[x] == Ran(Release(home))) && es[y] == Looked(home)
  }

  lemma ConcatBack(a: seq<Event>, b: seq<Event>, home: nat)
    ensures GivesBack(a + b, home) <==> GivesBack(a, home) || GivesBack(b, home)
    ensures Looks(a + b, home) <==> Looks(a, home) || Looks(b, home)
  {
    var c := a + b;
    forall x | 0 <= x < |a| ensures c[x] == a[x] {}
    forall x | 0 <= x < |b| ensures c[|a| + x] == b[x] {}
  }

  lemma ConcatLate(a: seq<Event>, b: seq<Event>, home: nat)
    ensures LooksLate(a + b, home) <==> LooksLate(a, home) || LooksLate(b, home) || (GivesBack(a, home) && Looks(b, home))
  {
    var c := a + b;
    forall x | 0 <= x < |a| ensures c[x] == a[x] {}
    forall x | 0 <= x < |b| ensures c[|a| + x] == b[x] {}
    if LooksLate(c, home) {
      var x, y :| 0 <= x < y < |c| && (c[x] == Freed(home) || c[x] == Ran(Release(home))) && c[y] == Looked(home);
      if x < |a| && y >= |a| {
        assert b[y - |a|] == Looked(home);
      } else if x >= |a| {
        assert b[x - |a|] == c[x] && b[y - |a|] == c[y];
      }
    }
  }

  // ------------------------------------------------------------ one pool

  /** The header's memnode is in slot h. */
  ghost predicate HomeAt(s: Slots, home: nat, h: int) {
    exists j :: At(s, h, j) && s[h][j].region == home
  }

  lemma {:induction false} ChainBack(c: seq<Node>, home: nat)
    ensures GivesBack(ChainFrees(c), home) <==> exists j :: 0 <= j < |c| && c[j].region == home
    ensures !Looks(ChainFrees(c), home)
  {
    if c != [] {
      ChainBack(c[1..], home);
      var first: seq<Event> := [Freed(c[0].region)];
      ConcatBack(first, ChainFrees(c[1..]), home);
      assert GivesBack(first, home) <==> c[0].region == home by {
        assert first[0] == Freed(c[0].region);
      }
      if j: int :| 0 <= j < |c[1..]| && c[1..][j].region == home {
        assert c[j + 1].region == home;
      }
      if j: int :| 0 <= j < |c| && c[j].region == home && j > 0 {
        assert c[1..][j - 1].region == home;
      }
    }
  }

  /** One slot: the look at the header comes before its memnodes go back. */
  lemma SlotEvents(c: seq<Node>, own: nat, home: nat)
    ensures var es := [Looked(own)] + ChainFrees(c);
            && (GivesBack(es, home) <==> exists j :: 0 <= j < |c| && c[j].region == home)
            && (Looks(es, home) <==> own == home) && !LooksLate(es, home)
  {
    var look: seq<Event> := [Looked(own)];
    ChainBack(c, home);
    ConcatBack(look, ChainFrees(c), home);
    ConcatLate(look, ChainFrees(c), home);
    assert look[0] == Looked(own);
  }

  lemma {:induction false} SlotsEvents(own: nat, s: Slots, home: nat)
    ensures GivesBack(Frees(own, s), home) <==> NodeRegion(s, home)
    ensures Looks(Frees(own, s), home) <==> s != [] && own == home
    ensures !NodeRegion(s, home) ==> !LooksLate(Frees(own, s), home)
  {
    if s != [] {
      var first := [Looked(own)] + ChainFrees(s[0]);
      SlotEvents(s[0], own, home);
      SlotsEvents(own, s[1..], home);
      ConcatBack(first, Frees(own, s[1..]), home);
      ConcatLate(first, Frees(own, s[1..]), home);
      SplitRegion(s, home);
    }
  }

  lemma SplitRegion(s: Slots, region: nat)
    requires s != []
    ensures NodeRegion(s, region) <==>
            (exists j :: 0 <= j < |s[0]| && s[0][j].region == region) || NodeRegion(s[1..], region)
  {
    InChainRegions(s[0], region);
    InNodeRegions(s, region);
    InNodeRegions(s[1..], region);
  }

  /** The looks come late exactly when the header's memnode is not in the last slot. */
  lemma {:induction false} LateInSlots(s: Slots, home: nat, h: int)
    requires Unique(s) && HomeAt(s, home, h)
    ensures LooksLate(Frees(home, s), home) <==> h < |s| - 1
  {
    var j :| At(s, h, j) && s[h][j].region == home;
    var first, rest := [Looked(home)] + ChainFrees(s[0]), s[1..];
    SlotEvents(s[0], home, home);
    SlotsEvents(home, rest, home);
    ConcatLate(first, Frees(home, rest), home);
    if h == 0 {
      forall k, l | At(rest, k, l) ensures rest[k][l].region != home {
        assert At(s, k + 1, l);
      }
    } else {
      forall l | 0 <= l < |s[0]| ensures s[0][l].region != home {
        assert At(s, 0, l);
      }
      forall k, l, m, n | At(rest, k, l) && At(rest, m, n) && rest[k][l].region == rest[m][n].region
        ensures k == m && l == n
      {
        assert At(s, k + 1, l) && At(s, m + 1, n);
      }
      assert At(rest, h - 1, j);
      LateInSlots(rest, home, h - 1);
    }
  }

  // ------------------------------------------------------------ the tree

  ghost predicate Foreign(p: Pool, home: nat) {
    p.home != home && !Owns(p, home)
  }

  lemma {:induction false} CleanupEvents(cs: seq<Cleanup>, home: nat)
    ensures GivesBack(Rans(cs), home) <==> HasRelease(cs, home)
    ensures !Looks(Rans(cs), home)
  {
    if cs != [] {
      CleanupEvents(cs[1..], home);
      var first: seq<Event> := [Ran(cs[0].task)];
      ConcatBack(first, Rans(cs[1..]), home);
      assert first[0] == Ran(cs[0].task);
      if HasRelease(cs[1..], home) {
        var x :| 0 <= x < |cs[1..]| && cs[1..][x].task == Release(home);
        assert cs[x + 1].task == Release(home);
      }
      if x: int :| 0 <= x < |cs| && cs[x].task == Release(home) && x > 0 {
        assert cs[1..][x - 1].task == Release(home);
      }
    }
  }

  /** What a pool's own cleanups, then the events of its children, then its own memnodes amount to. */
  lemma ConsEvents(p: Pool, child: Tree, brother: Tree, home: nat)
    ensures var es, cs, bs := DestroyEvents(Cons(p, child, brother)), DestroyEvents(child), DestroyEvents(brother);
            var own := Frees(p.home, p.slots);
            && (GivesBack(es, home) <==> Owns(p, home) || GivesBack(cs, home) || GivesBack(bs, home))
            && (Looks(es, home) <==> Looks(cs, home) || Looks(own, home) || Looks(bs, home))
            && (!HasRelease(p.cleanups, home) ==>
                  (LooksLate(es, home) <==>
                     || LooksLate(cs, home) || LooksLate(own, home) || LooksLate(bs, home)
                     || (GivesBack(cs, home) && (Looks(own, home) || Looks(bs, home)))
                     || (GivesBack(own, home) && Looks(bs, home))))
  {
    var es, cs, bs := Rans(p.cleanups), DestroyEvents(child), DestroyEvents(brother);
    var own := Frees(p.home, p.slots);
    CleanupEvents(p.cleanups, home);
    SlotsEvents(p.home, p.slots, home);
    ConcatBack(es, cs, home);
    ConcatBack(es + cs, own, home);
    ConcatBack(es + cs + own, bs, home);
    ConcatLate(es, cs, home);
    ConcatLate(es + cs, own, home);
    ConcatLate(es + cs + own, bs, home);
    assert !LooksLate(es, home);
  }

  lemma {:induction false} ForeignTree(t: Tree, home: nat)
    requires forall y | 0 <= y < |Preorder(t)| :: Foreign(Preorder(t)[y], home)
    ensures !GivesBack(DestroyEvents(t), home) && !Looks(DestroyEvents(t), home)
  {
    match t {
      case Nil =>
      case Cons(p, child, brother) =>
        assert Preorder(t)[0] == p;
        forall y | 0 <= y < |Preorder(child)| ensures Foreign(Preorder(child)[y], home) {
          assert Preorder(t)[1 + y] == Preorder(child)[y];
        }
        forall y | 0 <= y < |Preorder(brother)| ensures Foreign(Preorder(brother)[y], home) {
          assert Preorder(t)[1 + |Preorder(child)| + y] == Preorder(brother)[y];
        }
        ForeignTree(child, home);
        ForeignTree(brother, home);
        ConsEvents(p, child, brother, home);
        SlotsEvents(p.home, p.slots, home);
    }
  }

  lemma NeverLate(es: seq<Event>, home: nat)
    requires !GivesBack(es, home)
    ensures !LooksLate(es, home)
  {
  }

  ghost predicate AllForeign(t: Tree, home: nat) {
    forall y | 0 <= y < |Preorder(t)| :: Foreign(Preorder(t)[y], home)
  }

  lemma LateHere(p: Pool, child: Tree, brother: Tree, h: int)
    requires Unique(p.slots) && HomeAt(p.slots, p.home, h) && !HasRelease(p.cleanups, p.home)
    requires AllForeign(child, p.home) && AllForeign(brother, p.home)
    ensures LooksLate(DestroyEvents(Cons(p, child, brother)), p.home) <==> h < |p.slots| - 1
  {
    ForeignTree(child, p.home);
    ForeignTree(brother, p.home);
    NeverLate(DestroyEvents(child), p.home);
    NeverLate(DestroyEvents(brother), p.home);
    ConsEvents(p, child, brother, p.home);
    LateInSlots(p.slots, p.home, h);
  }

  lemma LateElsewhere(q: Pool, child: Tree, brother: Tree, home: nat)
    requires Foreign(q, home) && (AllForeign(child, home) || AllForeign(brother, home))
    ensures LooksLate(DestroyEvents(Cons(q, child, brother)), home) <==>
            LooksLate(DestroyEvents(child), home) || LooksLate(DestroyEvents(brother), home)
    ensures AllForeign(child, home) ==> !LooksLate(DestroyEvents(child), home)
    ensures AllForeign(brother, home) ==> !LooksLate(DestroyEvents(brother), home)
  {
    if AllForeign(child, home) {
      ForeignTree(child, home);
      NeverLate(DestroyEvents(child), home);
    }
    if AllForeign(brother, home) {
      ForeignTree(brother, home);
      NeverLate(DestroyEvents(brother), home);
    }
    SlotsEvents(q.home, q.slots, home);
    ConsEvents(q, child, brother, home);
  }

  /** Where the pools of the three parts stand in the preorder. */
  lemma PreorderParts(q: Pool, child: Tree, brother: Tree)
    ensures var ps, n := Preorder(Cons(q, child, brother)), |Preorder(child)|;
            && |ps| == 1 + n + |Preorder(brother)| && ps[0] == q
            && (forall y | 0 <= y < n :: ps[1 + y] == Preorder(child)[y])
            && (forall y | 0 <= y < |Preorder(brother)| :: ps[1 + n + y] == Preorder(brother)[y])
  {
    ThreeParts(q, Preorder(child), Preorder(brother));
  }

  lemma ThreeParts(q: Pool, a: seq<Pool>, b: seq<Pool>)
    ensures var ps := [q] + a + b;
            && |ps| == 1 + |a| + |b| && ps[0] == q
            && (forall y | 0 <= y < |a| :: ps[1 + y] == a[y])
            && (forall y | 0 <= y < |b| :: ps[1 + |a| + y] == b[y])
  {
  }

  ghost predicate OthersForeign(ps: seq<Pool>, x: int, home: nat) {
    forall y | 0 <= y < |ps| && y != x :: Foreign(ps[y], home)
  }

  lemma PartsForeign(q: Pool, child: Tree, brother: Tree, x: int, home: nat)
    requires OthersForeign(Preorder(Cons(q, child, brother)), x, home)
    ensures x != 0 ==> Foreign(q, home)
    ensures x <= 0 || x > |Preorder(child)| ==> AllForeign(child, home)
    ensures x <= |Preorder(child)| ==> AllForeign(brother, home)
    ensures OthersForeign(Preorder(child), x - 1, home)
    ensures OthersForeign(Preorder(brother), x - 1 - |Preorder(child)|, home)
  {
    PreorderParts(q, child, brother);
  }

  /** In a tree where no other pool has anything to do with the header's region. */
  lemma {:induction false} LateInTree(t: Tree, p: Pool, x: int, h: int)
    requires 0 <= x < |Preorder(t)| && p == Preorder(t)[x]
    requires Unique(p.slots) && HomeAt(p.slots, p.home, h) && !HasRelease(p.cleanups, p.home)
    requires OthersForeign(Preorder(t), x, p.home)
    ensures LooksLate(DestroyEvents(t), p.home) <==> h < |p.slots| - 1
  {
    match t {
      case Cons(q, child, brother) =>
        var n := |Preorder(child)|;
        PreorderParts(q, child, brother);
        PartsForeign(q, child, brother, x, p.home);
        if x == 0 {
          LateHere(q, child, brother, h);
        } else if x <= n {
          LateInTree(child, p, x - 1, h);
          LateElsewhere(q, child, brother, p.home);
        } else {
          LateInTree(brother, p, x - 1 - n, h);
          LateElsewhere(q, child, brother, p.home);
        }
    }
  }

  // ------------------------------------------------------------ where the header's memnode is

  lemma CreatedHome(size: nat, issued: nat)
    requires size < SIZE_MOD && Create(size, issued).Some? && !Slotless(WithHeader(size))
    ensures var p, a, h := Create(size, issued).value, AlignAllocation(size), Pages(WithHeader(size)) - 1;
            && HomeAt(p.slots, p.home, h)
            && (h < SLOTS - 1 <==> a + HEADER + NODE < (SLOTS - 1) * PAGE || a + HEADER + NODE >= SIZE_MOD)
  {
    var h := Pages(WithHeader(size)) - 1;
    AlignedExactly(size);
    var p := Create(size, issued).value;
    EmptySlots(h, p.slots[h][0]);
    assert At(p.slots, h, 0) && p.slots[h][0].region == p.home;
  }

  lemma CarveHome(s: Slots, i: int, j: int, a: nat, home: nat, h: int)
    requires At(s, i, j) && a <= s[i][j].sizeAvail && HomeAt(s, home, h)
    ensures HomeAt(CarveAt(s, i, j, a), home, h)
  {
    var l :| At(s, h, l) && s[h][l].region == home;
    CarveEntries(s, i, j, a, h, l);
  }

  lemma PushHome(s: Slots, i: int, n: Node, home: nat, h: int)
    requires 0 <= i < |s| && HomeAt(s, home, h)
    ensures HomeAt(PushAt(s, i, n), home, h)
  {
    var l :| At(s, h, l) && s[h][l].region == home;
    PushEntries(s, i, n, h, if h == i then l + 1 else l);
  }

  lemma ObtainHome(p: Pool, a: nat, issued: nat, h: int)
    requires |p.slots| == SLOTS && Pages(a) <= SLOTS && HomeAt(p.slots, p.home, h)
    ensures var q := Obtain(p, a, issued).pool; q.home == p.home && HomeAt(q.slots, p.home, h)
  {
    match FirstFit(p.slots, Pages(a) - 1, a) {
      case Some(at) => CarveHome(p.slots, at.0, at.1, a, p.home, h);
      case None =>
        PushHome(p.slots, Pages(a) - 1, TakeFirst(FreshNode(issued, Pages(a)), a), p.home, h);
    }
  }

  lemma RegisterHome(p: Pool, task: Task, issued: nat, h: int)
    requires |p.slots| == SLOTS && HomeAt(p.slots, p.home, h)
    ensures var q := Register(p, task, issued).pool; q.home == p.home && HomeAt(q.slots, p.home, h)
  {
    if p.reserve == [] {
      ObtainHome(p, CLEANUP, issued, h);
    }
  }

  /** No operation moves it to another slot. */
  lemma StepHome(l: Live, op: Op, issued: nat, h: int)
    requires |l.pool.slots| == SLOTS && Legal(op) && HomeAt(l.pool.slots, l.pool.home, h)
    ensures var q := Step(l, op, issued).0.pool; q.home == l.pool.home && HomeAt(q.slots, q.home, h)
  {
    match op {
      case AllocOp(size) =>
        AlignedExactly(size);
        var a := AlignAllocation(size);
        if a == 0 {
        } else if Pages(a) - 1 > SLOTS {
          RegisterHome(l.pool, Release(issued), issued + 1, h);
        } else if !Slotless(a) {
          ObtainHome(l.pool, a, issued, h);
        }
      case AddOp(handler, data) => RegisterHome(l.pool, Call(handler, data), issued, h);
      case RunOp(task) =>
      case RemoveOp(task) =>
      case ClearOp =>
        var j :| At(l.pool.slots, h, j) && l.pool.slots[h][j].region == l.pool.home;
        ResetEntries(l.pool.slots, h, j);
    }
  }

  lemma {:induction false} RunHome(s: Process, acts: seq<Act>, k: int, h: int)
    requires LegalRun(s, acts) && 0 <= k < |s.pools| && HomeAt(s.pools[k].pool.slots, s.pools[k].pool.home, h)
    ensures k < |Run(s, acts).pools| && HomeAt(Run(s, acts).pools[k].pool.slots, Run(s, acts).pools[k].pool.home, h)
    decreases acts
  {
    if acts != [] {
      var act := acts[0];
      if act.On? && act.k == k {
        StepHome(s.pools[k], act.op, s.issued, h);
      }
      RunHome(Do(s, act), acts[1..], k, h);
    }
  }

  // ------------------------------------------------------------ the process

  lemma OthersAreForeign(s: Process, ks: seq<nat>, x: int)
    requires ProcessOk(s) && (forall y | 0 <= y < |ks| :: ks[y] < |s.pools|)
    requires (forall y, z | 0 <= y < z < |ks| :: ks[y] != ks[z]) && 0 <= x < |ks|
    ensures OthersForeign(Picked(s, ks), x, s.pools[ks[x]].pool.home)
    ensures !HasRelease(s.pools[ks[x]].pool.cleanups, s.pools[ks[x]].pool.home)
  {
    var l := s.pools[ks[x]];
    assert Touches(l, l.pool.home);
    forall y | 0 <= y < |ks| && y != x ensures Foreign(Picked(s, ks)[y], l.pool.home) {
      assert ks[x] != ks[y];
      assert !Touches(s.pools[ks[y]], l.pool.home);
    }
  }

  /** The header's memnode is in no slot, and stays in none. */
  lemma {:induction false} RunHomeless(s: Process, acts: seq<Act>, k: int)
    requires ProcessOk(s) && LegalRun(s, acts) && AllTame(acts)
    requires 0 <= k < |s.pools| && !NodeRegion(s.pools[k].pool.slots, s.pools[k].pool.home)
    ensures var pools := Run(s, acts).pools;
            k < |pools| && !NodeRegion(pools[k].pool.slots, pools[k].pool.home)
    decreases acts
  {
    if acts != [] {
      var act := acts[0];
      DoKeeps(s, act);
      if act.On? && act.k == k {
        StepHomeless(s.pools[k], act.op, s.issued);
      }
      RunHomeless(Do(s, act), acts[1..], k);
    }
  }

  lemma StepHomeless(l: Live, op: Op, issued: nat)
    requires PoolOk(l, issued) && Legal(op) && Tame(op) && !NodeRegion(l.pool.slots, l.pool.home)
    ensures var q := Step(l, op, issued).0.pool; !NodeRegion(q.slots, q.home)
  {
    StepReleases(l, op, issued);
    assert !Owns(l.pool, l.pool.home) && !Owns(Step(l, op, issued).0.pool, l.pool.home);
  }

  /** What no pool of the tree owns is not given back. */
  lemma {:induction false} NotGivenBack(t: Tree, home: nat)
    requires forall y | 0 <= y < |Preorder(t)| :: !Owns(Preorder(t)[y], home)
    ensures !GivesBack(DestroyEvents(t), home)
  {
    match t {
      case Nil =>
      case Cons(p, child, brother) =>
        PreorderParts(p, child, brother);
        forall y | 0 <= y < |Preorder(child)| ensures !Owns(Preorder(child)[y], home) {
          assert Preorder(t)[1 + y] == Preorder(child)[y];
        }
        forall y | 0 <= y < |Preorder(brother)| ensures !Owns(Preorder(brother)[y], home) {
          assert Preorder(t)[1 + |Preorder(child)| + y] == Preorder(brother)[y];
        }
        NotGivenBack(child, home);
        NotGivenBack(brother, home);
        ConsEvents(p, child, brother, home);
    }
  }

  lemma NobodyOwns(s: Process, t: Tree, ks: seq<nat>, k: nat)
    requires ProcessOk(s) && k < |s.pools| && !NodeRegion(s.pools[k].pool.slots, s.pools[k].pool.home)
    requires (forall y | 0 <= y < |ks| :: ks[y] < |s.pools|) && Preorder(t) == Picked(s, ks)
    ensures !LooksLate(DestroyEvents(t), s.pools[k].pool.home)
  {
    var home := s.pools[k].pool.home;
    assert Touches(s.pools[k], home) && !Owns(s.pools[k].pool, home);
    forall y | 0 <= y < |Preorder(t)| ensures !Owns(Preorder(t)[y], home) {
      assert Touches(s.pools[ks[y]], home) ==> ks[y] == k;
    }
    NotGivenBack(t, home);
    NeverLate(DestroyEvents(t), home);
  }

  /** A pool of the given size is created, anything happens in the process, and t is a tree with that pool
      in it, as the x-th. */
  ghost predicate Scene(s: Process, size: nat, acts: seq<Act>, t: Tree, ks: seq<nat>, x: int) {
    && ProcessOk(s) && size < SIZE_MOD && Create(size, s.issued).Some?
    && LegalRun(Do(s, CreateAct(size)), acts) && AllTame(acts)
    && var end := Run(Do(s, CreateAct(size)), acts);
       && (forall y | 0 <= y < |ks| :: ks[y] < |end.pools|)
       && (forall y, z | 0 <= y < z < |ks| :: ks[y] != ks[z])
       && 0 <= x < |ks| && ks[x] == |s.pools| && Preorder(t) == Picked(end, ks)
  }

  lemma LateWithSlot(s: Process, size: nat, acts: seq<Act>, t: Tree, ks: seq<nat>, x: int)
    requires Scene(s, size, acts, t, ks, x) && !Slotless(WithHeader(size))
    ensures var end := Run(Do(s, CreateAct(size)), acts);
            |s.pools| < |end.pools| &&
            (LooksLate(DestroyEvents(t), end.pools[|s.pools|].pool.home) <==> Pages(WithHeader(size)) - 1 < SLOTS - 1)
  {
    var created, k, h := Do(s, CreateAct(size)), |s.pools|, Pages(WithHeader(size)) - 1;
    DoKeeps(s, CreateAct(size));
    RunKeeps(created, acts);
    CreatedHome(size, s.issued);
    RunHome(created, acts, k, h);
    OthersAreForeign(Run(created, acts), ks, x);
    LateInTree(t, Run(created, acts).pools[k].pool, x, h);
  }

  lemma NeverLateWithoutSlot(s: Process, size: nat, acts: seq<Act>, t: Tree, ks: seq<nat>, x: int)
    requires Scene(s, size, acts, t, ks, x) && Slotless(WithHeader(size))
    ensures var end := Run(Do(s, CreateAct(size)), acts);
            |s.pools| < |end.pools| && !LooksLate(DestroyEvents(t), end.pools[|s.pools|].pool.home)
  {
    var created, k := Do(s, CreateAct(size)), |s.pools|;
    DoKeeps(s, CreateAct(size));
    RunKeeps(created, acts);
    RunHomeless(created, acts, k);
    NobodyOwns(Run(created, acts), t, ks, k);
  }

  lemma BelowLastSlot(size: nat)
    requires size < SIZE_MOD && Create(size, 0).Some?
    ensures var total := AlignAllocation(size) + HEADER + NODE;
            Pages(WithHeader(size)) - 1 < SLOTS - 1 <==> total < (SLOTS - 1) * PAGE || total >= SIZE_MOD
  {
    AlignedExactly(size);
  }

  /** Then destroying the tree looks at the pool's header after its memory went back exactly when the size
      does not reach the last slot. */
  lemma HeaderReadLateExactly(s: Process, size: nat, acts: seq<Act>, t: Tree, ks: seq<nat>, x: int)
    requires Scene(s, size, acts, t, ks, x)
    ensures var total, end := AlignAllocation(size) + HEADER + NODE, Run(Do(s, CreateAct(size)), acts);
            |s.pools| < |end.pools| &&
            (LooksLate(DestroyEvents(t), end.pools[|s.pools|].pool.home) <==>
               total < (SLOTS - 1) * PAGE || total >= SIZE_MOD)
  {
    BelowLastSlot(size);
    if Slotless(WithHeader(size)) {
      NeverLateWithoutSlot(s, size, acts, t, ks, x);
    } else {
      LateWithSlot(s, size, acts, t, ks, x);
    }
  }
}

/** Runs of a pool: what was handed out since the last clear, and what every operation keeps. */
module PoolRuns {
  import opened Basics
  import opened PoolSizes
  import opened PoolModel

  /** A block handed out: where, the bytes asked for, and the bytes set aside for it. */
  datatype Grant = Grant(at: Addr, asked: nat, length: nat)

  /** A pool with what has been handed out since the last clear: blocks inside its memnodes, cleanup nodes
      among them, and blocks in regions of their own, which come from the system allocator or are in a
      memnode without a slot. */
  datatype Live = Live(pool: Pool, small: seq<Grant>, large: seq<Grant>)

  datatype Op =
    | AllocOp(size: nat)
    | AddOp(handler: nat, data: nat)
    | RunOp(task: Task)
    | RemoveOp(task: Task)
    | ClearOp

  /** A size is a size_t. */
  predicate Legal(op: Op) {
    op.AllocOp? ==> op.size < SIZE_MOD
  }

  /** Adding the node header to a request does not wrap. */
  predicate Tame(op: Op) {
    op.AllocOp? ==> Manageable(op.size)
  }

  /** The grant for a cleanup node, which needs memory only when the reserve is empty. */
  function NodeGrant(p: Pool, r: Result): seq<Grant> {
    if p.reserve == [] && r.pool.cleanups != [] then [Grant(r.pool.cleanups[0].at, CLEANUP, CLEANUP)] else []
  }

  function WithoutRegion(gs: seq<Grant>, region: nat): seq<Grant> {
    if gs == [] then []
    else (if gs[0].at.region == region then [] else [gs[0]]) + WithoutRegion(gs[1..], region)
  }

  function Step(l: Live, op: Op, issued: nat): (r: (Live, nat))
    requires |l.pool.slots| == SLOTS && Legal(op)
    ensures |r.0.pool.slots| == SLOTS
  {
    match op
    case AllocOp(size) =>
      var a := AlignAllocation(size);
      var r := Alloc(l.pool, size, issued);
      if a == 0 then (l, issued)
      else if Pages(a) - 1 > SLOTS then
        (Live(r.pool, l.small + NodeGrant(l.pool, r), l.large + [Grant(r.mem.value, size, a)]), r.issued)
      else if Slotless(a) then
        (Live(r.pool, l.small, l.large + [Grant(r.mem.value, size, a)]), r.issued)
      else
        (Live(r.pool, l.small + [Grant(r.mem.value, size, a)], l.large), r.issued)
    case AddOp(handler, data) =>
      var r := Register(l.pool, Call(handler, data), issued);
      (Live(r.pool, l.small + NodeGrant(l.pool, r), l.large), r.issued)
    case RunOp(task) =>
      var found := IndexOf(l.pool.cleanups, task) < |l.pool.cleanups|;
      var large := if found && task.Release? then WithoutRegion(l.large, task.region) else l.large;
      (Live(Unregister(l.pool, task), l.small, large), issued)
    case RemoveOp(task) => (l.(pool := Unregister(l.pool, task)), issued)
    case ClearOp => (Live(Cleared(l.pool), [], []), issued)
  }

  // ------------------------------------------------------------ invariants

  predicate At(s: Slots, i: int, j: int) {
    0 <= i < |s| && 0 <= j < |s[i]|
  }

  /** The fields of a memnode of slot i agree: used and available bytes make up its size. */
  predicate NodeOk(n: Node, i: int) {
    && NODE <= n.begin <= n.firstAvail && n.begin % WORD == 0 && n.firstAvail % WORD == 0
    && n.deallocSize == PAGE * (i + 1) == n.begin + n.size
    && n.firstAvail + n.sizeAvail == n.deallocSize
  }

  ghost predicate NodesOk(s: Slots, issued: nat) {
    |s| == SLOTS && forall i, j | At(s, i, j) :: NodeOk(s[i][j], i) && s[i][j].region < issued
  }

  /** No two memnodes of the pool share a region. */
  ghost predicate Unique(s: Slots) {
    forall i, j, k, l | At(s, i, j) && At(s, k, l) && s[i][j].region == s[k][l].region :: i == k && j == l
  }

  /** The header's memnode keeps clear of the header; the others start behind their own. */
  ghost predicate HomeOk(s: Slots, home: nat) {
    forall i, j | At(s, i, j) :: s[i][j].begin == if s[i][j].region == home then NODE + HEADER else NODE
  }

  predicate Holds(n: Node, g: Grant) {
    && g.at.region == n.region && n.begin <= g.at.offset && g.at.offset + g.length <= n.firstAvail
  }

  ghost predicate Within(s: Slots, g: Grant) {
    exists i, j :: At(s, i, j) && Holds(s[i][j], g)
  }

  predicate GrantOk(g: Grant) {
    g.at.offset % WORD == 0 && g.asked <= g.length && g.length % WORD == 0
  }

  predicate Apart(g: Grant, h: Grant) {
    g.at.region != h.at.region || g.at.offset + g.length <= h.at.offset || h.at.offset + h.length <= g.at.offset
  }

  ghost predicate AllWithin(s: Slots, gs: seq<Grant>) {
    forall x | 0 <= x < |gs| :: GrantOk(gs[x]) && Within(s, gs[x])
  }

  ghost predicate AllApart(gs: seq<Grant>) {
    forall x, y | 0 <= x < y < |gs| :: Apart(gs[x], gs[y])
  }

  ghost predicate NodeRegion(s: Slots, region: nat) {
    exists i, j :: At(s, i, j) && s[i][j].region == region
  }

  /** A block from the system allocator is all there is in its region; a block in a memnode without a slot
      comes after the node header and ends with the memnode or before. */
  predicate Alone(g: Grant) {
    g.at.offset == 0 || (g.at.offset == NODE && NODE + g.length <= PAGE * (SLOTS + 1))
  }

  /** A block in a region of its own: nothing of the pool is in that region. */
  ghost predicate LargeOk(s: Slots, home: nat, gs: seq<Grant>, issued: nat) {
    forall x | 0 <= x < |gs| ::
      && GrantOk(gs[x]) && Alone(gs[x])
      && gs[x].at.region < issued && !NodeRegion(s, gs[x].at.region) && gs[x].at.region != home
  }

  function Bytes(gs: seq<Grant>): nat {
    if gs == [] then 0 else Bytes(gs[..|gs| - 1]) + gs[|gs| - 1].length
  }

  function Used(n: Node): int {
    n.firstAvail - n.begin
  }

  ghost predicate Sound(l: Live, issued: nat) {
    var s := l.pool.slots;
    && NodesOk(s, issued) && Unique(s) && HomeOk(s, l.pool.home) && l.pool.home < issued
    && AllWithin(s, l.small) && AllApart(l.small)
    && LargeOk(s, l.pool.home, l.large, issued) && AllApart(l.large)
    && Sum(s, Used) == Bytes(l.small)
  }

  // ------------------------------------------------------------ carving a block out of a memnode

  lemma CarveEntries(s: Slots, i: int, j: int, a: nat, k: int, l: int)
    requires At(s, i, j) && a <= s[i][j].sizeAvail
    ensures At(CarveAt(s, i, j, a), k, l) <==> At(s, k, l)
    ensures At(s, k, l) ==>
              CarveAt(s, i, j, a)[k][l] == if k == i && l == j then Carve(s[i][j], a) else s[k][l]
  {
  }

  lemma CarveNodes(s: Slots, i: int, j: int, a: nat, issued: nat, home: nat)
    requires NodesOk(s, issued) && Unique(s) && HomeOk(s, home)
    requires At(s, i, j) && a <= s[i][j].sizeAvail && a % WORD == 0
    ensures NodesOk(CarveAt(s, i, j, a), issued) && HomeOk(CarveAt(s, i, j, a), home)
  {
  }

  lemma CarveUnique(s: Slots, i: int, j: int, a: nat)
    requires Unique(s) && At(s, i, j) && a <= s[i][j].sizeAvail
    ensures Unique(CarveAt(s, i, j, a))
  {
  }

  lemma CarveRegion(s: Slots, i: int, j: int, a: nat, region: nat)
    requires At(s, i, j) && a <= s[i][j].sizeAvail
    ensures NodeRegion(CarveAt(s, i, j, a), region) <==> NodeRegion(s, region)
  {
    var s' := CarveAt(s, i, j, a);
    if NodeRegion(s', region) {
      var k, l :| At(s', k, l) && s'[k][l].region == region;
      CarveEntries(s, i, j, a, k, l);
    }
    if NodeRegion(s, region) {
      var k, l :| At(s, k, l) && s[k][l].region == region;
      CarveEntries(s, i, j, a, k, l);
    }
  }

  lemma CarveWithin(s: Slots, i: int, j: int, a: nat, g: Grant)
    requires At(s, i, j) && a <= s[i][j].sizeAvail && Within(s, g)
    ensures Within(CarveAt(s, i, j, a), g)
  {
    var k, l :| At(s, k, l) && Holds(s[k][l], g);
    CarveEntries(s, i, j, a, k, l);
    assert Holds(CarveAt(s, i, j, a)[k][l], g);
  }

  /** What is handed out now lies behind everything handed out before from the same memnode. */
  lemma CarveApart(s: Slots, i: int, j: int, g: Grant, h: Grant)
    requires Unique(s) && At(s, i, j) && Within(s, g)
    requires h.at == Addr(s[i][j].region, s[i][j].firstAvail)
    ensures Apart(g, h)
  {
  }

  // ------------------------------------------------------------ a new memnode

  lemma PushEntries(s: Slots, i: nat, n: Node, k: int, l: int)
    requires i < |s|
    ensures At(PushAt(s, i, n), k, l) <==> (k == i && l == 0) || At(s, k, if k == i && l > 0 then l - 1 else l)
    ensures At(PushAt(s, i, n), k, l) ==>
              PushAt(s, i, n)[k][l] == if k == i then (if l == 0 then n else s[k][l - 1]) else s[k][l]
  {
  }

  lemma PushNodes(s: Slots, i: int, n: Node, issued: nat, more: nat, home: nat)
    requires NodesOk(s, issued) && HomeOk(s, home) && 0 <= i < |s|
    requires NodeOk(n, i) && n.region < more && issued <= more
    requires n.begin == if n.region == home then NODE + HEADER else NODE
    ensures NodesOk(PushAt(s, i, n), more) && HomeOk(PushAt(s, i, n), home)
  {
  }

  lemma PushUnique(s: Slots, i: int, n: Node, issued: nat)
    requires NodesOk(s, issued) && Unique(s) && 0 <= i < |s| && n.region >= issued
    ensures Unique(PushAt(s, i, n))
  {
    var s' := PushAt(s, i, n);
    forall k, l, m, o | At(s', k, l) && At(s', m, o) && s'[k][l].region == s'[m][o].region
      ensures k == m && l == o
    {
      PushEntries(s, i, n, k, l);
      PushEntries(s, i, n, m, o);
    }
  }

  lemma PushRegion(s: Slots, i: int, n: Node, region: nat)
    requires 0 <= i < |s|
    ensures NodeRegion(PushAt(s, i, n), region) <==> NodeRegion(s, region) || region == n.region
  {
    var s' := PushAt(s, i, n);
    if NodeRegion(s', region) {
      var k, l :| At(s', k, l) && s'[k][l].region == region;
      PushEntries(s, i, n, k, l);
    }
    if NodeRegion(s, region) {
      var k, l :| At(s, k, l) && s[k][l].region == region;
      PushEntries(s, i, n, k, if k == i then l + 1 else l);
    }
    PushEntries(s, i, n, i, 0);
  }

  lemma PushWithin(s: Slots, i: int, n: Node, g: Grant)
    requires 0 <= i < |s| && Within(s, g)
    ensures Within(PushAt(s, i, n), g)
  {
    var k, l :| At(s, k, l) && Holds(s[k][l], g);
    var l' := if k == i then l + 1 else l;
    PushEntries(s, i, n, k, l');
    assert Holds(PushAt(s, i, n)[k][l'], g);
  }

  lemma WithinOld(s: Slots, issued: nat, g: Grant)
    requires NodesOk(s, issued) && Within(s, g)
    ensures g.at.region < issued
  {
  }

  // ------------------------------------------------------------ sums

  lemma {:induction false} ChainUpdate(c: seq<Node>, j: int, n: Node, f: Node -> int)
    requires 0 <= j < |c|
    ensures ChainSum(c[j := n], f) == ChainSum(c, f) - f(c[j]) + f(n)
  {
    if j == 0 {
      assert c[0 := n][1..] == c[1..];
    } else {
      ChainUpdate(c[1..], j - 1, n, f);
      assert c[j := n][1..] == c[1..][j - 1 := n];
    }
  }

  lemma {:induction false} SlotUpdate(s: Slots, i: int, c: seq<Node>, f: Node -> int)
    requires 0 <= i < |s|
    ensures Sum(s[i := c], f) == Sum(s, f) - ChainSum(s[i], f) + ChainSum(c, f)
  {
    if i == 0 {
      assert s[0 := c][1..] == s[1..];
    } else {
      SlotUpdate(s[1..], i - 1, c, f);
      assert s[i := c][1..] == s[1..][i - 1 := c];
    }
  }

  lemma CarveSum(s: Slots, i: int, j: int, a: nat, f: Node -> int)
    requires At(s, i, j) && a <= s[i][j].sizeAvail
    ensures Sum(CarveAt(s, i, j, a), f) == Sum(s, f) - f(s[i][j]) + f(Carve(s[i][j], a))
  {
    ChainUpdate(s[i], j, Carve(s[i][j], a), f);
    SlotUpdate(s, i, s[i][j := Carve(s[i][j], a)], f);
  }

  lemma PushSum(s: Slots, i: int, n: Node, f: Node -> int)
    requires 0 <= i < |s|
    ensures Sum(PushAt(s, i, n), f) == Sum(s, f) + f(n)
  {
    assert ([n] + s[i])[1..] == s[i];
    SlotUpdate(s, i, [n] + s[i], f);
  }

  lemma {:induction false} ChainScale(c: seq<Node>, f: Node -> int, v: int)
    requires forall j | 0 <= j < |c| :: f(c[j]) == v
    ensures ChainSum(c, f) == v * |c|
  {
    if c != [] {
      ChainScale(c[1..], f, v);
    }
  }

  lemma {:induction false} SumZero(s: Slots, f: Node -> int)
    requires forall i, j | At(s, i, j) :: f(s[i][j]) == 0
    ensures Sum(s, f) == 0
  {
    if s != [] {
      forall j | 0 <= j < |s[0]| ensures f(s[0][j]) == 0 {
        assert At(s, 0, j);
      }
      ChainScale(s[0], f, 0);
      forall i, j | At(s[1..], i, j) ensures f(s[1..][i][j]) == 0 {
        assert At(s, i + 1, j);
      }
      SumZero(s[1..], f);
    }
  }

  // ------------------------------------------------------------ every operation keeps the invariants

  lemma ApartGrows(gs: seq<Grant>, g: Grant)
    requires AllApart(gs) && forall x | 0 <= x < |gs| :: Apart(gs[x], g)
    ensures AllApart(gs + [g])
  {
  }

  lemma BytesGrow(gs: seq<Grant>, g: Grant)
    ensures Bytes(gs + [g]) == Bytes(gs) + g.length
  {
  }

  lemma LargeKept(s: Slots, s': Slots, home: nat, gs: seq<Grant>, issued: nat, issued': nat)
    requires LargeOk(s, home, gs, issued) && issued <= issued'
    requires forall region: nat | region < issued :: NodeRegion(s', region) ==> NodeRegion(s, region)
    ensures LargeOk(s', home, gs, issued')
  {
  }

  lemma SmallCarved(s: Slots, gs: seq<Grant>, i: int, j: int, a: nat, g: Grant)
    requires AllWithin(s, gs) && AllApart(gs) && Unique(s) && At(s, i, j) && a <= s[i][j].sizeAvail
    requires NodeOk(s[i][j], i) && GrantOk(g) && g.length == a
    requires g.at == Addr(s[i][j].region, s[i][j].firstAvail)
    ensures AllWithin(CarveAt(s, i, j, a), gs + [g]) && AllApart(gs + [g])
  {
    var s' := CarveAt(s, i, j, a);
    forall x | 0 <= x < |gs| ensures Within(s', gs[x]) && Apart(gs[x], g) {
      CarveWithin(s, i, j, a, gs[x]);
      CarveApart(s, i, j, gs[x], g);
    }
    CarveEntries(s, i, j, a, i, j);
    assert At(s', i, j) && Holds(s'[i][j], g);
    ApartGrows(gs, g);
  }

  lemma SmallPushed(s: Slots, gs: seq<Grant>, i: int, n: Node, g: Grant, issued: nat)
    requires NodesOk(s, issued) && AllWithin(s, gs) && AllApart(gs) && 0 <= i < |s|
    requires n.region == issued && Holds(n, g) && GrantOk(g)
    ensures AllWithin(PushAt(s, i, n), gs + [g]) && AllApart(gs + [g])
  {
    var s' := PushAt(s, i, n);
    forall x | 0 <= x < |gs| ensures Within(s', gs[x]) && Apart(gs[x], g) {
      PushWithin(s, i, n, gs[x]);
      WithinOld(s, issued, gs[x]);
    }
    PushEntries(s, i, n, i, 0);
    assert At(s', i, 0) && Holds(s'[i][0], g);
    ApartGrows(gs, g);
  }

  lemma CarveKeeps(l: Live, i: int, j: int, asked: nat, a: nat, issued: nat)
    requires Sound(l, issued) && At(l.pool.slots, i, j) && a <= l.pool.slots[i][j].sizeAvail
    requires a % WORD == 0 && asked <= a
    ensures var n := l.pool.slots[i][j];
            Sound(Live(l.pool.(slots := CarveAt(l.pool.slots, i, j, a)),
                       l.small + [Grant(Addr(n.region, n.firstAvail), asked, a)], l.large), issued)
  {
    var s := l.pool.slots;
    var s' := CarveAt(s, i, j, a);
    var g := Grant(Addr(s[i][j].region, s[i][j].firstAvail), asked, a);
    CarveNodes(s, i, j, a, issued, l.pool.home);
    CarveUnique(s, i, j, a);
    forall region: nat ensures NodeRegion(s', region) <==> NodeRegion(s, region) {
      CarveRegion(s, i, j, a, region);
    }
    SmallCarved(s, l.small, i, j, a, g);
    LargeKept(s, s', l.pool.home, l.large, issued, issued);
    CarveSum(s, i, j, a, Used);
    BytesGrow(l.small, g);
  }

  lemma PushKeeps(l: Live, i: int, n: Node, asked: nat, a: nat, issued: nat)
    requires Sound(l, issued) && 0 <= i < SLOTS
    requires NodeOk(n, i) && n.region == issued && n.begin == NODE && n.firstAvail == NODE + a
    requires a % WORD == 0 && asked <= a
    ensures Sound(Live(l.pool.(slots := PushAt(l.pool.slots, i, n)),
                       l.small + [Grant(Addr(issued, NODE), asked, a)], l.large), issued + 1)
  {
    var s := l.pool.slots;
    var s' := PushAt(s, i, n);
    var g := Grant(Addr(issued, NODE), asked, a);
    PushNodes(s, i, n, issued, issued + 1, l.pool.home);
    PushUnique(s, i, n, issued);
    forall region: nat ensures NodeRegion(s', region) <==> NodeRegion(s, region) || region == issued {
      PushRegion(s, i, n, region);
    }
    SmallPushed(s, l.small, i, n, g, issued);
    LargeKept(s, s', l.pool.home, l.large, issued, issued + 1);
    PushSum(s, i, n, Used);
    BytesGrow(l.small, g);
  }

  lemma ObtainKeeps(l: Live, asked: nat, a: nat, issued: nat)
    requires Sound(l, issued) && Pages(a) <= SLOTS && 0 < a && a + NODE < SIZE_MOD
    requires a % WORD == 0 && asked <= a
    ensures var r := Obtain(l.pool, a, issued);
            Sound(Live(r.pool, l.small + [Grant(r.mem.value, asked, a)], l.large), r.issued)
  {
    match FirstFit(l.pool.slots, Pages(a) - 1, a) {
      case Some(at) => CarveKeeps(l, at.0, at.1, asked, a, issued);
      case None =>
        FreshNodeFits(a);
        TakeFirstFits(issued, Pages(a), a);
        PushKeeps(l, Pages(a) - 1, Carve(FreshNode(issued, Pages(a)), a), asked, a, issued);
    }
  }

  /** Only the memnodes matter. */
  lemma SoundIgnores(l: Live, issued: nat, p: Pool)
    requires Sound(l, issued) && p.slots == l.pool.slots && p.home == l.pool.home
    ensures Sound(l.(pool := p), issued)
  {
  }

  lemma RegisterKeeps(l: Live, task: Task, issued: nat, r: Result, l': Live)
    requires Sound(l, issued) && r == Register(l.pool, task, issued)
    requires l' == Live(r.pool, l.small + NodeGrant(l.pool, r), l.large)
    ensures Sound(l', r.issued)
  {
    if l.pool.reserve != [] {
      assert l.small + [] == l.small;
      SoundIgnores(l, issued, r.pool);
    } else {
      ObtainKeeps(l, CLEANUP, CLEANUP, issued);
      var o := Obtain(l.pool, CLEANUP, issued);
      SoundIgnores(Live(o.pool, l.small + [Grant(o.mem.value, CLEANUP, CLEANUP)], l.large), o.issued, r.pool);
    }
  }

  lemma LargeJoins(l: Live, g: Grant, issued: nat)
    requires Sound(l, issued) && GrantOk(g) && Alone(g) && g.at.region == issued
    ensures Sound(l.(large := l.large + [g]), issued + 1)
  {
    ApartGrows(l.large, g);
  }

  lemma {:induction false} WithoutRegionFrom(gs: seq<Grant>, region: nat, x: int) returns (y: int)
    requires 0 <= x < |WithoutRegion(gs, region)|
    ensures x <= y < |gs| && WithoutRegion(gs, region)[x] == gs[y]
  {
    if gs[0].at.region == region {
      y := WithoutRegionFrom(gs[1..], region, x);
      y := y + 1;
    } else if x == 0 {
      y := 0;
    } else {
      y := WithoutRegionFrom(gs[1..], region, x - 1);
      y := y + 1;
    }
  }

  lemma {:induction false} WithoutRegionKeeps(s: Slots, home: nat, gs: seq<Grant>, region: nat, issued: nat)
    requires LargeOk(s, home, gs, issued) && AllApart(gs)
    ensures LargeOk(s, home, WithoutRegion(gs, region), issued) && AllApart(WithoutRegion(gs, region))
  {
    if gs != [] {
      WithoutRegionKeeps(s, home, gs[1..], region, issued);
      var rest := WithoutRegion(gs[1..], region);
      forall x | 0 <= x < |rest| ensures Apart(gs[0], rest[x]) {
        var y := WithoutRegionFrom(gs[1..], region, x);
        assert gs[1..][y] == gs[y + 1];
      }
    }
  }

  lemma ResetEntries(s: Slots, i: int, j: int)
    ensures At(ResetAll(s), i, j) <==> At(s, i, j)
    ensures At(s, i, j) ==> ResetAll(s)[i][j] == Reset(s[i][j])
  {
  }

  lemma ClearKeeps(l: Live, issued: nat)
    requires Sound(l, issued)
    ensures Sound(Live(Cleared(l.pool), [], []), issued)
  {
    var s := l.pool.slots;
    var s' := ResetAll(s);
    forall i, j | At(s', i, j)
      ensures At(s, i, j) && s'[i][j] == Reset(s[i][j])
    {
      ResetEntries(s, i, j);
    }
    forall i, j, k, l | At(s', i, j) && At(s', k, l) && s'[i][j].region == s'[k][l].region
      ensures i == k && j == l
    {
      assert s[i][j].region == s[k][l].region;
    }
    SumZero(s', Used);
  }

  lemma LargeKeeps(l: Live, size: nat, a: nat, issued: nat, r: Result, l': Live)
    requires Sound(l, issued) && a % WORD == 0 && size <= a
    requires r == Register(l.pool, Release(issued), issued + 1)
    requires l' == Live(r.pool, l.small + NodeGrant(l.pool, r), l.large + [Grant(Addr(issued, 0), size, a)])
    ensures Sound(l', r.issued)
  {
    LargeJoins(l, Grant(Addr(issued, 0), size, a), issued);
    RegisterKeeps(l.(large := l'.large), Release(issued), issued + 1, r, l');
  }

  lemma AllocKeeps(l: Live, size: nat, issued: nat)
    requires Sound(l, issued) && Legal(AllocOp(size)) && Tame(AllocOp(size))
    ensures Sound(Step(l, AllocOp(size), issued).0, Step(l, AllocOp(size), issued).1)
  {
    AlignedExactly(size);
    var a := AlignAllocation(size);
    if a == 0 {
    } else if Pages(a) - 1 > SLOTS {
      var r := Register(l.pool, Release(issued), issued + 1);
      LargeKeeps(l, size, a, issued, r, Step(l, AllocOp(size), issued).0);
    } else if Slotless(a) {
      SlotlessExactly(a);
      LargeJoins(l, Grant(Addr(issued, NODE), size, a), issued);
    } else {
      ObtainKeeps(l, size, a, issued);
    }
  }

  lemma UnregisterKeeps(l: Live, task: Task, large: seq<Grant>, issued: nat)
    requires Sound(l, issued)
    requires large == l.large || (task.Release? && large == WithoutRegion(l.large, task.region))
    ensures Sound(Live(Unregister(l.pool, task), l.small, large), issued)
  {
    if large != l.large {
      WithoutRegionKeeps(l.pool.slots, l.pool.home, l.large, task.region, issued);
    }
    SoundIgnores(l.(large := large), issued, Unregister(l.pool, task));
  }

  /** Every operation keeps the invariants, unless adding the node header wraps. */
  lemma StepKeeps(l: Live, op: Op, issued: nat)
    requires Sound(l, issued) && Legal(op) && Tame(op)
    ensures Sound(Step(l, op, issued).0, Step(l, op, issued).1)
  {
    match op {
      case AllocOp(size) => AllocKeeps(l, size, issued);
      case AddOp(handler, data) =>
        RegisterKeeps(l, Call(handler, data), issued, Register(l.pool, Call(handler, data), issued), Step(l, op, issued).0);
      case RunOp(task) =>
        var found := IndexOf(l.pool.cleanups, task) < |l.pool.cleanups|;
        UnregisterKeeps(l, task, if found && task.Release? then WithoutRegion(l.large, task.region) else l.large, issued);
      case RemoveOp(task) => UnregisterKeeps(l, task, l.large, issued);
      case ClearOp => ClearKeeps(l, issued);
    }
  }

  lemma TooLong(s: Slots, issued: nat, g: Grant)
    requires NodesOk(s, issued) && g.length >= PAGE * SLOTS
    ensures !Within(s, g)
  {
  }

  /** When it does wrap, the block handed out is larger than any memnode. */
  lemma WrapBreaks(l: Live, op: Op, issued: nat)
    requires Sound(l, issued) && Legal(op) && !Tame(op)
    ensures !Sound(Step(l, op, issued).0, Step(l, op, issued).1)
  {
    var a := AlignAllocation(op.size);
    AlignedExactly(op.size);
    SlotlessExactly(a);
    var (l', issued') := Step(l, op, issued);
    var g := l'.small[|l.small|];
    assert g.length == a;
    if NodesOk(l'.pool.slots, issued') {
      TooLong(l'.pool.slots, issued', g);
    }
  }

  /** So the invariants are kept exactly when it does not. */
  lemma StepKeepsExactly(l: Live, op: Op, issued: nat)
    requires Sound(l, issued) && Legal(op)
    ensures Sound(Step(l, op, issued).0, Step(l, op, issued).1) <==> Tame(op)
  {
    if Tame(op) {
      StepKeeps(l, op, issued);
    } else {
      WrapBreaks(l, op, issued);
    }
  }
}

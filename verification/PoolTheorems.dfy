/** What holds of every pool of a process, after any run of operations on any of them. */
module PoolTheorems {
  import opened Basics
  import opened PoolSizes
  import opened PoolModel
  import opened PoolRuns

  // ------------------------------------------------------------ the pools of a process

  /** All pools draw on one system allocator. */
  datatype Process = Process(pools: seq<Live>, issued: nat)

  datatype Act = CreateAct(size: nat) | On(k: nat, op: Op)

  predicate LegalAct(s: Process, act: Act) {
    match act
    case CreateAct(size) => true
    case On(k, op) => k < |s.pools| && |s.pools[k].pool.slots| == SLOTS && Legal(op)
  }

  predicate TameAct(act: Act) {
    act.On? ==> Tame(act.op)
  }

  predicate AllTame(acts: seq<Act>) {
    forall x | 0 <= x < |acts| :: TameAct(acts[x])
  }

  function Do(s: Process, act: Act): Process
    requires LegalAct(s, act)
  {
    match act
    case CreateAct(size) =>
      (match Create(size, s.issued)
       case None => s
       case Some(p) => Process(s.pools + [Live(p, [], [])], s.issued + 1))
    case On(k, op) =>
      var (l, issued) := Step(s.pools[k], op, s.issued);
      Process(s.pools[k := l], issued)
  }

  predicate LegalRun(s: Process, acts: seq<Act>)
    decreases acts
  {
    acts == [] || (LegalAct(s, acts[0]) && LegalRun(Do(s, acts[0]), acts[1..]))
  }

  function Run(s: Process, acts: seq<Act>): Process
    requires LegalRun(s, acts)
    decreases acts
  {
    if acts == [] then s else Run(Do(s, acts[0]), acts[1..])
  }

  const INITIAL := Process([], 0)

  // ------------------------------------------------------------ what a pool owns

  predicate HasRelease(cs: seq<Cleanup>, region: nat) {
    exists x | 0 <= x < |cs| :: cs[x].task == Release(region)
  }

  /** The regions of its memnodes and of the oversized blocks it will release. */
  ghost predicate Owns(p: Pool, region: nat) {
    NodeRegion(p.slots, region) || HasRelease(p.cleanups, region)
  }

  /** An oversized block is released once, and is neither a memnode nor where the header lies. */
  ghost predicate ReleasesOk(p: Pool, issued: nat) {
    && (forall region: nat | HasRelease(p.cleanups, region) ::
          region < issued && !NodeRegion(p.slots, region) && region != p.home)
    && (forall x, y | 0 <= x < y < |p.cleanups| && p.cleanups[x].task.Release? :: p.cleanups[x].task != p.cleanups[y].task)
  }

  /** All regions the pool has to do with: also that of its header and those of blocks that it has handed
      out and will not release. */
  ghost predicate Touches(l: Live, region: nat) {
    Owns(l.pool, region) || region == l.pool.home || InRegion(l.large, region)
  }

  predicate InRegion(gs: seq<Grant>, region: nat) {
    exists x :: 0 <= x < |gs| && gs[x].at.region == region
  }

  ghost predicate Apiece(s: Process) {
    forall k, m, region: nat | 0 <= k < |s.pools| && 0 <= m < |s.pools|
                               && Touches(s.pools[k], region) && Touches(s.pools[m], region) ::
      k == m
  }

  ghost predicate PoolOk(l: Live, issued: nat) {
    Sound(l, issued) && ReleasesOk(l.pool, issued)
  }

  ghost predicate ProcessOk(s: Process) {
    (forall k | 0 <= k < |s.pools| :: PoolOk(s.pools[k], s.issued)) && Apiece(s)
  }

  lemma OneOwner(s: Process, k: int, m: int, region: nat)
    requires Apiece(s) && 0 <= k < |s.pools| && 0 <= m < |s.pools|
    requires Owns(s.pools[k].pool, region) && Owns(s.pools[m].pool, region)
    ensures k == m
  {
    assert Touches(s.pools[k], region) && Touches(s.pools[m], region);
  }

  lemma PoolOkLater(l: Live, issued: nat, later: nat)
    requires PoolOk(l, issued) && issued <= later
    ensures PoolOk(l, later)
  {
  }

  // ------------------------------------------------------------ creation

  /** A pool is created when what it asks for, together with both headers, fits the slots or one page
      more, and also when adding the headers wraps. */
  lemma CreatedExactly(size: nat, issued: nat)
    requires size < SIZE_MOD
    ensures var a := AlignAllocation(size);
            Create(size, issued).Some? <==>
              a != 0 && (a + HEADER + NODE < (SLOTS + 1) * PAGE || a + HEADER + NODE >= SIZE_MOD)
  {
  }

  lemma EmptySlots(i: int, n: Node)
    requires 0 <= i < SLOTS
    ensures var s := PushAt(seq(SLOTS, _ => []), i, n);
            (forall k, l | At(s, k, l) :: k == i && l == 0) && At(s, i, 0) && s[i][0] == n
  {
  }

  ghost predicate HasRoom(p: Pool, a: nat) {
    exists i, j :: At(p.slots, i, j) && p.slots[i][j].sizeAvail >= a
  }

  /** A created pool has room for what was asked for exactly when adding the headers does not wrap and the
      memnode has a slot. */
  lemma CreatedRoom(size: nat, issued: nat)
    requires size < SIZE_MOD && Create(size, issued).Some?
    ensures HasRoom(Create(size, issued).value, AlignAllocation(size)) <==>
            AlignAllocation(size) + HEADER + NODE < SLOTS * PAGE
  {
    var p, a := Create(size, issued).value, AlignAllocation(size);
    if !Slotless(WithHeader(size)) {
      var h := Pages(WithHeader(size)) - 1;
      EmptySlots(h, p.slots[h][0]);
      assert At(p.slots, h, 0);
    }
  }

  lemma CreatedOk(size: nat, issued: nat)
    requires Create(size, issued).Some?
    ensures PoolOk(Live(Create(size, issued).value, [], []), issued + 1)
    ensures forall region: nat :: Touches(Live(Create(size, issued).value, [], []), region) ==> region == issued
  {
    var p := Create(size, issued).value;
    if Slotless(WithHeader(size)) {
      SumZero(p.slots, Used);
    } else {
      var pages := Pages(WithHeader(size));
      var begin := NODE + HEADER;
      var n := Node(issued, begin, begin, PAGE * pages - begin, PAGE * pages - begin, PAGE * pages);
      EmptySlots(pages - 1, n);
      assert NodeOk(n, pages - 1);
      SumZero(p.slots, Used);
    }
  }

  // ------------------------------------------------------------ one step

  lemma ObtainOwns(p: Pool, a: nat, issued: nat, region: nat)
    requires |p.slots| == SLOTS && Pages(a) <= SLOTS
    ensures var r := Obtain(p, a, issued);
            NodeRegion(r.pool.slots, region) ==> NodeRegion(p.slots, region) || issued == region < r.issued
    ensures issued <= Obtain(p, a, issued).issued
  {
  }

  lemma RegisterOwns(p: Pool, task: Task, issued: nat, region: nat)
    requires |p.slots| == SLOTS
    ensures var r := Register(p, task, issued);
            NodeRegion(r.pool.slots, region) ==> NodeRegion(p.slots, region) || issued == region < r.issued
    ensures issued <= Register(p, task, issued).issued
    ensures exists at :: Register(p, task, issued).pool.cleanups == [Cleanup(at, task)] + p.cleanups
  {
    if p.reserve == [] {
      ObtainOwns(p, CLEANUP, issued, region);
      var r := Obtain(p, CLEANUP, issued);
      assert Register(p, task, issued).pool.cleanups == [Cleanup(r.mem.value, task)] + p.cleanups;
    } else {
      assert Register(p, task, issued).pool.cleanups == [Cleanup(p.reserve[0], task)] + p.cleanups;
    }
  }

  /** Every region a pool owns after an operation it owned before or was issued meanwhile, and the
      oversized blocks among them are still released once. */
  lemma RegisterReleases(p: Pool, p': Pool, task: Task, first: nat, issued: nat, issued': nat)
    requires ReleasesOk(p, first) && first <= issued <= issued' && p'.home == p.home < first
    requires exists at :: p'.cleanups == [Cleanup(at, task)] + p.cleanups
    requires forall region: nat | NodeRegion(p'.slots, region) :: NodeRegion(p.slots, region) || issued <= region < issued'
    requires task.Release? ==> first <= task.region < issued && !NodeRegion(p.slots, task.region)
    ensures ReleasesOk(p', issued')
    ensures forall region: nat | Owns(p', region) :: Owns(p, region) || first <= region < issued'
  {
    var at :| p'.cleanups == [Cleanup(at, task)] + p.cleanups;
    forall region: nat | HasRelease(p'.cleanups, region)
      ensures HasRelease(p.cleanups, region) || task == Release(region)
    {
      var x :| 0 <= x < |p'.cleanups| && p'.cleanups[x].task == Release(region);
      if x > 0 {
        assert p.cleanups[x - 1].task == Release(region);
      }
    }
    forall x, y | 0 <= x < y < |p'.cleanups| && p'.cleanups[x].task.Release?
      ensures p'.cleanups[x].task != p'.cleanups[y].task
    {
      assert p'.cleanups[y] == p.cleanups[y - 1];
      if x > 0 {
        assert p'.cleanups[x] == p.cleanups[x - 1];
      } else {
        assert !HasRelease(p.cleanups, task.region);
      }
    }
  }

  lemma UnregisterReleases(p: Pool, task: Task, issued: nat)
    requires ReleasesOk(p, issued)
    ensures ReleasesOk(Unregister(p, task), issued)
    ensures forall region: nat | Owns(Unregister(p, task), region) :: Owns(p, region)
  {
    var i := IndexOf(p.cleanups, task);
    if i < |p.cleanups| {
      var cs := Unregister(p, task).cleanups;
      forall x | 0 <= x < |cs| ensures cs[x] == p.cleanups[if x < i then x else x + 1] {
      }
      forall region: nat | HasRelease(cs, region) ensures HasRelease(p.cleanups, region) {
        var x :| 0 <= x < |cs| && cs[x].task == Release(region);
        assert p.cleanups[if x < i then x else x + 1].task == Release(region);
      }
    }
  }

  lemma ClearReleases(p: Pool, issued: nat)
    requires ReleasesOk(p, issued)
    ensures ReleasesOk(Cleared(p), issued)
    ensures forall region: nat | Owns(Cleared(p), region) :: Owns(p, region)
  {
  }

  lemma ObtainReleases(p: Pool, a: nat, issued: nat)
    requires ReleasesOk(p, issued) && |p.slots| == SLOTS && Pages(a) <= SLOTS && p.home < issued
    ensures var r := Obtain(p, a, issued);
            && ReleasesOk(r.pool, r.issued) && issued <= r.issued
            && forall region: nat | Owns(r.pool, region) :: Owns(p, region) || issued <= region < r.issued
  {
    forall region: nat {
      ObtainOwns(p, a, issued, region);
    }
  }

  lemma RegisterKeepsReleases(p: Pool, task: Task, first: nat, issued: nat)
    requires ReleasesOk(p, first) && |p.slots| == SLOTS && p.home < first <= issued
    requires task.Release? ==> first <= task.region < issued && !NodeRegion(p.slots, task.region)
    ensures var r := Register(p, task, issued);
            && ReleasesOk(r.pool, r.issued) && issued <= r.issued
            && forall region: nat | Owns(r.pool, region) :: Owns(p, region) || first <= region < r.issued
  {
    var r := Register(p, task, issued);
    forall region: nat {
      RegisterOwns(p, task, issued, region);
    }
    RegisterOwns(p, task, issued, 0);
    RegisterReleases(p, r.pool, task, first, issued, r.issued);
  }

  lemma StepReleases(l: Live, op: Op, issued: nat)
    requires PoolOk(l, issued) && Legal(op) && Tame(op)
    ensures var (l', issued') := Step(l, op, issued);
            && ReleasesOk(l'.pool, issued') && issued <= issued'
            && forall region: nat | Owns(l'.pool, region) :: Owns(l.pool, region) || issued <= region < issued'
  {
    match op {
      case AllocOp(size) =>
        AlignedExactly(size);
        var a := AlignAllocation(size);
        if a == 0 {
        } else if Pages(a) - 1 > SLOTS {
          assert !NodeRegion(l.pool.slots, issued);
          RegisterKeepsReleases(l.pool, Release(issued), issued, issued + 1);
        } else if !Slotless(a) {
          ObtainReleases(l.pool, a, issued);
        }
      case AddOp(handler, data) => RegisterKeepsReleases(l.pool, Call(handler, data), issued, issued);
      case RunOp(task) => UnregisterReleases(l.pool, task, issued);
      case RemoveOp(task) => UnregisterReleases(l.pool, task, issued);
      case ClearOp => ClearReleases(l.pool, issued);
    }
  }

  lemma ObtainAcquires(p: Pool, a: nat, issued: nat, region: nat)
    requires |p.slots| == SLOTS && Pages(a) <= SLOTS
    requires issued <= region < Obtain(p, a, issued).issued
    ensures NodeRegion(Obtain(p, a, issued).pool.slots, region)
  {
    var i := Pages(a) - 1;
    var n := TakeFirst(FreshNode(issued, Pages(a)), a);
    PushEntries(p.slots, i, n, i, 0);
  }

  lemma RegisterAcquires(p: Pool, task: Task, issued: nat, region: nat)
    requires |p.slots| == SLOTS && (issued <= region < Register(p, task, issued).issued || task == Release(region))
    ensures Owns(Register(p, task, issued).pool, region)
  {
    var q := Register(p, task, issued).pool;
    if task == Release(region) {
      assert q.cleanups[0].task == task;
    } else {
      ObtainAcquires(p, CLEANUP, issued, region);
    }
  }

  /** Whatever a request takes from the system is the pool's to give back, except a memnode without a
      slot, which is lost. */
  lemma LostExactly(l: Live, size: nat, issued: nat)
    requires PoolOk(l, issued) && size < SIZE_MOD
    ensures var (l', issued') := Step(l, AllocOp(size), issued);
            (forall region: nat | issued <= region < issued' :: Owns(l'.pool, region)) <==> !Slotless(AlignAllocation(size))
  {
    var a := AlignAllocation(size);
    var (l', issued') := Step(l, AllocOp(size), issued);
    forall region: nat | issued <= region < issued' && !Slotless(a) ensures Owns(l'.pool, region) {
      if Pages(a) - 1 > SLOTS {
        RegisterAcquires(l.pool, Release(issued), issued + 1, region);
      } else {
        ObtainAcquires(l.pool, a, issued, region);
      }
    }
    if Slotless(a) {
      assert !Owns(l'.pool, issued);
    }
  }

  lemma StepRegions(l: Live, op: Op, issued: nat, region: nat)
    requires |l.pool.slots| == SLOTS && Legal(op)
    ensures var (l', issued') := Step(l, op, issued);
            InRegion(l'.large, region) ==> InRegion(l.large, region) || issued <= region < issued'
  {
    var (l', issued') := Step(l, op, issued);
    if x: int :| 0 <= x < |l'.large| && l'.large[x].at.region == region {
      if op.RunOp? && l'.large != l.large {
        var y := WithoutRegionFrom(l.large, op.task.region, x);
      } else if x < |l.large| {
        assert l.large[x] == l'.large[x];
      }
    }
  }

  /** A pool comes to have to do only with regions issued meanwhile. */
  lemma StepTouches(l: Live, op: Op, issued: nat)
    requires PoolOk(l, issued) && Legal(op) && Tame(op)
    ensures var (l', issued') := Step(l, op, issued);
            && ReleasesOk(l'.pool, issued') && issued <= issued'
            && forall region: nat | Touches(l', region) :: Touches(l, region) || issued <= region < issued'
  {
    StepReleases(l, op, issued);
    forall region: nat {
      StepRegions(l, op, issued, region);
    }
  }

  // ------------------------------------------------------------ every run

  lemma ApieceKept(s: Process, k: int, l: Live, issued: nat)
    requires ProcessOk(s) && 0 <= k < |s.pools|
    requires forall region: nat | Touches(l, region) :: Touches(s.pools[k], region) || s.issued <= region < issued
    ensures Apiece(Process(s.pools[k := l], issued))
  {
  }

  lemma ApieceJoined(s: Process, l: Live, issued: nat)
    requires ProcessOk(s)
    requires forall region: nat | Touches(l, region) :: s.issued <= region
    ensures Apiece(Process(s.pools + [l], issued))
  {
  }

  lemma CreateKeeps(s: Process, size: nat)
    requires ProcessOk(s)
    ensures ProcessOk(Do(s, CreateAct(size)))
  {
    if Create(size, s.issued).Some? {
      CreatedOk(size, s.issued);
      ApieceJoined(s, Live(Create(size, s.issued).value, [], []), s.issued + 1);
      forall k | 0 <= k < |s.pools| ensures PoolOk(s.pools[k], s.issued + 1) {
        PoolOkLater(s.pools[k], s.issued, s.issued + 1);
      }
    }
  }

  lemma PoolsKept(s: Process, k: int, l: Live, issued: nat)
    requires ProcessOk(s) && 0 <= k < |s.pools| && PoolOk(l, issued) && s.issued <= issued
    requires forall region: nat | Touches(l, region) :: Touches(s.pools[k], region) || s.issued <= region < issued
    ensures ProcessOk(Process(s.pools[k := l], issued))
  {
    ApieceKept(s, k, l, issued);
    forall m | 0 <= m < |s.pools| && m != k ensures PoolOk(s.pools[m], issued) {
      PoolOkLater(s.pools[m], s.issued, issued);
    }
  }

  lemma DoKeeps(s: Process, act: Act)
    requires ProcessOk(s) && LegalAct(s, act) && TameAct(act)
    ensures ProcessOk(Do(s, act))
  {
    match act {
      case CreateAct(size) => CreateKeeps(s, size);
      case On(k, op) =>
        var (l, issued) := Step(s.pools[k], op, s.issued);
        StepKeeps(s.pools[k], op, s.issued);
        StepTouches(s.pools[k], op, s.issued);
        PoolsKept(s, k, l, issued);
    }
  }

  lemma {:induction false} RunKeeps(s: Process, acts: seq<Act>)
    requires ProcessOk(s) && LegalRun(s, acts) && AllTame(acts)
    ensures ProcessOk(Run(s, acts))
    decreases acts
  {
    if acts != [] {
      DoKeeps(s, acts[0]);
      RunKeeps(Do(s, acts[0]), acts[1..]);
    }
  }

  ghost predicate AlwaysOk(s: Process, acts: seq<Act>)
    requires LegalRun(s, acts)
    decreases acts
  {
    ProcessOk(s) && (acts == [] || AlwaysOk(Do(s, acts[0]), acts[1..]))
  }

  lemma DoKeepsExactly(s: Process, act: Act)
    requires ProcessOk(s) && LegalAct(s, act)
    ensures ProcessOk(Do(s, act)) <==> TameAct(act)
  {
    if TameAct(act) {
      DoKeeps(s, act);
    } else {
      WrapBreaks(s.pools[act.k], act.op, s.issued);
      assert !PoolOk(Do(s, act).pools[act.k], Do(s, act).issued);
    }
  }

  /** All invariants hold all through a run exactly when in none of its requests adding the node header
      wraps. */
  lemma {:induction false} AlwaysOkExactly(s: Process, acts: seq<Act>)
    requires ProcessOk(s) && LegalRun(s, acts)
    ensures AlwaysOk(s, acts) <==> AllTame(acts)
    decreases acts
  {
    if acts != [] {
      DoKeepsExactly(s, acts[0]);
      assert AllTame(acts) <==> TameAct(acts[0]) && AllTame(acts[1..]) by {
        assert forall x | 0 <= x < |acts[1..]| :: acts[1..][x] == acts[x + 1];
      }
      if TameAct(acts[0]) {
        AlwaysOkExactly(Do(s, acts[0]), acts[1..]);
      }
    }
  }

  // ------------------------------------------------------------ blocks

  function Given(l: Live): seq<Grant> {
    l.small + l.large
  }

  /** In a memnode a block keeps clear of the memnode's header and of the pool's. */
  predicate ClearOfHeaders(l: Live, g: Grant) {
    g in l.large || g.at.offset >= if g.at.region == l.pool.home then NODE + HEADER else NODE
  }

  /** It has a region of its own: all of what the system allocator gave, or the part after the node header
      of a memnode that the pool does not keep. */
  ghost predicate OnItsOwn(l: Live, g: Grant) {
    !NodeRegion(l.pool.slots, g.at.region) && g.at.region != l.pool.home && Alone(g)
  }

  lemma TwoGrants(l: Live, issued: nat, x: int, y: int)
    requires PoolOk(l, issued) && 0 <= x < y < |Given(l)|
    ensures Apart(Given(l)[x], Given(l)[y])
  {
  }

  /** The block overlaps no other, is aligned and long enough, and lies inside one memnode, behind the
      headers, or has a region of its own. */
  ghost predicate SafeBlock(l: Live, x: int)
    requires 0 <= x < |Given(l)|
  {
    var g := Given(l)[x];
    && (forall y | 0 <= y < |Given(l)| && y != x :: Apart(g, Given(l)[y]))
    && g.at.offset % WORD == 0 && g.asked <= g.length
    && (if x < |l.small| then Within(l.pool.slots, g) else OnItsOwn(l, g))
    && ClearOfHeaders(l, g)
  }

  lemma BlockIsSafe(l: Live, issued: nat, x: int)
    requires PoolOk(l, issued) && 0 <= x < |Given(l)|
    ensures SafeBlock(l, x)
  {
    var g := Given(l)[x];
    forall y | 0 <= y < |Given(l)| && y != x ensures Apart(g, Given(l)[y]) {
      TwoGrants(l, issued, if x < y then x else y, if x < y then y else x);
    }
    if x < |l.small| {
      assert g == l.small[x] && GrantOk(g);
      var i, j :| At(l.pool.slots, i, j) && Holds(l.pool.slots[i][j], g);
    } else {
      assert g == l.large[x - |l.small|] && GrantOk(g);
    }
  }

  /** After any run of any operations on any pools, every block that a pool has handed out since its
      last clear is safe. */
  lemma BlocksAreSafe(acts: seq<Act>)
    requires LegalRun(INITIAL, acts) && AllTame(acts)
    ensures forall k, x | 0 <= k < |Run(INITIAL, acts).pools| && 0 <= x < |Given(Run(INITIAL, acts).pools[k])| ::
              SafeBlock(Run(INITIAL, acts).pools[k], x)
  {
    RunKeeps(INITIAL, acts);
    var s := Run(INITIAL, acts);
    forall k, x | 0 <= k < |s.pools| && 0 <= x < |Given(s.pools[k])| ensures SafeBlock(s.pools[k], x) {
      BlockIsSafe(s.pools[k], s.issued, x);
    }
  }

  // ------------------------------------------------------------ sizes

  function Size(n: Node): int {
    n.size
  }

  function Available(n: Node): int {
    n.sizeAvail
  }

  function Dealloc(n: Node): int {
    n.deallocSize
  }

  lemma {:induction false} ChainLinear(c: seq<Node>)
    requires forall j | 0 <= j < |c| :: Used(c[j]) + Available(c[j]) == Size(c[j])
    ensures ChainSum(c, Used) + ChainSum(c, Available) == ChainSum(c, Size)
  {
    if c != [] {
      ChainLinear(c[1..]);
    }
  }

  lemma {:induction false} SumLinear(s: Slots)
    requires forall i, j | At(s, i, j) :: Used(s[i][j]) + Available(s[i][j]) == Size(s[i][j])
    ensures Sum(s, Used) + Sum(s, Available) == Sum(s, Size)
  {
    if s != [] {
      forall j | 0 <= j < |s[0]| ensures Used(s[0][j]) + Available(s[0][j]) == Size(s[0][j]) {
        assert At(s, 0, j);
      }
      ChainLinear(s[0]);
      forall i, j | At(s[1..], i, j) ensures Used(s[1..][i][j]) + Available(s[1..][i][j]) == Size(s[1..][i][j]) {
        assert At(s, i + 1, j);
      }
      SumLinear(s[1..]);
    }
  }

  lemma {:induction false} TotalIsDealloc(s: Slots, i: nat)
    requires i <= |s| && forall k, l | At(s, k, l) :: s[k][l].deallocSize == PAGE * (k + 1)
    ensures TotalFrom(s, i) == Sum(s[i..], Dealloc)
    decreases |s| - i
  {
    if i < |s| {
      forall j | 0 <= j < |s[i]| ensures Dealloc(s[i][j]) == PAGE * (i + 1) {
        assert At(s, i, j);
      }
      ChainScale(s[i], Dealloc, PAGE * (i + 1));
      TotalIsDealloc(s, i + 1);
      assert s[i..][1..] == s[i + 1..];
    }
  }

  /** Conservation: what is free and what has been handed out make up the pool's size, and the total
      size is what its memnodes were allocated with. */
  lemma BytesAreConserved(acts: seq<Act>, k: int)
    requires LegalRun(INITIAL, acts) && AllTame(acts) && 0 <= k < |Run(INITIAL, acts).pools|
    ensures var l := Run(INITIAL, acts).pools[k];
            && Sum(l.pool.slots, Available) + Bytes(l.small) == Sum(l.pool.slots, Size)
            && TotalFrom(l.pool.slots, 0) == Sum(l.pool.slots, Dealloc)
  {
    RunKeeps(INITIAL, acts);
    var s := Run(INITIAL, acts).pools[k].pool.slots;
    SumLinear(s);
    TotalIsDealloc(s, 0);
    assert s[0..] == s;
  }

  /** A memnode of a slot smaller than that of Pages(a) has room exactly when the request and the node
      header fill whole pages and the memnode is the next smaller one, unused. */
  lemma NextSmallerOnly(n: Node, i: int, a: nat)
    requires NodeOk(n, i) && 0 <= i < Pages(a) - 1 && a + NODE < SIZE_MOD
    ensures n.sizeAvail >= a <==>
            a + NODE == PAGE * (Pages(a) - 1) && i == Pages(a) - 2 && n.sizeAvail == n.size == a
  {
  }

  lemma GrantTouched(l: Live, issued: nat, g: Grant)
    requires PoolOk(l, issued) && g in Given(l)
    ensures Touches(l, g.at.region)
  {
    if g in l.small {
      var x :| 0 <= x < |l.small| && l.small[x] == g;
      var i, j :| At(l.pool.slots, i, j) && Holds(l.pool.slots[i][j], g);
    }
  }

  /** Blocks handed out by two pools never share a region. */
  lemma PoolsAreApart(acts: seq<Act>)
    requires LegalRun(INITIAL, acts) && AllTame(acts)
    ensures forall k, m, g, h | 0 <= k < |Run(INITIAL, acts).pools| && 0 <= m < |Run(INITIAL, acts).pools| && k != m
                                && g in Given(Run(INITIAL, acts).pools[k]) && h in Given(Run(INITIAL, acts).pools[m]) ::
              g.at.region != h.at.region
  {
    RunKeeps(INITIAL, acts);
    var s := Run(INITIAL, acts);
    forall k, m, g, h | 0 <= k < |s.pools| && 0 <= m < |s.pools| && k != m
                        && g in Given(s.pools[k]) && h in Given(s.pools[m])
      ensures g.at.region != h.at.region
    {
      GrantTouched(s.pools[k], s.issued, g);
      GrantTouched(s.pools[m], s.issued, h);
    }
  }

  // ------------------------------------------------------------ cleanup nodes

  predicate IsCleanupNode(p: Pool, at: Addr) {
    at in p.reserve || exists x :: 0 <= x < |p.cleanups| && p.cleanups[x].at == at
  }

  predicate Granted(gs: seq<Grant>, at: Addr) {
    exists x :: 0 <= x < |gs| && gs[x].at == at && gs[x].length >= CLEANUP
  }

  /** Every cleanup node, in use or in reserve, lies in a block handed out since the last clear. */
  ghost predicate Anchored(l: Live) {
    forall at | IsCleanupNode(l.pool, at) :: Granted(l.small, at)
  }

  /** Then nothing else that is handed out touches it. */
  lemma AnchoredIsSafe(l: Live, issued: nat, at: Addr, y: int)
    requires PoolOk(l, issued) && Anchored(l) && IsCleanupNode(l.pool, at)
    requires 0 <= y < |Given(l)| && Given(l)[y].at != at
    ensures Apart(Grant(at, CLEANUP, CLEANUP), Given(l)[y])
  {
  }

  lemma GrantedMore(gs: seq<Grant>, more: seq<Grant>, at: Addr)
    requires Granted(gs, at)
    ensures Granted(gs + more, at)
  {
    var x :| 0 <= x < |gs| && gs[x].at == at && gs[x].length >= CLEANUP;
    assert (gs + more)[x] == gs[x];
  }

  lemma RegisterAnchored(l: Live, task: Task, issued: nat, l': Live)
    requires Anchored(l) && |l.pool.slots| == SLOTS
    requires var r := Register(l.pool, task, issued); l'.pool == r.pool && l'.small == l.small + NodeGrant(l.pool, r)
    ensures Anchored(l')
  {
    var gs := NodeGrant(l.pool, Register(l.pool, task, issued));
    forall at | IsCleanupNode(l'.pool, at) ensures Granted(l'.small, at) {
      if IsCleanupNode(l.pool, at) {
        GrantedMore(l.small, gs, at);
      } else {
        assert l'.small[|l.small|].at == at;
      }
    }
  }

  lemma UnregisterAnchored(l: Live, task: Task, l': Live)
    requires Anchored(l) && l'.pool == Unregister(l.pool, task) && l'.small == l.small
    ensures Anchored(l')
  {
  }

  /** Every operation but clear keeps them there. */
  lemma StepAnchored(l: Live, op: Op, issued: nat)
    requires Anchored(l) && |l.pool.slots| == SLOTS && Legal(op) && op != ClearOp
    ensures Anchored(Step(l, op, issued).0)
  {
    var l' := Step(l, op, issued).0;
    match op {
      case AllocOp(size) =>
        var a := AlignAllocation(size);
        if a == 0 {
        } else if Pages(a) - 1 > SLOTS {
          RegisterAnchored(l, Release(issued), issued + 1, l');
        } else {
          forall at | IsCleanupNode(l'.pool, at) ensures Granted(l'.small, at) {
            GrantedMore(l.small, l'.small[|l.small|..], at);
          }
        }
      case AddOp(handler, data) => RegisterAnchored(l, Call(handler, data), issued, l');
      case RunOp(task) => UnregisterAnchored(l, task, l');
      case RemoveOp(task) => UnregisterAnchored(l, task, l');
    }
  }

  lemma {:induction false} ReservedExactly(cs: seq<Cleanup>, reserve: seq<Addr>, at: Addr)
    ensures at in Reserved(cs, reserve) <==> at in reserve || exists x :: 0 <= x < |cs| && cs[x].at == at
  {
    if cs != [] {
      ReservedExactly(cs[1..], [cs[0].at] + reserve, at);
      if x: int :| 0 <= x < |cs| && cs[x].at == at {
        if x > 0 {
          assert cs[1..][x - 1].at == at;
        }
      }
      if x: int :| 0 <= x < |cs[1..]| && cs[1..][x].at == at {
        assert cs[x + 1].at == at;
      }
    }
  }

  /** Clear keeps them there exactly when there are none: it makes all memory available again and
      keeps the cleanup nodes that lie in it. */
  lemma ClearAnchoredExactly(l: Live, issued: nat)
    requires |l.pool.slots| == SLOTS
    ensures Anchored(Step(l, ClearOp, issued).0) <==> l.pool.cleanups == [] && l.pool.reserve == []
  {
    var l' := Step(l, ClearOp, issued).0;
    if l.pool.cleanups != [] {
      var at := l.pool.cleanups[0].at;
      ReservedExactly(l.pool.cleanups, l.pool.reserve, at);
      assert IsCleanupNode(l'.pool, at) && !Granted(l'.small, at);
    } else if l.pool.reserve != [] {
      assert l.pool.reserve[0] in l'.pool.reserve;
      assert IsCleanupNode(l'.pool, l.pool.reserve[0]) && !Granted(l'.small, l.pool.reserve[0]);
    }
  }

  /** What is kept then lies in memory that will be handed out again. */
  lemma ReserveLiesAvailable(l: Live, issued: nat, at: Addr) returns (i: int, j: int)
    requires PoolOk(l, issued) && Anchored(l) && IsCleanupNode(l.pool, at)
    ensures var s := Cleared(l.pool).slots;
            && At(s, i, j) && s[i][j].region == at.region
            && s[i][j].firstAvail <= at.offset && at.offset + CLEANUP <= s[i][j].firstAvail + s[i][j].sizeAvail
    ensures at in Cleared(l.pool).reserve
  {
    ReservedExactly(l.pool.cleanups, l.pool.reserve, at);
    var x :| 0 <= x < |l.small| && l.small[x].at == at && l.small[x].length >= CLEANUP;
    i, j :| At(l.pool.slots, i, j) && Holds(l.pool.slots[i][j], l.small[x]);
    ResetEntries(l.pool.slots, i, j);
  }

  ghost predicate AllAnchored(s: Process) {
    forall k | 0 <= k < |s.pools| :: Anchored(s.pools[k])
  }

  ghost predicate AlwaysAnchored(s: Process, acts: seq<Act>)
    requires LegalRun(s, acts)
    decreases acts
  {
    AllAnchored(s) && (acts == [] || AlwaysAnchored(Do(s, acts[0]), acts[1..]))
  }

  /** The pool that is cleared has no cleanups and never had one removed or run. */
  predicate CleanAct(s: Process, act: Act)
    requires LegalAct(s, act)
  {
    act.On? && act.op == ClearOp ==> s.pools[act.k].pool.cleanups == [] && s.pools[act.k].pool.reserve == []
  }

  predicate CleanRun(s: Process, acts: seq<Act>)
    requires LegalRun(s, acts)
    decreases acts
  {
    acts == [] || (CleanAct(s, acts[0]) && CleanRun(Do(s, acts[0]), acts[1..]))
  }

  lemma DoAnchored(s: Process, act: Act)
    requires AllAnchored(s) && LegalAct(s, act)
    ensures AllAnchored(Do(s, act)) <==> CleanAct(s, act)
  {
    if act.On? {
      var l := Step(s.pools[act.k], act.op, s.issued).0;
      assert Do(s, act).pools[act.k] == l;
      if act.op == ClearOp {
        ClearAnchoredExactly(s.pools[act.k], s.issued);
      } else {
        StepAnchored(s.pools[act.k], act.op, s.issued);
      }
    }
  }

  /** Cleanup nodes stay in memory of their own all through a run exactly when no pool with cleanup
      nodes is ever cleared. */
  lemma {:induction false} AnchoredExactly(s: Process, acts: seq<Act>)
    requires LegalRun(s, acts) && AllAnchored(s)
    ensures AlwaysAnchored(s, acts) <==> CleanRun(s, acts)
    decreases acts
  {
    if acts != [] {
      DoAnchored(s, acts[0]);
      if CleanAct(s, acts[0]) {
        AnchoredExactly(Do(s, acts[0]), acts[1..]);
      }
    }
  }
}

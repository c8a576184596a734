/** Pools from their creation to their end: every region goes back to the system at most once over a whole
    run exactly when no pool that has been destroyed is destroyed again, by itself or with a pool above
    it. */
module Teardowns {
  import opened Basics
  import opened PoolSizes
  import opened PoolModel
  import opened PoolRuns
  import opened PoolTheorems
  import opened PoolTree
  import opened PoolForest

  /** The pools of a process and their children, the pools that have been destroyed, and the regions given
      back so far. Destroying a pool does not take it off its parent's list. */
  datatype Life = Life(s: Process, kids: seq<seq<nat>>, gone: set<nat>, released: seq<nat>)

  datatype Deed = Make(size: nat, parent: Option<nat>) | Use(k: nat, op: Op) | Clear(k: nat) | Destroy(k: nat)

  ghost predicate Shaped(f: Life) {
    && Forest(f.kids) && |f.kids| == |f.s.pools|
    && forall k | 0 <= k < |f.s.pools| :: |f.s.pools[k].pool.slots| == SLOTS
  }

  /** Nobody uses a pool that has been destroyed, but it may be cleared or destroyed with a pool above it. */
  ghost predicate LegalDeed(f: Life, d: Deed) {
    Shaped(f) &&
    match d
    case Make(_, parent) => parent.Some? ==> parent.value < |f.s.pools| && parent.value !in f.gone
    case Use(k, op) => k < |f.s.pools| && k !in f.gone && Legal(op) && op != ClearOp
    case Clear(k) => k < |f.s.pools|
    case Destroy(k) => k < |f.s.pools|
  }

  ghost predicate TameDeed(d: Deed) {
    d.Use? ==> Tame(d.op)
  }

  /** Pool k and the pools below it, in the order in which a teardown comes to them. */
  ghost function Family(f: Life, k: nat): seq<nat>
    requires Forest(f.kids) && k < |f.kids|
  {
    Below(f.kids, k, [k])
  }

  ghost function TreeAt(f: Life, k: nat): Tree
    requires Shaped(f) && k < |f.s.pools|
  {
    TreeOf(f.s, f.kids, k, [k])
  }

  function Replaced(s: Process, ks: seq<nat>, g: Live -> Live): Process {
    Process(seq(|s.pools|, k requires 0 <= k < |s.pools| => if k in ks then g(s.pools[k]) else s.pools[k]), s.issued)
  }

  function ClearedLive(l: Live): Live {
    Live(Cleared(l.pool), [], [])
  }

  /** What destroy leaves in the memory it has given back: the cleanups have been run. */
  function Spent(l: Live): Live {
    l.(pool := l.pool.(cleanups := [], reserve := Reserved(l.pool.cleanups, l.pool.reserve)))
  }

  /** The region that running a cleanup gives back. */
  function RunReleases(l: Live, op: Op): seq<nat> {
    if op.RunOp? && op.task.Release? && IndexOf(l.pool.cleanups, op.task) < |l.pool.cleanups| then [op.task.region] else []
  }

  /** A new pool comes first among its parent's children. */
  function Adopted(kids: seq<seq<nat>>, parent: Option<nat>): seq<seq<nat>>
    requires parent.Some? ==> parent.value < |kids|
  {
    (if parent.Some? then kids[parent.value := [|kids|] + kids[parent.value]] else kids) + [[]]
  }

  ghost function ClearedAll(f: Life, k: nat): Life
    requires Shaped(f) && k < |f.s.pools|
  {
    f.(s := Replaced(f.s, Family(f, k), ClearedLive), released := f.released + Released(ClearEvents(TreeAt(f, k))))
  }

  ghost function DestroyedAll(f: Life, k: nat): Life
    requires Shaped(f) && k < |f.s.pools|
  {
    Life(Replaced(f.s, Family(f, k), Spent), f.kids, f.gone + (set x | x in Family(f, k)),
         f.released + Released(DestroyEvents(TreeAt(f, k))))
  }

  ghost function DoDeed(f: Life, d: Deed): Life
    requires LegalDeed(f, d)
  {
    match d
    case Make(size, parent) =>
      if Create(size, f.s.issued).None? then f
      else f.(s := Do(f.s, CreateAct(size)), kids := Adopted(f.kids, parent))
    case Use(k, op) =>
      f.(s := Do(f.s, On(k, op)), released := f.released + RunReleases(f.s.pools[k], op))
    case Clear(k) => ClearedAll(f, k)
    case Destroy(k) => DestroyedAll(f, k)
  }

  ghost predicate LegalLife(f: Life, ds: seq<Deed>)
    decreases ds
  {
    ds == [] || (LegalDeed(f, ds[0]) && LegalLife(DoDeed(f, ds[0]), ds[1..]))
  }

  ghost function RunLife(f: Life, ds: seq<Deed>): Life
    requires LegalLife(f, ds)
    decreases ds
  {
    if ds == [] then f else RunLife(DoDeed(f, ds[0]), ds[1..])
  }

  // ------------------------------------------------------------ what holds as long as nothing is destroyed twice

  ghost predicate Once(released: seq<nat>) {
    forall region: nat :: multiset(released)[region] <= 1
  }

  /** The region has been issued and belongs to no pool in use. */
  ghost predicate NobodysIn(f: Life, region: nat) {
    region < f.s.issued && forall k | 0 <= k < |f.s.pools| && k !in f.gone :: !Owns(f.s.pools[k].pool, region)
  }

  /** So it is with what has been given back. */
  ghost predicate BackForGood(f: Life) {
    forall region | region in f.released :: NobodysIn(f, region)
  }

  /** What a destroyed pool's memory still says it has is what was given back. */
  ghost predicate GoneOk(f: Life, k: nat) {
    && k < |f.s.pools| && f.s.pools[k].pool.cleanups == []
    && forall region: nat | NodeRegion(f.s.pools[k].pool.slots, region) :: region in f.released
  }

  ghost predicate LifeOk(f: Life) {
    && ProcessOk(f.s) && Shaped(f) && Once(f.released) && BackForGood(f)
    && forall k | k in f.gone :: GoneOk(f, k)
  }

  /** Pool x, which has been destroyed and has a memnode, is in the tree at k. */
  ghost predicate Lingers(f: Life, k: nat, x: nat)
    requires Shaped(f) && k < |f.s.pools|
  {
    x in Family(f, k) && x in f.gone && x < |f.s.pools| && NodeRegions(f.s.pools[x].pool.slots) != []
  }

  ghost predicate AllClean(f: Life, k: nat)
    requires Shaped(f) && k < |f.s.pools|
  {
    forall x: nat :: !Lingers(f, k, x)
  }

  /** No such pool is destroyed now. */
  ghost predicate CleanDeed(f: Life, d: Deed)
    requires LegalDeed(f, d)
  {
    d.Destroy? ==> AllClean(f, d.k)
  }

  // ------------------------------------------------------------ several pools at once

  lemma ReplacedOk(s: Process, ks: seq<nat>, g: Live -> Live)
    requires ProcessOk(s)
    requires forall k | 0 <= k < |s.pools| :: PoolOk(g(s.pools[k]), s.issued)
    requires forall k, region: nat | 0 <= k < |s.pools| && Touches(g(s.pools[k]), region) :: Touches(s.pools[k], region)
    ensures ProcessOk(Replaced(s, ks, g))
  {
    var s' := Replaced(s, ks, g);
    forall k, region: nat | 0 <= k < |s.pools| && Touches(s'.pools[k], region) ensures Touches(s.pools[k], region) {
    }
  }

  lemma SpentOk(l: Live, issued: nat)
    requires PoolOk(l, issued)
    ensures PoolOk(Spent(l), issued)
    ensures forall region: nat :: Owns(Spent(l).pool, region) <==> NodeRegion(l.pool.slots, region)
    ensures forall region: nat | Touches(Spent(l), region) :: Touches(l, region)
  {
    SoundIgnores(l, issued, Spent(l).pool);
  }

  lemma ResetRegion(s: Slots, region: nat)
    ensures NodeRegion(ResetAll(s), region) <==> NodeRegion(s, region)
  {
    if NodeRegion(s, region) {
      var i, j :| At(s, i, j) && s[i][j].region == region;
      ResetEntries(s, i, j);
    }
    if NodeRegion(ResetAll(s), region) {
      var i, j :| At(ResetAll(s), i, j) && ResetAll(s)[i][j].region == region;
      ResetEntries(s, i, j);
    }
  }

  lemma ClearedOk(l: Live, issued: nat)
    requires PoolOk(l, issued)
    ensures PoolOk(ClearedLive(l), issued)
    ensures forall region: nat :: Owns(ClearedLive(l).pool, region) <==> NodeRegion(l.pool.slots, region)
    ensures forall region: nat | Touches(ClearedLive(l), region) :: Touches(l, region)
  {
    ClearKeeps(l, issued);
    ClearReleases(l.pool, issued);
    forall region: nat {
      ResetRegion(l.pool.slots, region);
    }
  }

  // ------------------------------------------------------------ what a teardown gives back

  lemma FamilyIsTree(f: Life, k: nat)
    requires Shaped(f) && k < |f.s.pools|
    ensures Valid(f.s, Family(f, k)) && Distinct(Family(f, k)) && k in Family(f, k)
    ensures Preorder(TreeAt(f, k)) == Picked(f.s, Family(f, k))
  {
    PreorderIsBelow(f.s, f.kids, k, [k]);
    BelowIsDistinct(f.kids, k, [k]);
    assert Family(f, k)[0] == k;
  }

  /** Destroy gives back exactly once what some pool of the tree owns. */
  lemma DestroyCounts(f: Life, k: nat, region: nat)
    requires ProcessOk(f.s) && Shaped(f) && k < |f.s.pools|
    ensures Valid(f.s, Family(f, k))
    ensures multiset(Released(DestroyEvents(TreeAt(f, k))))[region] ==
            if exists x :: 0 <= x < |Family(f, k)| && Owns(f.s.pools[Family(f, k)[x]].pool, region) then 1 else 0
  {
    FamilyIsTree(f, k);
    DestroyReleasesOwned(TreeAt(f, k));
    PickedOnce(f.s, Family(f, k), region);
  }

  /** The regions that the cleanups of the pools release, each as often as they do. */
  function AllReleases(ps: seq<Pool>): multiset<nat> {
    if ps == [] then multiset{} else multiset(Releases(ps[0].cleanups)) + AllReleases(ps[1..])
  }

  lemma {:induction false} AllReleasesConcat(a: seq<Pool>, b: seq<Pool>)
    ensures AllReleases(a + b) == AllReleases(a) + AllReleases(b)
  {
    if a == [] {
      assert a + b == b;
    } else {
      assert (a + b)[0] == a[0] && (a + b)[1..] == a[1..] + b;
      AllReleasesConcat(a[1..], b);
    }
  }

  lemma {:induction false} ClearReleasesAll(t: Tree)
    ensures multiset(Released(ClearEvents(t))) == AllReleases(Preorder(t))
  {
    match t {
      case Nil =>
      case Cons(p, child, brother) =>
        ClearReleasesAll(child);
        ClearReleasesAll(brother);
        ReleasedConcat(Rans(p.cleanups) + ClearEvents(child), ClearEvents(brother));
        ReleasedConcat(Rans(p.cleanups), ClearEvents(child));
        RansRelease(p.cleanups);
        AllReleasesConcat([p] + Preorder(child), Preorder(brother));
        AllReleasesConcat([p], Preorder(child));
        assert AllReleases([p]) == multiset(Releases(p.cleanups)) + multiset{};
    }
  }

  lemma {:induction false} InReleases(cs: seq<Cleanup>, region: nat)
    ensures region in Releases(cs) ==> HasRelease(cs, region)
  {
    if cs != [] {
      InReleases(cs[1..], region);
      if HasRelease(cs[1..], region) {
        var x :| 0 <= x < |cs[1..]| && cs[1..][x].task == Release(region);
        assert cs[x + 1].task == Release(region);
      }
    }
  }

  lemma {:induction false} ReleasesAreOwned(ps: seq<Pool>, region: nat)
    ensures AllReleases(ps)[region] <= AllOwned(ps)[region]
    ensures AllReleases(ps)[region] > 0 ==> exists x :: 0 <= x < |ps| && HasRelease(ps[x].cleanups, region)
  {
    if ps != [] {
      ReleasesAreOwned(ps[1..], region);
      InReleases(ps[0].cleanups, region);
      if x: int :| 0 <= x < |ps[1..]| && HasRelease(ps[1..][x].cleanups, region) {
        assert ps[x + 1] == ps[1..][x];
      }
    }
  }

  /** Clear gives back at most once what some cleanup of the tree releases. */
  lemma ClearCounts(f: Life, k: nat, region: nat)
    requires ProcessOk(f.s) && Shaped(f) && k < |f.s.pools|
    ensures Valid(f.s, Family(f, k))
    ensures multiset(Released(ClearEvents(TreeAt(f, k))))[region] <= 1
    ensures multiset(Released(ClearEvents(TreeAt(f, k))))[region] > 0 ==>
              exists x :: 0 <= x < |Family(f, k)| && HasRelease(f.s.pools[Family(f, k)[x]].pool.cleanups, region)
  {
    FamilyIsTree(f, k);
    ClearReleasesAll(TreeAt(f, k));
    ReleasesAreOwned(Preorder(TreeAt(f, k)), region);
    PickedOnce(f.s, Family(f, k), region);
  }

  // ------------------------------------------------------------ one deed

  lemma CountConcat(a: seq<nat>, b: seq<nat>, region: nat)
    ensures multiset(a + b)[region] == multiset(a)[region] + multiset(b)[region]
    ensures region in a + b <==> region in a || region in b
    ensures region in b <==> multiset(b)[region] > 0
  {
    assert multiset(a + b) == multiset(a) + multiset(b);
    assert region in b <==> multiset(b)[region] > 0;
  }

  /** Nothing comes back twice when what comes back now has not come back before. */
  lemma OnceMore(a: seq<nat>, b: seq<nat>)
    requires Once(a) && forall region: nat :: multiset(b)[region] <= if region in a then 0 else 1
    ensures Once(a + b)
  {
    forall region: nat ensures multiset(a + b)[region] <= 1 {
      CountConcat(a, b, region);
      assert region in a <==> region in multiset(a);
    }
  }

  lemma OwnedIsIssued(f: Life, k: int, region: nat)
    requires ProcessOk(f.s) && 0 <= k < |f.s.pools| && Owns(f.s.pools[k].pool, region)
    ensures region < f.s.issued
  {
    assert PoolOk(f.s.pools[k], f.s.issued);
  }

  lemma SpentProcess(s: Process, ks: seq<nat>)
    requires ProcessOk(s)
    ensures ProcessOk(Replaced(s, ks, Spent))
  {
    forall x | 0 <= x < |s.pools| ensures PoolOk(Spent(s.pools[x]), s.issued) {
      SpentOk(s.pools[x], s.issued);
    }
    forall x, region: nat | 0 <= x < |s.pools| && Touches(Spent(s.pools[x]), region) ensures Touches(s.pools[x], region) {
      SpentOk(s.pools[x], s.issued);
    }
    ReplacedOk(s, ks, Spent);
  }

  lemma DestroyKeeps(f: Life, k: nat)
    requires LifeOk(f) && k < |f.s.pools| && AllClean(f, k)
    ensures LifeOk(DestroyedAll(f, k))
  {
    var f' := DestroyedAll(f, k);
    var back: seq<nat> := Released(DestroyEvents(TreeAt(f, k)));
    SpentProcess(f.s, Family(f, k));
    forall region: nat ensures multiset(back)[region] <= if region in f.released then 0 else 1 {
      DestroyGivesNew(f, k, region);
    }
    OnceMore(f.released, back);
    forall region | region in f'.released ensures NobodysIn(f', region) {
      CountConcat(f.released, back, region);
      DestroyTakesAway(f, k, region);
    }
    forall m | m in f'.gone ensures GoneOk(f', m) {
      DestroyedIsGone(f, k, m);
    }
  }

  /** What is given back now was owned by a pool of the tree, and by none outside it. */
  lemma DestroyOwner(f: Life, k: nat, region: nat)
    requires LifeOk(f) && k < |f.s.pools| && region in Released(DestroyEvents(TreeAt(f, k)))
    ensures region < f.s.issued
    ensures forall m | 0 <= m < |f.s.pools| && m !in Family(f, k) :: !Owns(f.s.pools[m].pool, region)
  {
    var ks := Family(f, k);
    DestroyCounts(f, k, region);
    CountConcat([], Released(DestroyEvents(TreeAt(f, k))), region);
    var x :| 0 <= x < |ks| && Owns(f.s.pools[ks[x]].pool, region);
    OwnedIsIssued(f, ks[x], region);
    forall m | 0 <= m < |f.s.pools| && m !in ks ensures !Owns(f.s.pools[m].pool, region) {
      if Owns(f.s.pools[m].pool, region) {
        OneOwner(f.s, ks[x], m, region);
      }
    }
  }

  lemma DestroyTakesAway(f: Life, k: nat, region: nat)
    requires LifeOk(f) && k < |f.s.pools| && region in f.released + Released(DestroyEvents(TreeAt(f, k)))
    ensures NobodysIn(DestroyedAll(f, k), region)
  {
    if region in f.released {
      assert NobodysIn(f, region);
    } else {
      DestroyOwner(f, k, region);
    }
    forall m | 0 <= m < |f.s.pools| && m !in Family(f, k) && m !in f.gone
      ensures !Owns(Replaced(f.s, Family(f, k), Spent).pools[m].pool, region)
    {
      SpentAt(f.s, Family(f, k), m);
    }
  }

  /** A destroyed pool owns nothing but its memnodes. */
  lemma GoneOwns(f: Life, m: nat, region: nat)
    requires m in f.gone && GoneOk(f, m) && Owns(f.s.pools[m].pool, region)
    ensures NodeRegions(f.s.pools[m].pool.slots) != [] && region in f.released
  {
    InNodeRegions(f.s.pools[m].pool.slots, region);
  }

  lemma DestroyGivesNew(f: Life, k: nat, region: nat)
    requires LifeOk(f) && k < |f.s.pools| && AllClean(f, k)
    ensures multiset(Released(DestroyEvents(TreeAt(f, k))))[region] <= if region in f.released then 0 else 1
  {
    var ks := Family(f, k);
    DestroyCounts(f, k, region);
    if x: int :| 0 <= x < |ks| && Owns(f.s.pools[ks[x]].pool, region) {
      if ks[x] in f.gone {
        assert !Lingers(f, k, ks[x]);
        GoneOwns(f, ks[x], region);
      }
    }
  }

  lemma SpentAt(s: Process, ks: seq<nat>, m: nat)
    requires m < |s.pools|
    ensures Replaced(s, ks, Spent).pools[m] == if m in ks then Spent(s.pools[m]) else s.pools[m]
  {
  }

  lemma DestroyedIsGone(f: Life, k: nat, m: nat)
    requires LifeOk(f) && k < |f.s.pools| && m in DestroyedAll(f, k).gone
    ensures GoneOk(DestroyedAll(f, k), m)
  {
    var ks := Family(f, k);
    var back: seq<nat> := Released(DestroyEvents(TreeAt(f, k)));
    FamilyIsTree(f, k);
    assert m in ks || GoneOk(f, m);
    var slots := f.s.pools[m].pool.slots;
    SpentAt(f.s, ks, m);
    if m in ks {
      forall region: nat | NodeRegion(slots, region) ensures region in f.released + back {
        MemberOwns(f, k, m, region);
        CountConcat(f.released, back, region);
      }
    }
  }

  lemma MemberOwns(f: Life, k: nat, m: nat, region: nat)
    requires LifeOk(f) && k < |f.s.pools| && m in Family(f, k) && m < |f.s.pools|
    requires NodeRegion(f.s.pools[m].pool.slots, region)
    ensures multiset(Released(DestroyEvents(TreeAt(f, k))))[region] == 1
  {
    var ks := Family(f, k);
    var x :| 0 <= x < |ks| && ks[x] == m;
    DestroyCounts(f, k, region);
    assert Owns(f.s.pools[ks[x]].pool, region);
  }

  lemma TwiceIsNotOnce(a: seq<nat>, b: seq<nat>, region: nat)
    requires region in a && multiset(b)[region] == 1
    ensures !Once(a + b)
  {
    CountConcat(a, b, region);
    assert multiset(a)[region] > 0;
  }

  lemma LingererReturns(f: Life, k: nat, m: nat)
    requires LifeOk(f) && k < |f.s.pools| && Lingers(f, k, m)
    ensures !Once(f.released + Released(DestroyEvents(TreeAt(f, k))))
  {
    var slots := f.s.pools[m].pool.slots;
    var region := NodeRegions(slots)[0];
    InNodeRegions(slots, region);
    GoneOwns(f, m, region);
    MemberOwns(f, k, m, region);
    TwiceIsNotOnce(f.released, Released(DestroyEvents(TreeAt(f, k))), region);
  }

  /** Destroying a destroyed pool that has a memnode gives that back a second time. */
  lemma DestroyBreaks(f: Life, k: nat)
    requires LifeOk(f) && k < |f.s.pools| && !AllClean(f, k)
    ensures !Once(DestroyedAll(f, k).released)
  {
    var m: nat :| Lingers(f, k, m);
    LingererReturns(f, k, m);
  }

  // ------------------------------------------------------------ the other deeds

  lemma ClearedAt(s: Process, ks: seq<nat>, m: nat)
    requires m < |s.pools|
    ensures Replaced(s, ks, ClearedLive).pools[m] == if m in ks then ClearedLive(s.pools[m]) else s.pools[m]
  {
  }

  /** What clear gives back some cleanup of the tree releases, a pool's that is in use. */
  lemma ClearReleaser(f: Life, k: nat, region: nat) returns (x: nat)
    requires LifeOk(f) && k < |f.s.pools| && region in Released(ClearEvents(TreeAt(f, k)))
    ensures Valid(f.s, Family(f, k)) && x < |Family(f, k)| && HasRelease(f.s.pools[Family(f, k)[x]].pool.cleanups, region)
    ensures region < f.s.issued && region !in f.released
  {
    var ks := Family(f, k);
    ClearCounts(f, k, region);
    CountConcat([], Released(ClearEvents(TreeAt(f, k))), region);
    var y :| 0 <= y < |ks| && HasRelease(f.s.pools[ks[y]].pool.cleanups, region);
    x := y;
    assert Owns(f.s.pools[ks[x]].pool, region);
    OwnedIsIssued(f, ks[x], region);
    assert ks[x] in f.gone ==> GoneOk(f, ks[x]);
  }

  /** It has not been given back before, */
  lemma ClearGivesNew(f: Life, k: nat, region: nat)
    requires LifeOk(f) && k < |f.s.pools|
    ensures multiset(Released(ClearEvents(TreeAt(f, k))))[region] <= if region in f.released then 0 else 1
  {
    ClearCounts(f, k, region);
    CountConcat([], Released(ClearEvents(TreeAt(f, k))), region);
    if region in Released(ClearEvents(TreeAt(f, k))) {
      var x := ClearReleaser(f, k, region);
    }
  }

  /** and is nobody's afterwards. */
  lemma ClearTakesAway(f: Life, k: nat, region: nat)
    requires LifeOk(f) && k < |f.s.pools| && region in Released(ClearEvents(TreeAt(f, k)))
    ensures region < f.s.issued
    ensures forall m | 0 <= m < |f.s.pools| :: !Owns(Replaced(f.s, Family(f, k), ClearedLive).pools[m].pool, region)
  {
    var x := ClearReleaser(f, k, region);
    forall m | 0 <= m < |f.s.pools| ensures !Owns(Replaced(f.s, Family(f, k), ClearedLive).pools[m].pool, region) {
      ReleasedIsFree(f.s, Family(f, k), x, m, region);
    }
  }

  lemma ReleasedIsFree(s: Process, ks: seq<nat>, x: int, m: nat, region: nat)
    requires ProcessOk(s) && Valid(s, ks) && 0 <= x < |ks| && m < |s.pools|
    requires HasRelease(s.pools[ks[x]].pool.cleanups, region)
    ensures !Owns(Replaced(s, ks, ClearedLive).pools[m].pool, region)
  {
    ClearedAt(s, ks, m);
    ClearedOk(s.pools[m], s.issued);
    assert Owns(s.pools[ks[x]].pool, region) && PoolOk(s.pools[ks[x]], s.issued);
    if Owns(s.pools[m].pool, region) {
      OneOwner(s, ks[x], m, region);
      assert ks[x] in ks;
    }
  }

  lemma ClearedProcess(s: Process, ks: seq<nat>)
    requires ProcessOk(s)
    ensures ProcessOk(Replaced(s, ks, ClearedLive))
  {
    forall x | 0 <= x < |s.pools| ensures PoolOk(ClearedLive(s.pools[x]), s.issued) {
      ClearedOk(s.pools[x], s.issued);
    }
    forall x, region: nat | 0 <= x < |s.pools| && Touches(ClearedLive(s.pools[x]), region)
      ensures Touches(s.pools[x], region)
    {
      ClearedOk(s.pools[x], s.issued);
    }
    ReplacedOk(s, ks, ClearedLive);
  }

  lemma ClearOwnsNoMore(f: Life, ks: seq<nat>, m: nat, region: nat)
    requires LifeOk(f) && m < |f.s.pools| && !Owns(f.s.pools[m].pool, region)
    ensures !Owns(Replaced(f.s, ks, ClearedLive).pools[m].pool, region)
  {
    ClearedAt(f.s, ks, m);
    ClearedOk(f.s.pools[m], f.s.issued);
  }

  lemma ClearStaysBack(f: Life, k: nat, region: nat)
    requires LifeOk(f) && k < |f.s.pools| && region in f.released + Released(ClearEvents(TreeAt(f, k)))
    ensures NobodysIn(ClearedAll(f, k), region)
  {
    if region in f.released {
      assert NobodysIn(f, region);
      forall m | 0 <= m < |f.s.pools| && m !in f.gone
        ensures !Owns(Replaced(f.s, Family(f, k), ClearedLive).pools[m].pool, region)
      {
        ClearOwnsNoMore(f, Family(f, k), m, region);
      }
    } else {
      ClearTakesAway(f, k, region);
    }
  }

  lemma ClearStaysGone(f: Life, k: nat, m: nat)
    requires LifeOk(f) && k < |f.s.pools| && m in f.gone
    ensures GoneOk(ClearedAll(f, k), m)
  {
    assert GoneOk(f, m);
    ClearedAt(f.s, Family(f, k), m);
    forall region: nat {
      ResetRegion(f.s.pools[m].pool.slots, region);
    }
  }

  lemma ClearLifeKeeps(f: Life, k: nat)
    requires LifeOk(f) && k < |f.s.pools|
    ensures LifeOk(ClearedAll(f, k))
  {
    var f' := ClearedAll(f, k);
    var back: seq<nat> := Released(ClearEvents(TreeAt(f, k)));
    ClearedProcess(f.s, Family(f, k));
    forall region: nat ensures multiset(back)[region] <= if region in f.released then 0 else 1 {
      ClearGivesNew(f, k, region);
    }
    OnceMore(f.released, back);
    forall region | region in f'.released ensures NobodysIn(f', region) {
      ClearStaysBack(f, k, region);
    }
    forall m | m in f'.gone ensures GoneOk(f', m) {
      ClearStaysGone(f, k, m);
    }
  }

  /** A cleanup that is run gives back what it releases, and its pool no longer has it. */
  lemma RunGivesBack(l: Live, op: Op, issued: nat, region: nat)
    requires PoolOk(l, issued) && Legal(op) && region in RunReleases(l, op)
    ensures Owns(l.pool, region) && !Owns(Step(l, op, issued).0.pool, region) && multiset(RunReleases(l, op))[region] == 1
  {
    var i := IndexOf(l.pool.cleanups, op.task);
    assert l.pool.cleanups[i].task == Release(region);
    var cs := Unregister(l.pool, op.task).cleanups;
    forall x | 0 <= x < |cs| ensures cs[x].task != Release(region) {
      assert cs[x] == l.pool.cleanups[if x < i then x else x + 1];
    }
  }

  lemma UseGivesNew(f: Life, k: nat, op: Op, region: nat)
    requires LifeOk(f) && LegalDeed(f, Use(k, op))
    ensures multiset(RunReleases(f.s.pools[k], op))[region] <= if region in f.released then 0 else 1
  {
    if region in RunReleases(f.s.pools[k], op) {
      RunGivesBack(f.s.pools[k], op, f.s.issued, region);
    }
  }

  /** What has been given back stays nobody's. */
  lemma UseTakesAway(f: Life, k: nat, op: Op, region: nat, m: nat)
    requires LifeOk(f) && LegalDeed(f, Use(k, op)) && Tame(op) && m < |f.s.pools| && m !in f.gone
    requires region in f.released + RunReleases(f.s.pools[k], op)
    ensures region < f.s.issued && !Owns(Do(f.s, On(k, op)).pools[m].pool, region)
  {
    var l := f.s.pools[k];
    if region in RunReleases(l, op) {
      RunGivesBack(l, op, f.s.issued, region);
      OwnedIsIssued(f, k, region);
      if m != k && Owns(f.s.pools[m].pool, region) {
        OneOwner(f.s, k, m, region);
      }
    }
    StepReleases(l, op, f.s.issued);
  }

  lemma UseKeeps(f: Life, k: nat, op: Op)
    requires LifeOk(f) && LegalDeed(f, Use(k, op)) && Tame(op)
    ensures LifeOk(DoDeed(f, Use(k, op)))
  {
    var f' := DoDeed(f, Use(k, op));
    var back: seq<nat> := RunReleases(f.s.pools[k], op);
    DoKeeps(f.s, On(k, op));
    StepTouches(f.s.pools[k], op, f.s.issued);
    forall region: nat ensures multiset(back)[region] <= if region in f.released then 0 else 1 {
      UseGivesNew(f, k, op, region);
    }
    OnceMore(f.released, back);
    forall region | region in f'.released ensures NobodysIn(f', region) {
      UseTakesAway(f, k, op, region, k);
      forall m | 0 <= m < |f'.s.pools| && m !in f'.gone ensures !Owns(f'.s.pools[m].pool, region) {
        UseTakesAway(f, k, op, region, m);
      }
    }
    forall m | m in f'.gone ensures GoneOk(f', m) {
      assert GoneOk(f, m);
    }
  }

  lemma AdoptedAt(kids: seq<seq<nat>>, parent: Option<nat>, k: nat)
    requires (parent.Some? ==> parent.value < |kids|) && k <= |kids|
    ensures Adopted(kids, parent)[k] ==
            if k == |kids| then [] else if parent == Some(k) then [|kids|] + kids[k] else kids[k]
  {
  }

  /** A child of k is an old one or the new one, which has no other parent. */
  lemma AdoptedChild(kids: seq<seq<nat>>, parent: Option<nat>, k: nat, c: nat)
    requires Forest(kids) && (parent.Some? ==> parent.value < |kids|) && k <= |kids| && c in Adopted(kids, parent)[k]
    ensures k < |kids| && (if c == |kids| then parent == Some(k) else c in kids[k] && c < |kids|)
  {
    AdoptedAt(kids, parent, k);
  }

  lemma ForestGrows(kids: seq<seq<nat>>, parent: Option<nat>)
    requires Forest(kids) && (parent.Some? ==> parent.value < |kids|)
    ensures Forest(Adopted(kids, parent))
  {
    var kids' := Adopted(kids, parent);
    forall k, i | 0 <= k < |kids'| && 0 <= i < |kids'[k]| ensures k < kids'[k][i] < |kids'| {
      AdoptedChild(kids, parent, k, kids'[k][i]);
      AdoptedAt(kids, parent, k);
    }
    forall k, i, j | 0 <= k < |kids'| && 0 <= i < j < |kids'[k]| ensures kids'[k][i] != kids'[k][j] {
      AdoptedAt(kids, parent, k);
    }
    forall k, m, c | 0 <= k < |kids'| && 0 <= m < |kids'| && c in kids'[k] && c in kids'[m] ensures k == m {
      AdoptedChild(kids, parent, k, c);
      AdoptedChild(kids, parent, m, c);
    }
  }

  lemma {:induction false} BelowStays(kids: seq<seq<nat>>, kids': seq<seq<nat>>, lo: nat, ks: seq<nat>)
    requires Forest(kids) && Forest(kids') && |kids| <= |kids'| && From(kids, lo, ks)
    requires forall m | lo <= m < |kids| :: kids'[m] == kids[m]
    ensures From(kids', lo, ks) && Below(kids', lo, ks) == Below(kids, lo, ks)
    decreases |kids| - lo, |ks|
  {
    if ks != [] {
      BelowStays(kids, kids', ks[0] + 1, kids[ks[0]]);
      BelowStays(kids, kids', lo, ks[1..]);
    }
  }

  lemma BelowFirst(kids: seq<seq<nat>>, lo: nat, k: nat, rest: seq<nat>)
    requires Forest(kids) && lo <= k < |kids| && From(kids, lo, rest)
    ensures From(kids, lo, [k] + rest) && From(kids, k + 1, kids[k])
    ensures Below(kids, lo, [k] + rest) == [k] + Below(kids, k + 1, kids[k]) + Below(kids, lo, rest)
  {
    assert ([k] + rest)[1..] == rest;
  }

  /** A teardown of its parent comes to a new pool right after the parent, and then to the pools it came to
      before, in the same order. */
  lemma NewChildIsNext(kids: seq<seq<nat>>, k: nat)
    requires Forest(kids) && k < |kids|
    ensures Forest(Adopted(kids, Some(k)))
    ensures Below(Adopted(kids, Some(k)), k, [k]) == [k, |kids|] + Below(kids, k, [k])[1..]
  {
    var kids', c := Adopted(kids, Some(k)), |kids|;
    ForestGrows(kids, Some(k));
    assert kids'[k] == [c] + kids[k] && kids'[c] == [];
    BelowStays(kids, kids', k + 1, kids[k]);
    NewFirst(kids', k, c, kids[k]);
    OnlyOne(kids, k);
  }

  lemma OnlyOne(kids: seq<seq<nat>>, k: nat)
    requires Forest(kids) && k < |kids|
    ensures From(kids, k + 1, kids[k]) && Below(kids, k, [k]) == [k] + Below(kids, k + 1, kids[k])
  {
    BelowFirst(kids, k, k, []);
    assert [k] + [] == [k];
  }

  lemma NewFirst(kids: seq<seq<nat>>, k: nat, c: nat, rest: seq<nat>)
    requires Forest(kids) && k < c < |kids| && kids[k] == [c] + rest && kids[c] == [] && From(kids, k + 1, rest)
    ensures Below(kids, k, [k]) == [k, c] + Below(kids, k + 1, rest)
  {
    OnlyOne(kids, k);
    BelowFirst(kids, k + 1, c, rest);
  }

  lemma MakeKeeps(f: Life, size: nat, parent: Option<nat>)
    requires LifeOk(f) && LegalDeed(f, Make(size, parent))
    ensures LifeOk(DoDeed(f, Make(size, parent)))
  {
    if Create(size, f.s.issued).Some? {
      var f', n := DoDeed(f, Make(size, parent)), |f.s.pools|;
      DoKeeps(f.s, CreateAct(size));
      CreatedOk(size, f.s.issued);
      ForestGrows(f.kids, parent);
      forall region | region in f'.released ensures NobodysIn(f', region) {
        assert NobodysIn(f, region);
        forall m | 0 <= m < |f'.s.pools| && m !in f'.gone ensures !Owns(f'.s.pools[m].pool, region) {
          if m == n && Owns(f'.s.pools[m].pool, region) {
            assert Touches(f'.s.pools[m], region);
          }
        }
      }
      forall m | m in f'.gone ensures GoneOk(f', m) {
        assert GoneOk(f, m);
      }
    }
  }

  // ------------------------------------------------------------ every life

  /** A deed keeps everything, or gives something back a second time. */
  lemma DeedExactly(f: Life, d: Deed)
    requires LifeOk(f) && LegalDeed(f, d) && TameDeed(d)
    ensures if CleanDeed(f, d) then LifeOk(DoDeed(f, d)) else !Once(DoDeed(f, d).released)
  {
    match d {
      case Make(size, parent) => MakeKeeps(f, size, parent);
      case Use(k, op) => UseKeeps(f, k, op);
      case Clear(k) => ClearLifeKeeps(f, k);
      case Destroy(k) =>
        if CleanDeed(f, d) {
          DestroyKeeps(f, k);
        } else {
          DestroyBreaks(f, k);
        }
    }
  }

  ghost predicate CleanLife(f: Life, ds: seq<Deed>)
    requires LegalLife(f, ds)
    decreases ds
  {
    ds == [] || (CleanDeed(f, ds[0]) && CleanLife(DoDeed(f, ds[0]), ds[1..]))
  }

  ghost predicate AllTameDeeds(ds: seq<Deed>) {
    forall i | 0 <= i < |ds| :: TameDeed(ds[i])
  }

  lemma DeedReleasesMore(f: Life, d: Deed)
    requires LegalDeed(f, d)
    ensures f.released <= DoDeed(f, d).released
  {
  }

  lemma NeverOnceAgain(a: seq<nat>, b: seq<nat>)
    requires a <= b && !Once(a)
    ensures !Once(b)
  {
    var region: nat :| multiset(a)[region] > 1;
    assert b == a + b[|a|..];
    CountConcat(a, b[|a|..], region);
  }

  lemma {:induction false} TwiceForEver(f: Life, ds: seq<Deed>)
    requires LegalLife(f, ds) && !Once(f.released)
    ensures !Once(RunLife(f, ds).released)
    decreases ds
  {
    if ds != [] {
      DeedReleasesMore(f, ds[0]);
      NeverOnceAgain(f.released, DoDeed(f, ds[0]).released);
      TwiceForEver(DoDeed(f, ds[0]), ds[1..]);
    }
  }

  /** Over any run of creating, using, clearing and destroying pools every region goes back to the system
      at most once exactly when no pool that has been destroyed, and has a memnode, is destroyed again:
      by itself, or with a pool above it, whose list it is still on. */
  lemma {:induction false} OnceExactly(f: Life, ds: seq<Deed>)
    requires LifeOk(f) && LegalLife(f, ds) && AllTameDeeds(ds)
    ensures Once(RunLife(f, ds).released) <==> CleanLife(f, ds)
    decreases ds
  {
    if ds != [] {
      var d, rest := ds[0], ds[1..];
      DeedExactly(f, d);
      assert AllTameDeeds(rest) by {
        forall i | 0 <= i < |rest| ensures TameDeed(rest[i]) {
          assert rest[i] == ds[i + 1];
        }
      }
      if CleanDeed(f, d) {
        OnceExactly(DoDeed(f, d), rest);
      } else {
        TwiceForEver(DoDeed(f, d), rest);
      }
    }
  }

  const NEW_LIFE := Life(INITIAL, [], {}, [])

  lemma NewIsOk()
    ensures LifeOk(NEW_LIFE)
  {
  }

  /** So it is in a process that starts without pools. */
  lemma OnceFromStart(ds: seq<Deed>)
    requires LegalLife(NEW_LIFE, ds) && AllTameDeeds(ds)
    ensures Once(RunLife(NEW_LIFE, ds).released) <==> CleanLife(NEW_LIFE, ds)
  {
    NewIsOk();
    OnceExactly(NEW_LIFE, ds);
  }

  lemma {:induction false} InBelow(kids: seq<seq<nat>>, lo: nat, ks: seq<nat>, i: nat)
    requires Forest(kids) && From(kids, lo, ks) && i < |ks|
    ensures ks[i] in Below(kids, lo, ks)
    decreases |ks|
  {
    if i > 0 {
      InBelow(kids, lo, ks[1..], i - 1);
    }
  }

  lemma DestroyedShape(f: Life, k: nat)
    requires Shaped(f) && k < |f.s.pools|
    ensures var f' := DestroyedAll(f, k); Shaped(f') && f'.kids == f.kids && |f'.s.pools| == |f.s.pools|
  {
    var f' := DestroyedAll(f, k);
    forall x | 0 <= x < |f.s.pools| ensures |f'.s.pools[x].pool.slots| == SLOTS {
      SpentAt(f.s, Family(f, k), x);
    }
  }

  lemma ChildInFamily(f: Life, p: nat, c: nat)
    requires Forest(f.kids) && p < |f.kids| && c in f.kids[p]
    ensures c in Family(f, p)
  {
    var i :| 0 <= i < |f.kids[p]| && f.kids[p][i] == c;
    InBelow(f.kids, p + 1, f.kids[p], i);
  }

  lemma ChildLingers(f: Life, p: nat, c: nat)
    requires LifeOk(f) && p < |f.kids| && c in f.kids[p] && NodeRegions(f.s.pools[c].pool.slots) != []
    ensures Shaped(DestroyedAll(f, c)) && Lingers(DestroyedAll(f, c), p, c)
  {
    DestroyedShape(f, c);
    FamilyIsTree(f, c);
    SpentAt(f.s, Family(f, c), c);
    ChildInFamily(DestroyedAll(f, c), p, c);
  }

  /** The shortest way there: a child with a memnode is destroyed, and then its parent. */
  lemma ChildThenParent(f: Life, p: nat, c: nat)
    requires LifeOk(f) && p < |f.kids| && c in f.kids[p] && NodeRegions(f.s.pools[c].pool.slots) != []
    ensures LegalLife(f, [Destroy(c), Destroy(p)])
    ensures !Once(RunLife(f, [Destroy(c), Destroy(p)]).released)
  {
    var ds := [Destroy(c), Destroy(p)];
    DestroyedShape(f, c);
    assert ds[1..] == [Destroy(p)] && ds[1..][1..] == [];
    ChildLingers(f, p, c);
    OnceExactly(f, ds);
  }
}

/** When the levels of a configuration end: exactly when its includes lead into no cycle. */
module ProcessCycles {
  import opened Tokeniser
  import opened ProcessModel
  import opened ProcessTheorems

  // ------------------------------------------------------------ chains and cycles

  ghost predicate Link<T>(next: (T, T) -> bool, c: seq<T>, i: nat) {
    i + 1 < |c| ==> next(c[i], c[i + 1])
  }

  ghost predicate Chain<T>(next: (T, T) -> bool, c: seq<T>) {
    forall i: nat :: Link(next, c, i)
  }

  /** A chain that goes round: its last element leads to its first. */
  ghost predicate Cycle<T>(next: (T, T) -> bool, c: seq<T>) {
    c != [] && Chain(next, c) && next(c[|c| - 1], c[0])
  }

  ghost predicate Placed<T>(on: (T, nat) -> bool, c: seq<T>, i: nat) {
    i < |c| ==> on(c[i], i)
  }

  /** A chain that goes down the levels from the first. */
  ghost predicate Descends<T>(next: (T, T) -> bool, on: (T, nat) -> bool, c: seq<T>) {
    Chain(next, c) && forall i: nat :: Placed(on, c, i)
  }

  /** What is below the first level hangs on something one level up, and what hangs on something is one
      level down. */
  ghost predicate Hangs<T(!new)>(next: (T, T) -> bool, on: (T, nat) -> bool, e: T, k: nat) {
    on(e, k + 1) <==> exists d :: on(d, k) && next(d, e)
  }

  lemma ChainStarts<T>(next: (T, T) -> bool, on: (T, nat) -> bool, e: T)
    requires on(e, 0)
    ensures Descends(next, on, [e])
  {
  }

  lemma ChainExtends<T>(next: (T, T) -> bool, on: (T, nat) -> bool, up: seq<T>, e: T)
    requires Descends(next, on, up) && up != [] && next(up[|up| - 1], e) && on(e, |up|)
    ensures Descends(next, on, up + [e])
  {
    var c := up + [e];
    forall i: nat ensures Link(next, c, i) {
      assert Link(next, up, i);
    }
    forall i: nat ensures Placed(on, c, i) {
      assert Placed(on, up, i);
    }
  }

  lemma {:induction false} ChainDown<T(!new)>(next: (T, T) -> bool, on: (T, nat) -> bool, k: nat, e: T) returns (c: seq<T>)
    requires (forall e, k: nat :: Hangs(next, on, e, k)) && on(e, k)
    ensures |c| == k + 1 && c[k] == e && Descends(next, on, c)
  {
    if k == 0 {
      ChainStarts(next, on, e);
      c := [e];
    } else {
      assert Hangs(next, on, e, k - 1);
      var d :| on(d, k - 1) && next(d, e);
      var up := ChainDown(next, on, k - 1, d);
      ChainExtends(next, on, up, e);
      c := up + [e];
    }
  }

  /** Once there is a cycle on level j there is something on every level after it. */
  lemma {:induction false} CycleGoesOn<T(!new)>(next: (T, T) -> bool, on: (T, nat) -> bool, c: seq<T>, j: nat, k: nat)
    returns (i: nat)
    requires forall e, k: nat :: Hangs(next, on, e, k)
    requires Cycle(next, c) && on(c[0], j) && j <= k
    ensures i < |c| && on(c[i], k)
  {
    if k == j {
      i := 0;
    } else {
      var last := CycleGoesOn(next, on, c, j, k - 1);
      i := if last + 1 == |c| then 0 else last + 1;
      assert Link(next, c, last) && next(c[last], c[i]);
      assert Hangs(next, on, c[i], k - 1);
    }
  }

  /** Pigeonhole: more places than values. */
  lemma {:induction false} Repeats<T>(s: seq<T>, values: set<T>) returns (i: nat, j: nat)
    requires |s| > |values| && forall k | 0 <= k < |s| :: s[k] in values
    ensures i < j < |s| && s[i] == s[j]
    decreases |s|
  {
    var last := |s| - 1;
    if k: nat :| k < last && s[k] == s[last] {
      i, j := k, last;
    } else {
      i, j := Repeats(s[..last], values - {s[last]});
    }
  }

  /** A chain that comes back to an element goes round. */
  lemma CycleInChain<T>(next: (T, T) -> bool, c: seq<T>, i: nat, j: nat)
    requires Chain(next, c) && i < j < |c| && c[i] == c[j]
    ensures Cycle(next, c[i..j])
  {
    forall m: nat ensures Link(next, c[i..j], m) {
      assert Link(next, c, i + m);
    }
    assert Link(next, c, j - 1);
  }

  /** A long descent through finitely many values meets a cycle. */
  lemma CycleInDescent<T>(next: (T, T) -> bool, on: (T, nat) -> bool, c: seq<T>, inner: set<T>)
    returns (k: nat, loop: seq<T>)
    requires Descends(next, on, c) && |c| > |inner| + 2
    requires forall i | 0 < i < |c| - 1 :: c[i] in inner
    ensures Cycle(next, loop) && on(loop[0], k)
  {
    var s := c[1..|c| - 1];
    var i, j := Repeats(s, inner);
    CycleInChain(next, c, i + 1, j + 1);
    k, loop := i + 1, c[i + 1..j + 1];
    assert Placed(on, c, k);
  }

  // ------------------------------------------------------------ includes

  /** The file that d includes holds e. */
  ghost function Holding(w: World): (Directive, Directive) -> bool {
    (d: Directive, e: Directive) => e in Kids(w, d)
  }

  ghost function OnLevel(w: World, ds: seq<Directive>): (Directive, nat) -> bool {
    (d: Directive, k: nat) => d in Level(w, ds, k)
  }

  /** The includes of ds lead into a cycle: on some level there is one from which they lead back to it. */
  ghost predicate Cyclic(w: World, ds: seq<Directive>) {
    exists k: nat, loop :: Cycle(Holding(w), loop) && OnLevel(w, ds)(loop[0], k)
  }

  lemma {:induction false} ParentOf(w: World, ds: seq<Directive>, e: Directive) returns (d: Directive)
    requires e in Children(w, ds)
    ensures d in ds && e in Kids(w, d)
  {
    if e in Kids(w, ds[0]) {
      d := ds[0];
    } else {
      d := ParentOf(w, ds[1..], e);
    }
  }

  lemma {:induction false} ChildIsThere(w: World, ds: seq<Directive>, d: Directive, e: Directive)
    requires d in ds && e in Kids(w, d)
    ensures e in Children(w, ds)
  {
    if d != ds[0] {
      ChildIsThere(w, ds[1..], d, e);
    }
  }

  lemma HungUp(w: World, ds: seq<Directive>, e: Directive, k: nat) returns (d: Directive)
    requires OnLevel(w, ds)(e, k + 1)
    ensures OnLevel(w, ds)(d, k) && Holding(w)(d, e)
  {
    d := ParentOf(w, Level(w, ds, k), e);
  }

  lemma HungDown(w: World, ds: seq<Directive>, d: Directive, e: Directive, k: nat)
    requires OnLevel(w, ds)(d, k) && Holding(w)(d, e)
    ensures OnLevel(w, ds)(e, k + 1)
  {
    ChildIsThere(w, Level(w, ds, k), d, e);
  }

  lemma LevelHangs(w: World, ds: seq<Directive>, e: Directive, k: nat)
    ensures Hangs(Holding(w), OnLevel(w, ds), e, k)
  {
    var next, on := Holding(w), OnLevel(w, ds);
    if on(e, k + 1) {
      var d := HungUp(w, ds, e, k);
    }
    if exists d :: on(d, k) && next(d, e) {
      var d :| on(d, k) && next(d, e);
      HungDown(w, ds, d, e, k);
    }
  }

  lemma LevelsHang(w: World, ds: seq<Directive>)
    ensures forall e, k: nat :: Hangs(Holding(w), OnLevel(w, ds), e, k)
  {
    forall e, k: nat {
      LevelHangs(w, ds, e, k);
    }
  }

  lemma {:induction false} EmptyStaysEmpty(w: World, ds: seq<Directive>, j: nat, k: nat)
    requires j <= k && Level(w, ds, j) == []
    ensures Level(w, ds, k) == []
  {
    if j < k {
      EmptyStaysEmpty(w, ds, j, k - 1);
    }
  }

  lemma CyclicNeverEmpty(w: World, ds: seq<Directive>, k: nat)
    requires Cyclic(w, ds)
    ensures Level(w, ds, k) != []
  {
    LevelsHang(w, ds);
    var j: nat, loop :| Cycle(Holding(w), loop) && OnLevel(w, ds)(loop[0], j);
    var later := if j < k then k else j;
    var i := CycleGoesOn(Holding(w), OnLevel(w, ds), loop, j, later);
    assert loop[i] in Level(w, ds, later);
    if Level(w, ds, k) == [] {
      EmptyStaysEmpty(w, ds, k, later);
    }
  }

  // ------------------------------------------------------------ the includes of a world

  ghost function HeldBy(w: World, path: string): set<Directive> {
    set d | d in ReadFile(w, path).directives
  }

  /** The include directives in the files of the world. */
  ghost function Includes(w: World): set<Directive> {
    set path, d | path in w.files && d in HeldBy(w, path) && d.name == INCLUDE :: d
  }

  ghost predicate InFiles(w: World, d: Directive) {
    exists path :: path in w.files && d in HeldBy(w, path)
  }

  lemma EntryInFiles(w: World, e: Entry, d: Directive)
    requires d in ReadEntry(w, e).directives
    ensures InFiles(w, d)
  {
    assert d in HeldBy(w, e.path);
  }

  lemma {:induction false} MatchesInFiles(w: World, es: seq<Entry>, d: Directive)
    requires d in ReadAll(w, es).directives
    ensures InFiles(w, d)
  {
    if d in ReadEntry(w, es[0]).directives {
      EntryInFiles(w, es[0], d);
    } else {
      MatchesInFiles(w, es[1..], d);
    }
  }

  lemma KidsInFiles(w: World, d: Directive, e: Directive)
    requires e in Kids(w, d)
    ensures InFiles(w, e) && d.name == INCLUDE
  {
    match w.targets[d.argv[0]] {
      case One(entry) => EntryInFiles(w, entry, e);
      case Pattern(es) => MatchesInFiles(w, es, e);
    }
  }

  /** Apart from its ends a chain consists of includes in the files of the world. */
  lemma InnerIncludes(w: World, c: seq<Directive>, i: nat)
    requires Chain(Holding(w), c) && 0 < i < |c| - 1
    ensures c[i] in Includes(w)
  {
    assert Link(Holding(w), c, i - 1) && Link(Holding(w), c, i);
    KidsInFiles(w, c[i - 1], c[i]);
    KidsInFiles(w, c[i], c[i + 1]);
    var path :| path in w.files && c[i] in HeldBy(w, path);
  }

  lemma LongDescent(w: World, ds: seq<Directive>, c: seq<Directive>)
    requires Descends(Holding(w), OnLevel(w, ds), c) && |c| > |Includes(w)| + 2
    ensures Cyclic(w, ds)
  {
    forall i | 0 < i < |c| - 1 ensures c[i] in Includes(w) {
      InnerIncludes(w, c, i);
    }
    var k, loop := CycleInDescent(Holding(w), OnLevel(w, ds), c, Includes(w));
  }

  /** Without a cycle the levels end, within two levels more than the world has includes. */
  lemma AcyclicEnds(w: World, ds: seq<Directive>)
    requires !Cyclic(w, ds)
    ensures Level(w, ds, |Includes(w)| + 2) == []
  {
    var n := |Includes(w)| + 2;
    var level := Level(w, ds, n);
    if level != [] {
      LevelsHang(w, ds);
      var c := ChainDown(Holding(w), OnLevel(w, ds), n, level[0]);
      LongDescent(w, ds, c);
    }
  }

  /** The levels of a configuration end exactly when its includes do not lead into a cycle, however far
      from the main file that is. */
  lemma LevelsEndExactly(w: World, ds: seq<Directive>)
    ensures (exists k: nat :: Level(w, ds, k) == []) <==> !Cyclic(w, ds)
  {
    if Cyclic(w, ds) {
      forall k: nat ensures Level(w, ds, k) != [] {
        CyclicNeverEmpty(w, ds, k);
      }
    } else {
      AcyclicEnds(w, ds);
    }
  }

  // ------------------------------------------------------------ what becomes of the walk

  /** Without a cycle check and process stop, after a number of turns known beforehand. */
  lemma AcyclicStops(w: World, ds: seq<Directive>, modules: seq<Module>, checking: bool)
    requires WellNamed(w, modules) && !Cyclic(w, ds)
    ensures Turns(w, checking, Start(ds, modules), |FirstLevels(w, ds, |Includes(w)| + 2)| + 1).status != Running
  {
    AcyclicEnds(w, ds);
    StopsInTime(w, ds, modules, checking, |Includes(w)| + 2);
  }

  /** With one neither ever succeeds: it goes on for ever, unless an error stops it. */
  lemma CyclicNeverFinishes(w: World, ds: seq<Directive>, modules: seq<Module>, checking: bool, n: nat)
    requires WellNamed(w, modules) && Cyclic(w, ds)
    ensures !Ends(w, checking, Start(ds, modules), n)
  {
    forall k: nat ensures Level(w, ds, k) != [] {
      CyclicNeverEmpty(w, ds, k);
    }
    FinishesOnlyIf(w, ds, modules, checking, n);
  }
}

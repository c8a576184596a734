/** What check promises process, and in which order and for how long the walk goes on. */
module ProcessTheorems {
  import opened Tokeniser
  import opened ProcessModel

  // ------------------------------------------------------------ lookup is stable

  lemma {:induction false} FindAppend(modules: seq<Module>, more: seq<Module>, name: string)
    requires Find(modules, name).Some?
    ensures Find(modules + more, name) == Find(modules, name)
  {
    assert (modules + more)[0] == modules[0] && (modules + more)[1..] == modules[1..] + more;
    if FindIn(modules[0].commands, name).None? {
      FindAppend(modules[1..], more, name);
    }
  }

  lemma {:induction false} FoundIn(commands: seq<Command>, name: string) returns (i: nat)
    requires FindIn(commands, name).Some?
    ensures i < |commands| && commands[i] == FindIn(commands, name).value && commands[i].name == name
  {
    if commands[0].name == name {
      i := 0;
    } else {
      i := FoundIn(commands[1..], name);
      i := i + 1;
    }
  }

  lemma {:induction false} FindAppended(modules: seq<Module>, m: Module, name: string)
    ensures Find(modules + [m], name) ==
            if Find(modules, name).Some? then Find(modules, name) else FindIn(m.commands, name)
  {
    if modules == [] {
      assert modules + [m] == [m] && [m][1..] == [];
    } else {
      assert (modules + [m])[0] == modules[0] && (modules + [m])[1..] == modules[1..] + [m];
      FindAppended(modules[1..], m, name);
    }
  }

  // ------------------------------------------------------------ argument counts

  /** A count that the command's mask declares; only the first MAX_TAKES bits are looked at. */
  predicate Declared(takes: set<nat>, argc: nat) {
    argc < MAX_TAKES && argc in takes
  }

  lemma {:induction false} MinTakesIs(takes: set<nat>, from: nat)
    ensures var m := MinTakes(takes, from);
            if m == 0 then forall k: nat | k >= from && k > 0 :: !Declared(takes, k)
            else m >= from && Declared(takes, m) && forall k: nat | from <= k < m && k > 0 :: !Declared(takes, k)
    decreases MAX_TAKES - from
  {
    if from < MAX_TAKES && !(from > 0 && from in takes) {
      MinTakesIs(takes, from + 1);
    }
  }

  lemma {:induction false} MaxTakesIs(takes: set<nat>, below: nat)
    requires below <= MAX_TAKES
    ensures var m := MaxTakes(takes, below);
            && (m == 0 || (m < below && Declared(takes, m)))
            && forall k: nat | m < k < below :: !Declared(takes, k)
  {
    if below > 0 && below - 1 !in takes {
      MaxTakesIs(takes, below - 1);
    }
  }

  /** Every declared count is accepted exactly when 0 is not declared together with another. */
  lemma DeclaredAccepted(takes: set<nat>)
    ensures (forall argc: nat | Declared(takes, argc) :: Accepts(takes, argc)) <==>
            !(Declared(takes, 0) && exists k: nat :: k > 0 && Declared(takes, k))
  {
    MinTakesIs(takes, 0);
    MaxTakesIs(takes, MAX_TAKES);
    if Declared(takes, 0) && exists k: nat :: k > 0 && Declared(takes, k) {
      assert !Accepts(takes, 0);
    }
  }

  /** An undeclared count gets through exactly when it lies in a gap between two declared ones, 0 not
      counting as one, or when it is 0 and no count is declared at all. */
  lemma UndeclaredAccepted(takes: set<nat>, argc: nat)
    requires !Declared(takes, argc)
    ensures Accepts(takes, argc) <==>
            || (argc == 0 && forall k: nat :: !Declared(takes, k))
            || (exists lo: nat, hi: nat :: 0 < lo < argc < hi && Declared(takes, lo) && Declared(takes, hi))
  {
    MinTakesIs(takes, 0);
    MaxTakesIs(takes, MAX_TAKES);
    if exists lo: nat, hi: nat :: 0 < lo < argc < hi && Declared(takes, lo) && Declared(takes, hi) {
      var lo: nat, hi: nat :| 0 < lo < argc < hi && Declared(takes, lo) && Declared(takes, hi);
      assert Declared(takes, MinTakes(takes, 0)) && MinTakes(takes, 0) <= lo && hi <= MaxTakes(takes, MAX_TAKES);
    }
    if Accepts(takes, argc) && argc > 0 {
      assert Declared(takes, MinTakes(takes, 0)) && Declared(takes, MaxTakes(takes, MAX_TAKES));
    }
  }

  /** A command that takes none or two arguments takes only two. */
  lemma NoneOrTwo()
    ensures !Accepts({0, 2}, 0) && !Accepts({0, 2}, 1) && Accepts({0, 2}, 2)
  {
    MinTakesIs({0, 2}, 0);
    MaxTakesIs({0, 2}, MAX_TAKES);
    assert Declared({0, 2}, 2);
  }

  // ------------------------------------------------------------ check and process

  lemma ImportKeepsNames(w: World, modules: seq<Module>, m: Module, path: string)
    requires WellNamed(w, modules) && path in w.loadable && m == w.loadable[path]
    ensures WellNamed(w, modules + [m])
  {
    forall name: string | Find(modules + [m], name).Some?
      ensures Find(modules + [m], name).value.handler == Include <==> name == INCLUDE
    {
      FindAppended(modules, m, name);
      if Find(modules, name).None? {
        var i := FoundIn(m.commands, name);
      }
    }
    FindAppended(modules, m, INCLUDE);
  }

  lemma TurnKeepsNames(w: World, checking: bool, r: Walk)
    requires WellNamed(w, r.modules)
    ensures WellNamed(w, Turn(w, checking, r).modules)
  {
    if r.status == Running && r.pos < |r.list| {
      var d := r.list[r.pos];
      if Find(r.modules, d.name).Some? && ImportOf(w, r.modules, d).Some? {
        ImportKeepsNames(w, r.modules, ImportOf(w, r.modules, d).value, d.argv[0]);
      }
    }
  }

  /** With some argument; without one the include and import handlers fail at once. */
  ghost predicate TakesSome(cmd: Command) {
    exists argc: nat :: argc >= 1 && Accepts(cmd.takes, argc)
  }

  /** Among the commands the server starts with, one that can be given an argument and has the include
      handler is called include, and one that is called include does not import. */
  ghost predicate Faithful(modules: seq<Module>) {
    forall name: string | Find(modules, name).Some? && TakesSome(Find(modules, name).value) ::
      && (Find(modules, name).value.handler == Include ==> name == INCLUDE)
      && (name == INCLUDE ==> Find(modules, name).value.handler != Import)
  }

  /** Process has done what check has done, with perhaps more modules, or a handler has stopped it. */
  ghost predicate Follows(modules: seq<Module>, c: Walk, p: Walk) {
    && c.modules == modules <= p.modules
    && (p.status.Failed? || (p.list == c.list && p.pos == c.pos && p.status == c.status))
  }

  lemma TurnFollows(w: World, modules: seq<Module>, c: Walk, p: Walk)
    requires Faithful(modules) && Follows(modules, c, p)
    requires Turn(w, true, c).status in {Running, Finished}
    ensures Follows(modules, Turn(w, true, c), Turn(w, false, p))
  {
    if c.status == Running && c.pos < |c.list| {
      var d := c.list[c.pos];
      var more := p.modules[|modules|..];
      assert p.modules == modules + more;
      FindAppend(modules, more, d.name);
      assert d.argv != [] && Find(modules, d.name).Some? && Accepts(Find(modules, d.name).value.takes, |d.argv|) ==>
             TakesSome(Find(modules, d.name).value);
    }
  }

  lemma {:induction false} StoppedStays(w: World, checking: bool, r: Walk, n: nat, m: nat)
    requires n <= m && Turns(w, checking, r, n).status != Running
    ensures Turns(w, checking, r, m) == Turns(w, checking, r, n)
  {
    if n < m {
      StoppedStays(w, checking, r, n, m - 1);
    }
  }

  lemma {:induction false} RunsFollow(w: World, list: seq<Directive>, modules: seq<Module>, n: nat, k: nat)
    requires Faithful(modules)
    requires Turns(w, true, Start(list, modules), n).status == Finished
    ensures Follows(modules, Turns(w, true, Start(list, modules), k), Turns(w, false, Start(list, modules), k))
    ensures Turns(w, true, Start(list, modules), k).status in {Running, Finished}
  {
    var r := Start(list, modules);
    if Turns(w, true, r, k).status != Running {
      if k <= n {
        StoppedStays(w, true, r, k, n);
      } else {
        StoppedStays(w, true, r, n, k);
      }
    }
    if k > 0 {
      RunsFollow(w, list, modules, n, k - 1);
      TurnFollows(w, modules, Turns(w, true, r, k - 1), Turns(w, false, r, k - 1));
    }
  }

  /** If check succeeds, process on the same input never meets an unknown directive or a wrong
      argument count, whatever modules it imports on the way; and if it finishes, it has walked
      the same list. */
  lemma CheckedIsSafe(w: World, list: seq<Directive>, modules: seq<Module>, n: nat, k: nat)
    requires Faithful(modules)
    requires Turns(w, true, Start(list, modules), n).status == Finished
    ensures !Turns(w, false, Start(list, modules), k).status.Unknown?
    ensures !Turns(w, false, Start(list, modules), k).status.WrongCount?
    ensures Turns(w, false, Start(list, modules), k).status == Finished ==>
            Turns(w, false, Start(list, modules), k).list == Turns(w, true, Start(list, modules), n).list
  {
    var r := Start(list, modules);
    RunsFollow(w, list, modules, n, k);
    if Turns(w, false, r, k).status == Finished {
      if k <= n {
        StoppedStays(w, true, r, k, n);
      } else {
        StoppedStays(w, true, r, n, k);
      }
    }
  }

  // ------------------------------------------------------------ order

  /** The first of ds, then the rest, with the rest's children given. */
  lemma ChildrenFirst(w: World, ds: seq<Directive>, d: Directive, rest: seq<Directive>, kids: seq<Directive>)
    requires ds != [] && ds[0] == d && ds[1..] == rest && Children(w, rest) == kids
    ensures Children(w, ds) == Kids(w, d) + kids
  {
  }

  lemma Regrouped(a: seq<Directive>, b: seq<Directive>, c: seq<Directive>)
    ensures a + (b + c) == (a + b) + c
  {
  }

  lemma {:induction false} ChildrenConcat(w: World, a: seq<Directive>, b: seq<Directive>)
    ensures Children(w, a + b) == Children(w, a) + Children(w, b)
  {
    if a == [] {
      assert a + b == b;
    } else {
      var d, rest := a[0], a[1..];
      ChildrenConcat(w, rest, b);
      assert (a + b)[1..] == rest + b;
      ChildrenFirst(w, a + b, d, rest + b, Children(w, rest) + Children(w, b));
      Regrouped(Kids(w, d), Children(w, rest), Children(w, b));
    }
  }

  lemma ChildrenPrefix(w: World, a: seq<Directive>, b: seq<Directive>)
    requires a <= b
    ensures Children(w, a) <= Children(w, b)
  {
    assert b == a + b[|a|..];
    ChildrenConcat(w, a, b[|a|..]);
  }

  lemma {:induction false} LevelsNext(w: World, ds: seq<Directive>, k: nat)
    ensures FirstLevels(w, ds, k + 1) == ds + Children(w, FirstLevels(w, ds, k))
  {
    if k == 0 {
      assert FirstLevels(w, ds, 1) == [] + ds == ds + [];
    } else {
      LevelsNext(w, ds, k - 1);
      ChildrenConcat(w, FirstLevels(w, ds, k - 1), Level(w, ds, k - 1));
      assert ds + (Children(w, FirstLevels(w, ds, k - 1)) + Children(w, Level(w, ds, k - 1))) ==
             ds + Children(w, FirstLevels(w, ds, k - 1)) + Children(w, Level(w, ds, k - 1));
    }
  }

  /** The list is the main file followed by what the directives walked so far include. */
  ghost predicate Grown(w: World, ds: seq<Directive>, r: Walk) {
    r.pos <= |r.list| && (!r.status.Failed? ==> r.list == ds + Children(w, r.list[..r.pos]))
  }

  /** A turn that leaves the walk running appends what the directive at pos includes. */
  lemma TurnAdds(w: World, checking: bool, r: Walk)
    requires WellNamed(w, r.modules) && r.status == Running && r.pos < |r.list|
    requires Turn(w, checking, r).status == Running
    ensures Turn(w, checking, r).list == r.list + Kids(w, r.list[r.pos])
    ensures Turn(w, checking, r).pos == r.pos + 1
  {
  }

  lemma TurnStops(w: World, checking: bool, r: Walk)
    requires Turn(w, checking, r).status != Running && !Turn(w, checking, r).status.Failed?
    ensures Turn(w, checking, r).list == r.list && Turn(w, checking, r).pos == r.pos
  {
  }

  lemma TurnGrows(w: World, ds: seq<Directive>, checking: bool, r: Walk, r': Walk)
    requires WellNamed(w, r.modules) && Grown(w, ds, r) && r' == Turn(w, checking, r)
    ensures Grown(w, ds, r')
  {
    TurnExtends(w, checking, r);
    if r'.status == Running {
      TurnAdds(w, checking, r);
      GrownOn(w, ds, r, r');
    } else if !r'.status.Failed? {
      TurnStops(w, checking, r);
    }
  }

  lemma GrownOn(w: World, ds: seq<Directive>, r: Walk, r': Walk)
    requires Grown(w, ds, r) && r.status == Running && r.pos < |r.list|
    requires r'.list == r.list + Kids(w, r.list[r.pos]) && r'.pos == r.pos + 1
    ensures Grown(w, ds, r')
  {
    var walked, d := r.list[..r.pos], r.list[r.pos];
    StepChildren(w, walked, d);
    assert r'.list[..r.pos + 1] == walked + [d];
    Appended(ds, Children(w, walked), Kids(w, d), r.list, r'.list);
  }

  lemma Appended(ds: seq<Directive>, before: seq<Directive>, kids: seq<Directive>,
                 list: seq<Directive>, list': seq<Directive>)
    requires list == ds + before && list' == list + kids
    ensures list' == ds + (before + kids)
  {
  }

  lemma StepChildren(w: World, a: seq<Directive>, d: Directive)
    ensures Children(w, a + [d]) == Children(w, a) + Kids(w, d)
  {
    ChildrenConcat(w, a, [d]);
    assert Children(w, [d]) == Kids(w, d) + [];
  }

  lemma {:induction false} RunGrows(w: World, ds: seq<Directive>, modules: seq<Module>, checking: bool, n: nat)
    requires WellNamed(w, modules)
    ensures WellNamed(w, Turns(w, checking, Start(ds, modules), n).modules)
    ensures Grown(w, ds, Turns(w, checking, Start(ds, modules), n))
  {
    if n == 0 {
      assert ds[..0] == [] && ds + [] == ds;
    } else {
      RunGrows(w, ds, modules, checking, n - 1);
      TurnKeepsNames(w, checking, Turns(w, checking, Start(ds, modules), n - 1));
      TurnGrows(w, ds, checking, Turns(w, checking, Start(ds, modules), n - 1), Turns(w, checking, Start(ds, modules), n));
    }
  }

  /** A finished walk has every level as a prefix. */
  lemma {:induction false} LevelsWithin(w: World, ds: seq<Directive>, r: Walk, k: nat)
    requires Grown(w, ds, r) && r.status == Finished && r.pos == |r.list|
    ensures FirstLevels(w, ds, k) <= r.list
  {
    if k > 0 {
      LevelsWithin(w, ds, r, k - 1);
      LevelsNext(w, ds, k - 1);
      ChildrenPrefix(w, FirstLevels(w, ds, k - 1), r.list);
      assert r.list[..r.pos] == r.list;
    }
  }

  lemma {:induction false} LongLevels(w: World, ds: seq<Directive>, k: nat)
    requires forall j | 0 <= j < k :: Level(w, ds, j) != []
    ensures |FirstLevels(w, ds, k)| >= k
  {
    if k > 0 {
      LongLevels(w, ds, k - 1);
    }
  }

  /** The list stays within the first k levels. */
  ghost predicate Inside(w: World, ds: seq<Directive>, r: Walk, k: nat) {
    !r.status.Failed? ==> r.list <= FirstLevels(w, ds, k)
  }

  lemma TurnWithin(w: World, ds: seq<Directive>, checking: bool, before: Walk, r: Walk, k: nat)
    requires Level(w, ds, k) == [] && r == Turn(w, checking, before)
    requires Grown(w, ds, before) && Grown(w, ds, r) && Inside(w, ds, before, k)
    ensures Inside(w, ds, r, k)
  {
    if !r.status.Failed? {
      TurnExtends(w, checking, before);
      StaysWithin(w, ds, r, before, k);
    }
  }

  /** Once a level is empty the levels before it bound the list of every walk. */
  lemma {:induction false} WithinLevels(w: World, ds: seq<Directive>, modules: seq<Module>, checking: bool, k: nat, n: nat)
    requires WellNamed(w, modules) && Level(w, ds, k) == []
    ensures Inside(w, ds, Turns(w, checking, Start(ds, modules), n), k)
  {
    if n == 0 {
      LastLevels(w, ds, k);
    } else {
      WithinLevels(w, ds, modules, checking, k, n - 1);
      RunGrows(w, ds, modules, checking, n - 1);
      RunGrows(w, ds, modules, checking, n);
      var before := Turns(w, checking, Start(ds, modules), n - 1);
      TurnWithin(w, ds, checking, before, Turns(w, checking, Start(ds, modules), n), k);
    }
  }

  lemma LastLevels(w: World, ds: seq<Directive>, k: nat)
    requires Level(w, ds, k) == []
    ensures FirstLevels(w, ds, k) == ds + Children(w, FirstLevels(w, ds, k))
    ensures ds <= FirstLevels(w, ds, k)
  {
    LevelsNext(w, ds, k);
  }

  lemma TurnExtends(w: World, checking: bool, r: Walk)
    requires r.pos <= |r.list|
    ensures r.list <= Turn(w, checking, r).list && Turn(w, checking, r).pos <= |r.list|
  {
  }

  lemma StaysWithin(w: World, ds: seq<Directive>, r: Walk, before: Walk, k: nat)
    requires Level(w, ds, k) == [] && Grown(w, ds, r) && !r.status.Failed?
    requires before.list <= FirstLevels(w, ds, k) && before.list <= r.list && r.pos <= |before.list|
    ensures r.list <= FirstLevels(w, ds, k)
  {
    var all := FirstLevels(w, ds, k);
    assert r.list[..r.pos] == before.list[..r.pos] <= all;
    ChildrenPrefix(w, r.list[..r.pos], all);
    LastLevels(w, ds, k);
  }

  ghost predicate Ends(w: World, checking: bool, r: Walk, n: nat) {
    Turns(w, checking, r, n).status == Finished
  }

  lemma {:induction false} FinishedAtEnd(w: World, checking: bool, r: Walk, n: nat)
    requires r.status == Running && Ends(w, checking, r, n)
    ensures Turns(w, checking, r, n).pos >= |Turns(w, checking, r, n).list|
  {
    if n > 0 {
      if Ends(w, checking, r, n - 1) {
        FinishedAtEnd(w, checking, r, n - 1);
      }
    }
  }

  /** The list of a finished walk is too short for all levels to hold something. */
  lemma SomeLevelEmpty(w: World, ds: seq<Directive>, r: Walk) returns (k: nat)
    requires Grown(w, ds, r) && r.status == Finished && r.pos == |r.list|
    ensures Level(w, ds, k) == [] && FirstLevels(w, ds, k) <= r.list
  {
    var n := |r.list| + 1;
    LevelsWithin(w, ds, r, n);
    if forall j | 0 <= j < n :: Level(w, ds, j) != [] {
      LongLevels(w, ds, n);
    }
    k :| 0 <= k < n && Level(w, ds, k) == [];
    LevelsWithin(w, ds, r, k);
  }

  /** A walk that finishes has gone through the main file, then the files it includes, then theirs,
      level by level to the last one that is not empty, each occurrence once. */
  lemma WalkedByLevels(w: World, ds: seq<Directive>, modules: seq<Module>, checking: bool, n: nat) returns (k: nat)
    requires WellNamed(w, modules) && Ends(w, checking, Start(ds, modules), n)
    ensures Level(w, ds, k) == []
    ensures Turns(w, checking, Start(ds, modules), n).list == FirstLevels(w, ds, k)
  {
    RunGrows(w, ds, modules, checking, n);
    FinishedAtEnd(w, checking, Start(ds, modules), n);
    k := SomeLevelEmpty(w, ds, Turns(w, checking, Start(ds, modules), n));
    WithinLevels(w, ds, modules, checking, k, n);
  }

  // ------------------------------------------------------------ termination

  lemma {:induction false} EveryTurnCounts(w: World, checking: bool, r: Walk, n: nat)
    requires r.status == Running && Turns(w, checking, r, n).status == Running
    ensures Turns(w, checking, r, n).pos == r.pos + n
  {
    if n > 0 {
      EveryTurnCounts(w, checking, r, n - 1);
    }
  }

  /** Once some level is empty the walk stops after as many turns as the levels before it hold
      directives, and one. */
  lemma StopsInTime(w: World, ds: seq<Directive>, modules: seq<Module>, checking: bool, k: nat)
    requires WellNamed(w, modules) && Level(w, ds, k) == []
    ensures Turns(w, checking, Start(ds, modules), |FirstLevels(w, ds, k)| + 1).status != Running
  {
    var n := |FirstLevels(w, ds, k)| + 1;
    var r := Turns(w, checking, Start(ds, modules), n);
    if r.status == Running {
      EveryTurnCounts(w, checking, Start(ds, modules), n);
      WithinLevels(w, ds, modules, checking, k, n);
      RunGrows(w, ds, modules, checking, n);
    }
  }

  /** The walk can finish only if some level is empty: a cycle of includes is walked for ever, or
      until a handler fails. */
  lemma FinishesOnlyIf(w: World, ds: seq<Directive>, modules: seq<Module>, checking: bool, n: nat)
    requires WellNamed(w, modules) && forall k: nat :: Level(w, ds, k) != []
    ensures !Ends(w, checking, Start(ds, modules), n)
  {
    if Ends(w, checking, Start(ds, modules), n) {
      var k := WalkedByLevels(w, ds, modules, checking, n);
    }
  }
}

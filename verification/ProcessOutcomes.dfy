/** How a walk ends and what has gone through before it does, said of the commands, the masks and the
    outside themselves. */
module ProcessOutcomes {
  import opened Basics
  import opened Tokeniser
  import opened ProcessModel
  import opened ProcessTheorems
  import ProcessSafety

  // ------------------------------------------------------------ commands and counts

  predicate Named(modules: seq<Module>, name: string, m: int, c: int) {
    0 <= m < |modules| && 0 <= c < |modules[m].commands| && modules[m].commands[c].name == name
  }

  /** Command c of module m is the first of that name in the first module that has one. */
  ghost predicate Answers(modules: seq<Module>, name: string, m: int, c: int) {
    Named(modules, name, m, c) && forall i, j | Named(modules, name, i, j) :: m < i || (m == i && c <= j)
  }

  ghost predicate Unanswered(modules: seq<Module>, name: string) {
    forall m, c :: !Named(modules, name, m, c)
  }

  lemma {:induction false} FirstCommand(commands: seq<Command>, name: string)
    ensures FindIn(commands, name).None? ==> forall j | 0 <= j < |commands| :: commands[j].name != name
    ensures forall c | 0 <= c < |commands| && commands[c].name == name
                       && (forall j | 0 <= j < c :: commands[j].name != name) ::
              FindIn(commands, name) == Some(commands[c])
  {
    if commands != [] && commands[0].name != name {
      FirstCommand(commands[1..], name);
      assert forall j | 0 < j < |commands| :: commands[j] == commands[1..][j - 1];
      forall c | 0 <= c < |commands| && commands[c].name == name
                 && (forall j | 0 <= j < c :: commands[j].name != name)
        ensures FindIn(commands, name) == Some(commands[c])
      {
        assert forall j | 0 <= j < c - 1 :: commands[1..][j] == commands[j + 1];
      }
    }
  }

  /** A name is looked up without success exactly when no command has it. */
  lemma {:induction false} FindFails(modules: seq<Module>, name: string)
    ensures Find(modules, name).None? <==> Unanswered(modules, name)
  {
    if modules != [] {
      var first, rest := modules[0], modules[1..];
      FirstCommand(first.commands, name);
      FindFails(rest, name);
      if FindIn(first.commands, name).Some? {
        var c := FoundIn(first.commands, name);
        assert Named(modules, name, 0, c);
      } else {
        assert forall m, c | m > 0 :: Named(modules, name, m, c) <==> Named(rest, name, m - 1, c);
        assert forall m, c | Named(rest, name, m, c) :: Named(modules, name, m + 1, c);
      }
    }
  }

  lemma {:induction false} FindAnswers(modules: seq<Module>, name: string, m: int, c: int)
    requires Answers(modules, name, m, c)
    ensures Find(modules, name) == Some(modules[m].commands[c])
  {
    var first, rest := modules[0], modules[1..];
    FirstCommand(first.commands, name);
    if m == 0 {
      assert forall j | 0 <= j < |first.commands| && first.commands[j].name == name :: Named(modules, name, 0, j);
    } else {
      assert forall j | 0 <= j < |first.commands| && first.commands[j].name == name :: Named(modules, name, 0, j);
      if FindIn(first.commands, name).Some? {
        var j := FoundIn(first.commands, name);
        assert Named(modules, name, 0, j);
      }
      assert forall i, j | Named(rest, name, i, j) :: Named(modules, name, i + 1, j);
      FindAnswers(rest, name, m - 1, c);
    }
  }

  /** There is a first one among those that have the name. */
  lemma FirstAnswers(modules: seq<Module>, name: string, m: int, c: int)
    requires Named(modules, name, m, c)
    ensures exists i, j :: Answers(modules, name, i, j)
    decreases m, c
  {
    if i, j :| Named(modules, name, i, j) && (i < m || (i == m && j < c)) {
      FirstAnswers(modules, name, i, j);
    } else {
      assert Answers(modules, name, m, c);
    }
  }

  /** The lookup finds the first command of that name in the first module that has one. */
  lemma FindExactly(modules: seq<Module>, name: string)
    ensures Find(modules, name).Some? <==> exists m, c :: Answers(modules, name, m, c)
    ensures forall m, c | Answers(modules, name, m, c) :: Find(modules, name) == Some(modules[m].commands[c])
  {
    FindFails(modules, name);
    if m, c :| Named(modules, name, m, c) {
      FirstAnswers(modules, name, m, c);
    }
    forall m, c | Answers(modules, name, m, c) ensures Find(modules, name) == Some(modules[m].commands[c]) {
      FindAnswers(modules, name, m, c);
    }
  }

  /** A count lies between two positive ones that the mask declares, or is 0 and none is declared. The mask
      has eight bits. */
  ghost predicate CountOk(takes: set<nat>, argc: nat) {
    || (argc == 0 && forall k: nat | 0 < k < 8 :: k !in takes)
    || (exists lo: nat, hi: nat :: 0 < lo <= argc <= hi < 8 && lo in takes && hi in takes)
  }

  lemma AcceptsExactly(takes: set<nat>, argc: nat)
    ensures Accepts(takes, argc) <==> CountOk(takes, argc)
  {
    MinTakesIs(takes, 0);
    MaxTakesIs(takes, MAX_TAKES);
    assert forall k: nat :: Declared(takes, k) <==> k < 8 && k in takes;
    if Accepts(takes, argc) && argc > 0 {
      assert 0 < MinTakes(takes, 0) <= argc <= MaxTakes(takes, MAX_TAKES) < 8;
    }
    if argc == 0 && Accepts(takes, argc) {
      assert MinTakes(takes, 0) == 0;
    }
  }

  /** The commands of the core module take one argument, except that log takes two or three. */
  lemma CoreTakes(name: string, argc: nat)
    ensures Find([ProcessSafety.CORE], name).Some? <==>
            name in {"include", "import", "listen", "log", "daemon", "workdir", "priority", "user", "group"}
    ensures Find([ProcessSafety.CORE], name).Some? ==>
              (Accepts(Find([ProcessSafety.CORE], name).value.takes, argc) <==>
               if name == "log" then argc == 2 || argc == 3 else argc == 1)
  {
    var commands := ProcessSafety.CORE.commands;
    FirstCommand(commands, name);
    assert [ProcessSafety.CORE][1..] == [];
    var found := FindIn(commands, name);
    assert Find([ProcessSafety.CORE], name) == found;
    if found.Some? {
      var c := FoundIn(commands, name);
      AcceptsExactly(found.value.takes, argc);
      assert 2 in {2, 3} && 3 in {2, 3} && 1 in {1};
    }
  }

  // ------------------------------------------------------------ handlers

  /** An import is refused without an absolute path, when nothing can be loaded from it, and when a module
      of that name is there already. */
  ghost predicate ImportRefused(w: World, modules: seq<Module>, d: Directive) {
    || d.argv == [] || d.argv[0] == "" || d.argv[0][0] != '/' || d.argv[0] !in w.loadable
    || exists i :: 0 <= i < |modules| && modules[i].name == w.loadable[d.argv[0]].name
  }

  /** An include is refused without an absolute path, when the path names nothing, and when it names a file
      that cannot be read or is ill formed. */
  ghost predicate IncludeRefused(w: World, d: Directive) {
    || d.argv == [] || d.argv[0] == "" || d.argv[0][0] != '/' || d.argv[0] !in w.targets
    || exists path :: w.targets[d.argv[0]] == One(File(path)) && IllFormed(w, path)
  }

  ghost predicate IllFormed(w: World, path: string) {
    path !in w.files || Scan(Parse.Text(w.files[path] + "\0"), START, path).outcome != Done
  }

  ghost predicate Refuses(w: World, modules: seq<Module>, h: Handler, d: Directive) {
    match h
    case Include => IncludeRefused(w, d)
    case Import => ImportRefused(w, modules, d)
    case Other => !w.accepts(d)
  }

  /** The include handler fails on just these includes. */
  lemma IncludeFails(w: World, d: Directive)
    ensures IncludeOf(w, d).ok <==> !IncludeRefused(w, d)
  {
  }

  /** And the import handler on just these imports. */
  lemma ImportFails(w: World, modules: seq<Module>, d: Directive)
    ensures ImportOf(w, modules, d).None? <==> ImportRefused(w, modules, d)
  {
  }

  lemma HandleStops(w: World, r: Walk, d: Directive, h: Handler)
    requires r.status == Running
    ensures Handle(w, r, d, h).status == if Refuses(w, r.modules, h, d) then Failed(d) else Running
    ensures Handle(w, r, d, h).pos == if Refuses(w, r.modules, h, d) then r.pos else r.pos + 1
  {
    IncludeFails(w, d);
    ImportFails(w, r.modules, d);
  }

  // ------------------------------------------------------------ how a walk stops

  /** d has a command, whose mask has no room for its arguments. */
  ghost predicate Miscounted(modules: seq<Module>, d: Directive) {
    exists m, c :: Answers(modules, d.name, m, c) && !CountOk(modules[m].commands[c].takes, |d.argv|)
  }

  /** d has a command that takes so many arguments, and its handler is run and refuses d. */
  ghost predicate Denied(w: World, checking: bool, modules: seq<Module>, d: Directive) {
    (checking ==> d.name == "include") &&
    exists m, c :: && Answers(modules, d.name, m, c) && CountOk(modules[m].commands[c].takes, |d.argv|)
                   && Refuses(w, modules, modules[m].commands[c].handler, d)
  }

  /** The next status says what is wrong with d, if anything is. */
  ghost predicate Tells(w: World, checking: bool, modules: seq<Module>, d: Directive, s: Status) {
    && s in {Running, Unknown(d), WrongCount(d), Failed(d)}
    && (s == Unknown(d) <==> Unanswered(modules, d.name))
    && (s == WrongCount(d) <==> Miscounted(modules, d))
    && (s == Failed(d) <==> Denied(w, checking, modules, d))
  }

  lemma TurnTells(w: World, checking: bool, r: Walk, d: Directive)
    requires r.status == Running && r.pos < |r.list| && d == r.list[r.pos]
    ensures Tells(w, checking, r.modules, d, Turn(w, checking, r).status)
    ensures Turn(w, checking, r).pos == if Turn(w, checking, r).status == Running then r.pos + 1 else r.pos
  {
    FindExactly(r.modules, d.name);
    FindFails(r.modules, d.name);
    var found := Find(r.modules, d.name);
    if found.Some? {
      var cmd := found.value;
      AcceptsExactly(cmd.takes, |d.argv|);
      HandleStops(w, r, d, cmd.handler);
    }
  }

  /** As long as a walk runs, its next turn finishes it at the end of the list, and otherwise goes to the
      next directive or stops at this one, exactly for the reason that the status gives. */
  lemma StopsExactly(w: World, list: seq<Directive>, modules: seq<Module>, checking: bool, n: nat)
    requires Turns(w, checking, Start(list, modules), n).status == Running
    ensures var r, r' := Turns(w, checking, Start(list, modules), n), Turns(w, checking, Start(list, modules), n + 1);
            && r.pos == n <= |r.list|
            && (n == |r.list| ==> r'.status == Finished)
            && (n < |r.list| ==> Tells(w, checking, r.modules, r.list[n], r'.status))
            && (n < |r.list| ==> r'.pos == if r'.status == Running then n + 1 else n)
  {
    var r := Turns(w, checking, Start(list, modules), n);
    EveryTurnCounts(w, checking, Start(list, modules), n);
    StaysInList(w, list, modules, checking, n);
    if n < |r.list| {
      TurnTells(w, checking, r, r.list[n]);
    }
  }

  lemma {:induction false} StaysInList(w: World, list: seq<Directive>, modules: seq<Module>, checking: bool, n: nat)
    ensures Turns(w, checking, Start(list, modules), n).pos <= |Turns(w, checking, Start(list, modules), n).list|
  {
    if n > 0 {
      StaysInList(w, list, modules, checking, n - 1);
      TurnExtends(w, checking, Turns(w, checking, Start(list, modules), n - 1));
    }
  }

  // ------------------------------------------------------------ what a turn leaves behind

  /** What has changed after a turn that goes on: an import has appended its module, an include what it
      reads, and nothing else has changed anything. */
  ghost predicate Leaves(w: World, checking: bool, r: Walk, r': Walk, d: Directive, h: Handler) {
    var run := !checking || d.name == "include";
    && (if run && h == Import then d.argv != [] && d.argv[0] in w.loadable && r'.modules == r.modules + [w.loadable[d.argv[0]]]
        else r'.modules == r.modules)
    && (if run && h == Include then r'.list == r.list + IncludeOf(w, d).directives && r'.files == r.files + IncludeOf(w, d).files
        else r'.list == r.list && r'.files == r.files)
  }

  /** So it is with every turn that goes on. */
  lemma TurnLeaves(w: World, checking: bool, r: Walk, d: Directive, m: int, c: int)
    requires r.status == Running && r.pos < |r.list| && d == r.list[r.pos] && Answers(r.modules, d.name, m, c)
    requires Turn(w, checking, r).status == Running
    ensures Leaves(w, checking, r, Turn(w, checking, r), d, r.modules[m].commands[c].handler)
  {
    FindExactly(r.modules, d.name);
  }

  // ------------------------------------------------------------ what has gone through

  ghost predicate Served(w: World, modules: seq<Module>, h: Handler, d: Directive) {
    match h
    case Include => !IncludeRefused(w, d)
    case Import =>
      && d.argv != [] && d.argv[0] != "" && d.argv[0][0] == '/' && d.argv[0] in w.loadable
      && w.loadable[d.argv[0]] in modules
    case Other => w.accepts(d)
  }

  /** d has a command that takes so many arguments, and its handler has done what it does. */
  ghost predicate Passed(w: World, modules: seq<Module>, d: Directive) {
    exists m, c :: && Answers(modules, d.name, m, c) && CountOk(modules[m].commands[c].takes, |d.argv|)
                   && Served(w, modules, modules[m].commands[c].handler, d)
  }

  lemma AnswersAppend(modules: seq<Module>, more: seq<Module>, name: string, m: int, c: int)
    requires Answers(modules, name, m, c)
    ensures Answers(modules + more, name, m, c)
  {
    var all := modules + more;
    assert Named(all, name, m, c);
    forall i, j | Named(all, name, i, j) ensures m < i || (m == i && c <= j) {
      if i < |modules| {
        assert Named(modules, name, i, j);
      }
    }
  }

  lemma PassedAppend(w: World, modules: seq<Module>, all: seq<Module>, d: Directive)
    requires Passed(w, modules, d) && modules <= all
    ensures Passed(w, all, d)
  {
    var m, c :| && Answers(modules, d.name, m, c) && CountOk(modules[m].commands[c].takes, |d.argv|)
                && Served(w, modules, modules[m].commands[c].handler, d);
    AnswersAppend(modules, all[|modules|..], d.name, m, c);
    assert all == modules + all[|modules|..];
  }

  ghost predicate AllPassed(w: World, r: Walk) {
    r.pos <= |r.list| && forall i | 0 <= i < r.pos :: Passed(w, r.modules, r.list[i])
  }

  /** The directive at pos has passed when the walk has moved on. */
  lemma PassesNow(w: World, r: Walk, r': Walk, d: Directive)
    requires r.status == Running && r.pos < |r.list| && d == r.list[r.pos]
    requires r' == Turn(w, false, r) && r'.status == Running
    ensures Passed(w, r'.modules, d) && r.modules <= r'.modules
  {
    TurnTells(w, false, r, d);
    FindExactly(r.modules, d.name);
    FindFails(r.modules, d.name);
    var m, c :| Answers(r.modules, d.name, m, c);
    TurnLeaves(w, false, r, d, m, c);
    var more := r'.modules[|r.modules|..];
    assert r'.modules == r.modules + more;
    AnswersAppend(r.modules, more, d.name, m, c);
    ServedNow(w, r, r', d, r.modules[m].commands[c].handler);
  }

  lemma ServedNow(w: World, r: Walk, r': Walk, d: Directive, h: Handler)
    requires Leaves(w, false, r, r', d, h) && !Refuses(w, r.modules, h, d)
    ensures Served(w, r'.modules, h, d)
  {
  }

  lemma AllPassedOn(w: World, r: Walk, r': Walk)
    requires r.pos < |r.list| && AllPassed(w, r) && r.list <= r'.list && r'.pos == r.pos + 1
    requires r.modules <= r'.modules && Passed(w, r'.modules, r.list[r.pos])
    ensures AllPassed(w, r')
  {
    forall i | 0 <= i < r.pos ensures Passed(w, r'.modules, r.list[i]) {
      PassedAppend(w, r.modules, r'.modules, r.list[i]);
    }
  }

  lemma TurnPasses(w: World, r: Walk, r': Walk)
    requires r.status == Running && r.pos < |r.list| && AllPassed(w, r)
    requires r' == Turn(w, false, r) && r'.status == Running
    ensures AllPassed(w, r')
  {
    PassesNow(w, r, r', r.list[r.pos]);
    TurnTells(w, false, r, r.list[r.pos]);
    TurnExtends(w, false, r);
    AllPassedOn(w, r, r');
  }

  lemma TurnStopping(w: World, r: Walk, r': Walk)
    requires r.pos <= |r.list| && AllPassed(w, r) && r' == Turn(w, false, r) && r'.status != Running
    ensures AllPassed(w, r') && r'.modules == r.modules
  {
  }

  lemma {:induction false} PassedBefore(w: World, list: seq<Directive>, modules: seq<Module>, n: nat)
    ensures AllPassed(w, Turns(w, false, Start(list, modules), n))
  {
    if n > 0 {
      PassedBefore(w, list, modules, n - 1);
      var r := Turns(w, false, Start(list, modules), n - 1);
      if Turn(w, false, r).status == Running {
        TurnPasses(w, r, Turn(w, false, r));
      } else {
        TurnStopping(w, r, Turn(w, false, r));
      }
    }
  }

  /** A stopped walk keeps saying why it stopped. */
  ghost predicate Explained(w: World, checking: bool, r: Walk) {
    || r.status == Running
    || (r.status == Finished && r.pos == |r.list|)
    || (r.pos < |r.list| && r.status != Finished && Tells(w, checking, r.modules, r.list[r.pos], r.status))
  }

  lemma TurnExplains(w: World, checking: bool, r: Walk)
    requires r.pos <= |r.list| && Explained(w, checking, r)
    ensures Explained(w, checking, Turn(w, checking, r))
  {
    if r.status == Running && r.pos < |r.list| {
      var d, r' := r.list[r.pos], Turn(w, checking, r);
      TurnTells(w, checking, r, d);
      TurnExtends(w, checking, r);
      if r'.status != Running {
        assert r'.modules == r.modules && r'.list[r'.pos] == d;
      }
    }
  }

  lemma {:induction false} AlwaysExplained(w: World, list: seq<Directive>, modules: seq<Module>, checking: bool, n: nat)
    ensures Explained(w, checking, Turns(w, checking, Start(list, modules), n))
  {
    if n > 0 {
      AlwaysExplained(w, list, modules, checking, n - 1);
      StaysInList(w, list, modules, checking, n - 1);
      TurnExplains(w, checking, Turns(w, checking, Start(list, modules), n - 1));
    }
  }

  /** When process stops, every directive before the one it stops at has gone through, and the status gives
      the reason, and no other, why that one has not; it finishes exactly when there is no such one. */
  lemma ProcessOutcome(w: World, list: seq<Directive>, modules: seq<Module>, n: nat)
    requires Turns(w, false, Start(list, modules), n).status != Running
    ensures var r := Turns(w, false, Start(list, modules), n);
            && r.pos <= |r.list|
            && (forall i | 0 <= i < r.pos :: Passed(w, r.modules, r.list[i]))
            && (r.status == Finished <==> r.pos == |r.list|)
            && (r.pos < |r.list| ==> Tells(w, false, r.modules, r.list[r.pos], r.status))
  {
    PassedBefore(w, list, modules, n);
    AlwaysExplained(w, list, modules, false, n);
  }
}

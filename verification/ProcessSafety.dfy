/** Exactly when a successful check vouches for process: for every include graph, every directive list
    and every set of loadable modules. */
module ProcessSafety {
  import opened Basics
  import opened Tokeniser
  import opened TokeniserTheorems
  import opened ProcessModel
  import opened ProcessTheorems

  /** If n turns of check finish, k turns of process have met no unknown directive and no wrong count. */
  ghost predicate Vouched(w: World, list: seq<Directive>, modules: seq<Module>, n: nat, k: nat) {
    Turns(w, true, Start(list, modules), n).status == Finished ==>
      var p := Turns(w, false, Start(list, modules), k).status;
      !p.Unknown? && !p.WrongCount?
  }

  // ------------------------------------------------------------ names that no module has

  function LongestOf(names: seq<string>): (n: nat)
    ensures forall i | 0 <= i < |names| :: |names[i]| <= n
  {
    if names == [] then 0
    else
      var rest := LongestOf(names[1..]);
      if |names[0]| > rest then |names[0]| else rest
  }

  function LongestIn(cs: seq<Command>): (n: nat)
    ensures forall i | 0 <= i < |cs| :: |cs[i].name| <= n
  {
    var names := seq(|cs|, i requires 0 <= i < |cs| => cs[i].name);
    assert forall i | 0 <= i < |cs| :: names[i] == cs[i].name;
    LongestOf(names)
  }

  /** The length of the longest name of a command. */
  function Longest(modules: seq<Module>): (n: nat)
    ensures forall i | 0 <= i < |modules| :: LongestIn(modules[i].commands) <= n
  {
    if modules == [] then 0
    else
      var rest := Longest(modules[1..]);
      if LongestIn(modules[0].commands) > rest then LongestIn(modules[0].commands) else rest
  }

  /** And of the longest name of a module. */
  function LongestModule(modules: seq<Module>): (n: nat)
    ensures forall i | 0 <= i < |modules| :: |modules[i].name| <= n
  {
    var names := seq(|modules|, i requires 0 <= i < |modules| => modules[i].name);
    assert forall i | 0 <= i < |modules| :: names[i] == modules[i].name;
    LongestOf(names)
  }

  lemma {:induction false} TooLong(modules: seq<Module>, name: string)
    requires |name| > Longest(modules)
    ensures Find(modules, name) == None
  {
    if modules != [] {
      if FindIn(modules[0].commands, name).Some? {
        var i := FoundIn(modules[0].commands, name);
      }
      TooLong(modules[1..], name);
    }
  }

  function Word(n: nat): string {
    seq(n, _ => 'a')
  }

  // ------------------------------------------------------------ a file with one directive

  /** A world with one file, /a, that holds the one word x, and perhaps a module to load. */
  function Small(x: string, loadable: map<string, Module>): World {
    World(map["/a" := x + "\n"], map["/a" := One(File("/a"))], loadable, (d: Directive) => true)
  }

  lemma OneWord(n: nat, file: string)
    requires n > 0
    ensures Scan(Word(n) + "\n", START, file) == Reading([Directive(Word(n), [], file, 1)], Done)
  {
    var d := Directive(Word(n), [], file, 1);
    assert Print([d]) == Word(n) + "\n" by {
      assert [d][1..] == [] && Print([]) == "";
      assert [Word(n)] + [] == [Word(n)];
      assert Word(n) + "\n" + "" == Word(n) + "\n";
    }
    ReadPrint([d], file, 1);
    assert Numbered([d], file, 1) == [d] by {
      assert [d][1..] == [] && [d] + [] == [d];
    }
    OnePass(Word(n) + "\n", file);
  }

  lemma SmallIncludes(n: nat, loadable: map<string, Module>, d: Directive)
    requires n > 0 && d.argv != [] && d.argv[0] == "/a"
    ensures IncludeOf(Small(Word(n), loadable), d) == Added([Directive(Word(n), [], "/a", 1)], ["/a"], true)
  {
    var w := Small(Word(n), loadable);
    OneWord(n, "/a");
    Parse.TextIs(w.files["/a"] + "\0", |Word(n) + "\n"|);
    assert w.files["/a"] + "\0" == (Word(n) + "\n") + "\0";
    assert ((Word(n) + "\n") + "\0")[..|Word(n) + "\n"|] == Word(n) + "\n";
    assert ReadFile(w, "/a") == Added([Directive(Word(n), [], "/a", 1)], ["/a"], true);
    assert w.targets["/a"] == One(File("/a"));
  }

  // ------------------------------------------------------------ what escapes check

  /** The include handler under another name: check passes over the directive, and process stops on one
      that check never saw. */
  lemma AliasEscapesCheck(w: World, modules: seq<Module>, d: Directive, x: Directive)
    requires Find(modules, d.name).Some? && d.name != INCLUDE
    requires var cmd := Find(modules, d.name).value; cmd.handler == Include && Accepts(cmd.takes, |d.argv|)
    requires IncludeOf(w, d).directives == [x] && IncludeOf(w, d).ok && Find(modules, x.name) == None
    ensures !Vouched(w, [d], modules, 2, 2)
  {
    var r := Start([d], modules);
    assert Turns(w, true, r, 1) == r.(pos := 1) by {
      assert Turns(w, true, r, 0) == r;
    }
    assert Turns(w, false, r, 1) == r.(list := [d, x], pos := 1, files := IncludeOf(w, d).files) by {
      assert Turns(w, false, r, 0) == r;
      assert [d] + [x] == [d, x];
    }
  }

  /** Import under the name include: check loads the module, passes over the alias that it brings, and
      process stops on what that alias includes. */
  lemma ImportEscapesCheck(w: World, modules: seq<Module>, m: Module, i: Directive, d: Directive, x: Directive)
    requires i.name == INCLUDE && Find(modules, INCLUDE).Some? && ImportOf(w, modules, i) == Some(m)
    requires var cmd := Find(modules, INCLUDE).value; cmd.handler == Import && Accepts(cmd.takes, |i.argv|)
    requires m.commands == [Command(d.name, {1}, Include)] && d.name != INCLUDE && |d.argv| == 1
    requires Find(modules, d.name) == None && Find(modules, x.name) == None && x.name != d.name
    requires IncludeOf(w, d).directives == [x] && IncludeOf(w, d).ok
    ensures !Vouched(w, [i, d], modules, 3, 3)
  {
    var r := Start([i, d], modules);
    var more := modules + [m];
    FindAppended(modules, m, d.name);
    FindAppended(modules, m, x.name);
    assert FindIn(m.commands, d.name) == Some(m.commands[0]);
    assert m.commands[1..] == [];
    assert MinTakes({1}, 0) == 1 by {
      assert MinTakes({1}, 1) == 1;
    }
    var r1 := r.(modules := more, pos := 1);
    assert Turns(w, true, r, 1) == r1 by {
      assert Turns(w, true, r, 0) == r;
    }
    assert Turns(w, false, r, 1) == r1 by {
      assert Turns(w, false, r, 0) == r;
    }
    assert Turns(w, true, r, 2) == r1.(pos := 2);
    assert [i, d] + [x] == [i, d, x];
    assert Turns(w, false, r, 2) == r1.(list := [i, d, x], pos := 2, files := IncludeOf(w, d).files);
    assert Turns(w, true, r, 3).status == Finished;
    assert Turns(w, false, r, 3).status == Unknown(x);
  }

  function Filled(path: string, argc: nat): (argv: seq<string>)
    requires argc >= 1
    ensures |argv| == argc && argv[0] == path
  {
    [path] + seq(argc - 1, _ => "x")
  }

  lemma UnfaithfulAlias(modules: seq<Module>, name: string, argc: nat) returns (w: World, list: seq<Directive>)
    requires Find(modules, name).Some? && name != INCLUDE && Find(modules, name).value.handler == Include
    requires argc >= 1 && Accepts(Find(modules, name).value.takes, argc)
    ensures !Vouched(w, list, modules, 2, 2)
  {
    var n := Longest(modules) + 1;
    w := Small(Word(n), map[]);
    var d := Directive(name, Filled("/a", argc), "main", 1);
    SmallIncludes(n, map[], d);
    TooLong(modules, Word(n));
    AliasEscapesCheck(w, modules, d, Directive(Word(n), [], "/a", 1));
    list := [d];
  }

  lemma UnfaithfulImport(modules: seq<Module>, argc: nat) returns (w: World, list: seq<Directive>)
    requires Find(modules, INCLUDE).Some? && Find(modules, INCLUDE).value.handler == Import
    requires argc >= 1 && Accepts(Find(modules, INCLUDE).value.takes, argc)
    ensures !Vouched(w, list, modules, 3, 3)
  {
    var n := Longest(modules) + |INCLUDE| + 1;
    var m := Module(Word(LongestModule(modules) + 1), [Command(Word(n), {1}, Include)]);
    w := Small(Word(n + 1), map["/m" := m]);
    var i := Directive(INCLUDE, Filled("/m", argc), "main", 1);
    var d := Directive(Word(n), ["/a"], "main", 2);
    SmallIncludes(n + 1, map["/m" := m], d);
    TooLong(modules, Word(n));
    TooLong(modules, Word(n + 1));
    assert |Word(n)| != |Word(n + 1)| && |Word(n)| != |INCLUDE|;
    assert w.loadable["/m"] == m && !Plugged(modules, m.name);
    ImportEscapesCheck(w, modules, m, i, d, Directive(Word(n + 1), [], "/a", 1));
    list := [i, d];
  }

  lemma UnfaithfulFails(modules: seq<Module>)
    requires !Faithful(modules)
    ensures exists w, list, n: nat, k: nat :: !Vouched(w, list, modules, n, k)
  {
    var name: string :| Find(modules, name).Some? && TakesSome(Find(modules, name).value)
                        && !((Find(modules, name).value.handler == Include ==> name == INCLUDE)
                             && (name == INCLUDE ==> Find(modules, name).value.handler != Import));
    var argc: nat :| argc >= 1 && Accepts(Find(modules, name).value.takes, argc);
    if name != INCLUDE {
      var w, list := UnfaithfulAlias(modules, name, argc);
    } else {
      var w, list := UnfaithfulImport(modules, argc);
    }
  }

  /** Check vouches for process, whatever the world and the directives, exactly when the modules the
      server starts with are faithful. */
  lemma FaithfulExactly(modules: seq<Module>)
    ensures Faithful(modules) <==> forall w, list, n: nat, k: nat :: Vouched(w, list, modules, n, k)
  {
    if Faithful(modules) {
      forall w, list, n: nat, k: nat ensures Vouched(w, list, modules, n, k) {
        if Turns(w, true, Start(list, modules), n).status == Finished {
          CheckedIsSafe(w, list, modules, n, k);
        }
      }
    } else {
      UnfaithfulFails(modules);
    }
  }

  // ------------------------------------------------------------ the core module

  /** The commands every server starts with. */
  const CORE := Module("core", [
    Command("include", {1}, Include),
    Command("import", {1}, Import),
    Command("listen", {1}, Other),
    Command("log", {2, 3}, Other),
    Command("daemon", {1}, Other),
    Command("workdir", {1}, Other),
    Command("priority", {1}, Other),
    Command("user", {1}, Other),
    Command("group", {1}, Other)])

  lemma CoreNames(name: string)
    requires Find([CORE], name).Some?
    ensures Find([CORE], name).value.handler == Include <==> name == INCLUDE
    ensures Find([CORE], name).value.handler == Import ==> name == "import"
  {
    assert [CORE][0] == CORE && Find([CORE][1..], name) == None;
    var i := FoundIn(CORE.commands, name);
  }

  /** So check vouches for process in the server as it stands, and its walk goes level by level
      whatever modules are loaded, as long as they leave the include handler its name. */
  lemma CoreVouches(w: World, list: seq<Directive>, n: nat, k: nat)
    ensures Vouched(w, list, [CORE], n, k)
    ensures WellNamed(w, [CORE]) <==> forall p | p in w.loadable :: IncludeOnlyByName(w.loadable[p])
  {
    forall name: string | Find([CORE], name).Some?
      ensures Find([CORE], name).value.handler == Include <==> name == INCLUDE
      ensures Find([CORE], name).value.handler == Import ==> name == "import"
    {
      CoreNames(name);
    }
    assert Faithful([CORE]);
    FaithfulExactly([CORE]);
    assert Find([CORE], INCLUDE).Some? by {
      assert [CORE][0] == CORE && FindIn(CORE.commands, INCLUDE) == Some(CORE.commands[0]);
    }
  }
}

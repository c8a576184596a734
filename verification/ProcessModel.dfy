/** Checking and processing a directive list that grows while it is walked. */
module ProcessModel {
  import opened Basics
  import opened Tokeniser

  /** What a command's handler does, as far as the walk is concerned. */
  datatype Handler = Include | Import | Other

  /** takes holds the argument counts whose bit is set in the command's mask. */
  datatype Command = Command(name: string, takes: set<nat>, handler: Handler)

  datatype Module = Module(name: string, commands: seq<Command>)

  /** What there is in the file system, and what an include path names: a file, a directory, or the
      matches of a pattern. */
  datatype Entry = File(path: string) | Directory(entries: seq<Entry>)

  datatype Target = One(entry: Entry) | Pattern(matches: seq<Entry>)

  /** The outside: file contents, include paths, loadable modules, and which directives the other
      handlers accept. */
  datatype World = World(
    files: map<string, string>,
    targets: map<string, Target>,
    loadable: map<string, Module>,
    accepts: Directive -> bool)

  // ------------------------------------------------------------ lookup

  function FindIn(commands: seq<Command>, name: string): Option<Command> {
    if commands == [] then None
    else if commands[0].name == name then Some(commands[0])
    else FindIn(commands[1..], name)
  }

  function Find(modules: seq<Module>, name: string): Option<Command> {
    if modules == [] then None
    else match FindIn(modules[0].commands, name)
         case Some(c) => Some(c)
         case None => Find(modules[1..], name)
  }

  /** The smallest positive count allowed, or 0: the code cannot tell a lower bound of 0 from none. */
  function MinTakes(takes: set<nat>, from: nat): nat
    decreases MAX_TAKES - from
  {
    if from >= MAX_TAKES then 0 else if from > 0 && from in takes then from else MinTakes(takes, from + 1)
  }

  function MaxTakes(takes: set<nat>, below: nat): nat {
    if below == 0 then 0 else if below - 1 in takes then below - 1 else MaxTakes(takes, below - 1)
  }

  predicate Accepts(takes: set<nat>, argc: nat) {
    argc == MinTakes(takes, 0) || MinTakes(takes, 0) <= argc <= MaxTakes(takes, MAX_TAKES)
  }

  // ------------------------------------------------------------ handlers

  /** What an include adds to the directive list and to the list of files, and whether it goes
      through. */
  datatype Added = Added(directives: seq<Directive>, files: seq<string>, ok: bool)

  ghost function ReadFile(w: World, path: string): Added {
    if path !in w.files then Added([], [], false)
    else
      var r := Scan(Parse.Text(w.files[path] + "\0"), START, path);
      Added(r.directives, [path], r.outcome == Done)
  }

  /** A directory is opened and, because the result is compared with the wrong code, not read. */
  ghost function ReadEntry(w: World, e: Entry): Added {
    match e
    case File(path) => ReadFile(w, path)
    case Directory(_) => Added([], [], true)
  }

  /** What goes wrong with one match is forgotten. */
  ghost function ReadAll(w: World, es: seq<Entry>): Added {
    if es == [] then Added([], [], true)
    else
      var first, rest := ReadEntry(w, es[0]), ReadAll(w, es[1..]);
      Added(first.directives + rest.directives, first.files + rest.files, true)
  }

  /** The include path is absolute and names something. */
  predicate Names(w: World, d: Directive) {
    d.argv != [] && d.argv[0] != "" && d.argv[0][0] == '/' && d.argv[0] in w.targets
  }

  ghost function IncludeOf(w: World, d: Directive): Added {
    if !Names(w, d) then Added([], [], false)
    else match w.targets[d.argv[0]]
         case One(e) => ReadEntry(w, e)
         case Pattern(es) => ReadAll(w, es)
  }

  predicate Plugged(modules: seq<Module>, name: string) {
    exists i | 0 <= i < |modules| :: modules[i].name == name
  }

  /** import appends the module it loads, unless one of that name is there already. */
  function ImportOf(w: World, modules: seq<Module>, d: Directive): Option<Module> {
    if d.argv == [] || d.argv[0] == "" || d.argv[0][0] != '/' || d.argv[0] !in w.loadable then None
    else if Plugged(modules, w.loadable[d.argv[0]].name) then None
    else Some(w.loadable[d.argv[0]])
  }

  // ------------------------------------------------------------ the walk

  datatype Status = Running | Finished | Unknown(d: Directive) | WrongCount(d: Directive) | Failed(d: Directive)

  /** files are those that includes have read so far. */
  datatype Walk = Walk(list: seq<Directive>, pos: nat, modules: seq<Module>, files: seq<string>, status: Status)

  function Start(list: seq<Directive>, modules: seq<Module>): Walk {
    Walk(list, 0, modules, [], Running)
  }

  /** The handler runs on d and the walk moves on, or stops. */
  ghost function Handle(w: World, r: Walk, d: Directive, h: Handler): Walk {
    match h
    case Include =>
      var added := IncludeOf(w, d);
      var r' := r.(list := r.list + added.directives, files := r.files + added.files);
      if added.ok then r'.(pos := r.pos + 1) else r'.(status := Failed(d))
    case Import =>
      (match ImportOf(w, r.modules, d)
       case Some(m) => r.(modules := r.modules + [m], pos := r.pos + 1)
       case None => r.(status := Failed(d)))
    case Other =>
      if w.accepts(d) then r.(pos := r.pos + 1) else r.(status := Failed(d))
  }

  const INCLUDE := "include"

  /** One turn of the loop in fpx_config_check (checking) or fpx_config_process. Checking runs the
      handler of a directive only when the directive is called include. */
  ghost function Turn(w: World, checking: bool, r: Walk): Walk {
    if r.status != Running then r
    else if r.pos >= |r.list| then r.(status := Finished)
    else
      var d := r.list[r.pos];
      match Find(r.modules, d.name)
      case None => r.(status := Unknown(d))
      case Some(cmd) =>
        if !Accepts(cmd.takes, |d.argv|) then r.(status := WrongCount(d))
        else if checking && d.name != INCLUDE then r.(pos := r.pos + 1)
        else Handle(w, r, d, cmd.handler)
  }

  ghost function Turns(w: World, checking: bool, r: Walk, n: nat): Walk {
    if n == 0 then r else Turn(w, checking, Turns(w, checking, r, n - 1))
  }

  /** The include handler goes by no other name than include. */
  predicate IncludeOnlyByName(m: Module) {
    forall i | 0 <= i < |m.commands| :: m.commands[i].handler == Include ==> m.commands[i].name == INCLUDE
  }

  /** And nothing else goes by that name. */
  predicate IncludeByName(m: Module) {
    forall i | 0 <= i < |m.commands| :: m.commands[i].handler == Include <==> m.commands[i].name == INCLUDE
  }

  /** What is found under the name include, and only that, has the include handler, and no module that
      may be loaded changes this. A loaded module may have a command of its own called include, as long
      as another comes before it. */
  ghost predicate WellNamed(w: World, modules: seq<Module>) {
    && (forall name: string | Find(modules, name).Some? :: Find(modules, name).value.handler == Include <==> name == INCLUDE)
    && (forall p | p in w.loadable :: IncludeOnlyByName(w.loadable[p]))
    && (Find(modules, INCLUDE).None? ==> forall p | p in w.loadable :: IncludeByName(w.loadable[p]))
  }

  // ------------------------------------------------------------ levels

  ghost function Kids(w: World, d: Directive): seq<Directive> {
    if d.name == INCLUDE then IncludeOf(w, d).directives else []
  }

  ghost function Children(w: World, ds: seq<Directive>): seq<Directive> {
    if ds == [] then [] else Kids(w, ds[0]) + Children(w, ds[1..])
  }

  /** Level 0 is the main file; the next level is what its directives include, in order; and so on. */
  ghost function Level(w: World, ds: seq<Directive>, k: nat): seq<Directive> {
    if k == 0 then ds else Children(w, Level(w, ds, k - 1))
  }

  ghost function FirstLevels(w: World, ds: seq<Directive>, k: nat): seq<Directive> {
    if k == 0 then [] else FirstLevels(w, ds, k - 1) + Level(w, ds, k - 1)
  }
}

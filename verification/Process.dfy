/** fpx_config_check and fpx_config_process as they run: the directive list and the module list of a
    server, appended to in place while the directive list is walked. */
module Process {
  import opened Basics
  import opened Tokeniser
  import opened ProcessModel
  import opened ProcessTheorems

  lemma {:induction false} FindInSkips(commands: seq<Command>, i: nat, name: string)
    requires i <= |commands| && forall j | 0 <= j < i :: commands[j].name != name
    ensures FindIn(commands, name) == FindIn(commands[i..], name)
  {
    if i > 0 {
      FindInSkips(commands[1..], i - 1, name);
      assert commands[1..][i - 1..] == commands[i..];
    } else {
      assert commands[0..] == commands;
    }
  }

  /** fpx_check_directive_arguments */
  method CheckArguments(d: Directive, cmd: Command) returns (ok: bool)
    ensures ok == Accepts(cmd.takes, |d.argv|)
  {
    var minTakes, maxTakes, i := 0, 0, 0;
    while i < MAX_TAKES
      invariant i <= MAX_TAKES && (minTakes == 0 || 0 < minTakes < i)
      invariant MinTakes(cmd.takes, 0) == if minTakes == 0 then MinTakes(cmd.takes, i) else minTakes
      invariant maxTakes == MaxTakes(cmd.takes, i) <= i && (i > 0 ==> maxTakes < i)
    {
      if i in cmd.takes {
        if minTakes == 0 {
          minTakes := i;
        }
        if maxTakes < i {
          maxTakes := i;
        }
      }
      i := i + 1;
    }
    ok := |d.argv| == minTakes || minTakes <= |d.argv| <= maxTakes;
  }

  class Server {
    var config: Config
    var modules: seq<Module>

    constructor (config: Config, modules: seq<Module>)
      ensures this.config == config && this.modules == modules
    {
      this.config, this.modules := config, modules;
    }

    /** fpx_find_command_in_modules */
    method FindCommand(name: string) returns (cmd: Option<Command>)
      ensures cmd == Find(modules, name)
    {
      var m := 0;
      assert modules[0..] == modules;
      while m < |modules|
        invariant m <= |modules| && Find(modules, name) == Find(modules[m..], name)
      {
        var commands := modules[m].commands;
        assert modules[m..][1..] == modules[m + 1..];
        var i := 0;
        while i < |commands|
          invariant i <= |commands| && forall j | 0 <= j < i :: commands[j].name != name
        {
          if commands[i].name == name {
            FindInSkips(commands, i, name);
            return Some(commands[i]);
          }
          i := i + 1;
        }
        FindInSkips(commands, i, name);
        m := m + 1;
      }
      return None;
    }

    /** fpx_add_module */
    method AddModule(extra: Module) returns (ok: bool)
      modifies this`modules
      ensures ok == !Plugged(old(modules), extra.name)
      ensures modules == if ok then old(modules) + [extra] else old(modules)
    {
      var i := 0;
      while i < |modules|
        invariant i <= |modules| && forall j | 0 <= j < i :: modules[j].name != extra.name
      {
        if modules[i].name == extra.name {
          return false;
        }
        i := i + 1;
      }
      modules := modules + [extra];
      return true;
    }

    /** fpx_handler_import with fpx_load_module */
    method Import(w: World, d: Directive) returns (ok: bool)
      modifies this`modules
      ensures ok == ImportOf(w, old(modules), d).Some?
      ensures modules == old(modules) + (if ok then [ImportOf(w, old(modules), d).value] else [])
    {
      if d.argv == [] || d.argv[0] == "" || d.argv[0][0] != '/' || d.argv[0] !in w.loadable {
        return false;
      }
      ok := AddModule(w.loadable[d.argv[0]]);
    }

    /** fpx_config_read_included_file */
    method ReadIncludedFile(w: World, path: string) returns (ok: bool)
      requires config.Valid()
      modifies config
      ensures config.Valid() && old(config.stored) <= config.stored
      ensures config.list == old(config.list) + ReadFile(w, path).directives
      ensures config.files == old(config.files) + ReadFile(w, path).files
      ensures ok == ReadFile(w, path).ok
    {
      if path !in w.files {
        return false;
      }
      var buf := w.files[path] + "\0";
      assert buf[|buf| - 1] == '\0';
      config.files := config.files + [path];
      var r := config.Parse(buf, path);
      ok := r == Done;
    }

    /** A file is read; of a directory nothing is, as in fpx_config_walkdir_nonwildcard. */
    method ReadIncludedEntry(w: World, e: Entry) returns (ok: bool)
      requires config.Valid()
      modifies config
      ensures config.Valid() && old(config.stored) <= config.stored
      ensures config.list == old(config.list) + ReadEntry(w, e).directives
      ensures config.files == old(config.files) + ReadEntry(w, e).files
      ensures ok == ReadEntry(w, e).ok
    {
      match e {
        case File(path) => ok := ReadIncludedFile(w, path);
        case Directory(_) => ok := true;
      }
    }

    /** fpx_config_walkdir_wildcard */
    method ReadMatches(w: World, es: seq<Entry>)
      requires config.Valid()
      modifies config
      ensures config.Valid() && old(config.stored) <= config.stored
      ensures config.list == old(config.list) + ReadAll(w, es).directives
      ensures config.files == old(config.files) + ReadAll(w, es).files
    {
      var i := 0;
      assert es[0..] == es;
      while i < |es|
        invariant i <= |es| && config.Valid() && old(config.stored) <= config.stored
        invariant old(config.list) + ReadAll(w, es).directives == config.list + ReadAll(w, es[i..]).directives
        invariant old(config.files) + ReadAll(w, es).files == config.files + ReadAll(w, es[i..]).files
      {
        ReadNext(w, es, i, config.list, config.files);
        var ok := ReadIncludedEntry(w, es[i]);
        i := i + 1;
      }
    }

    /** fpx_handler_include with fpx_config_read_included */
    method Include(w: World, d: Directive) returns (ok: bool)
      requires config.Valid()
      modifies config
      ensures config.Valid() && old(config.stored) <= config.stored
      ensures config.list == old(config.list) + IncludeOf(w, d).directives
      ensures config.files == old(config.files) + IncludeOf(w, d).files
      ensures ok == IncludeOf(w, d).ok
    {
      if !Names(w, d) {
        return false;
      }
      match w.targets[d.argv[0]] {
        case One(e) => ok := ReadIncludedEntry(w, e);
        case Pattern(es) =>
          ReadMatches(w, es);
          ok := true;
      }
    }

    /** What the handlers see of a walk: the files that includes have read are the last in conf_files. */
    ghost predicate At(r: Walk, before: seq<string>)
      reads this, config
    {
      r.list == config.list && r.modules == modules && config.files == before + r.files
    }

    method RunHandler(w: World, d: Directive, h: Handler, ghost r: Walk, ghost before: seq<string>) returns (ok: bool)
      requires config.Valid() && At(r, before)
      modifies config, this`modules
      ensures config.Valid() && old(config.stored) <= config.stored
      ensures At(Handle(w, r, d, h), before)
      ensures var r' := Handle(w, r, d, h);
              if ok then r'.pos == r.pos + 1 && r'.status == r.status else r'.pos == r.pos && r'.status == Failed(d)
    {
      match h {
        case Include => ok := Include(w, d);
        case Import => ok := Import(w, d);
        case Other => ok := w.accepts(d);
      }
    }

    /** The body of the loop for the directive at pos. */
    method Visit(w: World, checking: bool, ghost r: Walk, pos: nat, ghost before: seq<string>) returns (status: Status)
      requires config.Valid() && At(r, before) && pos == r.pos < |r.list| && r.status == Running
      modifies config, this`modules
      ensures config.Valid() && old(config.stored) <= config.stored
      ensures At(Turn(w, checking, r), before)
      ensures Turn(w, checking, r).status == status
      ensures Turn(w, checking, r).pos == if status == Running then pos + 1 else pos
    {
      var d := config.Fetch(pos);
      var cmd := FindCommand(d.name);
      if cmd == None {
        return Unknown(d);
      }
      var right := CheckArguments(d, cmd.value);
      if !right {
        return WrongCount(d);
      }
      if checking && d.name != INCLUDE {
        return Running;
      }
      var ok := RunHandler(w, d, cmd.value.handler, r, before);
      return if ok then Running else Failed(d);
    }

    /** fpx_config_check (checking) and fpx_config_process: the list is walked to its end, wherever
        that has moved, or to the first error. When the walk stops at all, which is within `last` turns,
        it stops as the model says. */
    method WalkList(w: World, checking: bool, ghost last: nat) returns (pos: nat, status: Status)
      requires config.Valid() && Turns(w, checking, Start(config.list, modules), last).status != Running
      modifies config, this`modules
      ensures config.Valid() && old(config.stored) <= config.stored
      ensures var end := Turns(w, checking, Start(old(config.list), old(modules)), last);
              At(end, old(config.files)) && end.pos == pos && end.status == status
    {
      assert config.files + [] == config.files;
      pos, status := Loop(w, checking, last, Start(config.list, modules), config.files);
    }

    method Loop(w: World, checking: bool, ghost last: nat, ghost start: Walk, ghost before: seq<string>)
      returns (pos: nat, status: Status)
      requires config.Valid() && At(start, before) && start.pos == 0 && start.status == Running
      requires Turns(w, checking, start, last).status != Running
      modifies config, this`modules
      ensures config.Valid() && old(config.stored) <= config.stored
      ensures var end := Turns(w, checking, start, last);
              At(end, before) && end.pos == pos && end.status == status
    {
      ghost var r := start;
      pos, status := 0, Running;
      StillRunning(w, checking, start, 0, last);
      while pos < |config.stored|
        invariant config.Valid() && old(config.stored) <= config.stored && At(r, before)
        invariant pos == r.pos && r.status == Running
        invariant r == Turns(w, checking, start, pos) && pos < last
        decreases last - pos
      {
        NextTurn(w, checking, start, pos, last, r);
        status := Visit(w, checking, r, pos, before);
        r := Turn(w, checking, r);
        if status != Running {
          return;
        }
        pos := pos + 1;
      }
      status := Finished;
      NextTurn(w, checking, start, pos, last, r);
    }
  }

  /** Whether the walk that is at r after n turns stops in the next one. */
  lemma NextTurn(w: World, checking: bool, start: Walk, n: nat, last: nat, r: Walk)
    requires r == Turns(w, checking, start, n) && n < last && Turns(w, checking, start, last).status != Running
    ensures var r' := Turn(w, checking, r);
            if r'.status == Running then r' == Turns(w, checking, start, n + 1) && n + 1 < last
            else r' == Turns(w, checking, start, last)
  {
    if Turn(w, checking, r).status == Running {
      StillRunning(w, checking, start, n + 1, last);
    } else {
      StoppedStays(w, checking, start, n + 1, last);
    }
  }

  lemma ReadNext(w: World, es: seq<Entry>, i: nat, list: seq<Directive>, files: seq<string>)
    requires i < |es|
    ensures var first, rest := ReadEntry(w, es[i]), ReadAll(w, es[i + 1..]);
            && list + ReadAll(w, es[i..]).directives == (list + first.directives) + rest.directives
            && files + ReadAll(w, es[i..]).files == (files + first.files) + rest.files
  {
    assert es[i..][1..] == es[i + 1..];
  }

  /** A walk that has not stopped after n turns stops later. */
  lemma StillRunning(w: World, checking: bool, start: Walk, n: nat, last: nat)
    requires Turns(w, checking, start, n).status == Running && Turns(w, checking, start, last).status != Running
    ensures n < last
  {
    if last <= n {
      StoppedStays(w, checking, start, last, n);
    }
  }
}

/** Which files the includes of a configuration read, and when a walk that finishes has read all that they
    stand for. */
module ProcessIncludes {
  import opened Basics
  import opened Tokeniser
  import opened ProcessModel
  import opened ProcessTheorems
  import opened ProcessSafety

  // ------------------------------------------------------------ what an include stands for

  /** The files in an entry: of a directory all of them, however deep. */
  function FilesOf(e: Entry): seq<string> {
    match e
    case File(path) => [path]
    case Directory(es) => AllFiles(es)
  }

  function AllFiles(es: seq<Entry>): seq<string> {
    if es == [] then [] else FilesOf(es[0]) + AllFiles(es[1..])
  }

  function StandsFor(w: World, d: Directive): seq<string> {
    if !Names(w, d) then []
    else match w.targets[d.argv[0]]
         case One(e) => FilesOf(e)
         case Pattern(es) => AllFiles(es)
  }

  /** What the tokeniser makes of the text of a file that can be read. */
  ghost function Says(w: World, path: string): Reading
    requires path in w.files
  {
    Scan(Parse.Text(w.files[path] + "\0"), START, path)
  }

  /** The file can be read and is well formed. */
  ghost predicate Good(w: World, path: string) {
    path in w.files && Says(w, path).outcome == Done
  }

  ghost predicate AllGood(w: World, paths: seq<string>) {
    forall i | 0 <= i < |paths| :: Good(w, paths[i])
  }

  /** A directory with a file somewhere in it, or a file that is not good. */
  ghost predicate Lacking(w: World, e: Entry) {
    match e
    case File(path) => !Good(w, path)
    case Directory(_) => FilesOf(e) != []
  }

  /** The include names a directory with a file in it, or a pattern with such a match or with a file that
      cannot be read or is ill formed. */
  ghost predicate Misses(w: World, d: Directive) {
    Names(w, d) &&
    match w.targets[d.argv[0]]
    case One(e) => e.Directory? && FilesOf(e) != []
    case Pattern(es) => exists i :: 0 <= i < |es| && Lacking(w, es[i])
  }

  /** All files that are stood for have been read, and all of them whole. */
  ghost predicate Whole(w: World, files: seq<string>, stood: seq<string>) {
    files == stood && AllGood(w, files)
  }

  lemma EntryWhole(w: World, e: Entry)
    ensures |ReadEntry(w, e).files| <= |FilesOf(e)|
    ensures Whole(w, ReadEntry(w, e).files, FilesOf(e)) <==> !Lacking(w, e)
    ensures Lacking(w, e) ==> |ReadEntry(w, e).files| < |FilesOf(e)| || !AllGood(w, ReadEntry(w, e).files)
  {
    if e.File? && e.path in w.files {
      assert ReadEntry(w, e).files[0] == e.path;
    }
  }

  lemma GoodConcat(w: World, a: seq<string>, b: seq<string>)
    ensures AllGood(w, a + b) <==> AllGood(w, a) && AllGood(w, b)
  {
    forall i | 0 <= i < |a| ensures (a + b)[i] == a[i] {}
    forall i | 0 <= i < |b| ensures (a + b)[|a| + i] == b[i] {}
  }

  lemma {:induction false} MatchesWhole(w: World, es: seq<Entry>)
    ensures |ReadAll(w, es).files| <= |AllFiles(es)|
    ensures (forall i | 0 <= i < |es| :: !Lacking(w, es[i])) ==> Whole(w, ReadAll(w, es).files, AllFiles(es))
    ensures (exists i :: 0 <= i < |es| && Lacking(w, es[i])) ==>
              |ReadAll(w, es).files| < |AllFiles(es)| || !AllGood(w, ReadAll(w, es).files)
  {
    if es != [] {
      EntryWhole(w, es[0]);
      MatchesWhole(w, es[1..]);
      GoodConcat(w, ReadEntry(w, es[0]).files, ReadAll(w, es[1..]).files);
      if i: int :| 0 <= i < |es| && Lacking(w, es[i]) {
        if i > 0 {
          assert Lacking(w, es[1..][i - 1]);
        }
      }
    }
  }

  /** One include that goes through has read whole what it stands for exactly when it misses nothing. */
  lemma IncludeWhole(w: World, d: Directive)
    requires IncludeOf(w, d).ok
    ensures |IncludeOf(w, d).files| <= |StandsFor(w, d)|
    ensures !Misses(w, d) ==> Whole(w, IncludeOf(w, d).files, StandsFor(w, d))
    ensures Misses(w, d) ==> |IncludeOf(w, d).files| < |StandsFor(w, d)| || !AllGood(w, IncludeOf(w, d).files)
  {
    match w.targets[d.argv[0]] {
      case One(e) => EntryWhole(w, e);
      case Pattern(es) => MatchesWhole(w, es);
    }
  }

  // ------------------------------------------------------------ what a walk reads

  /** What the includes among ds read, and what they stand for. */
  ghost function FilesRead(w: World, ds: seq<Directive>): seq<string> {
    if ds == [] then []
    else
      var d := ds[|ds| - 1];
      FilesRead(w, ds[..|ds| - 1]) + if d.name == INCLUDE then IncludeOf(w, d).files else []
  }

  ghost function AllStandFor(w: World, ds: seq<Directive>): seq<string> {
    if ds == [] then []
    else
      var d := ds[|ds| - 1];
      AllStandFor(w, ds[..|ds| - 1]) + if d.name == INCLUDE then StandsFor(w, d) else []
  }

  ghost predicate GoesThrough(w: World, d: Directive) {
    d.name == INCLUDE ==> IncludeOf(w, d).ok
  }

  /** A walk that no handler has stopped: every include that has been visited went through, and the files
      read are theirs. */
  ghost predicate Accounted(w: World, r: Walk) {
    !r.status.Failed? ==>
      && r.pos <= |r.list| && r.files == FilesRead(w, r.list[..r.pos])
      && forall i | 0 <= i < r.pos :: GoesThrough(w, r.list[i])
  }

  lemma AccountedOn(w: World, r: Walk, r': Walk)
    requires Accounted(w, r) && r.status == Running && r.pos < |r.list| && GoesThrough(w, r.list[r.pos])
    requires r.list <= r'.list && r'.pos == r.pos + 1
    requires r'.files == r.files + if r.list[r.pos].name == INCLUDE then IncludeOf(w, r.list[r.pos]).files else []
    ensures Accounted(w, r')
  {
    var seen := r'.list[..r'.pos];
    assert seen[..|seen| - 1] == r.list[..r.pos] && seen[|seen| - 1] == r.list[r.pos];
  }

  /** A turn that leaves the walk running has had its include go through. */
  lemma TurnReads(w: World, checking: bool, r: Walk)
    requires WellNamed(w, r.modules) && r.status == Running && r.pos < |r.list|
    requires Turn(w, checking, r).status == Running
    ensures var r', d := Turn(w, checking, r), r.list[r.pos];
            && GoesThrough(w, d) && r.list <= r'.list && r'.pos == r.pos + 1
            && r'.files == r.files + if d.name == INCLUDE then IncludeOf(w, d).files else []
  {
  }

  lemma TurnStaysPut(w: World, checking: bool, r: Walk)
    requires Turn(w, checking, r).status != Running && !Turn(w, checking, r).status.Failed?
    ensures var r' := Turn(w, checking, r); r'.list == r.list && r'.pos == r.pos && r'.files == r.files
  {
  }

  lemma TurnAccounts(w: World, checking: bool, r: Walk, r': Walk)
    requires WellNamed(w, r.modules) && Accounted(w, r) && r' == Turn(w, checking, r) && r.pos <= |r.list|
    ensures Accounted(w, r')
  {
    if r'.status == Running {
      TurnReads(w, checking, r);
      AccountedOn(w, r, r');
    } else if !r'.status.Failed? {
      TurnStaysPut(w, checking, r);
    }
  }

  lemma {:induction false} RunAccounts(w: World, ds: seq<Directive>, modules: seq<Module>, checking: bool, n: nat)
    requires WellNamed(w, modules)
    ensures Accounted(w, Turns(w, checking, Start(ds, modules), n))
  {
    if n == 0 {
      assert ds[..0] == [];
    } else {
      RunAccounts(w, ds, modules, checking, n - 1);
      RunGrows(w, ds, modules, checking, n - 1);
      TurnAccounts(w, checking, Turns(w, checking, Start(ds, modules), n - 1), Turns(w, checking, Start(ds, modules), n));
    }
  }

  // ------------------------------------------------------------ what the files hold

  /** The directives of these files, file by file; of an ill-formed one those before the error. */
  ghost function Contents(w: World, paths: seq<string>): seq<Directive> {
    if paths == [] then []
    else (if paths[0] in w.files then Says(w, paths[0]).directives else []) + Contents(w, paths[1..])
  }

  lemma {:induction false} ContentsConcat(w: World, a: seq<string>, b: seq<string>)
    ensures Contents(w, a + b) == Contents(w, a) + Contents(w, b)
  {
    if a == [] {
      assert a + b == b;
    } else {
      ContentsConcat(w, a[1..], b);
      assert (a + b)[1..] == a[1..] + b;
      Regrouped(ReadFile(w, a[0]).directives, Contents(w, a[1..]), Contents(w, b));
    }
  }

  lemma EntryContents(w: World, e: Entry)
    ensures ReadEntry(w, e).directives == Contents(w, ReadEntry(w, e).files)
  {
    if e.File? && e.path in w.files {
      assert Contents(w, [e.path]) == ReadFile(w, e.path).directives + Contents(w, []);
    }
  }

  lemma {:induction false} MatchesContents(w: World, es: seq<Entry>)
    ensures ReadAll(w, es).directives == Contents(w, ReadAll(w, es).files)
  {
    if es != [] {
      EntryContents(w, es[0]);
      MatchesContents(w, es[1..]);
      ContentsConcat(w, ReadEntry(w, es[0]).files, ReadAll(w, es[1..]).files);
    }
  }

  lemma KidsContents(w: World, d: Directive)
    ensures d.name == INCLUDE ==> Kids(w, d) == Contents(w, IncludeOf(w, d).files)
  {
    if Names(w, d) {
      match w.targets[d.argv[0]] {
        case One(e) => EntryContents(w, e);
        case Pattern(es) => MatchesContents(w, es);
      }
    }
  }

  lemma {:induction false} ChildrenContents(w: World, ds: seq<Directive>)
    ensures Children(w, ds) == Contents(w, FilesRead(w, ds))
  {
    if ds != [] {
      var before, d := ds[..|ds| - 1], ds[|ds| - 1];
      ChildrenContents(w, before);
      assert ds == before + [d];
      StepChildren(w, before, d);
      KidsContents(w, d);
      ContentsConcat(w, FilesRead(w, before), if d.name == INCLUDE then IncludeOf(w, d).files else []);
    }
  }

  /** The directive list is at any time the main file followed by what the files read so far hold. */
  lemma ListIsContents(w: World, ds: seq<Directive>, modules: seq<Module>, checking: bool, n: nat)
    requires WellNamed(w, modules)
    ensures var r := Turns(w, checking, Start(ds, modules), n);
            !r.status.Failed? ==> r.list == ds + Contents(w, r.files)
  {
    var r := Turns(w, checking, Start(ds, modules), n);
    RunGrows(w, ds, modules, checking, n);
    RunAccounts(w, ds, modules, checking, n);
    if !r.status.Failed? {
      ChildrenContents(w, r.list[..r.pos]);
    }
  }

  // ------------------------------------------------------------ when everything is read

  ghost predicate Missing(w: World, ds: seq<Directive>, i: int) {
    0 <= i < |ds| && ds[i].name == INCLUDE && Misses(w, ds[i])
  }

  /** The files read for the last of ds. */
  ghost function LastRead(w: World, ds: seq<Directive>): seq<string>
    requires ds != []
  {
    var d := ds[|ds| - 1];
    if d.name == INCLUDE then IncludeOf(w, d).files else []
  }

  ghost predicate AllGoThrough(w: World, ds: seq<Directive>) {
    forall i | 0 <= i < |ds| :: GoesThrough(w, ds[i])
  }

  lemma {:induction false} NoMoreRead(w: World, ds: seq<Directive>)
    requires AllGoThrough(w, ds)
    ensures |FilesRead(w, ds)| <= |AllStandFor(w, ds)|
  {
    if ds != [] {
      NoMoreRead(w, ds[..|ds| - 1]);
      if ds[|ds| - 1].name == INCLUDE {
        IncludeWhole(w, ds[|ds| - 1]);
      }
    }
  }

  lemma {:induction false} NothingMissing(w: World, ds: seq<Directive>)
    requires AllGoThrough(w, ds) && forall i :: !Missing(w, ds, i)
    ensures Whole(w, FilesRead(w, ds), AllStandFor(w, ds))
  {
    if ds != [] {
      var before, last := ds[..|ds| - 1], |ds| - 1;
      forall i ensures !Missing(w, before, i) {
        assert !Missing(w, ds, i);
      }
      NothingMissing(w, before);
      GoodConcat(w, FilesRead(w, before), LastRead(w, ds));
      assert !Missing(w, ds, last);
      if ds[last].name == INCLUDE {
        IncludeWhole(w, ds[last]);
      }
    }
  }

  lemma {:induction false} SomethingMissing(w: World, ds: seq<Directive>, i: int)
    requires AllGoThrough(w, ds) && Missing(w, ds, i)
    ensures !Whole(w, FilesRead(w, ds), AllStandFor(w, ds))
    ensures |FilesRead(w, ds)| < |AllStandFor(w, ds)| || !AllGood(w, FilesRead(w, ds))
  {
    var before, last := ds[..|ds| - 1], |ds| - 1;
    GoodConcat(w, FilesRead(w, before), LastRead(w, ds));
    if ds[last].name == INCLUDE {
      IncludeWhole(w, ds[last]);
    }
    if i < last {
      SomethingMissing(w, before, i);
    } else {
      NoMoreRead(w, before);
    }
  }

  lemma WholeAtEnd(w: World, r: Walk)
    requires Accounted(w, r) && r.status == Finished && r.pos == |r.list|
    ensures Whole(w, r.files, AllStandFor(w, r.list)) <==>
            forall i | 0 <= i < |r.list| && r.list[i].name == INCLUDE :: !Misses(w, r.list[i])
  {
    assert r.list[..r.pos] == r.list;
    if i :| Missing(w, r.list, i) {
      SomethingMissing(w, r.list, i);
    } else {
      NothingMissing(w, r.list);
      forall i | 0 <= i < |r.list| && r.list[i].name == INCLUDE ensures !Misses(w, r.list[i]) {
        assert !Missing(w, r.list, i);
      }
    }
  }

  /** A check or a process that succeeds has read whole every file that its includes stand for exactly when
      none of the includes it visited names a directory with a file in it, or a pattern with a match that
      is such a directory or a file that cannot be read or is ill formed. */
  lemma ReadsWholeExactly(w: World, ds: seq<Directive>, modules: seq<Module>, checking: bool, n: nat)
    requires WellNamed(w, modules) && Ends(w, checking, Start(ds, modules), n)
    ensures var r := Turns(w, checking, Start(ds, modules), n);
            Whole(w, r.files, AllStandFor(w, r.list)) <==>
            forall i | 0 <= i < |r.list| && r.list[i].name == INCLUDE :: !Misses(w, r.list[i])
  {
    var r := Turns(w, checking, Start(ds, modules), n);
    RunGrows(w, ds, modules, checking, n);
    RunAccounts(w, ds, modules, checking, n);
    FinishedAtEnd(w, checking, Start(ds, modules), n);
    WholeAtEnd(w, r);
  }

  // ------------------------------------------------------------ the smallest cases

  const INCLUDE_I := Directive(INCLUDE, ["/i"], "main", 1)

  /** With nothing but an include that adds no directive, process succeeds after one turn. */
  lemma OneInclude(w: World)
    requires IncludeOf(w, INCLUDE_I).ok && IncludeOf(w, INCLUDE_I).directives == []
    ensures var r := Turns(w, false, Start([INCLUDE_I], [CORE]), 2);
            r.status == Finished && r.files == IncludeOf(w, INCLUDE_I).files
  {
    var r, files := Start([INCLUDE_I], [CORE]), IncludeOf(w, INCLUDE_I).files;
    assert [CORE][0] == CORE && FindIn(CORE.commands, INCLUDE) == Some(CORE.commands[0]);
    assert MinTakes({1}, 0) == 1 by {
      assert MinTakes({1}, 1) == 1;
    }
    assert Turns(w, false, r, 0) == r;
    assert [INCLUDE_I] + [] == [INCLUDE_I] && [] + files == files;
    assert Turns(w, false, r, 1) == r.(pos := 1, files := files);
  }

  /** A directory with a file in it: process succeeds and the file has not been read. */
  lemma DirectoryIsSkipped(w: World)
    requires "/i" in w.targets && w.targets["/i"] == One(Directory([File("/i/a")]))
    ensures var r := Turns(w, false, Start([INCLUDE_I], [CORE]), 2);
            r.status == Finished && r.files == [] && StandsFor(w, INCLUDE_I) == ["/i/a"]
  {
    OneInclude(w);
    var es := [File("/i/a")];
    assert es[1..] == [] && AllFiles(es) == FilesOf(es[0]) + [];
  }

  /** A pattern with one ill-formed match: process succeeds all the same. */
  lemma ErrorIsForgotten(w: World)
    requires "/i" in w.targets && w.targets["/i"] == Pattern([File("/a")])
    requires "/a" in w.files && w.files["/a"] == "a#"
    ensures var r := Turns(w, false, Start([INCLUDE_I], [CORE]), 2);
            r.status == Finished && r.files == ["/a"] && !Good(w, "/a")
  {
    Parse.TextIs("a#\0", 2);
    assert "a#" + "\0" == "a#\0" && "a#\0"[..2] == "a#";
    assert "a#"[1..] == "#";
    assert Scan("#", Pass(false, "" + ['a'], [], 1), "/a") == Reading([], SyntaxError(1));
    assert ReadFile(w, "/a") == Added([], ["/a"], false);
    var es := [File("/a")];
    assert es[1..] == [] && ReadAll(w, es) == Added([], ["/a"], true);
    OneInclude(w);
  }
}

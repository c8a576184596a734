/** The configuration tokeniser: one pass over a NUL-terminated buffer, character by character. */
module Tokeniser {
  import opened Basics
  import opened Parse

  const MAX_TAKES: nat := 8

  datatype Directive = Directive(name: string, argv: seq<string>, file: string, line: nat)

  datatype Outcome = Done | SyntaxError(line: nat)

  /** The directives read and how the reading ended. */
  datatype Reading = Reading(directives: seq<Directive>, outcome: Outcome)

  predicate IsBlank(c: char) {
    c == '\t' || c == ' '
  }

  predicate IsEnd(c: char) {
    c == '\n' || c == '\r'
  }

  predicate IsWordChar(c: char) {
    c != '\0' && !IsBlank(c) && !IsEnd(c) && c != '#'
  }

  predicate IsAscii(c: char) {
    c as int < 0x80
  }

  function Saved(words: seq<string>, file: string, line: nat): seq<Directive> {
    if words == [] then [] else [Directive(words[0], words[1..], file, line)]
  }

  function After(ds: seq<Directive>, r: Reading): Reading {
    Reading(ds + r.directives, r.outcome)
  }

  // ------------------------------------------------------------ what a buffer says

  /** The blank-separated words of s. */
  function Split(s: string): seq<string>
    decreases |s|
  {
    if s == "" then []
    else if IsBlank(s[0]) then Split(s[1..])
    else [s[..WordLength(s)]] + Split(s[WordLength(s)..])
  }

  function WordLength(s: string): (n: nat)
    ensures n <= |s| && forall i | 0 <= i < n :: !IsBlank(s[i])
    ensures n < |s| ==> IsBlank(s[n])
    ensures s != "" && !IsBlank(s[0]) ==> n > 0
  {
    if s == "" || IsBlank(s[0]) then 0 else 1 + WordLength(s[1..])
  }

  function CommentStart(s: string): (k: nat)
    ensures k <= |s| && '#' !in s[..k] && (k < |s| ==> s[k] == '#')
  {
    if s == "" || s[0] == '#' then 0 else 1 + CommentStart(s[1..])
  }

  /** The words of a line: whatever stands before its comment, split at blanks. */
  function Words(s: string): seq<string> {
    Split(s[..CommentStart(s)])
  }

  /** s without the word that reaches its end. */
  function Trim(s: string): string {
    if s == "" || IsBlank(s[|s| - 1]) then s else Trim(s[..|s| - 1])
  }

  /** The words that something ends: a blank or the comment. */
  function ClosedWords(s: string): seq<string> {
    if CommentStart(s) < |s| then Words(s) else Split(Trim(s))
  }

  /** The comment sign is stuck to a word. */
  predicate Glued(s: string) {
    var k := CommentStart(s);
    0 < k < |s| && !IsBlank(s[k - 1])
  }

  ghost predicate Ascii(s: string) {
    forall i | 0 <= i < |s| :: IsAscii(s[i])
  }

  /** A line the code reads without complaint: ASCII, no glued comment, at most seven arguments. */
  ghost predicate GoodLine(s: string) {
    Ascii(s) && !Glued(s) && |Words(s)| <= MAX_TAKES
  }

  /** The same for a last line that nothing terminates. */
  ghost predicate GoodTail(s: string) {
    Ascii(s) && !Glued(s) && |ClosedWords(s)| <= MAX_TAKES
  }

  /** Where the first line of t ends: at a CR or an LF, or at the end of the text. */
  function LineEnd(t: string): (n: nat)
    ensures n <= |t| && (n < |t| ==> IsEnd(t[n])) && forall i | 0 <= i < n :: !IsEnd(t[i])
  {
    if t == "" || IsEnd(t[0]) then 0 else 1 + LineEnd(t[1..])
  }

  /** The declarative reading of a text: line by line, each terminator ending a line of its own, up
      to the first bad line. What follows the last terminator is only checked. */
  ghost function Read(t: string, file: string, line: nat): Reading
    decreases |t|
  {
    var n := LineEnd(t);
    var s := t[..n];
    if n == |t| then Reading([], if GoodTail(s) then Done else SyntaxError(line))
    else if !GoodLine(s) then Reading([], SyntaxError(line))
    else After(Saved(Words(s), file, line), Read(t[n + 1..], file, line + 1))
  }

  // ------------------------------------------------------------ one pass

  /** Where the loop stands: `word` is the text since begin, empty when begin is NULL; `words` holds
      the name and the arguments so far. */
  datatype Pass = Pass(comment: bool, word: string, words: seq<string>, line: nat)

  datatype Step = Stop(outcome: Outcome) | Go(saved: seq<Directive>, next: Pass)

  /** What the loop body does with one character. */
  function Take(c: char, p: Pass, file: string): Step {
    var words := if p.word == "" then p.words else p.words + [p.word];
    if IsBlank(c) then
      if |words| > MAX_TAKES then Stop(SyntaxError(p.line)) else Go([], p.(word := "", words := words))
    else if IsEnd(c) then
      if |words| > MAX_TAKES then Stop(SyntaxError(p.line))
      else Go(Saved(words, file, p.line), Pass(false, "", [], p.line + 1))
    else if c == '#' then
      if p.word != "" then Stop(SyntaxError(p.line)) else Go([], p.(comment := true))
    else if !IsAscii(c) then Stop(SyntaxError(p.line))
    else if p.word == "" && p.comment then Go([], p)
    else Go([], p.(word := p.word + [c]))
  }

  /** What the loop makes of the rest of the text. */
  function Scan(t: string, p: Pass, file: string): Reading {
    if t == "" then Reading([], Done)
    else
      match Take(t[0], p, file)
      case Stop(o) => Reading([], o)
      case Go(saved, next) => After(saved, Scan(t[1..], next, file))
  }

  const START := Pass(false, "", [], 1)

  /** One more character of the pass. */
  lemma ScanStep(t: string, i: nat, p: Pass, file: string, before: seq<Directive>)
    requires i <= |t|
    ensures After(before, Scan(t[i..], p, file)) ==
            if i == |t| then Reading(before, Done)
            else match Take(t[i], p, file)
                 case Stop(o) => Reading(before, o)
                 case Go(saved, next) => After(before + saved, Scan(t[i + 1..], next, file))
  {
    assert before + [] == before;
    if i < |t| {
      assert t[i..][0] == t[i] && t[i..][1..] == t[i + 1..];
      if Take(t[i], p, file).Go? {
        var next := Take(t[i], p, file);
        var ds := Scan(t[i + 1..], next.next, file).directives;
        assert before + (next.saved + ds) == (before + next.saved) + ds;
      }
    }
  }

  /** A word that has grown up to i, in the buffer and in its text. */
  lemma Slices(buf: string, t: string, begin: nat, i: nat)
    requires |t| < |buf| && t == buf[..|t|] && begin <= i <= |t|
    ensures buf[begin..i] == t[begin..i]
    ensures i < |t| ==> t[begin..i + 1] == t[begin..i] + [buf[i]]
    ensures begin == i ==> t[begin..i] == ""
  {
    assert forall k | begin <= k < i :: buf[k] == t[k];
  }

  /** The name, once there is one, and the arguments after it. */
  function NameAndArgs(inDirective: bool, name: string, args: seq<string>): seq<string> {
    if inDirective then [name] + args else []
  }

  /** The loop's variables at i are the pass p: where a word began, the comment flag, the words so far. */
  ghost predicate Matches(p: Pass, t: string, i: nat, begin: int, comment: bool, words: seq<string>, line: nat) {
    && -1 <= begin < i <= |t| && (comment ==> begin == -1)
    && p == Pass(comment, if begin == -1 then "" else t[begin..i], words, line)
  }

  /** What one character does to them: a word may be found, a line may end, a word or a comment may
      begin. */
  lemma OneCharacter(p: Pass, t: string, i: nat, begin: int, comment: bool, words: seq<string>, line: nat, file: string)
    requires Matches(p, t, i, begin, comment, words, line) && i < |t| && t[i] != '\0'
    ensures var c := t[i];
            var found := begin != -1 && (IsBlank(c) || IsEnd(c));
            var bad := if c == '#' then begin != -1 else !IsAscii(c);
            var words' := if found then words + [t[begin..i]] else words;
            match Take(c, p, file)
            case Stop(o) => o == SyntaxError(line) && (bad || |words'| > MAX_TAKES)
            case Go(saved, next) =>
              && !bad && (found || IsEnd(c) ==> |words'| <= MAX_TAKES)
              && saved == (if IsEnd(c) then Saved(words', file, line) else [])
              && Matches(next, t, i + 1,
                         if found then -1 else if IsWordChar(c) && begin == -1 && !comment then i else begin,
                         !IsEnd(c) && (c == '#' || comment),
                         if IsEnd(c) then [] else words', if IsEnd(c) then line + 1 else line)
  {
    if begin != -1 {
      assert t[begin..i + 1] == t[begin..i] + [t[i]];
    }
  }

  /** A directive as it is stored: its arguments are in memory of its own. */
  datatype Stored = Stored(name: string, argv: array<string>, file: string, line: nat)

  ghost predicate Holds(s: Stored, d: Directive)
    reads s.argv
  {
    s.name == d.name && s.argv[..] == d.argv && s.file == d.file && s.line == d.line
  }

  class Config {
    /** conf_list, and what its directives say. */
    var stored: seq<Stored>
    ghost var list: seq<Directive>

    /** The names of the files in conf_files. */
    var files: seq<string>

    /** No two directives share an argument vector. */
    ghost predicate Valid()
      reads `stored, `list, set s | s in stored :: s.argv
    {
      && |stored| == |list|
      && (forall i | 0 <= i < |stored| :: Holds(stored[i], list[i]))
      && (forall i, j | 0 <= i < j < |stored| :: stored[i].argv != stored[j].argv)
    }

    /** And none of them is the vector argv. */
    ghost predicate Apart(argv: array<string>)
      reads `stored
    {
      forall i | 0 <= i < |stored| :: stored[i].argv != argv
    }

    /** Directives have only been added, each with a vector that was not there before. */
    twostate predicate Grown()
      reads `stored
    {
      && |old(stored)| <= |stored| && stored[..|old(stored)|] == old(stored)
      && forall i | |old(stored)| <= i < |stored| :: fresh(stored[i].argv)
    }

    constructor ()
      ensures Valid() && list == [] && stored == [] && files == []
    {
      stored, list, files := [], [], [];
    }

    /** The directive at pos, as the handlers get it. */
    method Fetch(pos: nat) returns (d: Directive)
      requires Valid() && pos < |stored|
      ensures d == list[pos]
    {
      var s := stored[pos];
      assert Holds(s, list[pos]);
      d := Directive(s.name, s.argv[..], s.file, s.line);
    }

    /** fpx_config_save_directive: the argument vector is copied, since the caller goes on to use it for
        the next line. */
    method SaveDirective(name: string, argc: nat, argv: array<string>, file: string, line: nat)
      requires Valid() && Apart(argv) && argc <= argv.Length
      modifies `stored, `list
      ensures Valid() && Apart(argv) && Grown()
      ensures list == old(list) + [Directive(name, argv[..argc], file, line)]
    {
      var own := new string[argc](i requires 0 <= i < argc reads argv => argv[i]);
      assert own[..] == argv[..argc];
      stored := stored + [Stored(name, own, file, line)];
      list := list + [Directive(name, own[..], file, line)];
    }

    /** The switch over the character: which flags it sets, where a word begins, and whether it is a
        syntax error. */
    method Look(c: char, i: nat, begin: int, comment: bool)
      returns (begin': int, comment': bool, endLine: bool, endFile: bool, found: bool, bad: bool)
      ensures endFile == (c == '\0') && endLine == (c == '\n' || c == '\r')
      ensures found == (begin != -1 && (c == '\t' || c == ' ' || endLine))
      ensures bad == if c == '#' then begin != -1 else c as int >= 0x80
      ensures !bad ==> comment' == (!endLine && (c == '#' || comment))
      ensures !bad ==> begin' == if c !in "\0\t \n\r#" && begin == -1 && !comment then i else begin
    {
      begin', comment' := begin, comment;
      endLine, endFile, found, bad := false, false, false, false;
      if c == '\0' {
        endFile := true;
      } else if IsBlank(c) {
        if begin != -1 {
          found := true;
        }
      } else if IsEnd(c) {
        endLine := true;
        comment' := false;
        if begin != -1 {
          found := true;
        }
      } else if c == '#' {
        if begin != -1 {
          bad := true;
          return;
        }
        comment' := true;
      } else {
        if !IsAscii(c) {
          bad := true;
          return;
        }
        if begin == -1 && !comment {
          begin' := i;
        }
      }
    }

    /** A line has ended: its directive is saved if it has one. */
    method EndLine(inDirective: bool, str: string, argc: nat, argv: array<string>, file: string, line: nat)
      requires Valid() && Apart(argv) && argc <= argv.Length
      modifies `stored, `list
      ensures Valid() && Apart(argv) && Grown()
      ensures list == old(list) + Saved(NameAndArgs(inDirective, str, argv[..argc]), file, line)
    {
      if inDirective {
        SaveDirective(str, argc, argv, file, line);
      }
    }

    /** A word has ended: it is the directive's name if there is none yet, and an argument otherwise. */
    method TakeWord(word: string, inDirective: bool, str: string, argv: array<string>, argc: nat)
      returns (str': string, argc': nat)
      requires Valid() && Apart(argv) && argc < argv.Length && (!inDirective ==> argc == 0)
      modifies argv
      ensures Valid() && argc' <= argv.Length
      ensures [str'] + argv[..argc'] == NameAndArgs(inDirective, str, old(argv[..argc])) + [word]
    {
      str', argc' := str, argc;
      if !inDirective {
        str' := word;
      } else {
        argv[argc] := word;
        argc' := argc + 1;
      }
    }

    /** What follows the switch: a finished word is taken, unless it is one too many, and a finished
        line is saved. */
    method Finish(found: bool, endLine: bool, word: string, inDirective: bool, str: string, argc: nat,
                  argv: array<string>, file: string, line: nat)
      returns (inDirective': bool, str': string, argc': nat, line': nat, full: bool)
      requires argv.Length == MAX_TAKES && argc < MAX_TAKES && (!inDirective ==> argc == 0)
      requires Valid() && Apart(argv)
      modifies `stored, `list, argv
      ensures Valid() && Apart(argv) && Grown()
      ensures var words0 := NameAndArgs(inDirective, str, old(argv[..argc]));
              var words := if found then words0 + [word] else words0;
              && full == (|words| > MAX_TAKES)
              && (full ==> list == old(list) && line' == line)
              && (!full ==>
                    && argc' < MAX_TAKES && (!inDirective' ==> argc' == 0)
                    && list == old(list) + (if endLine then Saved(words, file, line) else [])
                    && NameAndArgs(inDirective', str', argv[..argc']) == (if endLine then [] else words)
                    && line' == if endLine then line + 1 else line)
    {
      inDirective', str', argc', line', full := inDirective, str, argc, line, false;
      if found {
        str', argc' := TakeWord(word, inDirective, str, argv, argc);
        inDirective' := true;
        if argc' >= MAX_TAKES {
          full := true;
          return;
        }
      }
      if endLine {
        EndLine(inDirective', str', argc', argv, file, line);
        inDirective' := false;
        argc' := 0;
        line' := line + 1;
      }
    }

    /** One turn of the loop, for the character c at i; word is what has been read since begin. */
    method TakeCharacter(c: char, i: nat, word: string, begin: int, comment: bool, inDirective: bool, str: string,
                         argc: nat, argv: array<string>, file: string, line: nat, ghost p: Pass, ghost t: string)
      returns (begin': int, comment': bool, inDirective': bool, str': string, argc': nat, line': nat, stop: Option<Outcome>)
      requires Valid() && Apart(argv) && argv.Length == MAX_TAKES && argc < MAX_TAKES && (!inDirective ==> argc == 0)
      requires Matches(p, t, i, begin, comment, NameAndArgs(inDirective, str, argv[..argc]), line)
      requires c == (if i < |t| then t[i] else '\0') && '\0' !in t && (begin != -1 ==> word == t[begin..i])
      modifies `stored, `list, argv
      ensures Valid() && Apart(argv) && Grown()
      ensures i == |t| ==> list == old(list) && stop == Some(Done)
      ensures i < |t| ==>
                match Take(c, p, file)
                case Stop(o) => list == old(list) && stop == Some(o)
                case Go(saved, next) =>
                  && list == old(list) + saved && stop == None
                  && argc' < MAX_TAKES && (!inDirective' ==> argc' == 0)
                  && Matches(next, t, i + 1, begin', comment', NameAndArgs(inDirective', str', argv[..argc']), line')
    {
      inDirective', str', argc', line', stop := inDirective, str, argc, line, None;
      if i < |t| {
        OneCharacter(p, t, i, begin, comment, p.words, line, file);
      }
      var endLine, endFile, found, bad;
      begin', comment', endLine, endFile, found, bad := Look(c, i, begin, comment);
      if bad {
        stop := Some(SyntaxError(line));
        return;
      }
      var full;
      inDirective', str', argc', line', full := Finish(found, endLine, word, inDirective, str, argc, argv, file, line);
      if full {
        stop := Some(SyntaxError(line));
        return;
      }
      if found {
        begin' := -1;
      }
      if endFile {
        stop := Some(Done);
      }
    }

    /** fpx_config_parse: one vector serves for all lines of the file, and still what was stored before
        stays as it was, and every new directive keeps the arguments of its own line. */
    method Parse(buf: string, file: string) returns (r: Outcome)
      requires Valid() && '\0' in buf
      modifies `stored, `list
      ensures Valid() && Grown()
      ensures forall s | s in old(stored) :: s.argv[..] == old(s.argv[..])
      ensures Reading(list, r) == After(old(list), Scan(Text(buf), START, file))
    {
      r := Loop(buf, file, Text(buf));
    }

    method Loop(buf: string, file: string, ghost t: string) returns (r: Outcome)
      requires |t| < |buf| && t == buf[..|t|] && buf[|t|] == '\0' && '\0' !in t
      requires Valid()
      modifies `stored, `list
      ensures Valid() && Grown()
      ensures Reading(list, r) == After(old(list), Scan(t, START, file))
    {
      var begin, comment, inDirective, str, argc: nat, line: nat := -1, false, false, "", 0, 1;
      var argv := new string[MAX_TAKES](_ => "");
      var i := 0;
      ghost var goal, pass := After(list, Scan(t, START, file)), START;
      assert t[0..] == t;
      while true
        invariant i <= |t| && argc < MAX_TAKES && (!inDirective ==> argc == 0) && fresh(argv)
        invariant Valid() && Apart(argv) && Grown()
        invariant Matches(pass, t, i, begin, comment, NameAndArgs(inDirective, str, argv[..argc]), line)
        invariant After(list, Scan(t[i..], pass, file)) == goal
        decreases |t| - i
      {
        ghost var was := list;
        Slices(buf, t, if begin == -1 then i else begin, i);
        var word := buf[if begin == -1 then i else begin..i];
        var stop;
        begin, comment, inDirective, str, argc, line, stop :=
          TakeCharacter(buf[i], i, word, begin, comment, inDirective, str, argc, argv, file, line, pass, t);
        ScanStep(t, i, pass, file, was);
        if stop.Some? {
          return stop.value;
        }
        i, pass := i + 1, Take(t[i], pass, file).next;
      }
    }
  }
}

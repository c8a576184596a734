/** The one-pass tokeniser reads what the text says line by line, and undoes printing. */
module TokeniserTheorems {
  import opened Tokeniser

  /** Characters of one word. */
  ghost predicate Wordy(w: string) {
    forall i | 0 <= i < |w| :: w[i] != '\t' && w[i] != ' ' && w[i] != '\n' && w[i] != '\r' && w[i] != '#'
  }

  ghost predicate NoEnd(s: string) {
    forall i | 0 <= i < |s| :: !IsEnd(s[i])
  }

  // ------------------------------------------------------------ splitting

  lemma WordLengthIs(s: string, n: nat)
    requires n <= |s| && (forall i | 0 <= i < n :: !IsBlank(s[i])) && (n < |s| ==> IsBlank(s[n]))
    ensures WordLength(s) == n
  {
  }

  lemma CommentStartIs(s: string, k: nat)
    requires k <= |s| && (forall i | 0 <= i < k :: s[i] != '#') && (k < |s| ==> s[k] == '#')
    ensures CommentStart(s) == k
  {
  }

  lemma NoCommentBefore(s: string)
    ensures forall i | 0 <= i < CommentStart(s) :: s[i] != '#'
  {
  }

  function Lone(w: string): seq<string> {
    if w == "" then [] else [w]
  }

  lemma SplitWord(w: string)
    requires Wordy(w)
    ensures Split(w) == Lone(w) && CommentStart(w) == |w| && Words(w) == Lone(w)
  {
    CommentStartIs(w, |w|);
    assert w[..|w|] == w;
    if w != "" {
      WordLengthIs(w, |w|);
      assert w[|w|..] == "";
    }
  }

  lemma SplitAfterWord(w: string, c: char, s: string)
    requires Wordy(w) && IsBlank(c)
    ensures Split(w + [c] + s) == Lone(w) + Split(s)
  {
    var x := w + [c] + s;
    if w == "" {
      assert x[0] == c && x[1..] == s;
    } else {
      WordLengthIs(x, |w|);
      assert x[..|w|] == w && x[|w|..] == [c] + s && ([c] + s)[1..] == s;
    }
  }

  lemma {:induction false} TrimAfter(w: string, c: char, s: string)
    requires IsBlank(c)
    ensures Trim(w + [c] + s) == w + [c] + Trim(s)
    decreases |s|
  {
    var x := w + [c] + s;
    if s != "" && !IsBlank(s[|s| - 1]) {
      assert x[..|x| - 1] == w + [c] + s[..|s| - 1];
      TrimAfter(w, c, s[..|s| - 1]);
    }
  }

  lemma {:induction false} TrimWord(w: string)
    requires Wordy(w)
    ensures Trim(w) == ""
  {
    if w != "" {
      TrimWord(w[..|w| - 1]);
    }
  }

  lemma LinePrefix(w: string, c: char, s: string, k: nat)
    requires k <= |s|
    ensures (w + [c] + s)[..|w| + 1 + k] == w + [c] + s[..k]
  {
  }

  lemma CommentAfter(w: string, c: char, s: string)
    requires Wordy(w) && IsBlank(c)
    ensures CommentStart(w + [c] + s) == |w| + 1 + CommentStart(s)
    ensures Glued(w + [c] + s) == Glued(s)
  {
    var x, k := w + [c] + s, CommentStart(s);
    NoCommentBefore(s);
    assert forall i | 0 <= i < |w| :: x[i] == w[i];
    assert x[|w|] == c;
    assert forall i | |w| < i < |x| :: x[i] == s[i - |w| - 1];
    CommentStartIs(x, |w| + 1 + k);
  }

  /** A blank closes the word before it, and the rest is read on its own. */
  lemma BlankCloses(w: string, c: char, s: string)
    requires Wordy(w) && IsBlank(c)
    ensures Words(w + [c] + s) == Lone(w) + Words(s)
    ensures ClosedWords(w + [c] + s) == Lone(w) + ClosedWords(s)
    ensures Glued(w + [c] + s) == Glued(s)
  {
    CommentAfter(w, c, s);
    WordsAfter(w, c, s);
    TrimAfter(w, c, s);
    SplitAfterWord(w, c, Trim(s));
  }

  lemma WordsAfter(w: string, c: char, s: string)
    requires Wordy(w) && IsBlank(c)
    ensures Words(w + [c] + s) == Lone(w) + Words(s)
  {
    CommentAfter(w, c, s);
    LinePrefix(w, c, s, CommentStart(s));
    SplitAfterWord(w, c, s[..CommentStart(s)]);
  }

  // ------------------------------------------------------------ one line

  ghost function Verdict(good: bool, full: seq<string>, closed: seq<string>, r: string, file: string, line: nat): Reading {
    if r == "" then
      Reading([], if good && |closed| <= MAX_TAKES then Done else SyntaxError(line))
    else if good && |full| <= MAX_TAKES then
      After(Saved(full, file, line), Scan(r[1..], Pass(false, "", [], line + 1), file))
    else
      Reading([], SyntaxError(line))
  }

  /** What a line x, followed by r, comes to when the words ws have been read before it. */
  ghost function LineResult(x: string, ws: seq<string>, r: string, file: string, line: nat): Reading {
    Verdict(Ascii(x) && !Glued(x), ws + Words(x), ws + ClosedWords(x), r, file, line)
  }

  lemma Cons(s: string, r: string)
    requires s != ""
    ensures (s + r)[0] == s[0] && (s + r)[1..] == s[1..] + r
  {
  }

  lemma {:induction false} CommentScan(s: string, r: string, ws: seq<string>, file: string, line: nat)
    requires NoEnd(s) && (r != "" ==> IsEnd(r[0])) && |ws| <= MAX_TAKES
    ensures Scan(s + r, Pass(true, "", ws, line), file) ==
            if !Ascii(s) then Reading([], SyntaxError(line))
            else if r == "" then Reading([], Done)
            else After(Saved(ws, file, line), Scan(r[1..], Pass(false, "", [], line + 1), file))
    decreases |s|
  {
    if s == "" {
      assert s + r == r;
    } else {
      Cons(s, r);
      CommentScan(s[1..], r, ws, file, line);
      assert Ascii(s) <==> IsAscii(s[0]) && Ascii(s[1..]);
    }
  }

  lemma AsciiCons(w: string, c: char, s: string)
    requires Ascii(w)
    ensures Ascii(w + [c] + s) <==> IsAscii(c) && Ascii(s)
  {
    var x := w + [c] + s;
    assert x[|w|] == c;
    assert forall i | 0 <= i < |s| :: x[|w| + 1 + i] == s[i];
  }

  lemma CommentLine(s: string, r: string, w: string, ws: seq<string>, file: string, line: nat)
    requires NoEnd(s) && (r != "" ==> IsEnd(r[0])) && Wordy(w) && Ascii(w) && |ws| <= MAX_TAKES
    ensures LineResult(w + ['#'] + s, ws, r, file, line) ==
            if w != "" then Reading([], SyntaxError(line)) else Scan(s + r, Pass(true, "", ws, line), file)
  {
    var x := w + ['#'] + s;
    CommentStartIs(x, |w|);
    assert x[..|w|] == w;
    if w == "" {
      assert x == "" + ['#'] + s;
      AsciiCons("", '#', s);
      CommentScan(s, r, ws, file, line);
      assert Words(x) == [] && ws + [] == ws;
    }
  }

  lemma WordGrows(w: string, c: char)
    requires Wordy(w) && Ascii(w) && IsAscii(c) && !IsBlank(c) && !IsEnd(c) && c != '#'
    ensures Wordy(w + [c]) && Ascii(w + [c])
  {
  }

  lemma {:induction false} LineScan(s: string, r: string, w: string, ws: seq<string>, file: string, line: nat)
    requires NoEnd(s) && (r != "" ==> IsEnd(r[0])) && Wordy(w) && Ascii(w) && |ws| <= MAX_TAKES
    ensures Scan(s + r, Pass(false, w, ws, line), file) == LineResult(w + s, ws, r, file, line)
    decreases |s|, 0
  {
    if s == "" {
      assert s + r == r && w + s == w;
      SplitWord(w);
      TrimWord(w);
      assert ws + [] == ws;
    } else {
      Cons(s, r);
      var c, s' := s[0], s[1..];
      assert w + s == w + [c] + s';
      AsciiCons(w, c, s');
      if IsBlank(c) {
        BlankScan(s', r, w, c, ws, file, line);
      } else if c == '#' {
        CommentLine(s', r, w, ws, file, line);
      } else if IsAscii(c) {
        WordGrows(w, c);
        LineScan(s', r, w + [c], ws, file, line);
      }
    }
  }

  lemma Regroup(a: seq<string>, b: seq<string>, c: seq<string>)
    ensures a + (b + c) == a + b + c
  {
  }

  /** What a blank after the word w leaves of the line. */
  lemma BlankLine(s: string, r: string, w: string, c: char, ws: seq<string>, file: string, line: nat)
    requires Wordy(w) && Ascii(w) && IsBlank(c)
    ensures LineResult(w + [c] + s, ws, r, file, line) == LineResult(s, ws + Lone(w), r, file, line)
  {
    BlankCloses(w, c, s);
    AsciiCons(w, c, s);
    Regroup(ws, Lone(w), Words(s));
    Regroup(ws, Lone(w), ClosedWords(s));
  }

  lemma TooMany(x: string, ws: seq<string>, r: string, file: string, line: nat)
    requires |ws| > MAX_TAKES
    ensures LineResult(x, ws, r, file, line) == Reading([], SyntaxError(line))
  {
  }

  lemma {:induction false} BlankScan(s: string, r: string, w: string, c: char, ws: seq<string>, file: string, line: nat)
    requires NoEnd(s) && (r != "" ==> IsEnd(r[0])) && Wordy(w) && Ascii(w) && |ws| <= MAX_TAKES && IsBlank(c)
    ensures Take(c, Pass(false, w, ws, line), file) ==
            if |ws + Lone(w)| > MAX_TAKES then Stop(SyntaxError(line)) else Go([], Pass(false, "", ws + Lone(w), line))
    ensures |ws + Lone(w)| <= MAX_TAKES ==>
            Scan(s + r, Pass(false, "", ws + Lone(w), line), file) == LineResult(w + [c] + s, ws, r, file, line)
    ensures |ws + Lone(w)| > MAX_TAKES ==> LineResult(w + [c] + s, ws, r, file, line) == Reading([], SyntaxError(line))
    decreases |s|, 1
  {
    assert ws + [] == ws;
    BlankLine(s, r, w, c, ws, file, line);
    if |ws + Lone(w)| <= MAX_TAKES {
      LineScan(s, r, "", ws + Lone(w), file, line);
      assert "" + s == s;
    } else {
      TooMany(s, ws + Lone(w), r, file, line);
    }
  }

  lemma FreshLine(s: string, r: string, file: string, line: nat)
    requires NoEnd(s) && (r != "" ==> IsEnd(r[0]))
    ensures Scan(s + r, Pass(false, "", [], line), file) ==
            Verdict(Ascii(s) && !Glued(s), Words(s), ClosedWords(s), r, file, line)
  {
    LineScan(s, r, "", [], file, line);
    assert "" + s == s && [] + Words(s) == Words(s) && [] + ClosedWords(s) == ClosedWords(s);
  }

  /** The pass over the characters reads what the lines say. */
  lemma {:induction false} ScanIsRead(t: string, file: string, line: nat)
    ensures Scan(t, Pass(false, "", [], line), file) == Read(t, file, line)
    decreases |t|
  {
    var n := LineEnd(t);
    var s, r := t[..n], t[n..];
    assert t == s + r;
    FreshLine(s, r, file, line);
    if n < |t| {
      assert r[1..] == t[n + 1..];
      ScanIsRead(t[n + 1..], file, line + 1);
    }
  }

  /** The one-pass tokeniser is the declarative reading, on every text. */
  lemma OnePass(t: string, file: string)
    ensures Scan(t, START, file) == Read(t, file, 1)
  {
    ScanIsRead(t, file, 1);
  }

  // ------------------------------------------------------------ errors

  /** The first k lines of a text. */
  function FirstLines(t: string, k: nat): string {
    if k == 0 then ""
    else
      var n := LineEnd(t);
      if n == |t| then t else t[..n + 1] + FirstLines(t[n + 1..], k - 1)
  }

  lemma LineEndIs(t: string, n: nat)
    requires n <= |t| && (n < |t| ==> IsEnd(t[n])) && forall i | 0 <= i < n :: !IsEnd(t[i])
    ensures LineEnd(t) == n
  {
  }

  lemma ReadLine(s: string, c: char, rest: string, file: string, line: nat)
    requires NoEnd(s) && IsEnd(c) && GoodLine(s)
    ensures Read(s + [c] + rest, file, line) == After(Saved(Words(s), file, line), Read(rest, file, line + 1))
  {
    var t := s + [c] + rest;
    LineEndIs(t, |s|);
    assert t[..|s|] == s && t[|s| + 1..] == rest;
  }

  /** The reading with the judgement of single lines left open. */
  ghost function ReadWith(good: string -> bool, tail: string -> bool, words: string -> seq<string>,
                          t: string, file: string, line: nat): Reading
    decreases |t|
  {
    var n := LineEnd(t);
    var s := t[..n];
    if n == |t| then Reading([], if tail(s) then Done else SyntaxError(line))
    else if !good(s) then Reading([], SyntaxError(line))
    else After(Saved(words(s), file, line), ReadWith(good, tail, words, t[n + 1..], file, line + 1))
  }

  lemma {:induction false} ReadIsWith(t: string, file: string, line: nat)
    ensures Read(t, file, line) == ReadWith(GoodLine, GoodTail, Words, t, file, line)
    decreases |t|
  {
    if LineEnd(t) < |t| {
      ReadIsWith(t[LineEnd(t) + 1..], file, line + 1);
    }
  }

  lemma FirstLine(t: string, k: nat)
    requires LineEnd(t) < |t|
    ensures var n, u := LineEnd(t), FirstLines(t, k + 1);
            n < |u| && LineEnd(u) == n && u[..n] == t[..n] && u[n + 1..] == FirstLines(t[n + 1..], k)
  {
    var n, rest := LineEnd(t), FirstLines(t[LineEnd(t) + 1..], k);
    var u := t[..n + 1] + rest;
    assert FirstLines(t, k + 1) == u;
    assert forall i | 0 <= i <= n :: u[i] == t[i];
    LineEndIs(u, n);
  }

  /** A good first line is read, and then the rest. */
  lemma ReadWithNext(good: string -> bool, tail: string -> bool, words: string -> seq<string>,
                     t: string, file: string, line: nat)
    requires LineEnd(t) < |t| && good(t[..LineEnd(t)])
    ensures ReadWith(good, tail, words, t, file, line) ==
            After(Saved(words(t[..LineEnd(t)]), file, line),
                  ReadWith(good, tail, words, t[LineEnd(t) + 1..], file, line + 1))
  {
  }

  lemma ReadWithNone(good: string -> bool, tail: string -> bool, words: string -> seq<string>, file: string, line: nat)
    requires tail("")
    ensures ReadWith(good, tail, words, "", file, line) == Reading([], Done)
  {
    assert LineEnd("") == 0 && ""[..0] == "";
  }

  /** Reading t stops at an error in line k, counted from 0, after the directives of the lines before. */
  ghost predicate StopsAt(good: string -> bool, tail: string -> bool, words: string -> seq<string>,
                          t: string, file: string, line: nat, k: nat) {
    var r := ReadWith(good, tail, words, t, file, line);
    && r.outcome == SyntaxError(line + k)
    && ReadWith(good, tail, words, FirstLines(t, k), file, line) == Reading(r.directives, Done)
  }

  lemma StopsHere(good: string -> bool, tail: string -> bool, words: string -> seq<string>,
                  t: string, file: string, line: nat)
    requires ReadWith(good, tail, words, t, file, line).outcome.SyntaxError? && tail("")
    requires LineEnd(t) == |t| || !good(t[..LineEnd(t)])
    ensures StopsAt(good, tail, words, t, file, line, 0)
  {
    ReadWithNone(good, tail, words, file, line);
    assert FirstLines(t, 0) == "";
  }

  lemma StopsLater(good: string -> bool, tail: string -> bool, words: string -> seq<string>,
                   t: string, file: string, line: nat, k: nat)
    requires LineEnd(t) < |t| && good(t[..LineEnd(t)])
    requires StopsAt(good, tail, words, t[LineEnd(t) + 1..], file, line + 1, k)
    ensures StopsAt(good, tail, words, t, file, line, k + 1)
  {
    FirstLine(t, k);
    ReadWithNext(good, tail, words, t, file, line);
    ReadWithNext(good, tail, words, FirstLines(t, k + 1), file, line);
  }

  lemma {:induction false} ErrorKeeps(good: string -> bool, tail: string -> bool, words: string -> seq<string>,
                                      t: string, file: string, line: nat) returns (k: nat)
    requires ReadWith(good, tail, words, t, file, line).outcome.SyntaxError? && tail("")
    ensures StopsAt(good, tail, words, t, file, line, k)
    decreases |t|
  {
    var n := LineEnd(t);
    if n == |t| || !good(t[..n]) {
      k := 0;
      StopsHere(good, tail, words, t, file, line);
    } else {
      ReadWithNext(good, tail, words, t, file, line);
      k := ErrorKeeps(good, tail, words, t[n + 1..], file, line + 1);
      StopsLater(good, tail, words, t, file, line, k);
      k := k + 1;
    }
  }

  /** On a syntax error exactly the directives of the lines before it have been added: the reading
      of those lines alone goes through and yields the same directives. */
  lemma ErrorKeepsEarlierLines(t: string, file: string, line: nat) returns (k: nat)
    requires Read(t, file, line).outcome.SyntaxError?
    ensures Read(t, file, line).outcome == SyntaxError(line + k)
    ensures Read(FirstLines(t, k), file, line) == Reading(Read(t, file, line).directives, Done)
  {
    SplitWord("");
    ReadIsWith(t, file, line);
    k := ErrorKeeps(GoodLine, GoodTail, Words, t, file, line);
    ReadIsWith(FirstLines(t, k), file, line);
  }

  lemma EmptyIsGood(file: string, line: nat)
    ensures Read("", file, line) == Reading([], Done)
  {
  }

  // ------------------------------------------------------------ printing

  /** A word that can be written down: something, all of it ASCII, with no blank, end of line or #. */
  ghost predicate Clean(w: string) {
    w != "" && Wordy(w) && forall i | 0 <= i < |w| :: w[i] as int <= 0x7f
  }

  ghost predicate Printable(d: Directive) {
    && Clean(d.name) && (forall i | 0 <= i < |d.argv| :: Clean(d.argv[i]))
    && |d.argv| <= 7
  }

  /** Words separated by single spaces. */
  function Join(ws: seq<string>): string {
    if ws == [] then "" else if |ws| == 1 then ws[0] else ws[0] + [' '] + Join(ws[1..])
  }

  function PrintLine(d: Directive): string {
    Join([d.name] + d.argv)
  }

  function Print(ds: seq<Directive>): string {
    if ds == [] then "" else PrintLine(ds[0]) + "\n" + Print(ds[1..])
  }

  /** The same directives, in this file and on consecutive lines. */
  function Numbered(ds: seq<Directive>, file: string, line: nat): seq<Directive> {
    if ds == [] then [] else [ds[0].(file := file, line := line)] + Numbered(ds[1..], file, line + 1)
  }

  ghost predicate AllClean(ws: seq<string>) {
    forall i | 0 <= i < |ws| :: Clean(ws[i])
  }

  lemma {:induction false} SplitJoin(ws: seq<string>)
    requires AllClean(ws)
    ensures Words(Join(ws)) == ws && !Glued(Join(ws)) && Ascii(Join(ws)) && NoEnd(Join(ws))
  {
    if |ws| <= 1 {
      SplitWord(Join(ws));
    } else {
      var rest := Join(ws[1..]);
      SplitJoin(ws[1..]);
      BlankCloses(ws[0], ' ', rest);
      AsciiCons(ws[0], ' ', rest);
      assert [ws[0]] + ws[1..] == ws;
    }
  }

  /** Reading what was printed gives the same directives, on consecutive lines. */
  lemma {:induction false} ReadPrint(ds: seq<Directive>, file: string, line: nat)
    requires forall i | 0 <= i < |ds| :: Printable(ds[i])
    ensures Read(Print(ds), file, line) == Reading(Numbered(ds, file, line), Done)
  {
    if ds == [] {
      EmptyIsGood(file, line);
    } else {
      var words := [ds[0].name] + ds[0].argv;
      var s, rest := PrintLine(ds[0]), Print(ds[1..]);
      SplitJoin(words);
      ReadPrint(ds[1..], file, line + 1);
      ReadLine(s, '\n', rest, file, line);
      assert words[0] == ds[0].name && words[1..] == ds[0].argv;
    }
  }

  // ------------------------------------------------------------ what is read can be printed

  lemma {:induction false} SplitIsClean(s: string)
    requires Ascii(s) && NoEnd(s) && forall i | 0 <= i < |s| :: s[i] != '#'
    ensures AllClean(Split(s))
    decreases |s|
  {
    if s != "" {
      if IsBlank(s[0]) {
        SplitIsClean(s[1..]);
      } else {
        SplitIsClean(s[WordLength(s)..]);
      }
    }
  }

  /** Every directive the tokeniser adds can be printed. */
  lemma {:induction false} ReadIsPrintable(t: string, file: string, line: nat)
    ensures forall i | 0 <= i < |Read(t, file, line).directives| :: Printable(Read(t, file, line).directives[i])
    decreases |t|
  {
    var n := LineEnd(t);
    var s := t[..n];
    if n < |t| && GoodLine(s) {
      ReadIsPrintable(t[n + 1..], file, line + 1);
      NoCommentBefore(s);
      SplitIsClean(s[..CommentStart(s)]);
    }
  }

  /** So printing what was read and reading it again changes nothing but the line numbers. */
  lemma ReadPrintRead(t: string, file: string)
    ensures var ds := Read(t, file, 1).directives;
            Read(Print(ds), file, 1) == Reading(Numbered(ds, file, 1), Done)
  {
    ReadIsPrintable(t, file, 1);
    ReadPrint(Read(t, file, 1).directives, file, 1);
  }
}

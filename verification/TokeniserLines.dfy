/** What a configuration says, by the characters themselves: how its lines are laid out, which directive
    each of them gives, and at which line a text that is laid out in no such way is refused. */
module TokeniserLines {
  import opened Basics
  import opened Tokeniser
  import opened TokeniserTheorems

  /** Blanks are tabs and spaces. */
  ghost predicate Gap(s: string) {
    forall i | 0 <= i < |s| :: s[i] == '\t' || s[i] == ' '
  }

  ghost predicate Word(w: string) {
    w != "" && forall i | 0 <= i < |w| ::
      w[i] as int < 0x80 && w[i] != '\0' && w[i] != '\t' && w[i] != ' ' && w[i] != '\n' && w[i] != '\r' && w[i] != '#'
  }

  /** What may stand in a comment. */
  ghost predicate Remark(s: string) {
    forall i | 0 <= i < |s| :: s[i] as int < 0x80 && s[i] != '\0' && s[i] != '\n' && s[i] != '\r'
  }

  /** A word and the blanks before it. */
  datatype Chunk = Chunk(gap: string, word: string)

  /** A line without its end: words, blanks behind them, and perhaps a comment. */
  datatype Body = Body(chunks: seq<Chunk>, trail: string, comment: Option<string>)

  datatype Line = Line(body: Body, end: char)

  function Tail(b: Body): string {
    b.trail + match b.comment case None => "" case Some(text) => "#" + text
  }

  function Layout(b: Body): string
    decreases |b.chunks|
  {
    if b.chunks == [] then Tail(b)
    else b.chunks[0].gap + (b.chunks[0].word + Layout(b.(chunks := b.chunks[1..])))
  }

  /** Blanks separate the words from each other and from the comment. */
  ghost predicate WellLaid(b: Body) {
    && (forall i | 0 <= i < |b.chunks| :: Gap(b.chunks[i].gap) && Word(b.chunks[i].word))
    && (forall i | 0 < i < |b.chunks| :: b.chunks[i].gap != "")
    && Gap(b.trail)
    && (b.comment.Some? ==> Remark(b.comment.value) && (b.chunks != [] ==> b.trail != ""))
  }

  /** A name and seven arguments at most. */
  ghost predicate WellLaidLine(l: Line) {
    WellLaid(l.body) && |l.body.chunks| <= 8 && (l.end == '\n' || l.end == '\r')
  }

  function Text(lines: seq<Line>): string {
    if lines == [] then "" else Layout(lines[0].body) + [lines[0].end] + Text(lines[1..])
  }

  function WordsOf(b: Body): (ws: seq<string>)
    ensures |ws| == |b.chunks|
  {
    seq(|b.chunks|, i requires 0 <= i < |b.chunks| => b.chunks[i].word)
  }

  /** A line with words gives a directive: the first word with the others as arguments. */
  function Given(lines: seq<Line>, file: string, line: nat): seq<Directive> {
    if lines == [] then []
    else
      var ws := WordsOf(lines[0].body);
      (if ws == [] then [] else [Directive(ws[0], ws[1..], file, line)]) + Given(lines[1..], file, line + 1)
  }

  // ------------------------------------------------------------ the words of a line

  /** What the tokeniser sees in a line without its end. */
  ghost predicate Shows(s: string, full: seq<string>, closed: seq<string>) {
    Words(s) == full && ClosedWords(s) == closed && !Glued(s) && Ascii(s) && NoEnd(s)
  }

  lemma AfterBlank(c: char, s: string, full: seq<string>, closed: seq<string>)
    requires (c == '\t' || c == ' ') && Shows(s, full, closed)
    ensures Shows([c] + s, full, closed)
  {
    assert "" + [c] + s == [c] + s;
    BlankCloses("", c, s);
    AsciiCons("", c, s);
    assert Lone("") + full == full && Lone("") + closed == closed;
  }

  lemma {:induction false} AfterGap(g: string, s: string, full: seq<string>, closed: seq<string>)
    requires Gap(g) && Shows(s, full, closed)
    ensures Shows(g + s, full, closed)
  {
    if g == "" {
      assert g + s == s;
    } else {
      AfterGap(g[1..], s, full, closed);
      AfterBlank(g[0], g[1..] + s, full, closed);
      assert g + s == [g[0]] + (g[1..] + s);
    }
  }

  lemma AfterWord(w: string, s: string, full: seq<string>, closed: seq<string>)
    requires Word(w) && Shows(s, full, closed) && s != "" && (s[0] == '\t' || s[0] == ' ')
    ensures Shows(w + s, [w] + full, [w] + closed)
  {
    var c, rest := s[0], s[1..];
    assert s == "" + [c] + rest && w + s == w + [c] + rest;
    BlankCloses("", c, rest);
    BlankCloses(w, c, rest);
    AsciiCons("", c, rest);
    AsciiCons(w, c, rest);
    assert Lone("") + Words(rest) == full && Lone("") + ClosedWords(rest) == closed;
  }

  lemma LastWord(w: string)
    requires Word(w)
    ensures Shows(w, [w], [])
  {
    SplitWord(w);
    TrimWord(w);
  }

  lemma OnlyComment(text: string)
    requires Remark(text)
    ensures Shows("#" + text, [], [])
  {
    var s := "#" + text;
    assert s[0] == '#' && s[..0] == "";
    assert forall i | 0 < i < |s| :: s[i] == text[i - 1];
  }

  /** The words of a line that something closes: all but one that reaches the end of the line. */
  function ClosedOf(b: Body): seq<string> {
    if b.chunks != [] && Tail(b) == "" then WordsOf(b)[..|b.chunks| - 1] else WordsOf(b)
  }

  lemma TailShows(b: Body)
    requires WellLaid(b) && b.chunks == []
    ensures Shows(Layout(b), [], [])
  {
    SplitWord("");
    match b.comment {
      case None => AfterGap(b.trail, "", [], []);
      case Some(text) =>
        OnlyComment(text);
        AfterGap(b.trail, "#" + text, [], []);
    }
  }

  lemma WordsFirst(b: Body, rest: Body)
    requires b.chunks != [] && rest == b.(chunks := b.chunks[1..])
    ensures WordsOf(b) == [b.chunks[0].word] + WordsOf(rest)
    ensures rest.chunks != [] || Tail(b) != "" ==> ClosedOf(b) == [b.chunks[0].word] + ClosedOf(rest)
    ensures rest.chunks == [] && Tail(b) == "" ==> ClosedOf(b) == []
  {
  }

  lemma StartsBlank(b: Body)
    requires WellLaid(b) && (if b.chunks != [] then b.chunks[0].gap != "" else b.trail != "")
    ensures Layout(b) != "" && (Layout(b)[0] == '\t' || Layout(b)[0] == ' ')
  {
  }

  lemma {:induction false} BodyShows(b: Body)
    requires WellLaid(b)
    ensures Shows(Layout(b), WordsOf(b), ClosedOf(b))
    decreases |b.chunks|
  {
    if b.chunks == [] {
      TailShows(b);
    } else {
      var first, rest := b.chunks[0], b.(chunks := b.chunks[1..]);
      BodyShows(rest);
      WordsFirst(b, rest);
      if rest.chunks == [] && Tail(b) == "" {
        LastWord(first.word);
        assert first.word + Layout(rest) == first.word;
      } else {
        StartsBlank(rest);
        AfterWord(first.word, Layout(rest), WordsOf(rest), ClosedOf(rest));
      }
      AfterGap(first.gap, first.word + Layout(rest), WordsOf(b), ClosedOf(b));
    }
  }

  // ------------------------------------------------------------ every good line is laid out

  /** A line without its end, as it may stand in a text. */
  ghost predicate Open(s: string) {
    forall i | 0 <= i < |s| :: s[i] != '\n' && s[i] != '\r' && s[i] != '\0'
  }

  lemma GluedAfter(w: string, s: string)
    requires Wordy(w) && s != "" && (s[0] == '\t' || s[0] == ' ')
    ensures Glued(w + s) == Glued(s) == Glued(s[1..])
  {
    assert s == "" + [s[0]] + s[1..] && w + s == w + [s[0]] + s[1..];
    CommentAfter(w, s[0], s[1..]);
    CommentAfter("", s[0], s[1..]);
  }

  lemma GluedWord(s: string)
    requires s != "" && s[0] != '#' && CommentStart(s) < WordLength(s)
    ensures Glued(s)
  {
  }

  /** The word a line starts with ends at a blank or with the line. */
  lemma FirstWord(s: string)
    requires s != "" && Ascii(s) && Open(s) && !Glued(s) && s[0] != '\t' && s[0] != ' ' && s[0] != '#'
    ensures var n := WordLength(s);
            0 < n <= |s| && Word(s[..n]) && (n < |s| ==> s[n] == '\t' || s[n] == ' ')
  {
    if CommentStart(s) < WordLength(s) {
      GluedWord(s);
    }
    NoCommentBefore(s);
  }

  /** One more blank in front of a line. */
  lemma Indented(b: Body, c: char) returns (b': Body)
    requires WellLaid(b) && (c == '\t' || c == ' ')
    ensures WellLaid(b') && Layout(b') == [c] + Layout(b)
  {
    if b.chunks == [] {
      b' := b.(trail := [c] + b.trail);
    } else {
      var first := b.chunks[0];
      b' := b.(chunks := [Chunk([c] + first.gap, first.word)] + b.chunks[1..]);
      assert b'.chunks[1..] == b.chunks[1..];
    }
  }

  lemma StartsOther(b: Body)
    requires WellLaid(b)
    ensures b.chunks != [] && b.chunks[0].gap == "" ==> Layout(b) != "" && Layout(b)[0] == b.chunks[0].word[0]
    ensures b.chunks == [] && b.trail == "" && b.comment.Some? ==> Layout(b) != "" && Layout(b)[0] == '#'
  {
  }

  /** A word in front of a line that is empty or starts with a blank. */
  lemma Begun(b: Body, w: string) returns (b': Body)
    requires WellLaid(b) && Word(w) && (Layout(b) != "" ==> Layout(b)[0] == '\t' || Layout(b)[0] == ' ')
    ensures WellLaid(b') && Layout(b') == w + Layout(b)
  {
    b' := b.(chunks := [Chunk("", w)] + b.chunks);
    assert b'.chunks[1..] == b.chunks;
    StartsOther(b);
  }

  /** What a line may be, apart from the number of words. */
  ghost predicate Clear(s: string) {
    Ascii(s) && Open(s) && !Glued(s)
  }

  lemma ClearBlank(s: string)
    requires Clear(s) && s != "" && (s[0] == '\t' || s[0] == ' ')
    ensures Clear(s[1..])
  {
    GluedAfter("", s);
    assert "" + s == s;
  }

  lemma ClearWord(s: string, w: string, rest: string)
    requires Clear(s) && s == w + rest && Word(w) && (rest != "" ==> rest[0] == '\t' || rest[0] == ' ')
    ensures Clear(rest)
  {
    assert forall i | 0 <= i < |rest| :: rest[i] == s[|w| + i];
    if rest != "" {
      GluedAfter(w, rest);
    }
  }

  lemma OnlyRemark(s: string) returns (b: Body)
    requires Clear(s) && (s == "" || s[0] == '#')
    ensures WellLaid(b) && Layout(b) == s
  {
    b := if s == "" then Body([], "", None) else Body([], "", Some(s[1..]));
  }

  /** Every such line is laid out in some way. */
  lemma {:induction false} LaidOut(s: string) returns (b: Body)
    requires Clear(s)
    ensures WellLaid(b) && Layout(b) == s
    decreases |s|
  {
    if s == "" || s[0] == '#' {
      b := OnlyRemark(s);
    } else if s[0] == '\t' || s[0] == ' ' {
      ClearBlank(s);
      b := LaidOut(s[1..]);
      b := Indented(b, s[0]);
    } else {
      var n := WordLength(s);
      FirstWord(s);
      ClearWord(s, s[..n], s[n..]);
      b := LaidOut(s[n..]);
      b := Begun(b, s[..n]);
    }
  }

  // ------------------------------------------------------------ texts

  /** s can be laid out as a line with a name and at most seven arguments. */
  ghost predicate IsLine(s: string) {
    exists b: Body :: WellLaid(b) && Layout(b) == s && |b.chunks| <= 8
  }

  /** The same for what no end of line terminates: a word that reaches the end of the text does not count. */
  ghost predicate IsRest(s: string) {
    exists b: Body :: WellLaid(b) && Layout(b) == s && |ClosedOf(b)| <= 8
  }

  lemma LineExactly(s: string)
    requires Open(s)
    ensures IsLine(s) <==> GoodLine(s)
    ensures IsRest(s) <==> GoodTail(s)
  {
    if Clear(s) {
      var b := LaidOut(s);
      BodyShows(b);
    }
    forall b: Body | WellLaid(b) && Layout(b) == s
      ensures Shows(s, WordsOf(b), ClosedOf(b))
    {
      BodyShows(b);
    }
  }

  lemma ReadBad(s: string, c: char, rest: string, file: string, line: nat)
    requires NoEnd(s) && IsEnd(c) && !GoodLine(s)
    ensures Read(s + [c] + rest, file, line) == Reading([], SyntaxError(line))
  {
    var t := s + [c] + rest;
    LineEndIs(t, |s|);
    assert t[..|s|] == s;
  }

  lemma ReadRest(s: string, file: string, line: nat)
    requires NoEnd(s)
    ensures Read(s, file, line) == Reading([], if GoodTail(s) then Done else SyntaxError(line))
  {
    LineEndIs(s, |s|);
    assert s[..|s|] == s;
  }

  lemma ReadFirst(lines: seq<Line>, more: string, file: string, line: nat)
    requires lines != [] && WellLaidLine(lines[0])
    ensures Read(Layout(lines[0].body) + [lines[0].end] + more, file, line) ==
            After(Saved(WordsOf(lines[0].body), file, line), Read(more, file, line + 1))
  {
    BodyShows(lines[0].body);
    ReadLine(Layout(lines[0].body), lines[0].end, more, file, line);
  }

  lemma TextNext(lines: seq<Line>, rest: string)
    requires lines != []
    ensures Text(lines) + rest == Layout(lines[0].body) + [lines[0].end] + (Text(lines[1..]) + rest)
  {
  }

  lemma GivenNext(lines: seq<Line>, file: string, line: nat)
    requires lines != []
    ensures Given(lines, file, line) ==
            Saved(WordsOf(lines[0].body), file, line) + Given(lines[1..], file, line + 1)
  {
  }

  lemma AfterNothing(r: Reading)
    ensures After([], r) == r
  {
    assert [] + r.directives == r.directives;
  }

  lemma AfterAfter(a: seq<Directive>, b: seq<Directive>, r: Reading)
    ensures After(a, After(b, r)) == After(a + b, r)
  {
    assert a + (b + r.directives) == (a + b) + r.directives;
  }

  /** Lines in front of a text give their directives, and the rest is read by itself. */
  lemma {:induction false} ReadLines(lines: seq<Line>, rest: string, file: string, line: nat)
    requires forall i | 0 <= i < |lines| :: WellLaidLine(lines[i])
    ensures Read(Text(lines) + rest, file, line) == After(Given(lines, file, line), Read(rest, file, line + |lines|))
  {
    if lines == [] {
      assert Text(lines) + rest == rest;
      AfterNothing(Read(rest, file, line));
    } else {
      ReadLines(lines[1..], rest, file, line + 1);
      TextNext(lines, rest);
      ReadFirst(lines, Text(lines[1..]) + rest, file, line);
      GivenNext(lines, file, line);
      AfterAfter(Saved(WordsOf(lines[0].body), file, line), Given(lines[1..], file, line + 1),
                 Read(rest, file, line + |lines|));
    }
  }

  /** A text of well laid out lines gives their directives, on consecutive lines, whatever tabs and spaces
      separate the words and whether CR or LF ends the lines. */
  lemma ReadsLines(lines: seq<Line>, file: string)
    requires forall i | 0 <= i < |lines| :: WellLaidLine(lines[i])
    ensures Scan(Text(lines), START, file) == Reading(Given(lines, file, 1), Done)
  {
    ReadLines(lines, "", file, 1);
    EmptyIsGood(file, 1 + |lines|);
    OnePass(Text(lines), file);
    assert Text(lines) + "" == Text(lines) && Given(lines, file, 1) + [] == Given(lines, file, 1);
  }

  /** And no other text goes through: a terminated line that cannot be laid out so stops the reading with
      its number, after the directives of the lines before it. */
  lemma StopsAtOtherLine(lines: seq<Line>, s: string, c: char, rest: string, file: string)
    requires forall i | 0 <= i < |lines| :: WellLaidLine(lines[i])
    requires Open(s) && (c == '\n' || c == '\r') && !IsLine(s)
    ensures Scan(Text(lines) + (s + [c] + rest), START, file) ==
            Reading(Given(lines, file, 1), SyntaxError(1 + |lines|))
  {
    LineExactly(s);
    ReadBad(s, c, rest, file, 1 + |lines|);
    ReadLines(lines, s + [c] + rest, file, 1);
    OnePass(Text(lines) + (s + [c] + rest), file);
    assert Given(lines, file, 1) + [] == Given(lines, file, 1);
  }

  /** What follows the last end of line gives no directive, and is refused unless it can be laid out. */
  lemma RestIsChecked(lines: seq<Line>, s: string, file: string)
    requires (forall i | 0 <= i < |lines| :: WellLaidLine(lines[i])) && Open(s)
    ensures Scan(Text(lines) + s, START, file) ==
            Reading(Given(lines, file, 1), if IsRest(s) then Done else SyntaxError(1 + |lines|))
  {
    LineExactly(s);
    ReadRest(s, file, 1 + |lines|);
    ReadLines(lines, s, file, 1);
    OnePass(Text(lines) + s, file);
    assert Given(lines, file, 1) + [] == Given(lines, file, 1);
  }
}

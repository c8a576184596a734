/** What the transcoder's output says: reading it as UTF-16 gives the text back that the path spells in
    UTF-8. Both readings are decoders of their own. */
module UtfRoundTrip {
  import opened Basics
  import opened Utf

  function Before(c: int, rest: Option<seq<int>>): Option<seq<int>> {
    match rest case None => None case Some(cs) => Some([c] + cs)
  }

  // ------------------------------------------------------------ the readings

  predicate High(u: int) {
    0xd800 <= u < 0xdc00
  }

  predicate Low(u: int) {
    0xdc00 <= u < 0xe000
  }

  /** The character of a high and a low unit. */
  function Pair(u: int, v: int): int {
    0x1_0000 + (u - 0xd800) * 0x400 + (v - 0xdc00)
  }

  /** Section 2.2 of RFC 2781: a unit that is neither high nor low stands for itself, a high one needs a low
      one behind it, and anything else is in error. */
  function Read16(s: seq<Unit>): Option<seq<int>> {
    if s == [] then Some([])
    else if !High(s[0]) && !Low(s[0]) then Before(s[0], Read16(s[1..]))
    else if High(s[0]) && |s| >= 2 && Low(s[1]) then Before(Pair(s[0], s[1]), Read16(s[2..]))
    else None
  }

  /** A byte that continues a character. */
  predicate Trail(b: int) {
    0x80 <= b < 0xc0
  }

  function Two(a: int, b: int): int {
    (a - 0xc0) * 0x40 + (b - 0x80)
  }

  function Three(a: int, b: int, c: int): int {
    ((a - 0xe0) * 0x40 + (b - 0x80)) * 0x40 + (c - 0x80)
  }

  function Four(a: int, b: int, c: int, d: int): int {
    (((a - 0xf0) * 0x40 + (b - 0x80)) * 0x40 + (c - 0x80)) * 0x40 + (d - 0x80)
  }

  /** The first character of s and its length, with the ranges of bytes that section 4 of RFC 3629 allows. */
  function First8(s: seq<Byte>): (r: Option<(int, nat)>)
    requires s != []
    ensures r.Some? ==> 0 < r.value.1 <= |s|
  {
    var a := s[0];
    if a < 0x80 then Some((a, 1))
    else if 0xc2 <= a < 0xe0 && |s| >= 2 && Trail(s[1]) then Some((Two(a, s[1]), 2))
    else if 0xe0 <= a < 0xf0 && |s| >= 3 && Trail(s[1]) && Trail(s[2])
         && (a == 0xe0 ==> s[1] >= 0xa0) && (a == 0xed ==> s[1] < 0xa0) then Some((Three(a, s[1], s[2]), 3))
    else if 0xf0 <= a < 0xf5 && |s| >= 4 && Trail(s[1]) && Trail(s[2]) && Trail(s[3])
         && (a == 0xf0 ==> s[1] >= 0x90) && (a == 0xf4 ==> s[1] < 0x90) then Some((Four(a, s[1], s[2], s[3]), 4))
    else None
  }

  /** The text that s spells in UTF-8, if it is well formed. */
  function Read8(s: seq<Byte>): Option<seq<int>> {
    if s == [] then Some([])
    else match First8(s)
         case None => None
         case Some((c, n)) => Before(c, Read8(s[n..]))
  }

  // ------------------------------------------------------------ one character

  /** A character beyond 16 bits is a high and a low unit that share out its bits, and any other is one
      unit. */
  lemma Utf16Units(c: int)
    requires 0 <= c < 0x11_0000
    ensures c < 0x1_0000 ==> Utf16(c) == [c]
    ensures c >= 0x1_0000 ==>
              |Utf16(c)| == 2 && High(Utf16(c)[0]) && Low(Utf16(c)[1]) && Pair(Utf16(c)[0], Utf16(c)[1]) == c
  {
  }

  /** A scalar's bytes, and nothing else, are read as that scalar, whatever follows. */
  lemma Utf8Bytes(c: int, s: seq<Byte>)
    requires Scalar(c)
    ensures First8(Utf8(c) + s) == Some((c, |Utf8(c)|))
  {
    var u := Utf8(c);
    assert forall i | 0 <= i < |u| :: (u + s)[i] == u[i];
    if c < 0x80 {
    } else if c < 0x800 {
      Split2(c);
    } else if c < 0x1_0000 {
      Split3(c);
    } else {
      Split4(c);
    }
  }

  lemma TwoIsUtf8(a: int, b: int)
    requires 0xc2 <= a < 0xe0 && Trail(b)
    ensures Scalar(Two(a, b)) && Utf8(Two(a, b)) == [a, b]
  {
    Digits2(a - 0xc0, b - 0x80);
  }

  lemma ThreeIsUtf8(a: int, b: int, c: int)
    requires 0xe0 <= a < 0xf0 && Trail(b) && Trail(c)
    requires (a == 0xe0 ==> b >= 0xa0) && (a == 0xed ==> b < 0xa0)
    ensures Scalar(Three(a, b, c)) && Utf8(Three(a, b, c)) == [a, b, c]
  {
    Digits3(a - 0xe0, b - 0x80, c - 0x80);
  }

  lemma FourIsUtf8(a: int, b: int, c: int, d: int)
    requires 0xf0 <= a < 0xf5 && Trail(b) && Trail(c) && Trail(d)
    requires (a == 0xf0 ==> b >= 0x90) && (a == 0xf4 ==> b < 0x90)
    ensures Scalar(Four(a, b, c, d)) && Utf8(Four(a, b, c, d)) == [a, b, c, d]
  {
    Digits4(a - 0xf0, b - 0x80, c - 0x80, d - 0x80);
  }

  lemma FirstIsUtf8(s: seq<Byte>)
    requires s != [] && First8(s).Some?
    ensures var (c, n) := First8(s).value; Scalar(c) && (c == 0 <==> s[0] == 0) && s[..n] == Utf8(c)
  {
    var n := First8(s).value.1;
    if n == 2 {
      TwoIsUtf8(s[0], s[1]);
    } else if n == 3 {
      ThreeIsUtf8(s[0], s[1], s[2]);
    } else if n == 4 {
      FourIsUtf8(s[0], s[1], s[2], s[3]);
    }
  }

  // ------------------------------------------------------------ whole texts

  ghost predicate Scalars(cs: seq<int>) {
    forall i | 0 <= i < |cs| :: Scalar(cs[i])
  }

  lemma Read8Next(c: int, s: seq<Byte>, rest: seq<int>)
    requires Scalar(c) && Read8(s) == Some(rest)
    ensures Read8(Utf8(c) + s) == Some([c] + rest)
  {
    Utf8Bytes(c, s);
    assert (Utf8(c) + s)[|Utf8(c)|..] == s;
  }

  lemma Read16Next(c: int, s: seq<Unit>, rest: seq<int>)
    requires Scalar(c) && Read16(s) == Some(rest)
    ensures Read16(Utf16(c) + s) == Some([c] + rest)
  {
    Utf16Units(c);
    var u := Utf16(c) + s;
    assert u[|Utf16(c)|..] == s;
    assert u[0] == Utf16(c)[0] && (c >= 0x1_0000 ==> u[1] == Utf16(c)[1]);
  }

  /** Reading undoes encoding, for each of the two encodings. */
  lemma {:induction false} ReadEncoded(cs: seq<int>)
    requires Scalars(cs) && InRange(cs)
    ensures Read8(Encode8(cs)) == Some(cs) && Read16(Encode16(cs)) == Some(cs)
  {
    Encoded(cs);
    if cs != [] {
      var c, rest := cs[0], cs[1..];
      ReadEncoded(rest);
      Read8Next(c, Encode8(rest), rest);
      Read16Next(c, Encode16(rest), rest);
      assert cs == [c] + rest;
    }
  }

  lemma {:induction false} EncodedRead(s: seq<Byte>)
    requires Read8(s).Some?
    ensures var cs := Read8(s).value; Scalars(cs) && InRange(cs) && Encode8(cs) == s && (0 !in s ==> Text(cs))
    decreases |s|
  {
    if s == [] {
      Encoded([]);
    } else {
      FirstIsUtf8(s);
      var (c, n) := First8(s).value;
      var rest := Read8(s[n..]).value;
      EncodedRead(s[n..]);
      ReadFirst(s, c, n, rest);
    }
  }

  lemma ReadFirst(s: seq<Byte>, c: int, n: nat, rest: seq<int>)
    requires 0 < n <= |s| && Scalar(c) && (c == 0 <==> s[0] == 0) && s[..n] == Utf8(c)
    requires Scalars(rest) && InRange(rest) && Encode8(rest) == s[n..] && (0 !in s[n..] ==> Text(rest))
    ensures var cs := [c] + rest; Scalars(cs) && InRange(cs) && Encode8(cs) == s && (0 !in s ==> Text(cs))
  {
    var cs := [c] + rest;
    assert cs[1..] == rest;
    Encoded(cs);
    assert s == s[..n] + s[n..];
  }

  /** The path in the buffer ends at its first NUL and spells the text cs. */
  ghost predicate Spells(buf: seq<Byte>, k: nat, cs: seq<int>) {
    k < |buf| && buf[k] == 0 && 0 !in buf[..k] && Read8(buf[..k]) == Some(cs)
  }

  lemma SpellsEncoded(buf: seq<Byte>, k: nat, cs: seq<int>)
    requires Spells(buf, k, cs)
    ensures Text(cs) && InRange(cs) && Encode8(cs) == buf[..k] && Encode8(cs) + [0] <= buf
  {
    EncodedRead(buf[..k]);
    assert Encode8(cs) + [0] == buf[..k + 1];
  }

  /** The transcoder takes well-formed UTF-8, and what it makes of it, up to the terminator, reads as
      UTF-16 for the same text. */
  lemma PathKeepsText(buf: seq<Byte>, k: nat, cs: seq<int>)
    requires Spells(buf, k, cs)
    ensures var w := Wide(buf, 0);
            && w.Some? && |w.value| > 0 && w.value[|w.value| - 1] == 0
            && 0 !in w.value[..|w.value| - 1] && Read16(w.value[..|w.value| - 1]) == Some(cs)
  {
    SpellsEncoded(buf, k, cs);
    assert buf[0..] == buf;
    WideOfText(cs, buf, 0);
    ReadEncoded(cs);
    NoNul16(cs);
    var w := Wide(buf, 0).value;
    assert w[..|w| - 1] == Encode16(cs);
  }

  lemma {:induction false} NoNul16(cs: seq<int>)
    requires Text(cs) && InRange(cs)
    ensures 0 !in Encode16(cs)
  {
    Encoded(cs);
    if cs != [] {
      NoNul16(cs[1..]);
      Utf16Units(cs[0]);
    }
  }

  lemma {:induction false} NoNul8(cs: seq<int>)
    requires Text(cs) && InRange(cs)
    ensures 0 !in Encode8(cs)
  {
    Encoded(cs);
    if cs != [] {
      NoNul8(cs[1..]);
    }
  }

  lemma StartsWith(s: seq<Byte>, t: seq<Byte>, b: Byte)
    requires s + [b] <= t
    ensures |s| < |t| && t[..|s|] == s && t[|s|] == b
  {
    assert t[|s|] == (s + [b])[|s|];
  }

  lemma EncodedSpells(buf: seq<Byte>, cs: seq<int>)
    requires Text(cs) && InRange(cs) && Encode8(cs) + [0] <= buf
    ensures Spells(buf, |Encode8(cs)|, cs)
  {
    StartsWith(Encode8(cs), buf, 0);
    NoNul8(cs);
    ReadEncoded(cs);
  }

  /** Clean buffers are those whose path spells some text. */
  lemma CleanSpells(buf: seq<Byte>)
    ensures Clean(buf, 0) <==> exists k: nat, cs :: Spells(buf, k, cs)
  {
    WellFormedExactly(buf);
    if cs :| Text(cs) && InRange(cs) && Encode8(cs) + [0] <= buf {
      EncodedSpells(buf, cs);
    }
    if k: nat, cs :| Spells(buf, k, cs) {
      SpellsEncoded(buf, k, cs);
    }
  }

  /** Well-formed paths that come out the same spell the same text. */
  lemma KeepsApart(buf: seq<Byte>, k: nat, cs: seq<int>, buf': seq<Byte>, k': nat, cs': seq<int>)
    requires Spells(buf, k, cs) && Spells(buf', k', cs') && Wide(buf, 0) == Wide(buf', 0)
    ensures cs == cs' && buf[..k] == buf'[..k']
  {
    PathKeepsText(buf, k, cs);
    PathKeepsText(buf', k', cs');
    SpellsEncoded(buf, k, cs);
    SpellsEncoded(buf', k', cs');
  }

  lemma SmileyWide(buf: seq<Byte>)
    requires buf == [0xf0, 0x9f, 0x98, 0x80, 0]
    ensures Wide(buf, 0) == Some([0xd83d, 0xde00, 0])
  {
    assert Utf8(0x1_f600) == buf[0..4];
    WideStep(0x1_f600, buf, 0);
    assert Wide(buf, 4) == Some([0]);
    assert Utf16(0x1_f600) + [0] == [0xd83d, 0xde00, 0];
  }

  lemma HalvesWide(buf: seq<Byte>)
    requires buf == [0xed, 0xa0, 0xbd, 0xed, 0xb8, 0x80, 0]
    ensures Wide(buf, 0) == Some([0xd83d, 0xde00, 0])
  {
    assert Utf8(0xd83d) == buf[0..3] && Utf8(0xde00) == buf[3..6];
    WideStep(0xd83d, buf, 0);
    WideStep(0xde00, buf, 3);
    assert Wide(buf, 6) == Some([0]);
    assert Utf16(0xd83d) + (Utf16(0xde00) + [0]) == [0xd83d, 0xde00, 0];
  }

  /** Beyond well-formed paths that is not so: a character and the two surrogates for it, each taken for a
      character of three bytes, come out the same. */
  lemma SurrogatesMeet()
    ensures Wide([0xf0, 0x9f, 0x98, 0x80, 0], 0) == Wide([0xed, 0xa0, 0xbd, 0xed, 0xb8, 0x80, 0], 0) ==
            Some([0xd83d, 0xde00, 0])
  {
    SmileyWide([0xf0, 0x9f, 0x98, 0x80, 0]);
    HalvesWide([0xed, 0xa0, 0xbd, 0xed, 0xb8, 0x80, 0]);
  }
}

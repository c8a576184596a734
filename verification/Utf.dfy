/** The UTF-8 to UTF-16 path transcoder. Bytes, code units and the decoder's accumulator are
    integers; shifts and masks by powers of two are written as products, quotients and remainders. */
module Utf {
  import opened Basics

  type Byte = b: int | 0 <= b < 0x100
  type Unit = u: int | 0 <= u < 0x1_0000

  const MALFORMED: nat := 0xffff_ffff
  const TRUNCATED: nat := 0xffff_fffe

  // ------------------------------------------------------------ the two encodings

  /** A Unicode scalar value. */
  predicate Scalar(c: int) {
    0 <= c < 0xd800 || 0xe000 <= c < 0x11_0000
  }

  predicate Surrogate(c: int) {
    0xd800 <= c < 0xe000
  }

  /** Section 3 of RFC 3629. */
  function Utf8(c: int): (s: seq<Byte>)
    requires 0 <= c < 0x11_0000
  {
    if c < 0x80 then [c]
    else if c < 0x800 then [0xc0 + c / 64, 0x80 + c % 64]
    else if c < 0x1_0000 then [0xe0 + c / 4096, 0x80 + c / 64 % 64, 0x80 + c % 64]
    else [0xf0 + c / 262144, 0x80 + c / 4096 % 64, 0x80 + c / 64 % 64, 0x80 + c % 64]
  }

  /** Section 2.1 of RFC 2781. */
  function Utf16(c: int): (s: seq<Unit>)
    requires 0 <= c < 0x11_0000
  {
    if c < 0x1_0000 then [c]
    else [0xd800 + (c - 0x1_0000) / 1024, 0xdc00 + (c - 0x1_0000) % 1024]
  }

  /** Text without a NUL, as a path may hold. */
  ghost predicate Text(cs: seq<int>) {
    forall i | 0 <= i < |cs| :: Scalar(cs[i]) && cs[i] != 0
  }

  ghost predicate InRange(cs: seq<int>) {
    forall i | 0 <= i < |cs| :: 0 <= cs[i] < 0x11_0000
  }

  function Flat<T>(parts: seq<seq<T>>): seq<T> {
    if parts == [] then [] else parts[0] + Flat(parts[1..])
  }

  ghost function Encode8(cs: seq<int>): seq<Byte>
    requires InRange(cs)
  {
    Flat(seq(|cs|, i requires 0 <= i < |cs| => Utf8(cs[i])))
  }

  ghost function Encode16(cs: seq<int>): seq<Unit>
    requires InRange(cs)
  {
    Flat(seq(|cs|, i requires 0 <= i < |cs| => Utf16(cs[i])))
  }

  lemma Encoded(cs: seq<int>)
    requires InRange(cs)
    ensures cs == [] ==> Encode8(cs) == [] && Encode16(cs) == []
    ensures cs != [] ==> InRange(cs[1..]) && Encode8(cs) == Utf8(cs[0]) + Encode8(cs[1..])
    ensures cs != [] ==> Encode16(cs) == Utf16(cs[0]) + Encode16(cs[1..])
  {
    if cs != [] {
      var parts8 := seq(|cs|, i requires 0 <= i < |cs| => Utf8(cs[i]));
      var parts16 := seq(|cs|, i requires 0 <= i < |cs| => Utf16(cs[i]));
      var cs' := cs[1..];
      assert parts8[1..] == seq(|cs'|, i requires 0 <= i < |cs'| => Utf8(cs'[i]));
      assert parts16[1..] == seq(|cs'|, i requires 0 <= i < |cs'| => Utf16(cs'[i]));
    }
  }

  // ------------------------------------------------------------ what the decoder accepts

  /** What the first byte announces: the bits it contributes, how many bytes follow, and the value
      the result has to exceed. */
  datatype Lead = Lead(bits: nat, more: nat, floor: nat)

  function LeadOf(b: Byte): Option<Lead> {
    if b >= 0xf0 then Some(Lead(b % 8, 3, 0xffff))
    else if b >= 0xe0 then Some(Lead(b % 16, 2, 0x7ff))
    else if b >= 0xc2 then Some(Lead(b % 32, 1, 0x7f))
    else None
  }

  /** Accumulate `more` following bytes, each at least 0x80. */
  function Follow(buf: seq<Byte>, p: nat, more: nat, u: nat): Option<nat>
    decreases more
  {
    if more == 0 then Some(u)
    else if p >= |buf| || buf[p] < 0x80 then None
    else Follow(buf, p + 1, more - 1, u * 64 + buf[p] % 64)
  }

  datatype Decoding = Decoding(value: nat, size: nat)

  /** The multi-byte character at p: its value and how many bytes it takes. */
  function DecodeAt(buf: seq<Byte>, p: nat): (r: Option<Decoding>)
    requires p < |buf|
    ensures r.Some? ==> r.value.size >= 2
  {
    match LeadOf(buf[p])
    case None => None
    case Some(lead) =>
      match Follow(buf, p + 1, lead.more, lead.bits)
      case None => None
      case Some(u) => if u > lead.floor then Some(Decoding(u, lead.more + 1)) else None
  }

  /** A NUL at or after p keeps every read inside the buffer. */
  ghost predicate Terminated(buf: seq<Byte>, p: nat) {
    exists k :: p <= k < |buf| && buf[k] == 0
  }

  /** The whole path from p, with its terminator, or None where the code gives up for the text's sake. */
  function Wide(buf: seq<Byte>, p: nat): Option<seq<Unit>>
    decreases |buf| - p
  {
    if p >= |buf| then None
    else if buf[p] == 0 then Some([0])
    else if buf[p] < 0x80 then
      match Wide(buf, p + 1)
      case None => None
      case Some(w) => Some([buf[p]] + w)
    else
      match DecodeAt(buf, p)
      case None => None
      case Some(d) =>
        if d.value > 0x10_ffff then None
        else
          assert d.size >= 2;
          match Wide(buf, p + d.size)
          case None => None
          case Some(w) => Some(Utf16(d.value) + w)
  }

  lemma {:induction false} FollowBounds(buf: seq<Byte>, p: nat, more: nat, u: nat)
    requires more <= 3 && Follow(buf, p, more, u).Some?
    ensures p + more <= |buf| || more == 0
    ensures forall i | p <= i < p + more :: buf[i] >= 0x80
    ensures more == 0 ==> Follow(buf, p, more, u).value == u
    ensures more == 1 ==> Follow(buf, p, more, u).value < 64 * u + 64
    ensures more == 2 ==> Follow(buf, p, more, u).value < 4096 * u + 4096
    ensures more == 3 ==> Follow(buf, p, more, u).value < 262144 * u + 262144
    decreases more
  {
  }

  /** Everything the decoder accepts is in the shortest form for its value, and fits 21 bits. */
  lemma NeverOverlong(buf: seq<Byte>, p: nat)
    requires p < |buf| && DecodeAt(buf, p).Some?
    ensures var d := DecodeAt(buf, p).value;
            && p + d.size <= |buf| && d.value < 0x20_0000
            && (d.value <= 0x10_ffff ==> d.size == |Utf8(d.value)|)
            && d.size >= 2 && d.value >= 0x80
  {
  }

  // ------------------------------------------------------------ the code

  /** The pointer has moved past all `more` bytes that follow the first, or just past the first of them
      that is below 0x80. */
  ghost predicate Stopped(buf: seq<Byte>, start: nat, more: nat, p: nat) {
    && start < p <= start + 1 + more && p <= |buf|
    && (forall i | start < i < p - 1 :: buf[i] >= 0x80)
    && (p <= start + more ==> p > start + 1 && buf[p - 1] < 0x80)
  }

  /** All bytes that have to follow have been accumulated. */
  lemma Decoded(buf: seq<Byte>, start: nat, u: nat, end: nat)
    requires start < |buf| && LeadOf(buf[start]).Some?
    requires var lead := LeadOf(buf[start]).value;
             Follow(buf, start + 1, lead.more, lead.bits) == Some(u) && start + 1 + lead.more <= end < |buf| && buf[end] == 0
    ensures var lead := LeadOf(buf[start]).value;
            && DecodeAt(buf, start) == (if u > lead.floor then Some(Decoding(u, lead.more + 1)) else None)
            && (u > lead.floor ==> u < 0x20_0000) && Terminated(buf, start + 1 + lead.more)
  {
    if u > LeadOf(buf[start]).value.floor {
      NeverOverlong(buf, start);
    }
  }

  /** fpx_utf8_decode: the value, or MALFORMED or TRUNCATED, and where the pointer ends up. n is a
      size_t, so the bytes left after the first wrap when there are none at all. */
  method Decode(buf: seq<Byte>, start: nat, n: nat) returns (value: nat, p: nat)
    requires start < |buf| && buf[start] >= 0x80 && Terminated(buf, start) && n < SIZE_MOD
    ensures match LeadOf(buf[start])
            case None => value == MALFORMED && p == start + 1
            case Some(lead) =>
              if 0 < n <= lead.more then value == TRUNCATED && p == start
              else
                && Stopped(buf, start, lead.more, p)
                && value == (match DecodeAt(buf, start) case Some(d) => d.value case None => MALFORMED)
    ensures value < 0x20_0000 ==>
              DecodeAt(buf, start) == Some(Decoding(value, p - start)) && Terminated(buf, p)
  {
    var u: nat := buf[start];
    var len: nat;
    var valid: nat;
    p := start;
    if u >= 0xf0 {
      u, valid, len := u % 8, 0xffff, 3;
    } else if u >= 0xe0 {
      u, valid, len := u % 16, 0x7ff, 2;
    } else if u >= 0xc2 {
      u, valid, len := u % 32, 0x7f, 1;
    } else {
      return MALFORMED, p + 1;
    }
    ghost var lead := LeadOf(buf[start]).value;
    assert len == lead.more <= 3 && u == lead.bits && valid == lead.floor;
    var left := if n > 0 then n - 1 else SIZE_MOD - 1;
    if left < len {
      return TRUNCATED, p;
    }
    p := p + 1;
    ghost var end: nat :| start <= end < |buf| && buf[end] == 0;
    while len > 0
      invariant 0 <= len <= lead.more && p == start + 1 + lead.more - len && p <= end
      invariant forall i | start < i < p :: buf[i] >= 0x80
      invariant Follow(buf, start + 1, lead.more, lead.bits) == Follow(buf, p, len, u)
    {
      var i := buf[p];
      if i < 0x80 {
        return MALFORMED, p + 1;
      }
      p := p + 1;
      u := u * 64 + i % 64;
      len := len - 1;
    }
    Decoded(buf, start, u, end);
    if u > valid {
      return u, p;
    }
    return MALFORMED, p;
  }

  /** fpx_path_to_wchar: true stands for returning outstr, false for returning NULL. */
  method PathToWide(out: array<Unit>, outlen: nat, instr: seq<Byte>) returns (ok: bool)
    requires outlen <= out.Length && Terminated(instr, 0)
    modifies out
    ensures ok <==> Wide(instr, 0).Some? && |Wide(instr, 0).value| <= outlen
    ensures ok ==> out[..|Wide(instr, 0).value|] == Wide(instr, 0).value
    ensures forall i | outlen <= i < out.Length :: out[i] == old(out[i])
  {
    var p, u := 0, 0;
    ghost var done: seq<Unit> := [];
    while u < outlen
      invariant 0 <= p < |instr| && Terminated(instr, p) && 0 <= u <= outlen
      invariant out[..u] == done
      invariant Joins(Wide(instr, 0), done, Wide(instr, p))
      invariant forall i | outlen <= i < out.Length :: out[i] == old(out[i])
      decreases |instr| - p
    {
      ghost var at := p;
      if instr[p] < 0x80 {
        out[u] := instr[p];
        u, done := u + 1, done + [instr[p]];
        if instr[p] == 0 {
          return true;
        }
        p := p + 1;
        AsciiJoins(instr, done[..|done| - 1], at);
        continue;
      }
      if u + 1 == outlen {
        break;
      }
      var n;
      n, p := Decode(instr, p, 4);
      if n > 0x10_ffff {
        return false;
      }
      CharacterJoins(instr, done, at);
      done := done + Utf16(n);
      if n > 0xffff {
        n := n - 0x1_0000;
        out[u], out[u + 1] := 0xd800 + n / 1024, 0xdc00 + n % 1024;
        u := u + 2;
        continue;
      }
      out[u] := n;
      u := u + 1;
    }
    WideIsTerminated(instr, p);
    return false;
  }

  /** The whole is what has been written followed by the rest. */
  ghost predicate Joins(whole: Option<seq<Unit>>, done: seq<Unit>, rest: Option<seq<Unit>>) {
    && (whole.Some? <==> rest.Some?)
    && (rest.Some? ==> whole.value == done + rest.value)
  }

  lemma Joined(whole: Option<seq<Unit>>, done: seq<Unit>, more: seq<Unit>, rest: Option<seq<Unit>>, rest': Option<seq<Unit>>)
    requires Joins(whole, done, rest) && Joins(rest, more, rest')
    ensures Joins(whole, done + more, rest')
  {
  }

  lemma AsciiJoins(buf: seq<Byte>, done: seq<Unit>, at: nat)
    requires at < |buf| && 0 < buf[at] < 0x80 && Joins(Wide(buf, 0), done, Wide(buf, at))
    ensures Joins(Wide(buf, 0), done + [buf[at]], Wide(buf, at + 1))
  {
    Joined(Wide(buf, 0), done, [buf[at]], Wide(buf, at), Wide(buf, at + 1));
  }

  lemma CharacterJoins(buf: seq<Byte>, done: seq<Unit>, at: nat)
    requires at < |buf| && buf[at] >= 0x80 && Joins(Wide(buf, 0), done, Wide(buf, at))
    requires DecodeAt(buf, at).Some? && DecodeAt(buf, at).value.value <= 0x10_ffff
    ensures var d := DecodeAt(buf, at).value; Joins(Wide(buf, 0), done + Utf16(d.value), Wide(buf, at + d.size))
  {
    var d := DecodeAt(buf, at).value;
    Joined(Wide(buf, 0), done, Utf16(d.value), Wide(buf, at), Wide(buf, at + d.size));
  }

  lemma {:induction false} WideIsTerminated(buf: seq<Byte>, p: nat)
    ensures Wide(buf, p).Some? ==> |Wide(buf, p).value| >= (if buf[p] < 0x80 then 1 else 2)
    decreases |buf| - p
  {
  }

  // ------------------------------------------------------------ well-formed text

  /** Six-bit digits: putting them together and taking them apart. */
  lemma Digits2(a: nat, d: nat)
    requires d < 64
    ensures (a * 64 + d) / 64 == a && (a * 64 + d) % 64 == d
  {
  }

  lemma Digits3(a: nat, c: nat, d: nat)
    requires c < 64 && d < 64
    ensures var v := (a * 64 + c) * 64 + d;
            v / 4096 == a && v / 64 % 64 == c && v % 64 == d
  {
    Digits2(a * 64 + c, d);
    Digits2(a, c);
  }

  lemma Digits4(a: nat, b: nat, c: nat, d: nat)
    requires b < 64 && c < 64 && d < 64
    ensures var v := ((a * 64 + b) * 64 + c) * 64 + d;
            v / 262144 == a && v / 4096 % 64 == b && v / 64 % 64 == c && v % 64 == d
  {
    Digits3(a * 64 + b, c, d);
    Digits2(a, b);
  }

  lemma Split2(v: nat)
    ensures v / 64 * 64 + v % 64 == v
  {
  }

  lemma Split3(v: nat)
    ensures (v / 4096 * 64 + v / 64 % 64) * 64 + v % 64 == v
  {
    assert v / 64 / 64 == v / 4096;
  }

  lemma Split4(v: nat)
    ensures ((v / 262144 * 64 + v / 4096 % 64) * 64 + v / 64 % 64) * 64 + v % 64 == v
  {
    assert v / 4096 / 64 == v / 262144;
    Split3(v);
  }

  lemma TwoBytes(buf: seq<Byte>, p: nat, a: nat, d: nat)
    requires p + 2 <= |buf| && 2 <= a < 32 && d < 64
    requires buf[p] == 0xc0 + a && buf[p + 1] == 0x80 + d
    ensures DecodeAt(buf, p) == Some(Decoding(a * 64 + d, 2))
  {
  }

  lemma ThreeBytes(buf: seq<Byte>, p: nat, a: nat, c: nat, d: nat)
    requires p + 3 <= |buf| && a < 16 && c < 64 && d < 64
    requires buf[p] == 0xe0 + a && buf[p + 1] == 0x80 + c && buf[p + 2] == 0x80 + d
    requires (a * 64 + c) * 64 + d >= 0x800
    ensures DecodeAt(buf, p) == Some(Decoding((a * 64 + c) * 64 + d, 3))
  {
  }

  lemma FourBytes(buf: seq<Byte>, p: nat, a: nat, b: nat, c: nat, d: nat)
    requires p + 4 <= |buf| && a < 8 && b < 64 && c < 64 && d < 64
    requires buf[p] == 0xf0 + a && buf[p + 1] == 0x80 + b && buf[p + 2] == 0x80 + c && buf[p + 3] == 0x80 + d
    requires ((a * 64 + b) * 64 + c) * 64 + d >= 0x1_0000
    ensures DecodeAt(buf, p) == Some(Decoding(((a * 64 + b) * 64 + c) * 64 + d, 4))
  {
    FollowThree(buf, p + 1, a);
  }

  /** The decoder undoes the encoder on every scalar beyond ASCII, whatever comes after. */
  lemma DecodesUtf8(c: int, buf: seq<Byte>, p: nat)
    requires 0x80 <= c < 0x11_0000
    requires p + |Utf8(c)| <= |buf| && buf[p..p + |Utf8(c)|] == Utf8(c)
    ensures DecodeAt(buf, p) == Some(Decoding(c, |Utf8(c)|))
  {
    var s := buf[p..p + |Utf8(c)|];
    assert buf[p] == s[0] && buf[p + 1] == s[1];
    if c < 0x800 {
      Split2(c);
      TwoBytes(buf, p, c / 64, c % 64);
    } else if c < 0x1_0000 {
      assert buf[p + 2] == s[2];
      Split3(c);
      ThreeBytes(buf, p, c / 4096, c / 64 % 64, c % 64);
    } else {
      assert buf[p + 2] == s[2] && buf[p + 3] == s[3];
      Split4(c);
      FourBytes(buf, p, c / 262144, c / 4096 % 64, c / 64 % 64, c % 64);
    }
  }

  lemma FollowOne(buf: seq<Byte>, p: nat, u: nat)
    requires p + 1 <= |buf| && buf[p] >= 0x80
    ensures Follow(buf, p, 1, u) == Some(u * 64 + buf[p] % 64)
  {
  }

  lemma FollowTwo(buf: seq<Byte>, p: nat, u: nat)
    requires p + 2 <= |buf| && buf[p] >= 0x80 && buf[p + 1] >= 0x80
    ensures Follow(buf, p, 2, u) == Some((u * 64 + buf[p] % 64) * 64 + buf[p + 1] % 64)
  {
  }

  lemma FollowThree(buf: seq<Byte>, p: nat, u: nat)
    requires p + 3 <= |buf| && buf[p] >= 0x80 && buf[p + 1] >= 0x80 && buf[p + 2] >= 0x80
    ensures Follow(buf, p, 3, u) == Some(((u * 64 + buf[p] % 64) * 64 + buf[p + 1] % 64) * 64 + buf[p + 2] % 64)
  {
  }

  lemma PrefixSplit(s: seq<Byte>, t: seq<Byte>, buf: seq<Byte>, p: nat)
    requires s != [] && p <= |buf| && s + t + [0] <= buf[p..]
    ensures p + |s| <= |buf| && buf[p..p + |s|] == s && buf[p] == s[0] && t + [0] <= buf[p + |s|..]
  {
  }

  lemma WideStep(c: int, buf: seq<Byte>, p: nat)
    requires 0 < c < 0x11_0000
    requires p + |Utf8(c)| <= |buf| && buf[p..p + |Utf8(c)|] == Utf8(c) && buf[p] == Utf8(c)[0]
    ensures Joins(Wide(buf, p), Utf16(c), Wide(buf, p + |Utf8(c)|))
  {
    if c >= 0x80 {
      DecodesUtf8(c, buf, p);
    }
  }

  lemma CleanStep(c: int, buf: seq<Byte>, p: nat)
    requires 0 < c && Scalar(c)
    requires p + |Utf8(c)| <= |buf| && buf[p..p + |Utf8(c)|] == Utf8(c) && buf[p] == Utf8(c)[0]
    ensures Clean(buf, p) == Clean(buf, p + |Utf8(c)|)
  {
    if c >= 0x80 {
      DecodesUtf8(c, buf, p);
      Utf8IsClean(c, buf, p);
    }
  }

  /** The transcoder takes the first scalar of well-formed text as one unit of n bytes. */
  lemma TextStep(cs: seq<int>, buf: seq<Byte>, p: nat) returns (n: nat)
    requires cs != [] && Text(cs) && InRange(cs) && p <= |buf| && Encode8(cs) + [0] <= buf[p..]
    ensures InRange(cs[1..]) && p + n <= |buf| && Encode8(cs[1..]) + [0] <= buf[p + n..]
    ensures Joins(Wide(buf, p), Utf16(cs[0]), Wide(buf, p + n)) && Clean(buf, p) == Clean(buf, p + n)
  {
    n := HeadOfText(cs, buf, p);
    WideStep(cs[0], buf, p);
    CleanStep(cs[0], buf, p);
  }

  lemma HeadOfText(cs: seq<int>, buf: seq<Byte>, p: nat) returns (n: nat)
    requires cs != [] && InRange(cs) && p <= |buf| && Encode8(cs) + [0] <= buf[p..]
    ensures InRange(cs[1..]) && p + n <= |buf| && Encode8(cs[1..]) + [0] <= buf[p + n..]
    ensures n == |Utf8(cs[0])| && buf[p..p + n] == Utf8(cs[0]) && buf[p] == Utf8(cs[0])[0]
  {
    Encoded(cs);
    var s := Utf8(cs[0]);
    n := |s|;
    PrefixSplit(s, Encode8(cs[1..]), buf, p);
  }

  /** Well-formed UTF-8 comes out as the UTF-16 encoding of the same text and a terminator,
      wherever the text stands in the buffer. */
  lemma {:induction false} WideOfText(cs: seq<int>, buf: seq<Byte>, p: nat)
    requires Text(cs) && InRange(cs)
    requires p <= |buf| && Encode8(cs) + [0] <= buf[p..]
    ensures Wide(buf, p) == Some(Encode16(cs) + [0]) && Clean(buf, p)
    decreases |cs|
  {
    Encoded(cs);
    if cs == [] {
      assert buf[p] == buf[p..][0] == 0;
      assert Encode16(cs) + [0] == [0];
    } else {
      var n := TextStep(cs, buf, p);
      WideOfText(cs[1..], buf, p + n);
      assert Utf16(cs[0]) + (Encode16(cs[1..]) + [0]) == Encode16(cs) + [0];
    }
  }

  // ------------------------------------------------------------ what else is accepted

  /** The character at p is one the RFC's grammar allows as far as single bytes can tell, and is
      not a surrogate. */
  predicate CleanAt(buf: seq<Byte>, p: nat)
    requires p < |buf|
  {
    match DecodeAt(buf, p)
    case None => false
    case Some(d) =>
      && p + d.size <= |buf|
      && buf[p] < 0xf8 && (forall i | p < i < p + d.size :: buf[i] < 0xc0)
      && !Surrogate(d.value)
  }

  /** Every character of the path is clean. */
  predicate Clean(buf: seq<Byte>, p: nat)
    decreases |buf| - p
  {
    if p >= |buf| then false
    else if buf[p] == 0 then true
    else if buf[p] < 0x80 then Clean(buf, p + 1)
    else CleanAt(buf, p) && DecodeAt(buf, p).value.value <= 0x10_ffff && Clean(buf, p + DecodeAt(buf, p).value.size)
  }

  /** A clean character is the RFC's encoding of its value. */
  lemma CleanIsUtf8(buf: seq<Byte>, p: nat)
    requires p < |buf| && CleanAt(buf, p) && DecodeAt(buf, p).value.value <= 0x10_ffff
    ensures var d := DecodeAt(buf, p).value;
            Scalar(d.value) && p + d.size <= |buf| && buf[p..p + d.size] == Utf8(d.value)
  {
    NeverOverlong(buf, p);
    if LeadOf(buf[p]).value.more == 1 {
      CleanTwo(buf, p);
    } else if LeadOf(buf[p]).value.more == 2 {
      CleanThree(buf, p);
    } else {
      CleanFour(buf, p);
    }
  }

  lemma CleanTwo(buf: seq<Byte>, p: nat)
    requires p < |buf| && CleanAt(buf, p) && LeadOf(buf[p]).value.more == 1
    ensures buf[p..p + 2] == Utf8(DecodeAt(buf, p).value.value)
  {
  }

  lemma CleanThree(buf: seq<Byte>, p: nat)
    requires p < |buf| && CleanAt(buf, p) && LeadOf(buf[p]).value.more == 2
    ensures buf[p..p + 3] == Utf8(DecodeAt(buf, p).value.value)
  {
    FollowBounds(buf, p + 1, 2, buf[p] % 16);
    var a, c, d := buf[p] - 0xe0, buf[p + 1] - 0x80, buf[p + 2] - 0x80;
    FollowTwo(buf, p + 1, a);
    ThreeBytes(buf, p, a, c, d);
    Digits3(a, c, d);
    assert buf[p..p + 3] == [0xe0 + a, 0x80 + c, 0x80 + d];
  }

  lemma CleanFour(buf: seq<Byte>, p: nat)
    requires p < |buf| && CleanAt(buf, p) && LeadOf(buf[p]).value.more == 3 && DecodeAt(buf, p).value.value <= 0x10_ffff
    ensures buf[p..p + 4] == Utf8(DecodeAt(buf, p).value.value)
  {
    FollowBounds(buf, p + 1, 3, buf[p] % 8);
    var a, b, c, d := buf[p] - 0xf0, buf[p + 1] - 0x80, buf[p + 2] - 0x80, buf[p + 3] - 0x80;
    FollowThree(buf, p + 1, a);
    FourBytes(buf, p, a, b, c, d);
    Digits4(a, b, c, d);
    assert buf[p..p + 4] == [0xf0 + a, 0x80 + b, 0x80 + c, 0x80 + d];
  }

  lemma Utf8IsClean(c: int, buf: seq<Byte>, p: nat)
    requires Scalar(c) && c >= 0x80
    requires p + |Utf8(c)| <= |buf| && buf[p..p + |Utf8(c)|] == Utf8(c)
    ensures CleanAt(buf, p)
  {
    DecodesUtf8(c, buf, p);
    var s := Utf8(c);
    forall i | p <= i < p + |s| ensures buf[i] == s[i - p] {
      assert buf[p..p + |s|][i - p] == s[i - p];
    }
  }

  lemma TextGrows(buf: seq<Byte>, p: nat, c: int, size: nat, rest: seq<int>)
    requires p + size <= |buf| && 0 <= c < 0x11_0000 && buf[p..p + size] == Utf8(c)
    requires InRange(rest) && Encode8(rest) + [0] <= buf[p + size..]
    ensures InRange([c] + rest) && Encode8([c] + rest) + [0] <= buf[p..]
  {
    var cs := [c] + rest;
    assert cs[1..] == rest;
    assert buf[p..] == buf[p..p + size] + buf[p + size..];
    Encoded(cs);
    assert Encode8(cs) + [0] == Utf8(c) + (Encode8(rest) + [0]);
  }

  /** Recover the text of a clean path. */
  lemma {:induction false} TextOfClean(buf: seq<Byte>, p: nat) returns (cs: seq<int>)
    requires p <= |buf| && Clean(buf, p)
    ensures Text(cs) && InRange(cs)
    ensures Encode8(cs) + [0] <= buf[p..]
    decreases |buf| - p
  {
    if buf[p] == 0 {
      cs := [];
      Encoded(cs);
    } else {
      var c, size := buf[p], 1;
      if buf[p] >= 0x80 {
        CleanIsUtf8(buf, p);
        c, size := DecodeAt(buf, p).value.value, DecodeAt(buf, p).value.size;
        NeverOverlong(buf, p);
      } else {
        assert buf[p..p + 1] == Utf8(c);
      }
      var rest := TextOfClean(buf, p + size);
      cs := [c] + rest;
      TextGrows(buf, p, c, size, rest);
    }
  }

  /** The transcoder takes a buffer for a clean path exactly when it starts with well-formed UTF-8
      and its terminator. Whatever else it accepts has a lead byte from 0xf8, a following byte from
      0xc0, or a surrogate. */
  lemma WellFormedExactly(buf: seq<Byte>)
    ensures Clean(buf, 0) <==>
            exists cs :: Text(cs) && InRange(cs) && Encode8(cs) + [0] <= buf
  {
    assert buf[0..] == buf;
    if Clean(buf, 0) {
      var cs := TextOfClean(buf, 0);
    }
    if cs :| Text(cs) && InRange(cs) && Encode8(cs) + [0] <= buf {
      WideOfText(cs, buf, 0);
    }
  }

  /** A surrogate, a lead byte beyond 0xf7 and a following byte beyond 0xbf all get through. */
  lemma AcceptsSurrogate(buf: seq<Byte>)
    requires buf == [0xed, 0xa0, 0x80, 0]
    ensures Wide(buf, 0) == Some([0xd800, 0]) && !Clean(buf, 0)
  {
    FollowTwo(buf, 1, 13);
    assert DecodeAt(buf, 0) == Some(Decoding(0xd800, 3));
    assert Wide(buf, 3) == Some([0]) && Utf16(0xd800) + [0] == [0xd800, 0];
  }

  lemma AcceptsLongLead(buf: seq<Byte>)
    requires buf == [0xf8, 0x90, 0x80, 0x80, 0]
    ensures Wide(buf, 0) == Some([0xd800, 0xdc00, 0]) && !Clean(buf, 0)
  {
    FollowThree(buf, 1, 0);
    assert DecodeAt(buf, 0) == Some(Decoding(0x1_0000, 4));
    assert Wide(buf, 4) == Some([0]) && Utf16(0x1_0000) + [0] == [0xd800, 0xdc00, 0];
  }

  lemma AcceptsLatin(buf: seq<Byte>)
    requires buf == [0xc3, 0xe9, 0]
    ensures Wide(buf, 0) == Some([0xe9, 0]) && !Clean(buf, 0)
  {
    FollowOne(buf, 1, 3);
    assert DecodeAt(buf, 0) == Some(Decoding(0xe9, 2));
    assert Wide(buf, 2) == Some([0]) && Utf16(0xe9) + [0] == [0xe9, 0];
  }
}

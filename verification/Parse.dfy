/** Number, size and address/port parsing over NUL-terminated buffers. */
module Parse {
  import opened Basics

  const INT_MAX: int := 0x7fff_ffff
  const SSIZE_MAX: int := 0x7fff_ffff_ffff_ffff

  // ------------------------------------------------------------ C strings

  /** The text of a buffer: what comes before its first NUL. */
  function Text(buf: string): (t: string)
    requires '\0' in buf
    ensures |t| < |buf| && buf[|t|] == '\0' && t == buf[..|t|] && '\0' !in t
  {
    if buf[0] == '\0' then "" else [buf[0]] + Text(buf[1..])
  }

  lemma TextIs(buf: string, n: nat)
    requires n < |buf| && buf[n] == '\0' && '\0' !in buf[..n]
    ensures Text(buf) == buf[..n]
  {
  }

  lemma PartOfText(buf: string, i: nat, j: nat)
    requires '\0' in buf && i <= j <= |Text(buf)|
    ensures buf[i..j] == Text(buf)[i..j]
  {
    var t := Text(buf);
    assert forall k | i <= k < j :: buf[k] == t[k];
  }

  /** fpx_strlen */
  method Strlen(buf: string) returns (n: nat)
    requires '\0' in buf
    ensures n == |Text(buf)|
  {
    n := 0;
    while buf[n] != '\0'
      invariant n < |buf| && '\0' !in buf[..n]
      invariant exists k :: n <= k < |buf| && buf[k] == '\0'
      decreases |buf| - n
    {
      n := n + 1;
    }
    TextIs(buf, n);
  }

  /** Where c first occurs in s. */
  function IndexOf(s: string, c: char): (r: Option<nat>)
    ensures r.None? <==> c !in s
    ensures r.Some? ==> r.value < |s| && s[r.value] == c && c !in s[..r.value]
  {
    if s == "" then None
    else if s[0] == c then Some(0)
    else match IndexOf(s[1..], c) case None => None case Some(i) => Some(i + 1)
  }

  lemma IndexIs(s: string, c: char, i: nat)
    requires i < |s| && s[i] == c && c !in s[..i]
    ensures IndexOf(s, c) == Some(i)
  {
  }

  /** fpx_strchr */
  method Strchr(buf: string, c: char) returns (r: Option<nat>)
    requires '\0' in buf
    ensures r == IndexOf(Text(buf), c)
  {
    var len := Strlen(buf);
    var i := 0;
    while i < len
      invariant 0 <= i <= len && c !in buf[..i]
    {
      if buf[i] == c {
        assert buf[..i] == Text(buf)[..i];
        IndexIs(Text(buf), c, i);
        return Some(i);
      }
      i := i + 1;
    }
    return None;
  }

  // ------------------------------------------------------------ numbers

  predicate IsDigit(c: char) {
    '0' <= c <= '9'
  }

  ghost predicate AllDigits(s: string) {
    forall i | 0 <= i < |s| :: IsDigit(s[i])
  }

  /** The number a string of digits stands for. */
  function Value(s: string): nat {
    if s == "" then 0
    else Value(s[..|s| - 1]) * 10 + if IsDigit(s[|s| - 1]) then s[|s| - 1] as int - '0' as int else 0
  }

  /** What the code answers for the text s when the type's largest value is max. */
  ghost function Numeral(s: string, max: int): int {
    if s != "" && AllDigits(s) && Value(s) <= max then Value(s) else -1
  }

  lemma {:induction false} ValueGrows(s: string, n: nat)
    requires n <= |s|
    ensures Value(s[..n]) <= Value(s)
  {
    if n < |s| {
      ValueGrows(s[..|s| - 1], n);
      assert s[..|s| - 1][..n] == s[..n];
    } else {
      assert s[..n] == s;
    }
  }

  /** fpx_atoi with max = INT_MAX and fpx_atosz with max = SSIZE_MAX. No value on the way exceeds
      the type's range. */
  method Atoi(str: string, n: nat, max: int) returns (r: int)
    requires n <= |str| && max >= 0
    ensures r == Numeral(str[..n], max)
  {
    if n == 0 {
      return -1;
    }
    var cutoff, cutlim := max / 10, max % 10;
    var value := 0;
    var i := 0;
    while i < n
      invariant 0 <= i <= n && AllDigits(str[..i]) && value == Value(str[..i]) && 0 <= value <= max
    {
      if str[i] < '0' || str[i] > '9' {
        assert str[..n][i] == str[i];
        return -1;
      }
      var temp := str[i] as int - '0' as int;
      assert str[..i + 1][..i] == str[..i];
      if value >= cutoff && (value > cutoff || temp > cutlim) {
        assert Value(str[..i + 1]) > max;
        ValueGrows(str[..n], i + 1);
        assert str[..n][..i + 1] == str[..i + 1];
        return -1;
      }
      assert value * 10 + temp <= max;
      value := value * 10 + temp;
      i := i + 1;
    }
    return value;
  }

  /** The decimal digits of v. */
  function Print(v: nat): string {
    if v < 10 then [('0' as int + v) as char] else Print(v / 10) + [('0' as int + v % 10) as char]
  }

  lemma {:induction false} PrintValue(v: nat)
    ensures Print(v) != "" && AllDigits(Print(v)) && Value(Print(v)) == v
    decreases v
  {
    if v >= 10 {
      PrintValue(v / 10);
      assert Print(v)[..|Print(v)| - 1] == Print(v / 10);
    } else {
      assert Print(v)[..0] == "";
    }
  }

  // ------------------------------------------------------------ sizes

  function Scale(c: char): int {
    if c == 'K' || c == 'k' then 1024
    else if c == 'M' || c == 'm' then 1024 * 1024
    else if c == 'G' || c == 'g' then 1024 * 1024 * 1024
    else 1
  }

  /** A size: digits and perhaps one scale letter, worth v. */
  ghost predicate IsSize(t: string, v: nat) {
    || (t != "" && AllDigits(t) && v == Value(t))
    || (|t| >= 2 && Scale(t[|t| - 1]) > 1 && AllDigits(t[..|t| - 1]) && v == Value(t[..|t| - 1]) * Scale(t[|t| - 1]))
  }

  lemma ScaledFits(size: int, scale: int)
    requires scale in {1, 1024, 1024 * 1024, 1024 * 1024 * 1024} && size >= 0
    ensures size <= SSIZE_MAX / scale <==> size * scale <= SSIZE_MAX
    ensures size * scale >= 0
  {
  }

  lemma LastDigit(t: string)
    requires t != "" && AllDigits(t)
    ensures Scale(t[|t| - 1]) == 1
  {
  }

  /** The digits of a text, scaled, against the largest size there is. */
  lemma Sized(t: string, digits: string, scale: int, size: int)
    requires t != "" && scale == Scale(t[|t| - 1]) && digits == (if scale > 1 then t[..|t| - 1] else t)
    requires size == Numeral(digits, SSIZE_MAX)
    ensures forall v: nat | IsSize(t, v) :: (size != -1 && size <= SSIZE_MAX / scale) == (v <= SSIZE_MAX)
    ensures forall v: nat | IsSize(t, v) && v <= SSIZE_MAX :: size * scale == v
    ensures size != -1 ==> IsSize(t, size * scale) && (size <= SSIZE_MAX / scale <==> size * scale <= SSIZE_MAX)
  {
    if AllDigits(t) {
      LastDigit(t);
    }
    if size >= 0 {
      ScaledFits(size, scale);
    } else if AllDigits(digits) && digits != "" {
      assert Value(digits) * scale > SSIZE_MAX;
    }
  }

  /** fpx_config_parse_size: the size when the text is one and it fits, -1 otherwise. */
  method ParseSize(str: string) returns (r: int)
    requires '\0' in str
    ensures r == -1 || (0 <= r <= 0x7fff_ffff_ffff_ffff && IsSize(Text(str), r))
    ensures forall v: nat | IsSize(Text(str), v) :: r == if v <= 0x7fff_ffff_ffff_ffff then v else -1
  {
    ghost var t := Text(str);
    var len := Strlen(str);
    if len == 0 {
      return -1;
    }
    var prefix := str[len - 1];
    var max, scale;
    match prefix {
      case 'K' | 'k' =>
        len, max, scale := len - 1, SSIZE_MAX / 1024, 1024;
      case 'M' | 'm' =>
        len, max, scale := len - 1, SSIZE_MAX / (1024 * 1024), 1024 * 1024;
      case 'G' | 'g' =>
        len, max, scale := len - 1, SSIZE_MAX / (1024 * 1024 * 1024), 1024 * 1024 * 1024;
      case _ =>
        max, scale := SSIZE_MAX, 1;
    }
    assert scale == Scale(prefix) && max == SSIZE_MAX / scale;
    assert str[..len] == if scale > 1 then t[..|t| - 1] else t;
    var size := Atoi(str, len, SSIZE_MAX);
    Sized(t, str[..len], scale, size);
    if size == -1 || size > max {
      return -1;
    }
    return size * scale;
  }

  /** A text is worth at most one size. */
  lemma SizeIsUnique(t: string, v: nat, w: nat)
    requires IsSize(t, v) && IsSize(t, w)
    ensures v == w
  {
  }

  lemma Lettered(s: string, c: char)
    requires s != "" && AllDigits(s) && Scale(c) > 1
    ensures IsSize(s + [c], Value(s) * Scale(c))
  {
    assert (s + [c])[..|s|] == s;
  }

  /** Printing a size, scaled or not, gives a text worth exactly that size: K stands for 2 to the 10th
      bytes, M for 2 to the 20th and G for 2 to the 30th, in either case of letter. */
  lemma PrintedSize(v: nat)
    ensures IsSize(Print(v), v)
    ensures IsSize(Print(v) + "K", v * 1024) && IsSize(Print(v) + "k", v * 1024)
    ensures IsSize(Print(v) + "M", v * 1048576) && IsSize(Print(v) + "m", v * 1048576)
    ensures IsSize(Print(v) + "G", v * 1073741824) && IsSize(Print(v) + "g", v * 1073741824)
  {
    PrintValue(v);
    var s := Print(v);
    Lettered(s, 'K');
    Lettered(s, 'k');
    Lettered(s, 'M');
    Lettered(s, 'm');
    Lettered(s, 'G');
    Lettered(s, 'g');
  }

  ghost predicate Decimal(s: string) {
    s != "" && forall i | 0 <= i < |s| :: s[i] in "0123456789"
  }

  /** The last character decides: after a digit all must be digits, after one of the six letters what stands
      before it, and a text that ends in anything else is worth no size. */
  lemma SizeExactly(t: string, v: nat)
    requires t != ""
    ensures IsSize(t, v) <==>
            var head, last := t[..|t| - 1], t[|t| - 1];
            if last in "0123456789" then Decimal(t) && v == Value(t)
            else if last in "Kk" then Decimal(head) && v == Value(head) * 1024
            else if last in "Mm" then Decimal(head) && v == Value(head) * 1048576
            else if last in "Gg" then Decimal(head) && v == Value(head) * 1073741824
            else false
    ensures !IsSize("", v)
  {
    assert forall c: char :: c in "0123456789" <==> IsDigit(c);
    assert Decimal(t) <==> AllDigits(t);
    assert Decimal(t[..|t| - 1]) <==> |t| > 1 && AllDigits(t[..|t| - 1]);
  }

  /** The number a text of digits stands for is to base ten: a digit behind it counts once, what was there
      ten times. */
  lemma DigitBehind(s: string, c: char)
    requires c in "0123456789"
    ensures Value("") == 0
    ensures exists d :: 0 <= d < 10 && "0123456789"[d] == c && Value(s + [c]) == 10 * Value(s) + d
  {
    var d :| 0 <= d < 10 && "0123456789"[d] == c;
    assert (s + [c])[..|s|] == s;
  }

  // ------------------------------------------------------------ address and port

  /** What the listen directive gets. A port of None means that *port was never written. */
  datatype Endpoint =
    | Invalid
    | Ipv4(addr: string, port: Option<string>)
    | Ipv6(addr: string, port: Option<string>)

  ghost predicate IsPort(p: string) {
    p != "" && AllDigits(p) && 1 <= Value(p) <= 65535
  }

  /** Where the digits that end t begin. */
  function DigitsFrom(t: string): (n: nat)
    ensures n <= |t| && (forall i | n <= i < |t| :: IsDigit(t[i])) && (n > 0 ==> !IsDigit(t[n - 1]))
  {
    if t == "" || !IsDigit(t[|t| - 1]) then |t| else DigitsFrom(t[..|t| - 1])
  }

  lemma DigitsFromIs(t: string, n: nat)
    requires n <= |t| && (forall i | n <= i < |t| :: IsDigit(t[i])) && (n > 0 ==> !IsDigit(t[n - 1]))
    ensures DigitsFrom(t) == n
  {
  }

  /** The host part h of the text t: a bracketed address runs to the first ], any other address
      must not contain one. */
  function Host(t: string, h: string, port: Option<string>): Endpoint
    requires h != "" && h <= t
  {
    if t[0] == '[' then
      if ']' in t && h[|h| - 1] == ']' then Ipv6(t[1..IndexOf(t, ']').value], port) else Invalid
    else if ']' in t then Invalid
    else Ipv4(h, port)
  }

  /** The reading of a listen argument: a bare port, or a host with or without a colon and a port. */
  ghost function Listen(t: string): Endpoint {
    var n := DigitsFrom(t);
    if n == 0 then
      if IsPort(t) then Ipv4("0.0.0.0", Some(t)) else Invalid
    else if n < |t| && t[n - 1] == ':' then
      if n == 1 || !IsPort(t[n..]) then Invalid else Host(t, t[..n - 1], Some(t[n..]))
    else
      Host(t, t, None)
  }

  /** The backward scan over the digits that end the text; the position before them is -1 when
      there is nothing else. */
  method ScanBack(str: string, len: nat) returns (pos: int)
    requires '\0' in str && len == |Text(str)|
    ensures pos == DigitsFrom(Text(str)) - 1
  {
    ghost var t := Text(str);
    pos := len as int - 1;
    while pos >= 0 && IsDigit(str[pos])
      invariant -1 <= pos < len && forall i | pos < i < |t| :: IsDigit(t[i])
    {
      pos := pos - 1;
    }
    DigitsFromIs(t, pos + 1);
  }

  /** The text from position from on, if it is a port number: it is copied. */
  method TakePort(str: string, from: nat) returns (port: Option<string>)
    requires '\0' in str && from <= |Text(str)|
    ensures port == if IsPort(Text(str)[from..]) then Some(Text(str)[from..]) else None
  {
    var len := Strlen(str);
    var text := str[from..len];
    PartOfText(str, from, len);
    var number := Atoi(text, len - from, INT_MAX);
    assert text[..len - from] == text == Text(str)[from..];
    port := if number < 1 || number > 65535 then None else Some(text);
  }

  /** fpx_config_parse_addr_port. */
  method ParseAddrPort(str: string) returns (r: Endpoint)
    requires '\0' in str
    ensures r == Listen(Text(str))
  {
    ghost var t := Text(str);
    var len := Strlen(str);
    var pos := ScanBack(str, len);
    var end := len as int - 1;
    if pos < 0 {
      var number := TakePort(str, 0);
      assert t[0..] == t;
      return if number == None then Invalid else Ipv4("0.0.0.0", number);
    }
    var port := None;
    assert str[pos] == t[pos];
    if str[pos] == ':' && pos < end {
      if pos == 0 {
        return Invalid;
      }
      port := TakePort(str, pos + 1);
      if port == None {
        return Invalid;
      }
      end := pos - 1;
    } else {
      assert t[..end + 1] == t;
    }
    r := TakeHost(str, end, port);
  }

  /** The second half: the host runs up to and including position end. */
  method TakeHost(str: string, end: nat, port: Option<string>) returns (r: Endpoint)
    requires '\0' in str && end < |Text(str)|
    ensures r == Host(Text(str), Text(str)[..end + 1], port)
  {
    ghost var t, h := Text(str), Text(str)[..end + 1];
    assert str[0] == t[0] && str[end] == t[end] == h[|h| - 1];
    var close := Strchr(str, ']');
    if str[0] == '[' {
      if close.None? || str[end] != ']' {
        return Invalid;
      }
      PartOfText(str, 1, close.value);
      return Ipv6(str[1..close.value], port);
    }
    if close.Some? {
      return Invalid;
    }
    PartOfText(str, 0, end + 1);
    return Ipv4(str[0..end + 1], port);
  }

  // ------------------------------------------------------------ round trips

  function PrintEndpoint(e: Endpoint): string
    requires !e.Invalid? && e.port.Some?
  {
    match e
    case Ipv4(a, p) => a + ":" + p.value
    case Ipv6(a, p) => "[" + a + "]:" + p.value
  }

  /** The host and port printed with a colon read back as that host and port. */
  lemma ColonPort(h: string, p: string)
    requires h != "" && IsPort(p)
    ensures Listen(h + ":" + p) == Host(h + ":" + p, h, Some(p))
  {
    var t := h + ":" + p;
    var n := |h| + 1;
    assert t[n..] == p && t[n - 1] == ':' && t[..n - 1] == h;
    assert forall i | n <= i < |t| :: t[i] == p[i - n];
    DigitsFromIs(t, n);
  }

  /** Printing and parsing: a plain address is non-empty, has no ] and does not start with [. */
  lemma PlainRoundTrip(a: string, p: string)
    requires a != "" && a[0] != '[' && ']' !in a && IsPort(p)
    ensures Listen(PrintEndpoint(Ipv4(a, Some(p)))) == Ipv4(a, Some(p))
  {
    ColonPort(a, p);
    var t := a + ":" + p;
    assert ']' !in p by {
      assert forall i | 0 <= i < |p| :: IsDigit(p[i]);
    }
    assert t[0] == a[0];
  }

  /** A bracketed address only must not contain ]. */
  lemma BracketRoundTrip(a: string, p: string)
    requires ']' !in a && IsPort(p)
    ensures Listen(PrintEndpoint(Ipv6(a, Some(p)))) == Ipv6(a, Some(p))
  {
    var h := "[" + a + "]";
    var t := "[" + a + "]:" + p;
    assert t == h + ":" + p;
    ColonPort(h, p);
    assert t[..|a| + 1] == "[" + a && t[|a| + 1] == ']';
    IndexIs(t, ']', |a| + 1);
    assert t[1..|a| + 1] == a;
  }

  /** A bare port stands for every IPv4 address. */
  lemma PortAlone(t: string)
    requires t == "" || AllDigits(t)
    ensures Listen(t) == if IsPort(t) then Ipv4("0.0.0.0", Some(t)) else Invalid
  {
  }

  /** A text read with a port that is not all of it is a host, a colon and that port. */
  lemma SplitAtPort(t: string) returns (h: string, p: string)
    requires !Listen(t).Invalid? && Listen(t).port.Some? && !AllDigits(t)
    ensures h != "" && IsPort(p) && t == h + ":" + p && h <= t && Listen(t) == Host(t, h, Some(p))
  {
    var n := DigitsFrom(t);
    h, p := t[..n - 1], t[n..];
    assert t == h + ":" + p;
  }

  /** In host, colon and port no ] stands after the end of a host that ends with one. */
  lemma LastBracket(t: string, h: string, p: string, i: nat)
    requires h != "" && AllDigits(p) && t == h + ":" + p && i < |t| && t[i] == ']'
    ensures i < |h|
  {
  }

  /** A bracketed host followed by a port is reproduced exactly when its first ] is its last. */
  lemma BracketsReproduce(t: string, h: string, p: string)
    requires h != "" && IsPort(p) && t == h + ":" + p && h <= t && Host(t, h, Some(p)).Ipv6?
    ensures PrintEndpoint(Host(t, h, Some(p))) == t <==> IndexOf(t, ']').value == |h| - 1
  {
    var c := IndexOf(t, ']').value;
    assert t[|h| - 1] == h[|h| - 1] == ']';
    var a := t[1..c];
    assert |"[" + a + "]:" + p| == c + 2 + |p| && |t| == |h| + 1 + |p|;
    if c == |h| - 1 {
      assert h == "[" + a + "]";
      assert "[" + a + "]:" + p == "[" + a + "]" + ":" + p;
    }
  }

  /** Conversely, printing what was read from a text with a colon and a port gives the text back
      exactly when it is a plain address or its only ] closes the bracket. */
  lemma AcceptedIsReproduced(t: string)
    requires !Listen(t).Invalid? && Listen(t).port.Some? && !AllDigits(t)
    ensures IsPort(Listen(t).port.value)
    ensures PrintEndpoint(Listen(t)) == t <==>
            Listen(t).Ipv4? || forall i | 0 <= i < |t| && t[i] == ']' :: i == IndexOf(t, ']').value
  {
    var h, p := SplitAtPort(t);
    if Listen(t).Ipv6? {
      var c := IndexOf(t, ']').value;
      BracketsReproduce(t, h, p);
      assert t[|h| - 1] == h[|h| - 1] == ']';
      if c == |h| - 1 {
        var before := t[..c];
        assert forall i | 0 <= i < c :: before[i] == t[i];
        forall i | 0 <= i < |t| && t[i] == ']' ensures i == c {
          LastBracket(t, h, p, i);
        }
      }
    }
  }

  /** The port is left unwritten, though the text is accepted, exactly when the text is not a bare
      number, has no colon with digits after it, and its brackets are right. */
  lemma PortUnwritten(t: string)
    ensures !Listen(t).Invalid? && Listen(t).port.None? <==>
            && DigitsFrom(t) > 0
            && !(DigitsFrom(t) < |t| && t[DigitsFrom(t) - 1] == ':')
            && (if t[0] == '[' then t[|t| - 1] == ']' else ']' !in t)
  {
  }

  // ------------------------------------------------------------ brackets

  /** What a host is read as: one that starts with [ has to end with ], and its address runs to the first ];
      any other must not have one, and is the address itself. */
  ghost predicate HostReads(h: string, port: Option<string>, e: Endpoint)
    requires h != ""
  {
    if h[0] == '[' then
      if h[|h| - 1] == ']' then
        exists a, x :: h == "[" + a + "]" + x && ']' !in a && e == Ipv6(a, port)
      else e == Invalid
    else if ']' in h then e == Invalid
    else e == Ipv4(h, port)
  }

  /** The host h of a text in which what follows it has no bracket. */
  lemma HostOf(t: string, h: string, rest: string, port: Option<string>)
    requires h != "" && t == h + rest && ']' !in rest
    ensures HostReads(h, port, Host(t, h, port))
  {
    assert h <= t && t[0] == h[0];
    assert ']' in t <==> ']' in h;
    if h[0] == '[' && h[|h| - 1] == ']' {
      var c := IndexOf(t, ']').value;
      assert forall i | 0 <= i < c :: t[i] == t[..c][i];
      assert h[|h| - 1] == t[|h| - 1] && c < |h|;
      assert t[1..c] == h[1..c];
      assert h == "[" + h[1..c] + "]" + h[c + 1..];
    }
  }

  /** A text that ends in a colon and digits is refused when nothing stands before the colon or the digits
      are no port number, and else is what the host makes it. */
  lemma WithPort(h: string, d: string)
    requires d != "" && AllDigits(d)
    ensures h == "" || Value(d) < 1 || Value(d) > 65535 ==> Listen(h + ":" + d) == Invalid
    ensures h != "" && 1 <= Value(d) <= 65535 ==> HostReads(h, Some(d), Listen(h + ":" + d))
  {
    var t, n := h + ":" + d, |h| + 1;
    assert t[n - 1] == ':' && t[n..] == d && t[..n - 1] == h;
    assert forall i | n <= i < |t| :: t[i] == d[i - n];
    DigitsFromIs(t, n);
    if h != "" && IsPort(d) {
      assert t == h + (":" + d);
      assert forall i | 0 <= i < |d| :: IsDigit(d[i]);
      HostOf(t, h, ":" + d, Some(d));
    }
  }

  /** Any other text that is not all digits is a host without a port. */
  lemma WithoutPort(t: string)
    requires t != "" && !AllDigits(t)
    requires forall h, d | t == h + ":" + d && d != "" :: !AllDigits(d)
    ensures HostReads(t, None, Listen(t))
  {
    var n := DigitsFrom(t);
    if 0 < n < |t| && t[n - 1] == ':' {
      assert t == t[..n - 1] + ":" + t[n..];
      assert AllDigits(t[n..]);
    }
    HostOf(t, t, "", None);
    assert t + "" == t;
  }
}

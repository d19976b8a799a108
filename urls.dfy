/** The parts of Go's `net/url` package the downloader depends on: `url.Parse`,
    `(*URL).String`, `(*URL).ResolveReference` (section 5.2 of RFC 3986) and
    the path-segment resolution it uses. */
module Urls {
  import opened Text

  /** A parsed URL. `rawPath` is the escaped path that resolution works on
      (Go's `EscapedPath()`), `path` its decoded form (Go's `Path`). */
  datatype Url = Url(
    scheme: string,
    opaquePart: string,
    user: Option<string>,
    host: string,
    path: string,
    rawPath: string,
    omitHost: bool,
    forceQuery: bool,
    rawQuery: string,
    rawFragment: string)

  datatype UrlError =
    | InvalidControlCharacter
    | MissingProtocolScheme
    | ColonInFirstSegment
    | MissingBracketInHost
    | InvalidPort
    | InvalidEscape

  const EmptyUrl: Url := Url("", "", None, "", "", "", false, false, "", "")

  predicate IsHex(c: char) { IsDigit(c) || 'a' <= c <= 'f' || 'A' <= c <= 'F' }

  function HexValue(c: char): (v: nat)
    requires IsHex(c)
    ensures v < 16
  {
    if IsDigit(c) then DigitValue(c)
    else if 'a' <= c <= 'f' then c as int - 'a' as int + 10
    else c as int - 'A' as int + 10
  }

  type Byte = x: int | 0 <= x < 256

  /** What `%`-unescaping yields before the bytes are read as UTF-8: a
      character of the input as it stands, or the byte of a `%XX` escape. */
  datatype Piece = Literal(c: char) | Escaped(b: Byte)

  /** Go's `unescape` in path and fragment mode, up to the bytes: every `%`
      must start a two-digit hexadecimal escape. */
  function UnescapePieces(s: string): Option<seq<Piece>>
    decreases |s|
  {
    if s == [] then Some([])
    else if s[0] == '%' then
      if |s| >= 3 && IsHex(s[1]) && IsHex(s[2]) then
        match UnescapePieces(s[3..])
        case Some(t) => Some([Escaped(HexValue(s[1]) * 16 + HexValue(s[2]))] + t)
        case None => None
      else None
    else
      match UnescapePieces(s[1..])
      case Some(t) => Some([Literal(s[0])] + t)
      case None => None
  }

  /** Position `k` holds an escaped byte in `[lo, hi]`. */
  predicate EscapedIn(u: seq<Piece>, k: nat, lo: int, hi: int) {
    k < |u| && u[k].Escaped? && lo <= u[k].b <= hi
  }

  /** The character the escaped bytes at the start of `u` encode in UTF-8,
      and how many bytes it takes; a byte that does not start a well-formed
      sequence is read as U+FFFD on its own, as Go's `range` over a string
      does. The accepted ranges are those of Go's `unicode/utf8`. */
  function DecodeRune(u: seq<Piece>): (r: (char, nat))
    requires u != [] && u[0].Escaped?
    ensures 1 <= r.1 <= |u|
  {
    var b0 := u[0].b;
    if b0 < 0x80 then (b0 as char, 1)
    else if 0xC2 <= b0 <= 0xDF && EscapedIn(u, 1, 0x80, 0xBF) then
      (((b0 - 0xC0) * 64 + (u[1].b - 0x80)) as char, 2)
    else if 0xE0 <= b0 <= 0xEF
            && EscapedIn(u, 1, if b0 == 0xE0 then 0xA0 else 0x80, if b0 == 0xED then 0x9F else 0xBF)
            && EscapedIn(u, 2, 0x80, 0xBF) then
      (((b0 - 0xE0) * 4096 + (u[1].b - 0x80) * 64 + (u[2].b - 0x80)) as char, 3)
    else if 0xF0 <= b0 <= 0xF4
            && EscapedIn(u, 1, if b0 == 0xF0 then 0x90 else 0x80, if b0 == 0xF4 then 0x8F else 0xBF)
            && EscapedIn(u, 2, 0x80, 0xBF) && EscapedIn(u, 3, 0x80, 0xBF) then
      (((b0 - 0xF0) * 262144 + (u[1].b - 0x80) * 4096 + (u[2].b - 0x80) * 64 + (u[3].b - 0x80)) as char, 4)
    else ('\U{FFFD}', 1)
  }

  /** The characters of the unescaped string: literal characters stay, and
      each run of escaped bytes is read as UTF-8. */
  function DecodePieces(u: seq<Piece>): string
    decreases |u|
  {
    if u == [] then []
    else match u[0]
      case Literal(c) => [c] + DecodePieces(u[1..])
      case Escaped(_) => var (c, n) := DecodeRune(u); [c] + DecodePieces(u[n..])
  }

  /** Go's `unescape` in path and fragment mode: the escapes must be well
      formed, and the resulting bytes are read as UTF-8. */
  function Unescape(s: string): Option<string> {
    match UnescapePieces(s)
    case None => None
    case Some(u) => Some(DecodePieces(u))
  }

  // ---- the inverse of Unescape: percent-encoding UTF-8 ---------------------

  /** The UTF-8 encoding of a character. */
  function Utf8(c: char): (r: seq<Byte>)
    ensures 1 <= |r| <= 4
  {
    var v := c as int;
    if v < 0x80 then [v]
    else if v < 0x800 then [0xC0 + v / 64, 0x80 + v % 64]
    else if v < 0x10000 then [0xE0 + v / 4096, 0x80 + v / 64 % 64, 0x80 + v % 64]
    else [0xF0 + v / 262144, 0x80 + v / 4096 % 64, 0x80 + v / 64 % 64, 0x80 + v % 64]
  }

  function HexDigit(n: nat): (c: char)
    requires n < 16
    ensures IsHex(c) && HexValue(c) == n
  {
    if n < 10 then DigitChar(n) else ('A' as int + n - 10) as char
  }

  /** `%XX` for every byte. */
  function PercentEncode(bytes: seq<Byte>): string {
    if bytes == [] then "" else ['%', HexDigit(bytes[0] / 16), HexDigit(bytes[0] % 16)] + PercentEncode(bytes[1..])
  }

  /** Every character written as the percent-encoding of its UTF-8 bytes. */
  function EscapeAll(s: string): string {
    if s == [] then "" else PercentEncode(Utf8(s[0])) + EscapeAll(s[1..])
  }

  function Escapes(bytes: seq<Byte>): (r: seq<Piece>)
    ensures |r| == |bytes|
    ensures forall k :: 0 <= k < |r| ==> r[k] == Escaped(bytes[k])
  {
    if bytes == [] then [] else [Escaped(bytes[0])] + Escapes(bytes[1..])
  }

  /** Unescaping a run of `%XX` escapes yields their bytes. */
  lemma {:induction false} UnescapePercentEncode(bytes: seq<Byte>, rest: string)
    ensures UnescapePieces(PercentEncode(bytes) + rest)
            == match UnescapePieces(rest) case Some(u) => Some(Escapes(bytes) + u) case None => None
  {
    if bytes != [] {
      var s := PercentEncode(bytes) + rest;
      var tail := PercentEncode(bytes[1..]) + rest;
      assert s == ['%', HexDigit(bytes[0] / 16), HexDigit(bytes[0] % 16)] + tail;
      assert s[3..] == tail;
      UnescapePercentEncode(bytes[1..], rest);
      match UnescapePieces(rest)
      case Some(u) =>
        assert Escapes(bytes) + u == [Escaped(bytes[0])] + (Escapes(bytes[1..]) + u);
      case None =>
    } else {
      assert PercentEncode(bytes) + rest == rest;
      match UnescapePieces(rest)
      case Some(u) => assert Escapes(bytes) + u == u;
      case None =>
    }
  }

  /** The UTF-8 decoder reads back the encoding of a character, whatever follows it. */
  lemma DecodeUtf8(c: char, tail: seq<Piece>)
    ensures DecodeRune(Escapes(Utf8(c)) + tail) == (c, |Utf8(c)|)
  {
    var v := c as int;
    var u := Escapes(Utf8(c)) + tail;
    assert forall k :: 0 <= k < |Utf8(c)| ==> u[k] == Escaped(Utf8(c)[k]);
    if v < 0x80 {
    } else if v < 0x800 {
      DecodeTwo(c, u);
    } else if v < 0x10000 {
      DecodeThree(c, u);
    } else {
      DecodeFour(c, u);
    }
  }

  lemma DecodeTwo(c: char, u: seq<Piece>)
    requires 0x80 <= c as int < 0x800 && |u| >= 2
    requires u[0] == Escaped(Utf8(c)[0]) && u[1] == Escaped(Utf8(c)[1])
    ensures DecodeRune(u) == (c, 2)
  {
    var v := c as int;
    assert (v / 64) * 64 + v % 64 == v;
  }

  lemma DecodeThree(c: char, u: seq<Piece>)
    requires 0x800 <= c as int < 0x10000 && |u| >= 3
    requires forall k :: 0 <= k < 3 ==> u[k] == Escaped(Utf8(c)[k])
    ensures DecodeRune(u) == (c, 3)
  {
    var v := c as int;
    var b0, b1, b2 := u[0].b, u[1].b, u[2].b;
    assert b0 == 0xE0 + v / 4096 && b1 == 0x80 + v / 64 % 64 && b2 == 0x80 + v % 64;
    assert v / 4096 * 4096 + v / 64 % 64 * 64 + v % 64 == v;
  }

  lemma DecodeFour(c: char, u: seq<Piece>)
    requires 0x10000 <= c as int && |u| >= 4
    requires forall k :: 0 <= k < 4 ==> u[k] == Escaped(Utf8(c)[k])
    ensures DecodeRune(u) == (c, 4)
  {
    var v := c as int;
    FourByteFields(v);
    var b0, b1, b2, b3 := u[0].b, u[1].b, u[2].b, u[3].b;
    assert b0 == 0xF0 + v / 262144 && b1 == 0x80 + v / 4096 % 64;
    assert b2 == 0x80 + v / 64 % 64 && b3 == 0x80 + v % 64;
  }

  /** The four fields of a supplementary code point, and the bounds that
      keep its UTF-8 bytes inside the accepted ranges. */
  lemma FourByteFields(v: int)
    requires 0x10000 <= v < 0x110000
    ensures var q3, q2, q1, q0 := v / 262144, v / 4096 % 64, v / 64 % 64, v % 64;
            && 0 <= q3 <= 4 && 0 <= q2 < 64 && 0 <= q1 < 64 && 0 <= q0 < 64
            && (q3 == 0 ==> q2 >= 16) && (q3 == 4 ==> q2 < 16)
            && q3 * 262144 + q2 * 4096 + q1 * 64 + q0 == v
  {
  }

  /** Decoding the escaped UTF-8 bytes of a character yields that character. */
  lemma DecodeEncoded(c: char, tail: seq<Piece>)
    ensures DecodePieces(Escapes(Utf8(c)) + tail) == [c] + DecodePieces(tail)
  {
    var u := Escapes(Utf8(c)) + tail;
    DecodeUtf8(c, tail);
    assert u[0] == Escaped(Utf8(c)[0]);
    assert u[|Utf8(c)|..] == tail;
  }

  /** `Unescape` inverts percent-encoding: the escaped bytes of a string's
      UTF-8 encoding unescape to that string. */
  lemma {:induction false} UnescapeEscapeAll(s: string)
    ensures Unescape(EscapeAll(s)) == Some(s)
  {
    if s != [] {
      UnescapeEscapeAll(s[1..]);
      UnescapePercentEncode(Utf8(s[0]), EscapeAll(s[1..]));
      var u := UnescapePieces(EscapeAll(s[1..])).value;
      DecodeEncoded(s[0], u);
      assert [s[0]] + s[1..] == s;
    }
  }

  function Literals(s: string): (r: seq<Piece>)
    ensures |r| == |s|
  {
    if s == [] then [] else [Literal(s[0])] + Literals(s[1..])
  }

  /** A string without `%` unescapes to itself. */
  lemma {:induction false} UnescapeWithoutEscapes(s: string)
    requires NoChar(s, '%')
    ensures Unescape(s) == Some(s)
  {
    LiteralPieces(s);
  }

  lemma {:induction false} LiteralPieces(s: string)
    requires NoChar(s, '%')
    ensures UnescapePieces(s) == Some(Literals(s)) && DecodePieces(Literals(s)) == s
  {
    if s != [] {
      LiteralPieces(s[1..]);
      assert Literals(s)[1..] == Literals(s[1..]);
      assert [s[0]] + s[1..] == s;
    }
  }

  /** Text without `%` in front of the rest unescapes to itself in front
      of whatever the rest unescapes to. */
  lemma UnescapeAfterLiterals(a: string, b: string)
    requires NoChar(a, '%')
    ensures Unescape(a + b) == match Unescape(b) case Some(t) => Some(a + t) case None => None
  {
    LiteralsBefore(a, b);
    match UnescapePieces(b)
    case Some(u) => DecodeAfterLiterals(a, u);
    case None =>
  }

  lemma {:induction false} LiteralsBefore(a: string, b: string)
    requires NoChar(a, '%')
    ensures UnescapePieces(a + b)
            == match UnescapePieces(b) case Some(u) => Some(Literals(a) + u) case None => None
  {
    if a == [] {
      assert a + b == b;
      match UnescapePieces(b)
      case Some(u) => assert Literals(a) + u == u;
      case None =>
    } else {
      assert (a + b)[1..] == a[1..] + b;
      LiteralsBefore(a[1..], b);
      match UnescapePieces(b)
      case Some(u) => assert Literals(a) + u == [Literal(a[0])] + (Literals(a[1..]) + u);
      case None =>
    }
  }

  lemma {:induction false} DecodeAfterLiterals(a: string, u: seq<Piece>)
    ensures DecodePieces(Literals(a) + u) == a + DecodePieces(u)
  {
    if a == [] {
      assert Literals(a) + u == u;
    } else {
      assert Literals(a) + u == [Literal(a[0])] + (Literals(a[1..]) + u);
      DecodeLiteral(a[0], Literals(a[1..]) + u);
      DecodeAfterLiterals(a[1..], u);
      assert a + DecodePieces(u) == [a[0]] + (a[1..] + DecodePieces(u));
    }
  }

  lemma DecodeLiteral(c: char, u: seq<Piece>)
    ensures DecodePieces([Literal(c)] + u) == [c] + DecodePieces(u)
  {
    assert ([Literal(c)] + u)[1..] == u;
  }

  /** Go's `stringContainsCTLByte`. */
  predicate HasControlCharacter(s: string) {
    exists i :: 0 <= i < |s| && (s[i] < ' ' || s[i] == '\U{7F}')
  }

  /** Go's `getScheme`, scanning from position `i`: the scheme and the rest. */
  function GetScheme(raw: string, i: nat): Result<(string, string), UrlError>
    requires i <= |raw|
    decreases |raw| - i
  {
    if i == |raw| then Ok(("", raw))
    else
      var c := raw[i];
      if IsLetter(c) then GetScheme(raw, i + 1)
      else if IsDigit(c) || c == '+' || c == '-' || c == '.' then
        if i == 0 then Ok(("", raw)) else GetScheme(raw, i + 1)
      else if c == ':' then
        if i == 0 then Err(MissingProtocolScheme) else Ok((raw[..i], raw[i + 1..]))
      else Ok(("", raw))
  }

  /** Go's `validOptionalPort`. */
  predicate ValidOptionalPort(port: string) {
    port == "" || (port[0] == ':' && AllDigits(port[1..]))
  }

  /** Go's `parseHost`, without the percent-unescaping of host names. */
  function ParseHost(host: string): Result<string, UrlError> {
    if HasPrefix(host, "[") then
      var j := LastIndexOf(host, ']');
      if j < 0 then Err(MissingBracketInHost)
      else if !ValidOptionalPort(host[j + 1..]) then Err(InvalidPort)
      else Ok(host)
    else
      var j := LastIndexOf(host, ':');
      if j >= 0 && !ValidOptionalPort(host[j..]) then Err(InvalidPort) else Ok(host)
  }

  /** Go's `parseAuthority`: optional user information before the last `@`, then the host. */
  function ParseAuthority(authority: string): Result<(Option<string>, string), UrlError> {
    var i := LastIndexOf(authority, '@');
    var hostPart := if i < 0 then authority else authority[i + 1..];
    match ParseHost(hostPart)
    case Err(e) => Err(e)
    case Ok(h) => Ok((if i < 0 then None else Some(authority[..i]), h))
  }

  /** Go's `(*URL).setPath`: the path is kept when its escapes are well formed. */
  function SetPath(u: Url, p: string): Result<Url, UrlError> {
    match Unescape(p)
    case None => Err(InvalidEscape)
    case Some(d) => Ok(u.(path := d, rawPath := p))
  }

  /** Go's `parse(rawURL, false)`: everything but the fragment. */
  function ParseNoFragment(raw: string): Result<Url, UrlError> {
    if HasControlCharacter(raw) then Err(InvalidControlCharacter)
    else match GetScheme(raw, 0)
    case Err(e) => Err(e)
    case Ok((sch, rest0)) =>
      var scheme := ToLowerAscii(sch);
      var split := if HasSuffix(rest0, "?") && CountChar(rest0, '?') == 1
                   then (rest0[..|rest0| - 1], true, "")
                   else var c := Cut(rest0, '?'); (c.0, false, c.1);
      var rest := split.0;
      var u := EmptyUrl.(scheme := scheme, forceQuery := split.1, rawQuery := split.2);
      if !HasPrefix(rest, "/") && scheme != "" then Ok(u.(opaquePart := rest))
      else if !HasPrefix(rest, "/") && !NoChar(Cut(rest, '/').0, ':') then Err(ColonInFirstSegment)
      else if (scheme != "" || !HasPrefix(rest, "///")) && HasPrefix(rest, "//") then
        var c := Cut(rest[2..], '/');
        var authority := c.0;
        var tail := if c.2 then "/" + c.1 else "";
        match ParseAuthority(authority)
        case Err(e) => Err(e)
        case Ok((user, host)) => SetPath(u.(user := user, host := host), tail)
      else
        SetPath(u.(omitHost := scheme != "" && HasPrefix(rest, "/")), rest)
  }

  /** Go's `url.Parse`: the fragment after the first `#` is split off first. */
  function Parse(raw: string): Result<Url, UrlError> {
    var c := Cut(raw, '#');
    match ParseNoFragment(c.0)
    case Err(e) => Err(e)
    case Ok(u) =>
      if c.1 == "" then Ok(u)
      else if Unescape(c.1).None? then Err(InvalidEscape)
      else Ok(u.(rawFragment := c.1))
  }

  /** Without a `:` from position `i` on, `getScheme` finds no scheme. */
  lemma {:induction false} GetSchemeWithoutColon(raw: string, i: nat)
    requires i <= |raw| && forall j :: i <= j < |raw| ==> raw[j] != ':'
    ensures GetScheme(raw, i) == Ok(("", raw))
    decreases |raw| - i
  {
    if i < |raw| {
      GetSchemeWithoutColon(raw, i + 1);
    }
  }

  /** A relative path with no `:`, `?`, `#` or `%` and no control character
      parses to a URL holding only that path. */
  lemma ParseRelativePath(raw: string)
    requires raw != [] && raw[0] != '/' && !HasControlCharacter(raw)
    requires NoChar(raw, ':') && NoChar(raw, '?') && NoChar(raw, '#') && NoChar(raw, '%')
    ensures Parse(raw) == Ok(EmptyUrl.(path := raw, rawPath := raw))
  {
    RelativePathSteps(raw);
    assert EmptyUrl.(scheme := "", forceQuery := false, rawQuery := "").(omitHost := false) == EmptyUrl;
    assert ParseNoFragment(raw) == SetPath(EmptyUrl, raw);
  }

  /** Step of `ParseRelativePath`: each test `parse` makes on the path. */
  lemma RelativePathSteps(raw: string)
    requires raw != [] && raw[0] != '/'
    requires NoChar(raw, ':') && NoChar(raw, '?') && NoChar(raw, '#') && NoChar(raw, '%')
    ensures GetScheme(raw, 0) == Ok(("", raw)) && ToLowerAscii("") == ""
    ensures !HasSuffix(raw, "?") && Cut(raw, '?') == (raw, "", false) && Cut(raw, '#') == (raw, "", false)
    ensures !HasPrefix(raw, "/") && !HasPrefix(raw, "//") && !HasPrefix(raw, "///")
    ensures NoChar(Cut(raw, '/').0, ':')
    ensures SetPath(EmptyUrl, raw) == Ok(EmptyUrl.(path := raw, rawPath := raw))
  {
    GetSchemeWithoutColon(raw, 0);
    assert raw[|raw| - 1] != '?';
    RelativePrefixes(raw);
    UnescapeWithoutEscapes(raw);
  }

  /** Step of `RelativePathSteps`: the path is not rooted, and its first
      segment has no `:`. */
  lemma RelativePrefixes(raw: string)
    requires raw != [] && raw[0] != '/' && NoChar(raw, ':')
    ensures !HasPrefix(raw, "/") && !HasPrefix(raw, "//") && !HasPrefix(raw, "///")
    ensures NoChar(Cut(raw, '/').0, ':')
  {
    assert |raw| < 2 || raw[..2][0] == raw[0];
    assert |raw| < 3 || raw[..3][0] == raw[0];
    var c := Cut(raw, '/');
    if c.2 {
      assert forall k :: 0 <= k < |c.0| ==> c.0[k] == raw[k];
    }
  }

  /** A control character before any `#` makes `url.Parse` fail. */
  lemma ParseRejectsControl(raw: string)
    requires HasControlCharacter(Cut(raw, '#').0)
    ensures Parse(raw) == Err(InvalidControlCharacter)
  {
  }

  /** Go's `(*URL).String`. */
  function ToString(u: Url): string {
    var prefix := if u.scheme != "" then u.scheme + ":" else "";
    var body :=
      if u.opaquePart != "" then u.opaquePart
      else
        var auth :=
          if u.scheme != "" || u.host != "" || u.user.Some? then
            if u.omitHost && u.host == "" && u.user.None? then ""
            else
              (if u.host != "" || u.path != "" || u.user.Some? then "//" else "")
              + (if u.user.Some? then u.user.value + "@" else "")
              + u.host
          else "";
        var p := u.rawPath;
        var slash := if p != "" && p[0] != '/' && u.host != "" then "/" else "";
        var dot := if prefix + auth + slash == "" && !NoChar(Cut(p, '/').0, ':') then "./" else "";
        auth + slash + dot + p;
    var query := if u.forceQuery || u.rawQuery != "" then "?" + u.rawQuery else "";
    var fragment := if u.rawFragment != "" then "#" + u.rawFragment else "";
    prefix + body + query + fragment
  }

  /** `String` of a URL with a scheme, a host, a rooted (or empty) raw path,
      perhaps a query and nothing else is `scheme://host` followed by that
      path and then `?` and the query when there is one. */
  lemma ToStringOfHostAndPath(u: Url)
    requires u.scheme != "" && u.host != "" && u.opaquePart == "" && u.user.None?
    requires u.rawPath == "" || u.rawPath[0] == '/'
    requires !u.forceQuery && u.rawFragment == ""
    ensures u.rawQuery == "" ==> ToString(u) == u.scheme + "://" + u.host + u.rawPath
    ensures u.rawQuery != "" ==> ToString(u) == u.scheme + "://" + u.host + u.rawPath + "?" + u.rawQuery
  {
  }

  /** One step of dot-segment removal over a stack of output segments. */
  function DotStep(stack: seq<string>, elem: string): seq<string> {
    if elem == "." then stack
    else if elem == ".." then (if |stack| > 0 then stack[..|stack| - 1] else stack)
    else stack + [elem]
  }

  function DotFold(stack: seq<string>, elems: seq<string>): seq<string>
    decreases |elems|
  {
    if elems == [] then stack else DotFold(DotStep(stack, elems[0]), elems[1..])
  }

  /** The merge of section 5.2.3 of RFC 3986: a relative reference replaces
      the base's last element. */
  function MergePaths(base: string, ref: string): string {
    if ref == "" then base
    else if ref[0] != '/' then base[..LastIndexOf(base, '/') + 1] + ref
    else ref
  }

  /** Go's `resolvePath`: merge the reference path with the base path, then
      remove dot segments (sections 5.2.3 and 5.2.4 of RFC 3986). */
  function ResolvePath(base: string, ref: string): string {
    RemoveDotSegments(MergePaths(base, ref))
  }

  /** The dot-segment removal of section 5.2.4 of RFC 3986 over `/`-separated
      elements, as Go's `resolvePath` writes it. */
  function RemoveDotSegments(full: string): string {
    if full == "" then ""
    else
      var src := Split(full, '/');
      var dst := DotFold([], src);
      var last := src[|src| - 1];
      var dst' := if last == "." || last == ".." then dst + [""] else dst;
      var joined := JoinWith(dst', '/');
      "/" + (if HasPrefix(joined, "/") then joined[1..] else joined)
  }

  /** The merged path is empty only when both paths are, and is rooted
      otherwise. */
  lemma ResolvePathRooted(base: string, ref: string)
    ensures var r := ResolvePath(base, ref);
            && (r == "" <==> base == "" && ref == "")
            && (r != "" ==> r[0] == '/')
  {
  }

  /** A rooted merged path with no `.` or `..` element is the resolved path. */
  lemma ResolvePathWithoutDots(base: string, ref: string)
    requires HasPrefix(MergePaths(base, ref), "/")
    requires forall e :: e in Split(MergePaths(base, ref), '/') ==> e != "." && e != ".."
    ensures ResolvePath(base, ref) == MergePaths(base, ref)
  {
    DotFreeKept(MergePaths(base, ref));
  }

  /** Step of `ResolvePathWithoutDots`: a rooted path without dot segments
      has none to remove. */
  lemma DotFreeKept(full: string)
    requires HasPrefix(full, "/")
    requires forall e :: e in Split(full, '/') ==> e != "." && e != ".."
    ensures RemoveDotSegments(full) == full
  {
    DotFreeSteps(full);
    SplitThenJoin(full, '/');
    RemovalKeeps(full, Split(full, '/'));
  }

  /** Step of `DotFreeKept`: the removal, once its stages are known to keep
      the elements `src` of `full`. */
  lemma RemovalKeeps(full: string, src: seq<string>)
    requires HasPrefix(full, "/") && src == Split(full, '/') && JoinWith(src, '/') == full
    requires src[|src| - 1] != "." && src[|src| - 1] != ".." && DotFold([], src) == src
    ensures RemoveDotSegments(full) == full
  {
    RootedTail(full);
  }

  lemma RootedTail(full: string)
    requires HasPrefix(full, "/")
    ensures "/" + full[1..] == full
  {
    assert full[..1] == "/";
  }

  /** Step of `DotFreeKept`: dot removal keeps the elements, and the last
      element is no dot segment. */
  lemma DotFreeSteps(full: string)
    requires forall e :: e in Split(full, '/') ==> e != "." && e != ".."
    ensures var src := Split(full, '/');
            var last := src[|src| - 1];
            last != "." && last != ".." && DotFold([], src) == src
  {
    var src := Split(full, '/');
    DotFoldKeeps([], src);
    assert src[|src| - 1] in src;
  }

  /** Dot-segment removal keeps a sequence of elements without dots. */
  lemma {:induction false} DotFoldKeeps(stack: seq<string>, elems: seq<string>)
    requires forall e :: e in elems ==> e != "." && e != ".."
    ensures DotFold(stack, elems) == stack + elems
    decreases |elems|
  {
    if elems != [] {
      assert elems[0] in elems;
      assert forall e :: e in elems[1..] ==> e in elems;
      DotFoldKeeps(stack + [elems[0]], elems[1..]);
      assert stack + [elems[0]] + elems[1..] == stack + elems;
    }
  }

  /** A relative reference of a path of its own, resolved against a base
      with a hierarchical path: the base's scheme and authority, the
      resolved path, and nothing else. */
  lemma ResolveRelativeReference(base: Url, ref: Url, p: string)
    requires ref == EmptyUrl.(path := p, rawPath := p) && p != [] && base.opaquePart == ""
    requires NoChar(ResolvePath(base.rawPath, p), '%')
    ensures var q := ResolvePath(base.rawPath, p);
            ResolveReference(base, ref)
            == EmptyUrl.(scheme := base.scheme, user := base.user, host := base.host, path := q, rawPath := q)
  {
    UnescapeWithoutEscapes(ResolvePath(base.rawPath, p));
  }

  /** A reference to a sibling `ref` of `/a/name` resolves to `/a/ref`
      when no element is a dot segment. */
  lemma ResolveSibling(a: string, name: string, ref: string)
    requires NoChar(a, '/') && NoChar(name, '/') && NoChar(ref, '/')
    requires ref != [] && a != "." && a != ".." && ref != "." && ref != ".."
    ensures ResolvePath("/" + a + "/" + name, ref) == "/" + a + "/" + ref
  {
    var dir := "/" + a + "/";
    MergeRelative(dir, name, ref);
    SplitRooted(a, '/', ref);
    ResolvePathWithoutDots(dir + name, ref);
  }

  /** A relative reference replaces everything after the base's last `/`. */
  lemma MergeRelative(dir: string, name: string, ref: string)
    requires dir != [] && dir[|dir| - 1] == '/' && NoChar(name, '/')
    requires ref != [] && ref[0] != '/'
    ensures MergePaths(dir + name, ref) == dir + ref
  {
    var b := dir + name;
    assert forall i :: |dir| - 1 < i < |b| ==> b[i] == name[i - |dir|];
    LastIndexOfIs(b, '/', |dir| - 1);
    assert b[..|dir|] == dir;
  }

  /** Go's `setPath` where the error is ignored, as in `ResolveReference`. */
  function WithPath(u: Url, p: string): Url {
    match SetPath(u, p)
    case Ok(v) => v
    case Err(_) => u
  }

  /** Go's `(*URL).ResolveReference`: `ref` resolved against the base `u`. */
  function ResolveReference(u: Url, ref: Url): (r: Url)
    ensures ref.rawQuery != "" ==> r.rawQuery == ref.rawQuery
    ensures ref.rawQuery == "" && (ref.path != "" || ref.forceQuery) ==> r.rawQuery == ""
  {
    var url := ref.(scheme := if ref.scheme == "" then u.scheme else ref.scheme);
    if ref.scheme != "" || ref.host != "" || ref.user.Some? then
      WithPath(url, ResolvePath(ref.rawPath, ""))
    else if ref.opaquePart != "" then
      url.(user := None, host := "", path := "", rawPath := "")
    else
      var url1 :=
        if ref.path == "" && !ref.forceQuery && ref.rawQuery == "" then
          url.(rawQuery := u.rawQuery,
               rawFragment := if ref.rawFragment == "" then u.rawFragment else url.rawFragment)
        else url;
      if ref.path == "" && u.opaquePart != "" then
        url1.(opaquePart := u.opaquePart, user := None, host := "", path := "", rawPath := "")
      else
        WithPath(url1.(host := u.host, user := u.user), ResolvePath(u.rawPath, ref.rawPath))
  }
}

/** The parts of Go's `path` package the downloader depends on. */
module Paths {
  import opened Text

  function StripTrailingSlashes(p: string): (r: string)
    ensures r == [] || r[|r| - 1] != '/'
    ensures |r| <= |p| && r == p[..|r|]
    ensures forall i :: |r| <= i < |p| ==> p[i] == '/'
  {
    if |p| > 0 && p[|p| - 1] == '/' then StripTrailingSlashes(p[..|p| - 1]) else p
  }

  /** Go's `path.Base`: the last element, "." for the empty path and "/"
      for a path of slashes only. */
  function Base(p: string): (r: string)
    ensures r != ""
    ensures r == "/" || NoChar(r, '/')
    ensures p == "" ==> r == "."
  {
    if p == "" then "."
    else
      var t := StripTrailingSlashes(p);
      var last := t[LastIndexOf(t, '/') + 1..];
      if last == "" then "/" else last
  }

  /** `path.Base` of a non-empty path of slashes only is "/". */
  lemma BaseOfSlashes(p: string)
    requires p != "" && forall i :: 0 <= i < |p| ==> p[i] == '/'
    ensures Base(p) == "/"
  {
  }

  /** `r` is the last element of `p` when the path is cut at `e`: a
      slash-free slice ending at `e`, starting at the beginning of the path
      or right after a slash, with only slashes after `e`. */
  predicate IsLastElement(p: string, e: nat, r: string)
    requires e <= |p|
  {
    && NoChar(r, '/') && |r| <= e
    && (e == |r| || p[e - |r| - 1] == '/')
    && (forall i :: e <= i < |p| ==> p[i] == '/')
    && p[e - |r|..e] == r
  }

  /** `path.Base` of a path with a character other than `/` is its last
      element, once the trailing slashes are cut off. */
  lemma BaseOfElement(p: string, i: nat)
    requires i < |p| && p[i] != '/'
    ensures IsLastElement(p, |StripTrailingSlashes(p)|, Base(p))
  {
    var t := StripTrailingSlashes(p);
    var j := LastIndexOf(t, '/');
    LastElement(t, j);
    ElementEndingAt(p, |t|, j, Base(p));
  }

  /** The text after a slash (or the start) at `j` in the prefix `p[..e]`
      is a slice of `p` that ends at `e` and is preceded by that slash. */
  lemma ElementEndingAt(p: string, e: nat, j: int, r: string)
    requires -1 <= j < e <= |p| && (j >= 0 ==> p[j] == '/')
    requires r == p[..e][j + 1..] && NoChar(r, '/')
    requires forall i :: e <= i < |p| ==> p[i] == '/'
    ensures IsLastElement(p, e, r)
  {
    assert r == p[j + 1..e];
  }

  /** Of a text that does not end in a slash, the part after its last
      slash `j` is non-empty, slash-free, and starts at the beginning or
      right after a slash. */
  lemma LastElement(t: string, j: int)
    requires t != [] && t[|t| - 1] != '/'
    requires -1 <= j < |t| && (j >= 0 ==> t[j] == '/')
    requires forall i :: j < i < |t| ==> t[i] != '/'
    ensures j < |t| - 1 && NoChar(t[j + 1..], '/')
  {
    NoCharAfter(t, j, '/');
  }

  /** No `c` after position `j` means the text after `j` is free of `c`. */
  lemma NoCharAfter(t: string, j: int, c: char)
    requires -1 <= j < |t|
    requires forall i :: j < i < |t| ==> t[i] != c
    ensures NoChar(t[j + 1..], c)
  {
    var last := t[j + 1..];
    forall k | 0 <= k < |last| ensures last[k] != c {
      assert last[k] == t[j + 1 + k];
    }
  }

  /** The basenames that carry no file name: both the segment-identity
      deriver and the output-directory deriver reject these. */
  predicate IsInvalidBaseName(b: string) { b == "" || b == "." || b == "/" }

  /** Extending a slice by a character other than `c` keeps it free of `c`. */
  lemma NoCharExtendAll(p: string, i: nat, c: char)
    requires 0 < i <= |p| && p[i - 1] != c
    ensures forall m :: 0 < m < i ==> (NoChar(p[m..i], c) <==> NoChar(p[m..i - 1], c))
  {
    forall m | 0 < m < i ensures NoChar(p[m..i], c) <==> NoChar(p[m..i - 1], c) {
      assert p[m..i] == p[m..i - 1] + [p[i - 1]];
      NoCharAppend(p[m..i - 1], [p[i - 1]], c);
    }
  }

  /** The extension of `p[..i]`, scanning back from `i`. */
  function ExtFrom(p: string, i: nat): (r: string)
    requires i <= |p| && NoChar(p[i..], '/') && NoChar(p[i..], '.')
    ensures r == "" || (r[0] == '.' && HasSuffix(p, r) && NoChar(r, '/') && NoChar(r[1..], '.'))
    ensures r == "" <==> forall j :: 0 <= j < i && p[j] == '.' ==> !NoChar(p[j + 1..i], '/')
  {
    if i == 0 || p[i - 1] == '/' then ""
    else if p[i - 1] == '.' then p[i - 1..]
    else
      NoCharExtendAll(p, i, '/');
      ExtFrom(p, i - 1)
  }

  /** Go's `path.Ext`: the suffix from the last `.` of the last element, or "". */
  function Ext(p: string): (r: string)
    ensures r == "" || (r[0] == '.' && HasSuffix(p, r) && NoChar(r, '/') && NoChar(r[1..], '.'))
    ensures r == "" <==> forall j :: 0 <= j < |p| && p[j] == '.' ==> !NoChar(p[j + 1..], '/')
  {
    ExtFrom(p, |p|)
  }

  lemma {:induction false} ExtFromStem(stem: string, ext: string, i: nat)
    requires |ext| > 0 && ext[0] == '.' && NoChar(ext[1..], '.') && NoChar(ext, '/')
    requires |stem| < i <= |stem| + |ext|
    ensures NoChar((stem + ext)[i..], '/')
    ensures ExtFrom(stem + ext, i) == ext
  {
    var p := stem + ext;
    assert p[i..] == ext[i - |stem|..];
    assert p[i - 1] == ext[i - 1 - |stem|];
    if i - 1 == |stem| {
      assert p[i - 1..] == ext;
    } else {
      assert ext[i - 1 - |stem|] == ext[1..][i - 2 - |stem|];
      ExtFromStem(stem, ext, i - 1);
    }
  }

  /** A name that is a stem followed by one dotted extension has that extension. */
  lemma ExtOfStem(stem: string, ext: string)
    requires |ext| > 0 && ext[0] == '.' && NoChar(ext[1..], '.') && NoChar(ext, '/')
    ensures Ext(stem + ext) == ext
    ensures TrimSuffix(stem + ext, ext) == stem
  {
    ExtFromStem(stem, ext, |stem| + |ext|);
    assert (stem + ext)[|stem|..] == ext;
  }

  /** A name without any dot has no extension. */
  lemma {:induction false} ExtFromNoDot(p: string, i: nat)
    requires i <= |p| && NoChar(p, '.') && NoChar(p, '/')
    ensures ExtFrom(p, i) == ""
  {
    if i > 0 {
      ExtFromNoDot(p, i - 1);
    }
  }

  /** `path.Base` of a directory joined with a plain name by hand. */
  lemma BaseOfSuffix(dir: string, name: string)
    requires IsPlainName(name)
    ensures Base(dir + "/" + name) == name
  {
    var p := dir + "/" + name;
    assert p[|p| - |name|..] == name;
    assert p[|p| - |name| - 1] == '/';
    BaseOfName(p, name);
  }

  /** One step of Go's `path.Clean` over the stack of kept elements. */
  function CleanStep(rooted: bool, stack: seq<string>, elem: string): seq<string> {
    if elem == "" || elem == "." then stack
    else if elem == ".." then
      if |stack| > 0 && stack[|stack| - 1] != ".." then stack[..|stack| - 1]
      else if rooted then stack
      else stack + [".."]
    else stack + [elem]
  }

  function CleanFold(rooted: bool, stack: seq<string>, elems: seq<string>): seq<string>
    decreases |elems|
  {
    if elems == [] then stack else CleanFold(rooted, CleanStep(rooted, stack, elems[0]), elems[1..])
  }

  /** Go's `path.Clean`: the shortest path equivalent to `p` by purely
      lexical processing. */
  function Clean(p: string): string {
    var rooted := HasPrefix(p, "/");
    var stack := CleanFold(rooted, [], Split(p, '/'));
    var out := (if rooted then "/" else "") + JoinWith(stack, '/');
    if out == "" then "." else out
  }

  lemma {:induction false} CleanFoldAppend(rooted: bool, stack: seq<string>, elems: seq<string>, x: string)
    ensures CleanFold(rooted, stack, elems + [x]) == CleanStep(rooted, CleanFold(rooted, stack, elems), x)
    decreases |elems|
  {
    if elems == [] {
      assert elems + [x] == [x];
    } else {
      assert (elems + [x])[1..] == elems[1..] + [x];
      CleanFoldAppend(rooted, CleanStep(rooted, stack, elems[0]), elems[1..], x);
    }
  }

  /** Every element is non-empty and slash-free. */
  predicate AreElements(stack: seq<string>) {
    forall k :: 0 <= k < |stack| ==> stack[k] != "" && NoChar(stack[k], '/')
  }

  /** The stack of kept elements only ever holds real elements. */
  lemma {:induction false} CleanFoldElements(rooted: bool, stack: seq<string>, elems: seq<string>)
    requires AreElements(stack)
    requires forall k :: 0 <= k < |elems| ==> NoChar(elems[k], '/')
    ensures AreElements(CleanFold(rooted, stack, elems))
    decreases |elems|
  {
    if elems != [] {
      var next := CleanStep(rooted, stack, elems[0]);
      assert AreElements(next);
      assert forall k :: 0 <= k < |elems[1..]| ==> elems[1..][k] == elems[k + 1];
      CleanFoldElements(rooted, next, elems[1..]);
    }
  }

  /** Joined elements do not start with a slash. */
  lemma JoinElements(stack: seq<string>)
    requires AreElements(stack)
    ensures JoinWith(stack, '/') == "" || JoinWith(stack, '/')[0] != '/'
  {
    if |stack| > 1 {
      assert JoinWith(stack, '/') == stack[0] + ['/'] + JoinWith(stack[1..], '/');
      assert JoinWith(stack, '/')[0] == stack[0][0];
    }
  }

  /** `path.Clean` keeps a path rooted exactly when it was rooted. */
  lemma CleanRooted(p: string)
    ensures HasPrefix(Clean(p), "/") <==> HasPrefix(p, "/")
  {
    var rooted := HasPrefix(p, "/");
    SplitPiecesFree(p, '/');
    CleanFoldElements(rooted, [], Split(p, '/'));
    JoinElements(CleanFold(rooted, [], Split(p, '/')));
  }

  /** A plain name: one non-empty path element other than `.` and `..`. */
  predicate IsPlainName(name: string) {
    name != "" && name != "." && name != ".." && NoChar(name, '/')
  }

  /** A path ending in a plain name splits into some elements and the name. */
  lemma SplitEndsWithName(p: string, name: string) returns (elems: seq<string>)
    requires IsPlainName(name)
    requires p == name || (|p| > |name| && p[|p| - |name| - 1] == '/' && p[|p| - |name|..] == name)
    ensures Split(p, '/') == elems + [name]
  {
    if p == name {
      SplitNoSeparator(name, '/');
      elems := [];
    } else {
      var q := p[..|p| - |name| - 1];
      assert p == q + ['/'] + name;
      SplitAppend(q, '/', name);
      elems := Split(q, '/');
    }
  }

  /** Joining elements that end in a plain name, after an optional root. */
  lemma JoinEndsWithName(prefix: string, stack: seq<string>, name: string)
    requires IsPlainName(name) && (prefix == "" || prefix == "/")
    ensures var out := prefix + JoinWith(stack + [name], '/');
            out != "" && (out == name || (|out| > |name| && out[|out| - |name| - 1] == '/' && out[|out| - |name|..] == name))
  {
    JoinWithAppend(stack, name, '/');
    var out := prefix + JoinWith(stack + [name], '/');
    if stack == [] {
      assert out == prefix + name;
    } else {
      assert out == (prefix + JoinWith(stack, '/')) + ['/'] + name;
    }
  }

  /** Cleaning a path that ends in a plain name keeps the name last, after a
      slash unless it is all that is left. */
  lemma CleanEndsWithName(p: string, name: string)
    requires IsPlainName(name)
    requires p == name || (|p| > |name| && p[|p| - |name| - 1] == '/' && p[|p| - |name|..] == name)
    ensures var c := Clean(p);
            c == name || (|c| > |name| && c[|c| - |name| - 1] == '/' && c[|c| - |name|..] == name)
  {
    var stack := CleanFoldEndsWithName(p, name);
    var prefix := if HasPrefix(p, "/") then "/" else "";
    JoinEndsWithName(prefix, stack, name);
    CleanOfFold(p, stack + [name]);
  }

  lemma CleanFoldEndsWithName(p: string, name: string) returns (stack: seq<string>)
    requires IsPlainName(name)
    requires p == name || (|p| > |name| && p[|p| - |name| - 1] == '/' && p[|p| - |name|..] == name)
    ensures CleanFold(HasPrefix(p, "/"), [], Split(p, '/')) == stack + [name]
  {
    var rooted := HasPrefix(p, "/");
    var elems := SplitEndsWithName(p, name);
    stack := CleanFold(rooted, [], elems);
    CleanFoldAppend(rooted, [], elems, name);
  }

  lemma CleanOfFold(p: string, stack: seq<string>)
    requires CleanFold(HasPrefix(p, "/"), [], Split(p, '/')) == stack
    requires (if HasPrefix(p, "/") then "/" else "") + JoinWith(stack, '/') != ""
    ensures Clean(p) == (if HasPrefix(p, "/") then "/" else "") + JoinWith(stack, '/')
  {
  }

  /** `path.Base` of a path ending in a plain name is that name. */
  lemma BaseOfName(p: string, name: string)
    requires IsPlainName(name)
    requires p == name || (|p| > |name| && p[|p| - |name| - 1] == '/' && p[|p| - |name|..] == name)
    ensures Base(p) == name
  {
    assert p[|p| - 1] == name[|name| - 1];
    assert StripTrailingSlashes(p) == p;
    if p == name {
      assert LastIndexOf(p, '/') == -1;
    } else {
      var k := |p| - |name| - 1;
      assert forall i :: k < i < |p| ==> p[i] == name[i - k - 1];
      LastIndexOfIs(p, '/', k);
    }
  }

  /** The last element of a directory joined with a plain name is the name. */
  lemma BaseOfJoin(dir: string, name: string)
    requires IsPlainName(name)
    ensures Base(Join(dir, name)) == name
  {
    if dir == "" {
      CleanEndsWithName(name, name);
      BaseOfName(Clean(name), name);
    } else {
      var p := dir + "/" + name;
      assert p[|p| - |name| - 1] == '/' && p[|p| - |name|..] == name;
      CleanEndsWithName(p, name);
      BaseOfName(Clean(p), name);
    }
  }

  /** Go's `path.Join` of two elements. */
  function Join(a: string, b: string): string {
    if a == "" && b == "" then ""
    else if a == "" then Clean(b)
    else Clean(a + "/" + b)
  }
}

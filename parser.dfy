/** The M3U8 playlist parser and the segment-identity deriver
    (internal/parser/m3u8_parser.go). */
module Parser {
  import opened Text
  import Urls
  import Paths

  /** The result of parsing one playlist document. */
  datatype Playlist = Playlist(urls: seq<string>, isMaster: bool, mediaSequence: int)

  datatype ParseError = UnrecognizedFormat | BadBaseUrl(cause: Urls.UrlError)

  datatype SegmentIdError = BadSegmentUrl(cause: Urls.UrlError) | InvalidFilename

  const MasterMarker: string := "#EXT-X-STREAM-INF"
  const MediaMarker: string := "#EXTINF"
  const MediaSequenceTag: string := "#EXT-X-MEDIA-SEQUENCE:"

  // ---- classification and Parse ----------------------------------------

  /** `Parse`: classify the document by its markers, read the media sequence,
      and resolve every reference line against `baseURL`. */
  function Parse(content: string, baseURL: string): (r: Result<Playlist, ParseError>)
    ensures r.Ok? <==> (Contains(content, MasterMarker) || Contains(content, MediaMarker))
                       && Urls.Parse(baseURL).Ok?
    ensures !Contains(content, MasterMarker) && !Contains(content, MediaMarker)
            ==> r == Err(UnrecognizedFormat)
    ensures r.Ok? ==> r.value.isMaster == (Contains(content, MasterMarker) && !Contains(content, MediaMarker))
    ensures r.Ok? ==> r.value.mediaSequence == MediaSequence(content)
    ensures r.Ok? ==> r.value.urls == ScanURLs(Lines(content), LineResolver(Urls.Parse(baseURL).value))
  {
    var isMaster := Contains(content, MasterMarker);
    var isMedia := Contains(content, MediaMarker);
    if !isMaster && !isMedia then Err(UnrecognizedFormat)
    else
      var mediaSeq := MediaSequence(content);
      match Urls.Parse(baseURL)
      case Err(e) => Err(BadBaseUrl(e))
      case Ok(base) => Ok(Playlist(ScanURLs(Lines(content), LineResolver(base)), isMaster && !isMedia, mediaSeq))
  }

  // ---- extractMediaSequence ---------------------------------------------

  /** The regular expression `#EXT-X-MEDIA-SEQUENCE:(\d+)` matches at `i`. */
  predicate TagWithDigitAt(s: string, i: nat) {
    i + |MediaSequenceTag| < |s| && s[i..i + |MediaSequenceTag|] == MediaSequenceTag
    && IsDigit(s[i + |MediaSequenceTag|])
  }

  /** The leftmost match of the media-sequence expression at or after `i`. */
  function FirstTagWithDigit(s: string, i: nat): (r: Option<nat>)
    requires i <= |s|
    ensures r.Some? ==> i <= r.value < |s| && TagWithDigitAt(s, r.value)
    ensures r.Some? ==> forall j :: i <= j < r.value ==> !TagWithDigitAt(s, j)
    ensures r.None? ==> forall j :: i <= j <= |s| ==> !TagWithDigitAt(s, j)
    decreases |s| - i
  {
    if i == |s| then None
    else if TagWithDigitAt(s, i) then Some(i)
    else FirstTagWithDigit(s, i + 1)
  }

  /** `extractMediaSequence`: the digits of the leftmost match, or 0 when
      there is no match or the digits overflow `int`. */
  function MediaSequence(content: string): (r: int)
    ensures 0 <= r <= MaxInt
    ensures !Contains(content, MediaSequenceTag) ==> r == 0
  {
    match FirstTagWithDigit(content, 0)
    case None => 0
    case Some(i) =>
      ContainsAt(content, MediaSequenceTag, i);
      match Atoi(LeadingDigits(content[i + |MediaSequenceTag|..]))
      case Some(v) => v
      case None => 0
  }

  /** A document where the tag is never followed by a digit has media
      sequence 0, even when the tag itself is present. */
  lemma MediaSequenceWithoutMatch(content: string)
    requires forall j :: 0 <= j <= |content| ==> !TagWithDigitAt(content, j)
    ensures MediaSequence(content) == 0
  {
  }

  lemma {:induction false} ContainsAt(s: string, sub: string, i: nat)
    requires i + |sub| <= |s| && s[i..i + |sub|] == sub
    ensures Contains(s, sub)
  {
    if i > 0 {
      assert s[1..][i - 1..i - 1 + |sub|] == sub;
      ContainsAt(s[1..], sub, i - 1);
    }
  }

  lemma LeadingDigitsOf(d: string, rest: string)
    requires AllDigits(d)
    requires rest == [] || !IsDigit(rest[0])
    ensures LeadingDigits(d + rest) == d
  {
    var t := d + rest;
    var lead := LeadingDigits(t);
    assert |t| == |d| || t[|d|] == rest[0];
    assert forall i :: 0 <= i < |d| ==> t[i] == d[i];
    assert lead == t[..|lead|];
    assert t[..|d|] == d;
  }

  /** The tag's only `#` is its first character. */
  lemma TagHasOneHash()
    ensures forall m :: 0 < m < |MediaSequenceTag| ==> MediaSequenceTag[m] != MediaSequenceTag[0]
  {
  }

  /** A character inside an occurrence of `t` is the matching character of `t`. */
  lemma CharOfOccurrence(s: string, t: string, j: nat, i: nat)
    requires j <= i < j + |t| <= |s| && s[j..j + |t|] == t
    ensures s[i] == t[i - j]
  {
    assert s[j..j + |t|][i - j] == s[i];
  }

  /** An occurrence of `t` that starts inside `p` would have to end inside
      `p` when the first character of `t` occurs nowhere else in it. */
  lemma {:induction false} NoOccurrenceBefore(p: string, t: string, tail: string, j: nat)
    requires t != [] && forall m :: 0 < m < |t| ==> t[m] != t[0]
    requires !Contains(p, t) && j < |p|
    ensures var s := p + t + tail;
            !(j + |t| <= |s| && s[j..j + |t|] == t)
  {
    var s := p + t + tail;
    if j + |t| <= |s| && s[j..j + |t|] == t {
      var w := s[j..j + |t|];
      if j + |t| <= |p| {
        assert w == p[j..j + |t|];
        ContainsAt(p, t, j);
      } else {
        CharOfOccurrence(s, t, j, |p|);
      }
    }
  }

  /** When `p` does not contain the tag, no match starts inside `p`. */
  lemma NoMatchBeforeTag(p: string, tail: string, j: nat)
    requires !Contains(p, MediaSequenceTag) && j < |p|
    ensures !TagWithDigitAt(p + MediaSequenceTag + tail, j)
  {
    TagHasOneHash();
    NoOccurrenceBefore(p, MediaSequenceTag, tail, j);
  }

  /** The leftmost match at or after `i` is `k` when `k` matches and nothing
      in between does. */
  lemma {:induction false} FirstTagWithDigitIs(s: string, i: nat, k: nat)
    requires i <= k < |s| && TagWithDigitAt(s, k)
    requires forall j :: i <= j < k ==> !TagWithDigitAt(s, j)
    ensures FirstTagWithDigit(s, i) == Some(k)
    decreases k - i
  {
    if i < k {
      FirstTagWithDigitIs(s, i + 1, k);
    }
  }

  /** The first match of a document is its first occurrence of the tag, when
      that occurrence is followed by a digit. */
  lemma FirstTagAt(p: string, tail: string)
    requires !Contains(p, MediaSequenceTag)
    requires tail != [] && IsDigit(tail[0])
    ensures var s := p + MediaSequenceTag + tail;
            FirstTagWithDigit(s, 0) == Some(|p|) && s[|p| + |MediaSequenceTag|..] == tail
  {
    var s := p + MediaSequenceTag + tail;
    var k := |p| + |MediaSequenceTag|;
    assert s[|p|..k] == MediaSequenceTag;
    assert s[k] == tail[0];
    assert TagWithDigitAt(s, |p|);
    forall j | 0 <= j < |p| ensures !TagWithDigitAt(s, j) {
      NoMatchBeforeTag(p, tail, j);
    }
    FirstTagWithDigitIs(s, 0, |p|);
    assert s[k..] == tail;
  }

  /** In a document where the first occurrence of the media-sequence tag is
      followed by the maximal digit run `d`, the media sequence is the value
      of `d`, or 0 when that value does not fit in `int`. The text before the
      tag is arbitrary apart from not containing the tag, so it may hold the
      `#EXTM3U` header and any other tags. */
  lemma MediaSequenceOfFirstTag(p: string, d: string, rest: string)
    requires !Contains(p, MediaSequenceTag)
    requires d != [] && AllDigits(d)
    requires rest == [] || !IsDigit(rest[0])
    ensures MediaSequence(p + MediaSequenceTag + d + rest)
            == if DecimalValue(d) <= MaxInt then DecimalValue(d) else 0
  {
    assert p + MediaSequenceTag + d + rest == p + MediaSequenceTag + (d + rest);
    assert (d + rest)[0] == d[0];
    FirstTagAt(p, d + rest);
    LeadingDigitsOf(d, rest);
  }

  /** The media sequence written in decimal after the first tag is read back. */
  lemma MediaSequenceRoundTrip(p: string, n: nat, rest: string)
    requires !Contains(p, MediaSequenceTag)
    requires n <= MaxInt
    requires rest == [] || !IsDigit(rest[0])
    ensures MediaSequence(p + MediaSequenceTag + NatToString(n) + rest) == n
  {
    MediaSequenceOfFirstTag(p, NatToString(n), rest);
  }

  // ---- line scanning (extractURLsFromContent) ----------------------------

  function DropCR(line: string): string {
    if HasSuffix(line, "\r") then line[..|line| - 1] else line
  }

  function DropCRs(pieces: seq<string>): (r: seq<string>)
    ensures |r| == |pieces|
    ensures forall k :: 0 <= k < |r| ==> r[k] == DropCR(pieces[k])
  {
    if pieces == [] then [] else [DropCR(pieces[0])] + DropCRs(pieces[1..])
  }

  /** The lines `bufio.Scanner` yields with `ScanLines`: pieces between
      newlines, a trailing carriage return dropped, and no empty token after
      a final newline. */
  function Lines(content: string): seq<string> {
    var pieces := Split(content, '\n');
    var kept := if pieces[|pieces| - 1] == "" then pieces[..|pieces| - 1] else pieces;
    DropCRs(kept)
  }

  /** No scanned line holds a newline. */
  lemma LinesFreeOfNewline(content: string)
    ensures forall k :: 0 <= k < |Lines(content)| ==> NoChar(Lines(content)[k], '\n')
  {
    var pieces := Split(content, '\n');
    SplitPiecesFree(content, '\n');
    var kept := if pieces[|pieces| - 1] == "" then pieces[..|pieces| - 1] else pieces;
    assert forall k :: 0 <= k < |kept| ==> kept[k] == pieces[k];
    forall k | 0 <= k < |kept| ensures NoChar(DropCR(kept[k]), '\n') {
      assert NoChar(kept[k], '\n');
    }
  }

  /** What one scanned line contributes: nothing for a blank or comment line
      or an unparseable reference, otherwise its resolution. */
  function LineURL(line: string, base: Urls.Url): Option<string> {
    var t := TrimSpace(line);
    if HasPrefix(t, "#") || t == "" then None
    else match ParseRelativeURL(t, base)
      case Ok(u) => Some(u)
      case Err(_) => None
  }

  /** A line contributes exactly when, trimmed, it is non-empty, is not a
      comment and parses; it then contributes its resolution. */
  lemma LineContribution(line: string, base: Urls.Url)
    ensures var t := TrimSpace(line);
            && (LineURL(line, base).Some? <==> t != "" && !HasPrefix(t, "#") && Urls.Parse(t).Ok?)
            && (LineURL(line, base).Some? ==>
                  LineURL(line, base).value == Urls.ToString(ResolveInheritingQuery(base, Urls.Parse(t).value)))
  {
  }

  /** `LineURL` against a fixed base, as a value. */
  function LineResolver(base: Urls.Url): string -> Option<string> {
    line => LineURL(line, base)
  }

  /** The URLs a scanner loop collects from `lines`, in order, when `resolve`
      says what each line contributes. */
  function ScanURLs(lines: seq<string>, resolve: string -> Option<string>): seq<string> {
    if lines == [] then []
    else
      ScanURLs(lines[..|lines| - 1], resolve)
      + (match resolve(lines[|lines| - 1]) case Some(u) => [u] case None => [])
  }

  /** `extractURLsFromContent`: the scanner loop appending to `urls`. */
  method ExtractURLsFromContent(content: string, base: Urls.Url) returns (urls: seq<string>)
    ensures urls == ScanURLs(Lines(content), LineResolver(base))
  {
    var lines := Lines(content);
    urls := [];
    for i := 0 to |lines|
      invariant urls == ScanURLs(lines[..i], LineResolver(base))
    {
      ScanURLsStep(lines, i, LineResolver(base));
      var line := TrimSpace(lines[i]);
      if HasPrefix(line, "#") || line == "" {
        continue;
      }
      var parsed := ParseRelativeURL(line, base);
      if parsed.Err? {
        continue;
      }
      urls := urls + [parsed.value];
    }
    assert lines[..|lines|] == lines;
  }

  /** One more line extends the scan by that line's contribution. */
  lemma ScanURLsStep(lines: seq<string>, i: nat, resolve: string -> Option<string>)
    requires i < |lines|
    ensures ScanURLs(lines[..i + 1], resolve)
            == ScanURLs(lines[..i], resolve) + (match resolve(lines[i]) case Some(u) => [u] case None => [])
  {
    assert lines[..i + 1][..i] == lines[..i];
  }

  /** Scanning is compositional: the URLs of two blocks of lines are the
      URLs of the first block followed by those of the second, so a line
      that fails contributes nothing and disturbs none of its siblings. */
  lemma {:induction false} ScanURLsAppend(a: seq<string>, b: seq<string>, resolve: string -> Option<string>)
    ensures ScanURLs(a + b, resolve) == ScanURLs(a, resolve) + ScanURLs(b, resolve)
    decreases |b|
  {
    if b == [] {
      assert a + b == a;
    } else {
      var b' := b[..|b| - 1];
      assert (a + b)[..|a + b| - 1] == a + b';
      assert (a + b)[|a + b| - 1] == b[|b| - 1];
      ScanURLsAppend(a, b', resolve);
    }
  }

  lemma ScanURLsSkipsFailingLine(a: seq<string>, line: string, b: seq<string>,
                                  resolve: string -> Option<string>)
    requires resolve(line).None?
    ensures ScanURLs(a + [line] + b, resolve) == ScanURLs(a, resolve) + ScanURLs(b, resolve)
  {
    ScanURLsAppend(a + [line], b, resolve);
    ScanURLsAppend(a, [line], resolve);
    ScanURLsOfOne(line, resolve);
  }

  lemma ScanURLsOfOne(line: string, resolve: string -> Option<string>)
    ensures resolve(line).None? ==> ScanURLs([line], resolve) == []
  {
    assert [line][..0] == [];
  }

  /** Every collected URL is what some scanned line contributes. */
  lemma {:induction false} ScanURLsFromLines(lines: seq<string>, resolve: string -> Option<string>)
    ensures forall u :: u in ScanURLs(lines, resolve) ==>
              exists k :: 0 <= k < |lines| && resolve(lines[k]) == Some(u)
  {
    if lines != [] {
      var init := lines[..|lines| - 1];
      var last := |lines| - 1;
      ScanURLsFromLines(init, resolve);
      forall u | u in ScanURLs(lines, resolve)
        ensures exists k :: 0 <= k < |lines| && resolve(lines[k]) == Some(u)
      {
        if u in ScanURLs(init, resolve) {
          var k :| 0 <= k < |init| && resolve(init[k]) == Some(u);
          assert lines[k] == init[k];
        } else {
          assert resolve(lines[last]) == Some(u);
        }
      }
    }
  }

  /** The number of URLs is the number of lines that contribute one. */
  lemma {:induction false} ScanURLsCount(lines: seq<string>, resolve: string -> Option<string>)
    ensures |ScanURLs(lines, resolve)| == |set k | 0 <= k < |lines| && resolve(lines[k]).Some?|
  {
    if lines != [] {
      var init := lines[..|lines| - 1];
      ScanURLsCount(init, resolve);
      var s0 := set k | 0 <= k < |init| && resolve(init[k]).Some?;
      var s1 := set k | 0 <= k < |lines| && resolve(lines[k]).Some?;
      var last := |lines| - 1;
      assert forall k :: 0 <= k < last ==> lines[k] == init[k];
      assert last !in s0;
      if resolve(lines[last]).Some? {
        assert s1 == s0 + {last};
      } else {
        assert s1 == s0;
      }
    }
  }

  // ---- parseRelativeURL ----------------------------------------------------

  /** The resolved reference with the base's query carried over when the
      resolution has none (the record `parseRelativeURL` builds). */
  function ResolveInheritingQuery(base: Urls.Url, ref: Urls.Url): Urls.Url {
    var finalURL := Urls.ResolveReference(base, ref);
    var inherit := finalURL.rawQuery == "" && base.rawQuery != "";
    finalURL.(rawQuery := if inherit then base.rawQuery else finalURL.rawQuery)
  }

  /** `parseRelativeURL`: parse the line, resolve it against the base, and
      inherit the base's query when the result has none. */
  function ParseRelativeURL(relativeURL: string, base: Urls.Url): (r: Result<string, Urls.UrlError>)
    ensures r.Ok? <==> Urls.Parse(relativeURL).Ok?
    ensures r.Ok? ==> r.value == Urls.ToString(ResolveInheritingQuery(base, Urls.Parse(relativeURL).value))
  {
    match Urls.Parse(relativeURL)
    case Err(e) => Err(e)
    case Ok(u) => Ok(Urls.ToString(ResolveInheritingQuery(base, u)))
  }

  /** Query inheritance: a reference with its own query keeps it unchanged;
      a reference without one (absolute or relative) ends up with the base's. */
  lemma QueryInheritance(base: Urls.Url, ref: Urls.Url)
    ensures ref.rawQuery != "" ==> ResolveInheritingQuery(base, ref).rawQuery == ref.rawQuery
    ensures ref.rawQuery == "" ==> ResolveInheritingQuery(base, ref).rawQuery == base.rawQuery
  {
  }

  /** A relative line that is a bare path takes the base's scheme, host and
      query, and the path resolved against the base's path. */
  lemma RelativePathInheritsQuery(base: Urls.Url, p: string)
    requires p != [] && base.opaquePart == ""
    requires NoChar(Urls.ResolvePath(base.rawPath, p), '%')
    ensures var q := Urls.ResolvePath(base.rawPath, p);
            ResolveInheritingQuery(base, Urls.EmptyUrl.(path := p, rawPath := p))
            == Urls.EmptyUrl.(scheme := base.scheme, user := base.user, host := base.host,
                              path := q, rawPath := q, rawQuery := base.rawQuery)
  {
    Urls.ResolveRelativeReference(base, Urls.EmptyUrl.(path := p, rawPath := p), p);
  }

  // ---- ExtractSegmentID and its helpers ------------------------------------

  /** `ExtractSegmentID`: the deduplication key of a segment URL. */
  function ExtractSegmentID(urlStr: string, mediaSeq: int, index: int): (r: Result<string, SegmentIdError>)
    ensures r.Err? <==> Urls.Parse(urlStr).Err? || Paths.IsInvalidBaseName(Paths.Base(Urls.Parse(urlStr).value.path))
    ensures r.Ok? ==> r.value != ""
    ensures r.Ok? ==> var name := Paths.Base(Urls.Parse(urlStr).value.path);
                      r.value == GenerateSegmentID(TrimSuffix(name, Paths.Ext(name)), mediaSeq, index)
  {
    match Urls.Parse(urlStr)
    case Err(e) => Err(BadSegmentUrl(e))
    case Ok(u) =>
      var baseName := Paths.Base(u.path);
      if Paths.IsInvalidBaseName(baseName) then Err(InvalidFilename)
      else Ok(GenerateSegmentID(TrimSuffix(baseName, Paths.Ext(baseName)), mediaSeq, index))
  }

  /** `extractSegmentNumber`: the trailing digit run of `name`, or "". */
  function ExtractSegmentNumber(name: string): (r: string)
    ensures AllDigits(r) && HasSuffix(name, r)
    ensures r != "" ==> |r| == |name| || !IsDigit(name[|name| - |r| - 1])
    ensures r == "" <==> name == [] || !IsDigit(name[|name| - 1])
  {
    if TrimSpace(name) == "" then
      assert name == [] || IsSpace(name[|name| - 1]);
      ""
    else
      TrailingDigitsEmpty(name);
      TrailingDigits(name)
  }

  /** The identity used when a name carries no usable number. */
  function FallbackID(mediaSeq: int, index: int): string {
    IntToString(mediaSeq) + "_" + IntToString(index)
  }

  /** `generateSegmentID`: the trailing digit run verbatim when it fits in
      `int`, otherwise "{mediaSeq}_{index}". */
  function GenerateSegmentID(baseNameNoExt: string, mediaSeq: int, index: int): (r: string)
    ensures r != ""
  {
    var numStr := ExtractSegmentNumber(baseNameNoExt);
    if numStr != "" && Atoi(numStr).Some? then numStr else FallbackID(mediaSeq, index)
  }

  lemma TrailingDigitsOf(prefix: string, digits: string)
    requires AllDigits(digits)
    requires prefix == [] || !IsDigit(prefix[|prefix| - 1])
    ensures TrailingDigits(prefix + digits) == digits
  {
    var t := prefix + digits;
    var trail := TrailingDigits(t);
    assert |t| == |digits| || t[|prefix| - 1] == prefix[|prefix| - 1];
    assert forall i :: 0 <= i < |digits| ==> t[|prefix| + i] == digits[i];
    assert trail == t[|t| - |trail|..];
    assert t[|prefix|..] == digits;
  }

  /** A name that ends in a digit is not blank, so its number is its
      trailing digit run. */
  lemma SegmentNumberOfDigitEnding(name: string)
    requires name != [] && IsDigit(name[|name| - 1])
    ensures ExtractSegmentNumber(name) == TrailingDigits(name)
  {
    assert !IsSpace(name[|name| - 1]);
  }

  /** A name ending in a maximal digit run that fits in `int` is identified
      by that run, leading zeros included. */
  lemma SegmentIDIsDigitRun(prefix: string, digits: string, mediaSeq: int, index: int)
    requires digits != [] && AllDigits(digits) && DecimalValue(digits) <= MaxInt
    requires prefix == [] || !IsDigit(prefix[|prefix| - 1])
    ensures GenerateSegmentID(prefix + digits, mediaSeq, index) == digits
  {
    var name := prefix + digits;
    assert name[|name| - 1] == digits[|digits| - 1];
    SegmentNumberOfDigitEnding(name);
    TrailingDigitsOf(prefix, digits);
  }

  /** A name without a trailing digit, or whose trailing digit run overflows
      `int`, falls back to "{mediaSeq}_{index}". */
  lemma SegmentIDFallback(name: string, mediaSeq: int, index: int)
    requires name == [] || !IsDigit(name[|name| - 1]) || Atoi(TrailingDigits(name)).None?
    ensures GenerateSegmentID(name, mediaSeq, index) == FallbackID(mediaSeq, index)
  {
    if name != [] && IsDigit(name[|name| - 1]) {
      SegmentNumberOfDigitEnding(name);
    }
  }

  /** An empty or all-white-space name always takes the fallback. */
  lemma BlankNameFallsBack(name: string, mediaSeq: int, index: int)
    requires forall i :: 0 <= i < |name| ==> IsSpace(name[i])
    ensures GenerateSegmentID(name, mediaSeq, index) == FallbackID(mediaSeq, index)
  {
  }

  /** The two kinds of identity never collide: a digit-run identity has no
      `_`, a fallback identity always has one. */
  lemma IdentityKindsDisjoint(name: string, mediaSeq: int, index: int)
    ensures var id := GenerateSegmentID(name, mediaSeq, index);
            AllDigits(id) != (id == FallbackID(mediaSeq, index))
  {
    var f := FallbackID(mediaSeq, index);
    var k := |IntToString(mediaSeq)|;
    assert f[k] == '_';
    assert !AllDigits(f);
  }
}

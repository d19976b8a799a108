/** Concrete cases that pin the code's behaviour down where a reader might
    expect something else, worked out from `url.Parse` up. */
module Scenarios {
  import opened Text
  import Urls
  import Paths
  import Parser
  import Storage

  // ---- parsing `https://cdn.example.com/...` -----------------------------------

  const Host: string := "cdn.example.com"

  /** A rooted path of printable ASCII with no `#` or `?`. */
  predicate PrintablePath(path: string) {
    HasPrefix(path, "/")
    && forall i :: 0 <= i < |path| ==> ' ' <= path[i] <= '~' && path[i] != '#' && path[i] != '?'
  }

  /** A printable path that has no `%` either, so it is its own unescaping. */
  predicate PlainPath(path: string) {
    HasPrefix(path, "/")
    && forall i :: 0 <= i < |path| ==> ' ' <= path[i] <= '~' && path[i] != '#' && path[i] != '?' && path[i] != '%'
  }

  /** Step of `CdnParseEscaped`: the authority is the bare host. */
  lemma HostParses()
    ensures Urls.ParseAuthority(Host) == Ok((None, Host))
  {
    assert forall i :: 0 <= i < |Host| ==> Host[i] != '@' && Host[i] != ':';
    assert LastIndexOf(Host, '@') == -1;
    assert LastIndexOf(Host, ':') == -1;
    assert Host[..1] == "c";
    assert !HasPrefix(Host, "[");
    assert Urls.ParseHost(Host) == Ok(Host);
  }

  /** Step of `CdnParseEscaped`: `getScheme` stops at the first `:`. */
  lemma SchemeOf(rest: string)
    ensures Urls.GetScheme("https:" + rest, 0) == Ok(("https", rest))
  {
    var raw := "https:" + rest;
    assert raw[..5] == "https" && raw[6..] == rest;
    assert Urls.GetScheme(raw, 5) == Ok(("https", rest));
    assert Urls.GetScheme(raw, 4) == Ok(("https", rest));
    assert Urls.GetScheme(raw, 3) == Ok(("https", rest));
    assert Urls.GetScheme(raw, 2) == Ok(("https", rest));
    assert Urls.GetScheme(raw, 1) == Ok(("https", rest));
  }

  /** Step of `CdnParseEscaped`: the control-character check and the fragment cut. */
  lemma RawFacts(path: string)
    requires PrintablePath(path)
    ensures var raw := "https://" + Host + path;
            && raw == "https:" + ("//" + Host + path)
            && !Urls.HasControlCharacter(raw)
            && Cut(raw, '#') == (raw, "", false)
  {
    var raw := "https://" + Host + path;
    assert forall i :: 0 <= i < |raw| ==> ' ' <= raw[i] <= '~' && raw[i] != '#';
  }

  /** Step of `CdnParseEscaped`: the query cut and the authority split. */
  lemma RestFacts(path: string)
    requires PrintablePath(path)
    ensures var rest := "//" + Host + path;
            && !HasSuffix(rest, "?")
            && Cut(rest, '?') == (rest, "", false)
            && HasPrefix(rest, "//") && HasPrefix(rest, "/")
            && Cut(rest[2..], '/') == (Host, path[1..], true)
            && "/" + path[1..] == path
  {
    var rest := "//" + Host + path;
    assert rest[|rest| - 1] == path[|path| - 1];
    assert forall i :: 0 <= i < |rest| ==> rest[i] != '?';
    assert rest[2..] == Host + path;
    assert (Host + path)[15] == '/';
    assert forall i :: 0 <= i < 15 ==> (Host + path)[i] != '/';
    assert IndexOf(Host + path, '/') == 15;
    assert (Host + path)[..15] == Host;
    assert |Host| == 15;
    assert (Host + path)[16..] == path[1..];
    assert path[..1] == "/";
    assert "/" + path[1..] == path;
    assert rest[..2] == "//" && rest[..1] == "/";
  }

  /** `url.Parse("https://cdn.example.com" + path)` for a printable path
      whose escapes are well formed: the path field holds the decoded text. */
  lemma CdnParseEscaped(path: string, decoded: string)
    requires PrintablePath(path) && Urls.Unescape(path) == Some(decoded)
    ensures Urls.Parse("https://" + Host + path)
            == Ok(Urls.EmptyUrl.(scheme := "https", host := Host, path := decoded, rawPath := path))
  {
    var rest := "//" + Host + path;
    RawFacts(path);
    SchemeOf(rest);
    assert ToLowerAscii("https") == "https";
    RestFacts(path);
    HostParses();
  }

  /** `String` gives back the URL `url.Parse` read, escapes included. */
  lemma CdnRoundTrip(path: string, decoded: string)
    requires PrintablePath(path) && Urls.Unescape(path) == Some(decoded)
    ensures Urls.Parse("https://" + Host + path).Ok?
    ensures Urls.ToString(Urls.Parse("https://" + Host + path).value) == "https" + "://" + Host + path
  {
    CdnParseEscaped(path, decoded);
    Urls.ToStringOfHostAndPath(Urls.EmptyUrl.(scheme := "https", host := Host, path := decoded, rawPath := path));
  }

  /** `url.Parse("https://cdn.example.com" + path)` for a plain path. */
  lemma CdnParse(path: string)
    requires PlainPath(path)
    ensures Urls.Parse("https://" + Host + path)
            == Ok(Urls.EmptyUrl.(scheme := "https", host := Host, path := path, rawPath := path))
  {
    Urls.UnescapeWithoutEscapes(path);
    CdnParseEscaped(path, path);
  }

  // ---- query inheritance ------------------------------------------------------

  /** A non-empty query of printable ASCII with no `#` or `?`. */
  predicate PlainQuery(query: string) {
    query != [] && forall i :: 0 <= i < |query| ==> ' ' <= query[i] <= '~' && query[i] != '#' && query[i] != '?'
  }

  /** Step of `CdnParseWithQuery`: the control-character check and the fragment cut. */
  lemma QueryRawFacts(path: string, query: string)
    requires PlainPath(path) && PlainQuery(query)
    ensures var raw := "https://" + Host + path + "?" + query;
            && raw == "https:" + ("//" + Host + path + "?" + query)
            && !Urls.HasControlCharacter(raw)
            && Cut(raw, '#') == (raw, "", false)
  {
    var raw := "https://" + Host + path + "?" + query;
    var head := "https://" + Host + path;
    assert forall i :: 0 <= i < |head| ==> ' ' <= raw[i] <= '~' && raw[i] != '#';
    assert forall i :: |head| < i < |raw| ==> raw[i] == query[i - |head| - 1];
  }

  /** Step of `CdnParseWithQuery`: the query is cut off at the `?`. */
  lemma QueryCut(path: string, query: string)
    requires PlainPath(path) && PlainQuery(query)
    ensures var rest := "//" + Host + path;
            && !HasSuffix(rest + "?" + query, "?")
            && Cut(rest + "?" + query, '?') == (rest, query, true)
  {
    var rest := "//" + Host + path;
    var s := rest + "?" + query;
    assert s[|s| - 1] == query[|query| - 1];
    assert NoChar(rest, '?') by {
      assert forall i :: 0 <= i < |rest| ==> rest[i] != '?';
    }
    CutAtFirst(rest, '?', query);
  }

  /** `url.Parse("https://cdn.example.com" + path + "?" + query)`: the
      query is kept raw beside the plain path. */
  lemma CdnParseWithQuery(path: string, query: string)
    requires PlainPath(path) && PlainQuery(query)
    ensures Urls.Parse("https://" + Host + path + "?" + query)
            == Ok(Urls.EmptyUrl.(scheme := "https", host := Host, path := path, rawPath := path, rawQuery := query))
  {
    var rest := "//" + Host + path;
    QueryRawFacts(path, query);
    SchemeOf(rest + "?" + query);
    assert ToLowerAscii("https") == "https";
    QueryCut(path, query);
    RestFacts(path);
    HostParses();
    Urls.UnescapeWithoutEscapes(path);
  }

  /** Step of `QueryInherited`: the playlist URL and its query. */
  lemma PlaylistParses()
    ensures Urls.Parse("https://" + Host + "/live/index.m3u8" + "?" + "tok=1")
            == Ok(Urls.EmptyUrl.(scheme := "https", host := Host, path := "/live/index.m3u8",
                                 rawPath := "/live/index.m3u8", rawQuery := "tok=1"))
  {
    assert PlainPath("/live/index.m3u8") && PlainQuery("tok=1");
    CdnParseWithQuery("/live/index.m3u8", "tok=1");
  }

  /** Step of `QueryInherited`: the line `seg1.ts` is a bare relative path. */
  lemma SegmentRefParses()
    ensures Urls.Parse("seg1.ts") == Ok(Urls.EmptyUrl.(path := "seg1.ts", rawPath := "seg1.ts"))
  {
    var raw := "seg1.ts";
    assert NoChar(raw, ':') && NoChar(raw, '?') && NoChar(raw, '#') && NoChar(raw, '%');
    assert !Urls.HasControlCharacter(raw);
    Urls.ParseRelativePath(raw);
  }

  /** Step of `QueryInherited`: `seg1.ts` replaces the playlist's last
      element, and no dot segment is left to remove. */
  lemma SegmentResolves()
    ensures Urls.ResolvePath("/live/index.m3u8", "seg1.ts") == "/live/seg1.ts"
    ensures NoChar("/live/seg1.ts", '%')
  {
    SegmentRefPieces();
    Urls.ResolveSibling("live", "index.m3u8", "seg1.ts");
  }

  /** Step of `SegmentResolves`: the two paths around the directory `live`. */
  lemma SegmentRefPieces()
    ensures NoChar("live", '/') && NoChar("index.m3u8", '/') && NoChar("seg1.ts", '/')
    ensures "/live/index.m3u8" == "/" + "live" + "/" + "index.m3u8"
    ensures "/live/seg1.ts" == "/" + "live" + "/" + "seg1.ts"
    ensures NoChar("/live/seg1.ts", '%')
  {
  }

  /** Step of `QueryInherited`: the resolved reference takes the playlist's query. */
  lemma SegmentInherits(base: Urls.Url)
    requires base == Urls.EmptyUrl.(scheme := "https", host := Host, path := "/live/index.m3u8",
                                    rawPath := "/live/index.m3u8", rawQuery := "tok=1")
    ensures Parser.ResolveInheritingQuery(base, Urls.EmptyUrl.(path := "seg1.ts", rawPath := "seg1.ts"))
            == Urls.EmptyUrl.(scheme := "https", host := Host, path := "/live/seg1.ts",
                              rawPath := "/live/seg1.ts", rawQuery := "tok=1")
  {
    SegmentResolves();
    Parser.RelativePathInheritsQuery(base, "seg1.ts");
  }

  /** A relative line resolved against `https://cdn.example.com/live/index.m3u8?tok=1`
      carries the playlist's query `?tok=1`, since the line has none of its own. */
  lemma QueryInherited()
    ensures Urls.Parse("https://" + Host + "/live/index.m3u8" + "?" + "tok=1").Ok?
    ensures Parser.ParseRelativeURL("seg1.ts", Urls.Parse("https://" + Host + "/live/index.m3u8" + "?" + "tok=1").value)
            == Ok("https" + "://" + Host + "/live/seg1.ts" + "?" + "tok=1")
  {
    PlaylistParses();
    SegmentRefParses();
    var base := Urls.Parse("https://" + Host + "/live/index.m3u8" + "?" + "tok=1").value;
    var ref := Urls.Parse("seg1.ts").value;
    SegmentInherits(base);
    Urls.ToStringOfHostAndPath(Parser.ResolveInheritingQuery(base, ref));
  }

  // ---- percent-decoding ---------------------------------------------------------

  /** `%C3%A9` is the UTF-8 encoding of `é`: the path `/caf%C3%A9` decodes to
      five characters, not six. */
  lemma AccentedPath()
    ensures Urls.Unescape("/caf%C3%A9") == Some("/caf\U{E9}")
  {
    AccentedEscape();
    Urls.UnescapeEscapeAll("\U{E9}");
    assert NoChar("/caf", '%');
    Urls.UnescapeAfterLiterals("/caf", "%C3%A9");
    assert "/caf" + "%C3%A9" == "/caf%C3%A9";
    assert "/caf" + "\U{E9}" == "/caf\U{E9}";
  }

  /** Step of `AccentedPath`: `é` is U+00E9, whose UTF-8 bytes are C3 A9. */
  lemma AccentedEscape()
    ensures Urls.EscapeAll("\U{E9}") == "%C3%A9"
  {
    assert '\U{E9}' as int == 233 && 233 / 64 == 3 && 233 % 64 == 41;
    assert Urls.Utf8('\U{E9}') == [0xC3, 0xA9];
    assert 0xC3 / 16 == 12 && 0xC3 % 16 == 3 && 0xA9 / 16 == 10 && 0xA9 % 16 == 9;
    assert Urls.HexDigit(12) == 'C' && Urls.HexDigit(3) == '3';
    assert Urls.HexDigit(10) == 'A' && Urls.HexDigit(9) == '9';
    assert Urls.PercentEncode([0xA9]) == "%A9";
    assert Urls.PercentEncode([0xC3, 0xA9]) == "%C3" + "%A9";
  }

  /** Step of `AccentedDirectory`: the last element, with no extension. */
  lemma AccentedName()
    ensures Paths.Base("/caf\U{E9}") == "caf\U{E9}"
    ensures TrimSuffix("caf\U{E9}", Paths.Ext("caf\U{E9}")) == "caf\U{E9}"
  {
    var name := "caf\U{E9}";
    assert "/caf\U{E9}" == "" + "/" + name;
    assert NoChar(name, '.') && NoChar(name, '/');
    Paths.BaseOfSuffix("", name);
    Paths.ExtFromNoDot(name, |name|);
  }

  /** Step of `AccentedDirectory`: one `_` for the one accented character. */
  lemma AccentedStem()
    ensures Storage.Sanitize("caf\U{E9}") == "caf_"
  {
  }

  /** `DeriveOutputDir("https://cdn.example.com/caf%C3%A9")` is
      `caf__hls_segments`: the two escaped bytes are one character, so one
      `_` stands for them. */
  lemma AccentedDirectory()
    ensures Storage.DeriveOutputDir("https://" + Host + "/caf%C3%A9") == Ok("caf_" + Storage.OutputSuffix)
  {
    assert PrintablePath("/caf%C3%A9");
    AccentedPath();
    CdnParseEscaped("/caf%C3%A9", "/caf\U{E9}");
    AccentedName();
    AccentedStem();
  }

  // ---- media sequence -----------------------------------------------------------

  /** A playlist that opens with `#EXTM3U` and then carries the media
      sequence tag has that sequence number. */
  lemma HeaderThenMediaSequence(n: nat, rest: string)
    requires n <= MaxInt
    requires rest == [] || !IsDigit(rest[0])
    ensures Parser.MediaSequence("#EXTM3U\n" + Parser.MediaSequenceTag + NatToString(n) + rest) == n
  {
    ShorterNotContains("#EXTM3U\n", Parser.MediaSequenceTag);
    Parser.MediaSequenceRoundTrip("#EXTM3U\n", n, rest);
  }

  // ---- DeriveOutputDir ----------------------------------------------------------

  /** The directory of `https://cdn.example.com` + a path whose last element is usable. */
  lemma DirectoryFromName(path: string, name: string, raw: string, stem: string)
    requires UsableName(path, name, raw, stem)
    ensures Storage.DeriveOutputDir("https://" + Host + path) == Ok(stem + Storage.OutputSuffix)
  {
    CdnParse(path);
  }

  /** `path` is plain, its last element is `name`, and `name` without its
      extension is `stem`. */
  predicate NamedStem(path: string, name: string, stem: string) {
    && PlainPath(path) && Paths.Base(path) == name && !Paths.IsInvalidBaseName(name)
    && TrimSuffix(name, Paths.Ext(name)) == stem
  }

  /** As `NamedStem`, and the stem `raw` sanitises to `stem`. */
  predicate UsableName(path: string, name: string, raw: string, stem: string) {
    NamedStem(path, name, raw) && Storage.Sanitize(raw) == stem
  }

  /** The directory of `https://cdn.example.com` + a path without a usable last element. */
  lemma DirectoryFromHost(path: string)
    requires PlainPath(path) && Paths.IsInvalidBaseName(Paths.Base(path))
    ensures Storage.DeriveOutputDir("https://" + Host + path) == Ok(ReplaceChar(Host, '.', '_') + Storage.OutputSuffix)
  {
    CdnParse(path);
  }

  /** Step of `HostStem`: the host and its stem split at the dots. */
  lemma HostPieces()
    ensures Host == "cdn" + "." + "example" + "." + "com"
    ensures "cdn_example_com" == "cdn" + "_" + "example" + "_" + "com"
  {
  }

  /** Step of `HostStem`: each dot-free piece is its own stem. */
  lemma PieceStems()
    ensures ReplaceChar("cdn", '.', '_') == "cdn" && ReplaceChar("example", '.', '_') == "example"
    ensures ReplaceChar("com", '.', '_') == "com"
  {
    ReplaceCharAbsent("cdn", '.', '_');
    ReplaceCharAbsent("example", '.', '_');
    ReplaceCharAbsent("com", '.', '_');
  }

  /** Step of `HostStem`: a dot becomes `_`. */
  lemma DotStem()
    ensures ReplaceChar(".", '.', '_') == "_"
  {
  }

  /** Step of `HostDirectory`: the host with its dots turned into `_`. */
  lemma HostStem()
    ensures ReplaceChar(Host, '.', '_') == "cdn_example_com"
  {
    HostPieces();
    PieceStems();
    DotStem();
    ReplaceCharAppend("cdn" + "." + "example" + ".", "com", '.', '_');
    ReplaceCharAppend("cdn" + "." + "example", ".", '.', '_');
    ReplaceCharAppend("cdn" + ".", "example", '.', '_');
    ReplaceCharAppend("cdn", ".", '.', '_');
  }

  /** The directory scenarios' paths are plain. */
  lemma PlainDirectoryPaths()
    ensures PlainPath("/") && PlainPath("/live/") && PlainPath("/live/show!.m3u8")
  {
  }

  /** The segment scenarios' paths are plain. */
  lemma PlainSegmentPaths()
    ensures PlainPath("/live/segment00042.ts") && PlainPath("/live/chunk.ts")
  {
  }

  /** Step of `LiveDirectory`: the last element of `/live/`. */
  lemma LiveName()
    ensures Paths.Base("/live/") == "live" && TrimSuffix("live", Paths.Ext("live")) == "live"
  {
    assert Paths.StripTrailingSlashes("/live/") == "" + "/" + "live";
    Paths.BaseOfSuffix("", "live");
    Paths.ExtFromNoDot("live", 4);
  }

  /** `DeriveOutputDir("https://cdn.example.com/live/")` is `live_hls_segments`:
      `path.Base` drops the trailing slash, so the host fallback is not taken. */
  lemma LiveDirectory()
    ensures Storage.DeriveOutputDir("https://" + Host + "/live/") == Ok("live" + Storage.OutputSuffix)
  {
    LiveUsable();
    DirectoryFromName("/live/", "live", "live", "live");
  }

  /** Step of `LiveDirectory`: the path's last element is usable. */
  lemma LiveUsable()
    ensures UsableName("/live/", "live", "live", "live")
  {
    PlainDirectoryPaths();
    LiveName();
    assert Storage.Sanitize("live") == "live";
  }

  /** Only a path without a last element falls back to the host. */
  lemma HostDirectory()
    ensures Storage.DeriveOutputDir("https://" + Host + "/") == Ok("cdn_example_com" + Storage.OutputSuffix)
  {
    PlainDirectoryPaths();
    RootBase();
    DirectoryFromHost("/");
    HostStem();
  }

  /** Step of `ShowDirectory`: the last element and its stem. */
  lemma ShowName()
    ensures Paths.Base("/live/show!.m3u8") == "show!.m3u8"
    ensures TrimSuffix("show!.m3u8", Paths.Ext("show!.m3u8")) == "show!"
  {
    ShowPieces();
    Paths.BaseOfSuffix("/live", "show!.m3u8");
    Paths.ExtOfStem("show!", ".m3u8");
  }

  /** Step of `ShowName`: how `/live/show!.m3u8` splits. */
  lemma ShowPieces()
    ensures "/live/show!.m3u8" == "/live" + "/" + "show!.m3u8"
    ensures "show!.m3u8" == "show!" + ".m3u8"
    ensures Paths.IsPlainName("show!.m3u8")
    ensures NoChar(".m3u8"[1..], '.') && NoChar(".m3u8", '/')
  {
  }

  /** Step of `ShowDirectory`: `!` is not a safe character. */
  lemma ShowStem()
    ensures Storage.Sanitize("show!") == "show_"
  {
  }

  /** `show!.m3u8` loses its extension and its `!`. */
  lemma ShowDirectory()
    ensures Storage.DeriveOutputDir("https://" + Host + "/live/show!.m3u8") == Ok("show_" + Storage.OutputSuffix)
  {
    ShowUsable();
    DirectoryFromName("/live/show!.m3u8", "show!.m3u8", "show!", "show_");
  }

  /** Step of `ShowDirectory`: the path's last element is usable. */
  lemma ShowUsable()
    ensures UsableName("/live/show!.m3u8", "show!.m3u8", "show!", "show_")
  {
    PlainDirectoryPaths();
    ShowName();
    ShowStem();
  }

  // ---- ExtractSegmentID ---------------------------------------------------------

  /** The identity of `https://cdn.example.com` + a path whose last element is usable. */
  lemma SegmentIDFromName(path: string, name: string, stem: string, mediaSeq: int, index: int)
    requires NamedStem(path, name, stem)
    ensures Parser.ExtractSegmentID("https://" + Host + path, mediaSeq, index)
            == Ok(Parser.GenerateSegmentID(stem, mediaSeq, index))
  {
    CdnParse(path);
  }

  /** Step of `LeadingZerosKept`: the identity comes from the stem `segment00042`. */
  lemma SegmentID(mediaSeq: int, index: int)
    ensures Parser.ExtractSegmentID("https://" + Host + "/live/segment00042.ts", mediaSeq, index)
            == Ok(Parser.GenerateSegmentID("segment00042", mediaSeq, index))
  {
    SegmentNamed();
    SegmentIDFromName("/live/segment00042.ts", "segment00042.ts", "segment00042", mediaSeq, index);
  }

  /** Step of `SegmentID`: the path's last element and its stem. */
  lemma SegmentNamed()
    ensures NamedStem("/live/segment00042.ts", "segment00042.ts", "segment00042")
  {
    PlainSegmentPaths();
    SegmentName();
  }

  /** Step of `SegmentNamed`: the last element and its stem. */
  lemma SegmentName()
    ensures Paths.Base("/live/segment00042.ts") == "segment00042.ts"
    ensures TrimSuffix("segment00042.ts", Paths.Ext("segment00042.ts")) == "segment00042"
  {
    SegmentPieces();
    Paths.BaseOfSuffix("/live", "segment00042.ts");
    Paths.ExtOfStem("segment00042", ".ts");
  }

  /** Step of `SegmentName`: how `/live/segment00042.ts` splits. */
  lemma SegmentPieces()
    ensures "/live/segment00042.ts" == "/live" + "/" + "segment00042.ts"
    ensures "segment00042.ts" == "segment00042" + ".ts"
    ensures Paths.IsPlainName("segment00042.ts")
    ensures NoChar(".ts"[1..], '.') && NoChar(".ts", '/')
  {
  }

  lemma SegmentDigits()
    ensures AllDigits("00042") && DecimalValue("00042") == 42
  {
    assert "00"[..1] == "0" && "000"[..2] == "00" && "0004"[..3] == "000" && "00042"[..4] == "0004";
    assert DecimalValue("0") == 0;
    assert DecimalValue("00") == 0;
    assert DecimalValue("000") == 0;
    assert DecimalValue("0004") == 4;
  }

  /** Step of `LeadingZerosKept`: the stem is `segment` then the digit run `00042`. */
  lemma SegmentSplit()
    ensures "segment00042" == "segment" + "00042"
  {
  }

  /** Step of `ChunkFallsBack`: the fallback identity at 7 and 3. */
  lemma FallbackSevenThree()
    ensures Parser.FallbackID(7, 3) == "7_3"
  {
  }

  /** `.../segment00042.ts` is identified as `00042`, not `42`. */
  lemma LeadingZerosKept(mediaSeq: int, index: int)
    ensures Parser.ExtractSegmentID("https://" + Host + "/live/segment00042.ts", mediaSeq, index) == Ok("00042")
  {
    SegmentID(mediaSeq, index);
    SegmentDigits();
    SegmentSplit();
    Parser.SegmentIDIsDigitRun("segment", "00042", mediaSeq, index);
  }

  /** Step of `ChunkNamed`: the last element and its stem. */
  lemma ChunkName()
    ensures Paths.Base("/live/chunk.ts") == "chunk.ts" && TrimSuffix("chunk.ts", Paths.Ext("chunk.ts")) == "chunk"
  {
    ChunkPieces();
    Paths.BaseOfSuffix("/live", "chunk.ts");
    Paths.ExtOfStem("chunk", ".ts");
  }

  /** Step of `ChunkName`: how `/live/chunk.ts` splits. */
  lemma ChunkPieces()
    ensures "/live/chunk.ts" == "/live" + "/" + "chunk.ts"
    ensures "chunk.ts" == "chunk" + ".ts"
    ensures Paths.IsPlainName("chunk.ts")
    ensures NoChar(".ts"[1..], '.') && NoChar(".ts", '/')
  {
  }

  /** `.../chunk.ts` has no number, so at sequence 7 and index 3 it is `7_3`. */
  lemma ChunkFallsBack()
    ensures Parser.ExtractSegmentID("https://" + Host + "/live/chunk.ts", 7, 3) == Ok("7_3")
  {
    ChunkID();
    Parser.SegmentIDFallback("chunk", 7, 3);
    FallbackSevenThree();
  }

  /** Step of `ChunkFallsBack`: the identity comes from the stem `chunk`. */
  lemma ChunkID()
    ensures Parser.ExtractSegmentID("https://" + Host + "/live/chunk.ts", 7, 3)
            == Ok(Parser.GenerateSegmentID("chunk", 7, 3))
  {
    ChunkNamed();
    SegmentIDFromName("/live/chunk.ts", "chunk.ts", "chunk", 7, 3);
  }

  /** Step of `ChunkID`: the path's last element and its stem. */
  lemma ChunkNamed()
    ensures NamedStem("/live/chunk.ts", "chunk.ts", "chunk")
  {
    PlainSegmentPaths();
    ChunkName();
  }

  // ---- generateFilename -----------------------------------------------------------

  /** A path made of slashes only gives the base name `/.ts`, so the joined
      file name gains a directory level. */
  lemma RootPathBaseName()
    ensures Storage.TsBaseName(Paths.Base("/")) == "/" + ".ts"
  {
    RootBase();
    assert !HasSuffix("/", ".ts");
  }

  /** Step of `HostDirectory` and `RootPathBaseName`: `path.Base("/")` is `/`. */
  lemma RootBase()
    ensures Paths.Base("/") == "/"
  {
    assert Paths.StripTrailingSlashes("/") == Paths.StripTrailingSlashes("");
  }
}
